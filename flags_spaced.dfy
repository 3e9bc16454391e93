/**
 * The flag handling of `evaluate_expression` in Dicer.py: gamble is decided
 * by `-g` anywhere in the text but only ` -g` (with its leading space) is
 * deleted; then `-h` is looked for before `-e`, and only the one found is
 * deleted, again only in its spaced form. Nothing is stripped here.
 */
module SpacedFlag {
  import opened Text
  import opened Dice

  /** The flags and the text that remains, as the sequence of reassignments leaves them. */
  function Options(expression: string): Flags {
    var gamble := Contains(expression, "-g");
    var text := if gamble then RemoveAll(expression, " -g") else expression;
    if Contains(text, "-h") then Flags(gamble, Hard, RemoveAll(text, " -h"))
    else if Contains(text, "-e") then Flags(gamble, Extreme, RemoveAll(text, " -e"))
    else Flags(gamble, Normal, text)
  }

  /** The reassignments of `expression` and `difficulty`, one after the other. */
  method StripFlags(expression: string) returns (flags: Flags)
    ensures flags == Options(expression)
  {
    var text := expression;
    var gamble := Contains(text, "-g");
    if gamble {
      text := RemoveAll(text, " -g");
    }
    var level := Normal;
    if Contains(text, "-h") {
      level := Hard;
      text := RemoveAll(text, " -h");
    } else if Contains(text, "-e") {
      level := Extreme;
      text := RemoveAll(text, " -e");
    }
    flags := Flags(gamble, level, text);
  }

  /** Deleting ` -g` keeps every occurrence of another flag `-x`. */
  lemma GambleRemovalKeeps(expression: string, q: string)
    requires q == "-h" || q == "-e"
    requires Contains(expression, q)
    ensures Contains(if Contains(expression, "-g") then RemoveAll(expression, " -g") else expression, q)
  {
    var i := ContainsWitness(expression, q);
    SpacedFlagApart(" -g", q);
    RemoveAllKeepsOther(expression, " -g", q, i);
  }

  /** `-h` anywhere in the expression makes the check hard. */
  lemma HardWhenFlagged(expression: string)
    requires Contains(expression, "-h")
    ensures Options(expression).level == Hard
  {
    GambleRemovalKeeps(expression, "-h");
  }

  /** `-e` anywhere in the expression makes the check extreme unless `-h` made it hard. */
  lemma ExtremeWhenFlagged(expression: string)
    requires Contains(expression, "-e")
    ensures Options(expression).level != Normal
  {
    GambleRemovalKeeps(expression, "-e");
  }

  /** `-e` with no `h` anywhere in the expression makes the check extreme. */
  lemma ExtremeWithoutHard(expression: string)
    requires Contains(expression, "-e") && 'h' !in expression
    ensures Options(expression).level == Extreme
  {
    GambleRemovalKeeps(expression, "-e");
    RemoveAllWithout(expression, " -g", 'h');
    var text := if Contains(expression, "-g") then RemoveAll(expression, " -g") else expression;
    MissingChar(text, "-h", 1);
  }

  /** With no `h` and no `e` in the expression the check stays normal, whether or not `-g` is present. */
  lemma NormalWithoutLevelFlags(expression: string)
    requires 'h' !in expression && 'e' !in expression
    ensures Options(expression).level == Normal
  {
    RemoveAllWithout(expression, " -g", 'h');
    RemoveAllWithout(expression, " -g", 'e');
    var text := if Contains(expression, "-g") then RemoveAll(expression, " -g") else expression;
    MissingChar(text, "-h", 1);
    MissingChar(text, "-e", 1);
  }

  /** One flag written after a dash-free expression is read and deleted with its space, and nothing else changes. */
  lemma AppendedFlag(x: string, f: string)
    requires (f == "-g" || f == "-h" || f == "-e") && '-' !in x
    ensures Options(x + " " + f) ==
      Flags(f == "-g", if f == "-h" then Hard else if f == "-e" then Extreme else Normal, x)
  {
    var s := x + " " + f;
    assert s == x + (" " + f);
    RemoveTrailingAt(x, " " + f, 1);
    ContainsAt(s, f, |x| + 1);
    if f == "-g" {
      assert " " + f == " -g";
      MissingChar(x, "-h", 0);
      MissingChar(x, "-e", 0);
    } else if f == "-h" {
      assert " " + f == " -h";
      OtherFlagAbsent(x, f, "-g");
    } else {
      assert " " + f == " -e";
      OtherFlagAbsent(x, f, "-g");
      OtherFlagAbsent(x, f, "-h");
    }
  }

  /**
   * Deleting ` -g` can put together a `-h` that was not in the expression:
   * `- -gh` loses ` -g` and leaves `-h`, so the check is hard.
   */
  lemma HardFromDeletion()
    ensures !Contains("- -gh", "-h")
    ensures Options("- -gh").level == Hard
  {
    NoHardInSpacedDash();
    GambleDeletedFromSpacedDash();
    ContainsAt("- -gh", "-g", 2);
    assert StartsWith("-h", "-h");
  }

  lemma NoHardInSpacedDash()
    ensures !Contains("- -gh", "-h")
  {
    var s := "- -gh";
    forall i | 0 <= i
      ensures !OccursAt(s, "-h", i)
    {
      if i + 2 <= |s| {
        assert s[i..i + 2][0] == s[i] && s[i..i + 2][1] == s[i + 1];
      }
    }
    ContainsIff(s, "-h");
  }

  lemma GambleDeletedFromSpacedDash()
    ensures RemoveAll("- -gh", " -g") == "-h"
  {
    var s := "- -gh";
    assert !StartsWith(s, " -g") by { assert s[..3][0] != " -g"[0]; }
    assert StartsWith(s[1..], " -g") by { assert s[1..][..3] == " -g"; }
    assert s[1..][3..] == "h";
    assert RemoveAll("h", " -g") == "h";
  }

  /**
   * Deleting ` -g` can put together an `-e` as well: `- -ge` holds neither
   * level flag, yet it loses ` -g`, leaves `-e`, and the check is extreme.
   */
  lemma ExtremeFromDeletion()
    ensures !Contains("- -ge", "-h") && !Contains("- -ge", "-e")
    ensures Options("- -ge").level == Extreme
  {
    MissingChar("- -ge", "-h", 1);
    NoExtremeInSpacedDash();
    GambleDeletedBeforeExtreme();
    ContainsAt("- -ge", "-g", 2);
    MissingChar("-e", "-h", 1);
    assert StartsWith("-e", "-e");
  }

  lemma NoExtremeInSpacedDash()
    ensures !Contains("- -ge", "-e")
  {
    var s := "- -ge";
    forall i | 0 <= i
      ensures !OccursAt(s, "-e", i)
    {
      if i + 2 <= |s| {
        assert s[i..i + 2][0] == s[i] && s[i..i + 2][1] == s[i + 1];
      }
    }
    ContainsIff(s, "-e");
  }

  lemma GambleDeletedBeforeExtreme()
    ensures RemoveAll("- -ge", " -g") == "-e"
  {
    var s := "- -ge";
    assert !StartsWith(s, " -g") by { assert s[..3][0] != " -g"[0]; }
    assert StartsWith(s[1..], " -g") by { assert s[1..][..3] == " -g"; }
    assert s[1..][3..] == "e";
    assert RemoveAll("e", " -g") == "e";
  }

  /** A `-g` with no space before it sets gamble and yet stays in the text that is rolled. */
  lemma UnspacedGambleStays(expression: string)
    requires Contains(expression, "-g") && !Contains(expression, " -g")
    ensures Options(expression).gamble
    ensures Contains(Options(expression).rest, "-g")
  {
    RemoveAllAbsent(expression, " -g");
    var i := ContainsWitness(expression, "-g");
    SpacedFlagApart(" -h", "-g");
    SpacedFlagApart(" -e", "-g");
    if Contains(expression, "-h") {
      RemoveAllKeepsOther(expression, " -h", "-g", i);
    } else if Contains(expression, "-e") {
      RemoveAllKeepsOther(expression, " -e", "-g", i);
    }
  }

  /** When both difficulties are given, hard wins and ` -e` stays in the text that is rolled. */
  lemma ExtremeLeftWithHard(expression: string)
    requires Contains(expression, "-h") && Contains(expression, " -e")
    ensures Options(expression).level == Hard
    ensures Contains(Options(expression).rest, " -e")
  {
    HardWhenFlagged(expression);
    var text := if Contains(expression, "-g") then RemoveAll(expression, " -g") else expression;
    var i := ContainsWitness(expression, " -e");
    SpacedFlagsApart(" -g", " -e");
    RemoveAllKeepsOther(expression, " -g", " -e", i);
    var j := ContainsWitness(text, " -e");
    SpacedFlagsApart(" -h", " -e");
    RemoveAllKeepsOther(text, " -h", " -e", j);
  }

  /** Text with none of the three flags comes through untouched. */
  lemma UnflaggedUnchanged(expression: string)
    requires !Contains(expression, "-g") && !Contains(expression, "-h") && !Contains(expression, "-e")
    ensures Options(expression) == Flags(false, Normal, expression)
  {
  }

  /** Deleting the spaced flags never brings in a character the expression lacks. */
  lemma RestWithout(expression: string, d: char)
    requires d !in expression
    ensures d !in Options(expression).rest
  {
    var text := expression;
    if Contains(expression, "-g") {
      RemoveAllWithout(expression, " -g", d);
      text := RemoveAll(expression, " -g");
    }
    RemoveAllWithout(text, " -h", d);
    RemoveAllWithout(text, " -e", d);
  }
}
