/**
 * The flag handling of `evaluate_expression` in dicer.py: the options
 * dictionary is walked in the order `-g`, `-h`, `-e`; an option that occurs
 * anywhere in the text is recorded, all its occurrences are deleted without
 * regard to spacing, and the text is stripped.
 */
module EveryFlag {
  import opened Text
  import opened Dice

  /** The keys of the options dictionary, in insertion order. */
  const OptionNames: seq<string> := ["-g", "-h", "-e"]

  /** One turn of the loop: whether `option` occurs, and the text that remains. */
  function Pass(text: string, option: string): (bool, string)
    requires |option| > 0
  {
    if Contains(text, option) then (true, Strip(RemoveAll(text, option))) else (false, text)
  }

  /** The text after the first `n` turns of the loop. */
  function TextAfter(expression: string, n: nat): string
    requires n <= |OptionNames|
  {
    if n == 0 then expression else Pass(TextAfter(expression, n - 1), OptionNames[n - 1]).1
  }

  /** The value the loop stores for the `i`-th option. */
  function Seen(expression: string, i: nat): bool
    requires i < |OptionNames|
  {
    Pass(TextAfter(expression, i), OptionNames[i]).0
  }

  /** What the loop leaves: `-h` chooses hard before `-e` is looked at. */
  function Options(expression: string): Flags {
    var level := if Seen(expression, 1) then Hard else if Seen(expression, 2) then Extreme else Normal;
    Flags(Seen(expression, 0), level, TextAfter(expression, 3))
  }

  /** The loop over the options dictionary, updating it and the text in place. */
  method StripOptions(expression: string) returns (flags: Flags)
    ensures flags == Options(expression)
  {
    var options := map["-g" := false, "-h" := false, "-e" := false];
    var text := expression;
    for i := 0 to |OptionNames|
      invariant text == TextAfter(expression, i)
      invariant forall j :: 0 <= j < |OptionNames| ==> OptionNames[j] in options
      invariant forall j :: 0 <= j < i ==> options[OptionNames[j]] == Seen(expression, j)
      invariant forall j :: i <= j < |OptionNames| ==> !options[OptionNames[j]]
    {
      var option := OptionNames[i];
      assert forall j :: 0 <= j < |OptionNames| && j != i ==> OptionNames[j] != option;
      if Contains(text, option) {
        options := options[option := true];
        text := Strip(RemoveAll(text, option));
      }
    }
    assert options["-g"] == Seen(expression, 0) by { assert OptionNames[0] == "-g"; }
    assert options["-h"] == Seen(expression, 1) by { assert OptionNames[1] == "-h"; }
    assert options["-e"] == Seen(expression, 2) by { assert OptionNames[2] == "-e"; }
    var level := if options["-h"] then Hard else if options["-e"] then Extreme else Normal;
    flags := Flags(options["-g"], level, text);
  }

  /** Gamble is recorded exactly when `-g` occurs in the expression. */
  lemma GambleIffFlag(expression: string)
    ensures Options(expression).gamble <==> Contains(expression, "-g")
  {
  }

  /** Deleting `-g` and stripping keeps every occurrence of `-h` and of `-e`. */
  lemma FirstTurnKeeps(expression: string, q: string)
    requires q == "-h" || q == "-e"
    requires Contains(expression, q)
    ensures Contains(TextAfter(expression, 1), q)
  {
    if Contains(expression, "-g") {
      var i := ContainsWitness(expression, q);
      DashFlagsApart("-g", q);
      RemoveAllKeepsOther(expression, "-g", q, i);
      StripKeeps(RemoveAll(expression, "-g"), q);
    }
  }

  /** `-h` anywhere in the expression makes the check hard, whatever else is present. */
  lemma HardWhenFlagged(expression: string)
    requires Contains(expression, "-h")
    ensures Options(expression).level == Hard
  {
    FirstTurnKeeps(expression, "-h");
  }

  /** `-e` anywhere in the expression makes the check extreme unless `-h` made it hard. */
  lemma ExtremeWhenFlagged(expression: string)
    requires Contains(expression, "-e")
    ensures Options(expression).level != Normal
  {
    FirstTurnKeeps(expression, "-e");
    var t := TextAfter(expression, 1);
    if !Seen(expression, 1) {
      assert TextAfter(expression, 2) == t;
      assert Seen(expression, 2);
    }
  }

  /** `-e` with no `h` anywhere in the expression makes the check extreme. */
  lemma ExtremeWithoutHard(expression: string)
    requires Contains(expression, "-e") && 'h' !in expression
    ensures Options(expression).level == Extreme
  {
    FirstTurnKeeps(expression, "-e");
    TextAfterWithout(expression, 1, 'h');
    MissingChar(TextAfter(expression, 1), "-h", 1);
    assert TextAfter(expression, 2) == TextAfter(expression, 1);
  }

  /** With no `h` and no `e` in the expression the check stays normal, whether or not `-g` is present. */
  lemma NormalWithoutLevelFlags(expression: string)
    requires 'h' !in expression && 'e' !in expression
    ensures Options(expression).level == Normal
  {
    TextAfterWithout(expression, 1, 'h');
    MissingChar(TextAfter(expression, 1), "-h", 1);
    TextAfterWithout(expression, 2, 'e');
    MissingChar(TextAfter(expression, 2), "-e", 1);
  }

  /**
   * One flag written after a dash-free expression is read and deleted, and
   * the expression comes back stripped.
   */
  lemma AppendedFlag(x: string, f: string)
    requires f in OptionNames && '-' !in x
    ensures Options(x + " " + f) ==
      Flags(f == "-g", if f == "-h" then Hard else if f == "-e" then Extreme else Normal, Strip(x))
  {
    var s := x + " " + f;
    var rest := Strip(x);
    AppendedRemoved(x, f);
    StripWithout(x, '-');
    MissingChar(rest, "-h", 0);
    MissingChar(rest, "-e", 0);
    if f == "-g" {
      assert TextAfter(s, 1) == rest;
    } else if f == "-h" {
      OtherFlagAbsent(x, f, "-g");
      assert TextAfter(s, 1) == s;
      assert TextAfter(s, 2) == rest;
    } else {
      OtherFlagAbsent(x, f, "-g");
      OtherFlagAbsent(x, f, "-h");
      assert TextAfter(s, 1) == s;
      assert TextAfter(s, 2) == s;
    }
  }

  /** The appended flag occurs, and deleting it and stripping leaves the stripped expression. */
  lemma AppendedRemoved(x: string, f: string)
    requires |f| == 2 && f[0] == '-' && '-' !in x
    ensures Contains(x + " " + f, f)
    ensures Strip(RemoveAll(x + " " + f, f)) == Strip(x)
  {
    var s := x + " " + f;
    assert s == (x + " ") + f;
    RemoveTrailing(x + " ", f);
    StripTrailingSpace(x, ' ');
    ContainsAt(s, f, |x| + 1);
  }

  /**
   * Deleting `-g` can put together a `-h` that was not in the expression:
   * `--gh` loses `-g` and leaves `-h`, so the check is hard.
   */
  lemma HardFromDeletion()
    ensures !Contains("--gh", "-h")
    ensures Options("--gh").level == Hard
  {
    NoHardInDoubleDash();
    GambleDeletedFromDoubleDash();
    ContainsAt("--gh", "-g", 1);
    StripTrimmed("-h");
    assert TextAfter("--gh", 1) == "-h";
    assert StartsWith("-h", "-h");
  }

  lemma NoHardInDoubleDash()
    ensures !Contains("--gh", "-h")
  {
    var s := "--gh";
    forall i | 0 <= i
      ensures !OccursAt(s, "-h", i)
    {
      if i + 2 <= |s| {
        assert s[i..i + 2][0] == s[i] && s[i..i + 2][1] == s[i + 1];
      }
    }
    ContainsIff(s, "-h");
  }

  lemma GambleDeletedFromDoubleDash()
    ensures RemoveAll("--gh", "-g") == "-h"
  {
    var s := "--gh";
    assert !StartsWith(s, "-g") by { assert s[..2][1] != "-g"[1]; }
    assert StartsWith(s[1..], "-g") by { assert s[1..][..2] == "-g"; }
    assert s[1..][2..] == "h";
    assert RemoveAll("h", "-g") == "h";
  }

  /**
   * Deleting `-g` can put together an `-e` as well: `--ge` holds neither
   * level flag, yet it loses `-g`, leaves `-e`, and the check is extreme.
   */
  lemma ExtremeFromDeletion()
    ensures !Contains("--ge", "-h") && !Contains("--ge", "-e")
    ensures Options("--ge").level == Extreme
  {
    MissingChar("--ge", "-h", 1);
    NoExtremeInDoubleDash();
    GambleDeletedBeforeExtreme();
    ContainsAt("--ge", "-g", 1);
    StripTrimmed("-e");
    assert TextAfter("--ge", 1) == "-e";
    MissingChar("-e", "-h", 1);
    assert TextAfter("--ge", 2) == "-e";
    assert StartsWith("-e", "-e");
  }

  lemma NoExtremeInDoubleDash()
    ensures !Contains("--ge", "-e")
  {
    var s := "--ge";
    forall i | 0 <= i
      ensures !OccursAt(s, "-e", i)
    {
      if i + 2 <= |s| {
        assert s[i..i + 2][0] == s[i] && s[i..i + 2][1] == s[i + 1];
      }
    }
    ContainsIff(s, "-e");
  }

  lemma GambleDeletedBeforeExtreme()
    ensures RemoveAll("--ge", "-g") == "-e"
  {
    var s := "--ge";
    assert !StartsWith(s, "-g") by { assert s[..2][1] != "-g"[1]; }
    assert StartsWith(s[1..], "-g") by { assert s[1..][..2] == "-g"; }
    assert s[1..][2..] == "e";
    assert RemoveAll("e", "-g") == "e";
  }

  /** Text with none of the three flags comes through untouched, not even stripped. */
  lemma UnflaggedUnchanged(expression: string)
    requires !Contains(expression, "-g") && !Contains(expression, "-h") && !Contains(expression, "-e")
    ensures Options(expression) == Flags(false, Normal, expression)
  {
    assert TextAfter(expression, 1) == expression;
    assert TextAfter(expression, 2) == expression;
    assert TextAfter(expression, 3) == expression;
  }

  /** Deleting and stripping never brings in a character the expression lacks. */
  lemma {:induction false} TextAfterWithout(expression: string, n: nat, d: char)
    requires n <= |OptionNames| && d !in expression
    ensures d !in TextAfter(expression, n)
  {
    if n > 0 {
      TextAfterWithout(expression, n - 1, d);
      var t := TextAfter(expression, n - 1);
      if Contains(t, OptionNames[n - 1]) {
        RemoveAllWithout(t, OptionNames[n - 1], d);
        StripWithout(RemoveAll(t, OptionNames[n - 1]), d);
      }
    }
  }

  lemma RestWithout(expression: string, d: char)
    requires d !in expression
    ensures d !in Options(expression).rest
  {
    TextAfterWithout(expression, 3, d);
  }
}
