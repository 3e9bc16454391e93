/**
 * Worked examples: the expression from Dicer.py's docstring, followed
 * through every step of the model.
 */
module Worked {
  import opened Wrappers
  import opened Text
  import opened Pattern
  import opened Dice
  import opened Engine
  import opened Commands

  /** Dicer.py reads " -e" off the end of the expression and keeps the rest. */
  lemma SpacedExtreme()
    ensures SpacedFlag.Options("50/1d100+2 -e") == Flags(false, Extreme, "50/1d100+2")
  {
    var x := "50/1d100+2";
    var e := x + " -e";
    assert e == "50/1d100+2 -e";
    MissingChar(e, "-g", 1);
    MissingChar(e, "-h", 1);
    ContainsAt(e, "-e", 11);
    RemoveTrailing(x, " -e");
  }

  lemma Fifty()
    ensures ParseInt("50") == Some(50)
  {
    assert "50"[..1] == "5";
    assert DigitsValue("5") == 5;
    assert AllDigits("50") by { assert "5"[..0] == []; }
    ParseDigits("50");
  }

  /** The dice pattern reads "1d100+2" as one hundred-sided die plus 2. */
  lemma MatchExample()
    ensures MatchDice("1d100+2") == Some(DiceMatch("1", "100", "+2"))
    ensures DiceMatch("1", "100", "+2").Valid()
    ensures DiceMatch("1", "100", "+2").Count() == 1
    ensures DiceMatch("1", "100", "+2").Sides() == 100
    ensures DiceMatch("1", "100", "+2").Modifier() == 2
  {
    var m := DiceMatch("1", "100", "+2");
    MatchShape();
    MatchDiceUnique("1d100+2", m);
    Commands.Hundred();
    assert "+2"[1..] == "2";
  }

  lemma MatchShape()
    ensures DiceMatch("1", "100", "+2").Valid()
    ensures StartsWith("1d100+2", DiceMatch("1", "100", "+2").Span())
    ensures Maximal("1d100+2", DiceMatch("1", "100", "+2"))
  {
    assert DiceMatch("1", "100", "+2").Span() == "1d100+2";
  }

  lemma FifteenShown()
    ensures Breakdown([15]) == "15"
  {
    assert DigitChar(1) == '1' && DigitChar(5) == '5';
    assert NatToString(15) == NatToString(1) + [DigitChar(5)];
    assert Decimals([15]) == [IntToString(15)];
  }

  /** One hundred-sided die plus 2, with 15 drawn. */
  lemma RollExample()
    ensures DrawsFor("1d100+2", [15])
    ensures RollDice("1d100+2", [15]) == Ok(Roll([15], 17, "15+2"))
  {
    MatchExample();
    FifteenShown();
    assert [15][..1] == [15];
    assert Sum([15]) == Sum([]) + 15;
    assert "15" + "+2" == "15+2";
  }

  /** "50/" sets the target 50. */
  lemma ParseExample()
    ensures Parse(Flags(false, Extreme, "50/1d100+2")) == Ok(Request(Flags(false, Extreme, "50/1d100+2"), Some(50), "1d100+2"))
  {
    assert "50/1d100+2" == "50" + "/" + "1d100+2";
    SplitTargetOne("50", "1d100+2");
    Fifty();
  }

  lemma Shown()
    ensures Strip("1d100+2") == "1d100+2"
  {
    StripTrimmed("1d100+2");
  }

  lemma ExtremeFailureText()
    ensures "17" + ">" + "10" + ", " + ("极难" + "检定失败！") == "17>10, 极难检定失败！"
    ensures "1d100+2" + ": " + "15+2" + "=" + "17" + ", " + "17>10, 极难检定失败！" == "1d100+2: 15+2=17, 17>10, 极难检定失败！"
  {
  }

  lemma Numbers()
    ensures IntToString(17) == "17" && IntToString(10) == "10"
  {
    assert DigitChar(1) == '1' && DigitChar(7) == '7' && DigitChar(0) == '0';
    assert NatToString(17) == NatToString(1) + [DigitChar(7)];
    assert NatToString(10) == NatToString(1) + [DigitChar(0)];
  }

  /** 17 is above a fifth of 50: the extreme check fails. */
  lemma OutcomeExample()
    ensures Outcome(Request(Flags(false, Extreme, "50/1d100+2"), Some(50), "1d100+2"), 17) == "17>10, 极难检定失败！"
  {
    var q := Request(Flags(false, Extreme, "50/1d100+2"), Some(50), "1d100+2");
    ContainsAt("1d100+2", "1d100", 0);
    assert CheckSuccess(50, 17, Extreme) == (false, 10);
    Numbers();
    ExtremeFailureText();
  }

  lemma ConcludeExample()
    ensures DrawsFit(Flags(false, Extreme, "50/1d100+2"), [15])
    ensures Conclude(Flags(false, Extreme, "50/1d100+2"), [15]).line == "1d100+2: 15+2=17, 17>10, 极难检定失败！"
  {
    var flags := Flags(false, Extreme, "50/1d100+2");
    var q := Request(flags, Some(50), "1d100+2");
    ParseExample();
    Shown();
    RollExample();
    assert RollDice(Strip(q.diceText), [15]) == Ok(Roll([15], 17, "15+2"));
    OutcomeExample();
    Numbers();
    ExtremeFailureText();
  }

  /** Dicer.py's docstring: "50/1d100+2 -e" with a 15 drawn fails the extreme check. */
  lemma ExtremeFailureExample()
    ensures DrawsFit(FlagsOf(StripSpaced, "50/1d100+2 -e"), [15])
    ensures Evaluate(StripSpaced, "50/1d100+2 -e", [15]).line == "1d100+2: 15+2=17, 17>10, 极难检定失败！"
  {
    SpacedExtreme();
    ConcludeExample();
  }

  lemma FortyTwo()
    ensures IntToString(42) == "42"
  {
    assert DigitChar(4) == '4' && DigitChar(2) == '2';
    assert NatToString(42) == NatToString(4) + [DigitChar(2)];
  }

  /** A draw of 42 suits the hundred-sided die `.r` rolls. */
  lemma QuickFitsExample()
    ensures QuickText(".r") == Ok("1d100")
    ensures QuickFits(".r", [42])
  {
    QuickDefault();
    Commands.Hundred();
    OneDie(100);
    var m := DiceMatch("1", NatToString(100), "");
    assert Used(m) == 1;
    assert DrawsFor("1d" + NatToString(100), [42]);
  }

  /** `.r` alone rolls one hundred-sided die; with 42 drawn the line is "1d100: 42=42". */
  lemma QuickExample()
    ensures QuickFits(".r", [42])
    ensures QuickRoll(".r", [42]) == Evaluation("1d100" + ": " + "42" + "=" + "42", 1)
  {
    QuickFitsExample();
    Commands.Hundred();
    assert QuickSides(QuickDigits(".r").value) == 100;
    QuickRollLine(".r", [42]);
    FortyTwo();
  }
}
