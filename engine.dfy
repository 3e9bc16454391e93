/**
 * `evaluate_expression`, shared by both copies except for the flags: the
 * optional `target/` prefix, the roll of the stripped dice text, the 1d100
 * critical override and the wording of the result line. Every exception
 * becomes a line that starts with "错误：".
 */
module Engine {
  import opened Wrappers
  import opened Text
  import opened Dice
  import opened Pattern
  import EveryFlag
  import SpacedFlag

  /** Which copy of the roller: dicer.py deletes every flag, Dicer.py only the spaced ones it acted on. */
  datatype Variant = StripEvery | StripSpaced

  function FlagsOf(v: Variant, expression: string): Flags {
    match v
    case StripEvery => EveryFlag.Options(expression)
    case StripSpaced => SpacedFlag.Options(expression)
  }

  /**
   * `target, dice_expression = expression.split('/')` and `int(target)` when
   * the text holds a '/': one '/' and an integer before it give the target.
   */
  function SplitTarget(text: string): (r: Result<(Option<int>, string)>)
    ensures r.Ok? ==> '/' !in r.value.1
    ensures r.Ok? && r.value.0.None? <==> '/' !in text
    ensures r.Ok? && r.value.0.None? ==> r.value.1 == text
  {
    var parts := Split(text, '/');
    if |parts| == 1 then Ok((None, text))
    else if |parts| > 2 then Err(TooManySlashes)
    else
      match ParseInt(parts[0])
      case None => Err(BadInteger(parts[0]))
      case Some(target) => Ok((Some(target), parts[1]))
  }

  /** One '/' between an integer and the dice text: that integer is the target. */
  lemma SplitTargetOne(left: string, right: string)
    requires '/' !in left && '/' !in right
    ensures SplitTarget(left + "/" + right) ==
      match ParseInt(left)
      case None => Err(BadInteger(left))
      case Some(target) => Ok((Some(target), right))
  {
    SplitAfterFirst(left, '/', right);
    SplitWithout(right, '/');
  }

  /** Two or more '/' can never be unpacked into a target and a dice text. */
  lemma SplitTargetMany(left: string, middle: string, right: string)
    requires '/' !in left && '/' !in middle
    ensures SplitTarget(left + "/" + middle + "/" + right) == Err(TooManySlashes)
  {
    SplitAfterFirst(middle, '/', right);
    assert left + "/" + middle + "/" + right == left + "/" + (middle + "/" + right);
    SplitAfterFirst(left, '/', middle + "/" + right);
  }

  /** The parts of an expression once the flags and the target are taken off. */
  datatype Request = Request(flags: Flags, target: Option<int>, diceText: string)

  function Parse(flags: Flags): Result<Request> {
    match SplitTarget(flags.rest)
    case Err(f) => Err(f)
    case Ok(split) => Ok(Request(flags, split.0, split.1))
  }

  /** The draw stream suits the roll the expression asks for. */
  predicate DrawsFit(flags: Flags, draws: seq<int>) {
    match Parse(flags)
    case Err(_) => true
    case Ok(q) => DrawsFor(Strip(q.diceText), draws)
  }

  /** Whether `'1d100' in dice_expression`, tested on the text before it is stripped. */
  predicate Percentile(q: Request) {
    Contains(q.diceText, "1d100")
  }

  /** The closing phrase of a check with a target: passed, failed on a gamble, or failed. */
  function Verdict(level: Level, passed: bool, gamble: bool): string {
    if passed then Label(level) + Passed
    else if gamble then Label(level) + GambleLost
    else Label(level) + Failed
  }

  /**
   * What follows the header: the critical words for a 1d100 roll of 1 or of
   * 96 and more, else the comparison with the threshold when there is a
   * target, else the total again.
   */
  function Outcome(q: Request, total: int): string {
    if Percentile(q) && total == 1 then "大成功！"
    else if Percentile(q) && total >= 96 then "大失败！"
    else
      match q.target
      case None => IntToString(total)
      case Some(target) =>
        var check := CheckSuccess(target, total, q.flags.level);
        var sign := if check.0 then "<=" else ">";
        IntToString(total) + sign + IntToString(check.1) + ", " + Verdict(q.flags.level, check.0, q.flags.gamble)
  }

  /** The line an evaluation returns and the number of draws it took. */
  datatype Evaluation = Evaluation(line: string, used: nat)

  /** `evaluate_expression` from the point where the flags have been read. */
  function Conclude(flags: Flags, draws: seq<int>): (e: Evaluation)
    requires DrawsFit(flags, draws)
    ensures e.used <= |draws|
  {
    match Parse(flags)
    case Err(f) => Evaluation(ErrorLine(f), 0)
    case Ok(q) =>
      var shown := Strip(q.diceText);
      match RollDice(shown, draws)
      case Err(f) => Evaluation(ErrorLine(f), 0)
      case Ok(roll) =>
        Evaluation(shown + ": " + roll.details + "=" + IntToString(roll.total) + ", " + Outcome(q, roll.total), |roll.rolls|)
  }

  function Evaluate(v: Variant, expression: string, draws: seq<int>): Evaluation
    requires DrawsFit(FlagsOf(v, expression), draws)
  {
    Conclude(FlagsOf(v, expression), draws)
  }

  /**
   * `evaluate_expression`: the flags are read by the copy's own steps, then
   * the line is built; `rest` is the part of the stream no die took.
   */
  method EvaluateExpression(v: Variant, expression: string, draws: seq<int>) returns (line: string, rest: seq<int>)
    requires DrawsFit(FlagsOf(v, expression), draws)
    ensures line == Evaluate(v, expression, draws).line
    ensures rest == draws[Evaluate(v, expression, draws).used..]
  {
    var flags;
    match v {
      case StripEvery => flags := EveryFlag.StripOptions(expression);
      case StripSpaced => flags := SpacedFlag.StripFlags(expression);
    }
    var e := Conclude(flags, draws);
    line := e.line;
    rest := draws[e.used..];
  }

  /** The line of a successful roll, spelled out. */
  lemma ConcludeOk(flags: Flags, draws: seq<int>)
    requires DrawsFit(flags, draws)
    requires Parse(flags).Ok? && RollDice(Strip(Parse(flags).value.diceText), draws).Ok?
    ensures var q := Parse(flags).value;
      var shown := Strip(q.diceText);
      var roll := RollDice(shown, draws).value;
      Conclude(flags, draws) ==
        Evaluation(shown + ": " + roll.details + "=" + IntToString(roll.total) + ", " + Outcome(q, roll.total), |roll.rolls|)
  {
  }

  /**
   * A successful roll checked against a target, away from the 1d100
   * criticals, ends in the pass words exactly when the total is within the
   * threshold, in the gamble words exactly when it is not and gamble is set,
   * and in the failure words exactly when it is not and gamble is unset.
   */
  lemma VerdictEnding(flags: Flags, draws: seq<int>)
    requires DrawsFit(flags, draws)
    requires Parse(flags).Ok? && RollDice(Strip(Parse(flags).value.diceText), draws).Ok?
    requires var q := Parse(flags).value; var total := RollDice(Strip(q.diceText), draws).value.total;
      q.target.Some? && !(Percentile(q) && (total == 1 || total >= 96))
    ensures var q := Parse(flags).value; var total := RollDice(Strip(q.diceText), draws).value.total;
      var threshold := CheckSuccess(q.target.value, total, q.flags.level).1;
      var line := Conclude(flags, draws).line;
      (EndsWith(line, Passed) <==> total <= threshold) &&
      (EndsWith(line, GambleLost) <==> total > threshold && q.flags.gamble) &&
      (EndsWith(line, Failed) <==> total > threshold && !q.flags.gamble)
  {
    var q := Parse(flags).value;
    var shown := Strip(q.diceText);
    var total := RollDice(shown, draws).value.total;
    var check := CheckSuccess(q.target.value, total, q.flags.level);
    var word := if check.0 then Passed else if q.flags.gamble then GambleLost else Failed;
    OutcomeEnding(q, total);
    ConcludeOk(flags, draws);
    EndsWithAppend(shown + ": " + RollDice(shown, draws).value.details + "=" + IntToString(total) + ", ", Outcome(q, total), word);
    WordsApart(Conclude(flags, draws).line, word);
  }

  /** Away from the criticals, a check against a target ends in the words of its verdict. */
  lemma OutcomeEnding(q: Request, total: int)
    requires q.target.Some? && !(Percentile(q) && (total == 1 || total >= 96))
    ensures var check := CheckSuccess(q.target.value, total, q.flags.level);
      EndsWith(Outcome(q, total), if check.0 then Passed else if q.flags.gamble then GambleLost else Failed)
  {
    var check := CheckSuccess(q.target.value, total, q.flags.level);
    var sign := if check.0 then "<=" else ">";
    var word := if check.0 then Passed else if q.flags.gamble then GambleLost else Failed;
    EndsWithAppend(Label(q.flags.level), word, word);
    EndsWithAppend(IntToString(total) + sign + IntToString(check.1) + ", ", Verdict(q.flags.level, check.0, q.flags.gamble), word);
  }

  const Passed := "检定通过！"
  const Failed := "检定失败！"
  const GambleLost := "孤注一掷失败，视为大失败！"

  /** A line ends in at most one of the three verdicts. */
  lemma WordsApart(line: string, word: string)
    requires word == Passed || word == Failed || word == GambleLost
    requires EndsWith(line, word)
    ensures EndsWith(line, Passed) <==> word == Passed
    ensures EndsWith(line, Failed) <==> word == Failed
    ensures EndsWith(line, GambleLost) <==> word == GambleLost
  {
    assert Passed[2] != Failed[2];
    assert GambleLost[8..][0] != Passed[0] && GambleLost[8..][0] != Failed[0];
    if EndsWith(line, Passed) && word != Passed {
      EndsWithBoth(line, word, Passed);
    }
    if EndsWith(line, Failed) && word != Failed {
      EndsWithBoth(line, word, Failed);
    }
    if EndsWith(line, GambleLost) && word != GambleLost {
      EndsWithBoth(line, GambleLost, word);
    }
  }

  /** A line that begins with a digit or 'd' for every successful roll. */
  lemma SuccessStart(flags: Flags, draws: seq<int>)
    requires DrawsFit(flags, draws)
    requires Parse(flags).Ok? && RollDice(Strip(Parse(flags).value.diceText), draws).Ok?
    ensures var line := Conclude(flags, draws).line; |line| > 0 && (IsDigit(line[0]) || line[0] == 'd')
  {
    var q := Parse(flags).value;
    var shown := Strip(q.diceText);
    var roll := RollDice(shown, draws).value;
    var tail := ": " + roll.details + "=" + IntToString(roll.total) + ", " + Outcome(q, roll.total);
    ConcludeOk(flags, draws);
    MatchDiceSound(shown);
    var m := MatchDice(shown).value;
    assert shown[..|m.Span()|] == m.Span();
    assert (shown + tail)[0] == shown[0] == m.Span()[0];
    if m.countText != [] {
      assert m.Span()[0] == m.countText[0];
      MatchDiceValid(shown);
      DigitsEach(m.countText);
    } else {
      assert m.Span()[0] == 'd';
    }
  }

  /**
   * A line is an error line exactly when the target could not be read or the
   * roll failed, and then no draw was taken.
   */
  lemma ErrorLines(flags: Flags, draws: seq<int>)
    requires DrawsFit(flags, draws)
    ensures var e := Conclude(flags, draws);
      StartsWith(e.line, "错误：") <==>
        (Parse(flags).Err? || RollDice(Strip(Parse(flags).value.diceText), draws).Err?)
    ensures var e := Conclude(flags, draws); StartsWith(e.line, "错误：") ==> e.used == 0
  {
    match Parse(flags) {
      case Err(f) =>
        ErrorLineStarts(f);
      case Ok(q) =>
        match RollDice(Strip(q.diceText), draws) {
          case Err(f) =>
            ErrorLineStarts(f);
          case Ok(_) =>
            SuccessStart(flags, draws);
            var line := Conclude(flags, draws).line;
            assert line[0] != "错误："[0];
        }
    }
  }

  lemma ErrorLineStarts(f: Fault)
    ensures StartsWith(ErrorLine(f), "错误：")
  {
  }

  /** A 1d100 roll of 1 or of 96 and more names the critical result whatever the target, level or gamble. */
  lemma CriticalIgnoresCheck(q: Request, total: int, target: Option<int>, level: Level, gamble: bool)
    requires Percentile(q) && (total == 1 || total >= 96)
    ensures Outcome(q, total) == Outcome(q.(target := target, flags := Flags(gamble, level, q.flags.rest)), total)
    ensures Outcome(q, total) == (if total == 1 then "大成功！" else "大失败！")
  {
  }

  /** Gamble changes only a failed check: with no target, or when the check passes, it has no effect. */
  lemma GambleOnlyOnFailure(q: Request, total: int)
    requires q.target.None? || CheckSuccess(q.target.value, total, q.flags.level).0
    ensures Outcome(q, total) == Outcome(q.(flags := q.flags.(gamble := !q.flags.gamble)), total)
  {
  }

  /** The target split keeps to the characters of its text. */
  lemma SplitTargetWithout(text: string, d: char)
    requires d !in text
    ensures SplitTarget(text).Ok? ==> d !in SplitTarget(text).value.1
    ensures SplitTarget(text).Err? && SplitTarget(text).fault.BadInteger? ==> d !in SplitTarget(text).fault.text
  {
    SplitPartsWithout(text, '/', d);
  }

  /** The breakdown is made of digits, '+' and '-' only. */
  lemma BreakdownWithout(rolls: seq<int>, d: char)
    requires d != '+' && d != '-' && !IsDigit(d)
    ensures d !in Breakdown(rolls)
  {
    JoinChars(Decimals(rolls), '+', d);
  }

  lemma VerdictWithout(level: Level, passed: bool, gamble: bool)
    ensures '\n' !in Verdict(level, passed, gamble)
  {
    assert '\n' !in Label(level);
  }

  lemma OutcomeWithout(q: Request, total: int)
    ensures '\n' !in Outcome(q, total)
  {
    IntWithout(total, '\n');
    if q.target.Some? {
      var check := CheckSuccess(q.target.value, total, q.flags.level);
      IntWithout(check.1, '\n');
      VerdictWithout(q.flags.level, check.0, q.flags.gamble);
    }
  }

  /** The line of a failed parse or roll, spelled out. */
  lemma ConcludeErr(flags: Flags, draws: seq<int>)
    requires DrawsFit(flags, draws)
    requires Parse(flags).Err? || RollDice(Strip(Parse(flags).value.diceText), draws).Err?
    ensures Conclude(flags, draws) ==
      if Parse(flags).Err? then Evaluation(ErrorLine(Parse(flags).fault), 0)
      else Evaluation(ErrorLine(RollDice(Strip(Parse(flags).value.diceText), draws).fault), 0)
  {
  }

  /** The breakdown and the modifier shown after a roll hold no line break. */
  lemma DetailsWithout(shown: string, draws: seq<int>)
    requires DrawsFor(shown, draws) && RollDice(shown, draws).Ok? && '\n' !in shown
    ensures '\n' !in RollDice(shown, draws).value.details
  {
    var roll := RollDice(shown, draws).value;
    MatchDiceSound(shown);
    var m := MatchDice(shown).value;
    assert '\n' !in shown[..|m.Span()|];
    assert '\n' !in m.modText;
    BreakdownWithout(roll.rolls, '\n');
  }

  /** A result line made of parts without a line break has none. */
  lemma SuccessLineWithout(q: Request, shown: string, details: string, total: int)
    requires '\n' !in shown && '\n' !in details
    ensures '\n' !in shown + ": " + details + "=" + IntToString(total) + ", " + Outcome(q, total)
  {
    OutcomeWithout(q, total);
    IntWithout(total, '\n');
  }

  /** An evaluation of text without a line break is a single line. */
  lemma LineWithout(flags: Flags, draws: seq<int>)
    requires DrawsFit(flags, draws) && '\n' !in flags.rest
    ensures '\n' !in Conclude(flags, draws).line
  {
    SplitTargetWithout(flags.rest, '\n');
    if Parse(flags).Err? {
      ConcludeErr(flags, draws);
      ErrorLineWithout(Parse(flags).fault);
    } else {
      var q := Parse(flags).value;
      var shown := Strip(q.diceText);
      StripWithout(q.diceText, '\n');
      if RollDice(shown, draws).Err? {
        ConcludeErr(flags, draws);
        ErrorLineWithout(RollDice(shown, draws).fault);
      } else {
        var roll := RollDice(shown, draws).value;
        ConcludeOk(flags, draws);
        DetailsWithout(shown, draws);
        SuccessLineWithout(q, shown, roll.details, roll.total);
      }
    }
  }

  /** An expression without a line break evaluates to a single line, in either copy. */
  lemma EvaluateWithout(v: Variant, expression: string, draws: seq<int>)
    requires DrawsFit(FlagsOf(v, expression), draws) && '\n' !in expression
    ensures '\n' !in Evaluate(v, expression, draws).line
  {
    match v {
      case StripEvery => EveryFlag.RestWithout(expression, '\n');
      case StripSpaced => SpacedFlag.RestWithout(expression, '\n');
    }
    LineWithout(FlagsOf(v, expression), draws);
  }
}
