/**
 * `quick_roll`, `repeat_roll` and `_execute_rolls`, the same in both copies:
 * the `.r`, `.m -n`, `.d` and `.t` commands. Every command is answered with
 * text; a failure becomes a line that starts with "错误：".
 */
module Commands {
  import opened Wrappers
  import opened Text
  import opened Pattern
  import opened Dice
  import opened Engine

  // ----- quick_roll -----

  /**
   * `re.match(r'\.r\s*(\d+)?', command)`: the digits of the group, empty when
   * the group is absent, or None when the command does not start with ".r".
   */
  function QuickDigits(command: string): (r: Option<string>)
    ensures r.Some? ==> AllDigits(r.value)
  {
    if |command| >= 2 && command[0] == '.' && command[1] == 'r' then
      Some(DigitRun(command, 2 + SpacesFrom(command, 2)))
    else None
  }

  /** The number of sides: `int(match.group(1))`, or 100 when the digits are absent. */
  function QuickSides(digits: string): nat
    requires AllDigits(digits)
  {
    if digits == [] then 100 else DigitsValue(digits)
  }

  /** `f"1d{dice_type}"`, or the error `quick_roll` raises when the command does not match. */
  function QuickText(command: string): Result<string> {
    match QuickDigits(command)
    case None => Err(InvalidExpression)
    case Some(digits) => Ok("1d" + NatToString(QuickSides(digits)))
  }

  /** The draw stream suits the roll a quick command asks for. */
  predicate QuickFits(command: string, draws: seq<int>) {
    match QuickText(command)
    case Err(_) => true
    case Ok(text) => DrawsFor(text, draws)
  }

  /** `quick_roll`: the line `"1d<n>: <details>=<total>"` and the number of draws it took. */
  function QuickRoll(command: string, draws: seq<int>): (e: Evaluation)
    requires QuickFits(command, draws)
    ensures e.used <= |draws|
  {
    match QuickText(command)
    case Err(f) => Evaluation(ErrorLine(f), 0)
    case Ok(text) =>
      match RollDice(text, draws)
      case Err(f) => Evaluation(ErrorLine(f), 0)
      case Ok(roll) => Evaluation(text + ": " + roll.details + "=" + IntToString(roll.total), |roll.rolls|)
  }

  /**
   * A command that starts with ".r", then whitespace up to index `p`, then
   * digits up to index `q`, followed by a character that extends neither run
   * (or by nothing), reads the digits from `p` to `q`.
   */
  lemma QuickDigitsAt(command: string, p: nat, q: nat)
    requires |command| >= 2 && command[0] == '.' && command[1] == 'r'
    requires 2 <= p <= q <= |command| && SpacesIn(command, 2, p) && DigitsIn(command, p, q)
    requires q < |command| ==> !IsDigit(command[q]) && (p == q ==> !IsSpace(command[q]))
    ensures QuickDigits(command) == Some(command[p..q])
  {
    if p < q {
      assert IsDigit(command[p]);
    }
    SpacesFromIs(command, 2, p);
    DigitsFromIs(command, p, q);
  }

  /** `.r` with no number rolls a hundred-sided die. */
  lemma QuickDefault()
    ensures QuickText(".r") == Ok("1d100")
  {
    QuickDigitsAt(".r", 2, 2);
    Hundred();
    assert "1d" + "100" == "1d100";
  }

  /** `str(100)`. */
  lemma Hundred()
    ensures NatToString(100) == "100"
  {
    assert DigitChar(1) == '1' && DigitChar(0) == '0';
    assert NatToString(10) == NatToString(1) + [DigitChar(0)];
    assert NatToString(100) == NatToString(10) + [DigitChar(0)];
  }

  /** The dice pattern reads `1d<n>` as one die of `n` sides with no modifier. */
  lemma OneDie(n: nat)
    ensures MatchDice("1d" + NatToString(n)) == Some(DiceMatch("1", NatToString(n), ""))
    ensures DiceMatch("1", NatToString(n), "").Valid()
    ensures DiceMatch("1", NatToString(n), "").Count() == 1
    ensures DiceMatch("1", NatToString(n), "").Sides() == n
    ensures DiceMatch("1", NatToString(n), "").Modifier() == 0
  {
    var m := DiceMatch("1", NatToString(n), "");
    var text := "1d" + NatToString(n);
    assert m.Span() == text;
    assert AllDigits("1") by { assert "1"[..0] == []; }
    assert DigitsValue("1") == 1 by { assert "1"[..0] == []; }
    assert StartsWith(text, text);
    MatchDiceUnique(text, m);
  }

  /**
   * A quick roll of `n >= 1` sides takes one draw and reports it as both the
   * details and the total; `.r 0` fails with the empty range of `randint(1, 0)`.
   */
  lemma QuickRollLine(command: string, draws: seq<int>)
    requires QuickFits(command, draws) && QuickText(command).Ok?
    ensures var n := QuickSides(QuickDigits(command).value);
      var e := QuickRoll(command, draws);
      if n == 0 then e == Evaluation(ErrorLine(EmptyRange(0)), 0)
      else
        |draws| >= 1 && 1 <= draws[0] <= n && e.used == 1 &&
        e.line == "1d" + NatToString(n) + ": " + IntToString(draws[0]) + "=" + IntToString(draws[0])
  {
    var n := QuickSides(QuickDigits(command).value);
    var text := "1d" + NatToString(n);
    OneDie(n);
    if n != 0 {
      var roll := RollDice(text, draws).value;
      assert roll.rolls == [draws[0]];
      assert Sum([draws[0]]) == Sum([]) + draws[0];
      assert Breakdown([draws[0]]) == IntToString(draws[0]);
      assert roll.details == IntToString(draws[0]);
    }
  }

  /** A command that does not start with ".r" is an invalid expression. */
  lemma QuickInvalid(command: string, draws: seq<int>)
    requires !StartsWith(command, ".r")
    ensures QuickRoll(command, draws) == Evaluation("错误：无效的表达式！", 0)
  {
    StartsWithPair(command, '.', 'r');
  }

  // ----- repeat_roll -----

  /** `.` accepts the character at index `p + j`: there is one, and it is not a line break. */
  predicate Opens(s: string, p: nat, j: nat) {
    p + j < |s| && s[p + j] != '\n'
  }

  /**
   * Backtracking `\s+` from `k` characters down to one: the first `j` for
   * which `.+` can start at index `p + j`.
   */
  function TailStart(s: string, p: nat, k: nat): (r: Option<nat>)
    requires p + k <= |s|
    ensures r.Some? ==> 1 <= r.value <= k && Opens(s, p, r.value)
    ensures r.Some? ==> forall j :: r.value < j <= k ==> !Opens(s, p, j)
    ensures r.None? ==> forall j :: 1 <= j <= k ==> !Opens(s, p, j)
    decreases k
  {
    if k == 0 then None
    else if Opens(s, p, k) then Some(k)
    else TailStart(s, p, k - 1)
  }

  /** `\s+(.+)` can place its group at index `p + k`: `k >= 1` whitespace characters, then one `.` accepts. */
  predicate TailAt(s: string, p: nat, k: nat) {
    1 <= k && p + k <= |s| && SpacesIn(s, p, p + k) && Opens(s, p, k)
  }

  /** The length of the line that starts at index `i`: what a greedy `.+` takes there. */
  function LineFrom(s: string, i: nat): (n: nat)
    requires i <= |s|
    ensures i + n <= |s| && (i + n == |s| || s[i + n] == '\n')
    ensures forall t :: i <= t < i + n ==> s[t] != '\n'
    decreases |s| - i
  {
    if i < |s| && s[i] != '\n' then 1 + LineFrom(s, i + 1) else 0
  }

  /** `\s+(.+)` matched at index `p`: the group, or None when it cannot match there. */
  function Tail(s: string, p: nat): Option<string>
    requires p <= |s|
  {
    match TailStart(s, p, SpacesFrom(s, p))
    case None => None
    case Some(k) => Some(s[p + k..p + k + LineFrom(s, p + k)])
  }

  /** The group of `\s+(.+)` starts after the longest run of whitespace that still lets `.+` start. */
  lemma TailLongest(s: string, p: nat)
    requires p <= |s|
    ensures Tail(s, p).None? <==> forall k :: !TailAt(s, p, k)
    ensures Tail(s, p).Some? ==>
      (exists k :: TailAt(s, p, k) && (forall j :: j > k ==> !TailAt(s, p, j)) &&
        Tail(s, p).value == s[p + k..p + k + LineFrom(s, p + k)])
  {
    var w := SpacesFrom(s, p);
    forall k | TailAt(s, p, k)
      ensures k <= w
    {
      SpacesRun(s, p, k);
    }
    match TailStart(s, p, w) {
      case None =>
      case Some(k) =>
        SpacesRun(s, p, k);
        assert TailAt(s, p, k);
    }
  }

  /** The group of `\s+(.+)` is a non-empty line. */
  lemma TailLine(s: string, p: nat)
    requires p <= |s| && Tail(s, p).Some?
    ensures |Tail(s, p).value| >= 1 && '\n' !in Tail(s, p).value
  {
    var k := TailStart(s, p, SpacesFrom(s, p)).value;
    var n := LineFrom(s, p + k);
    var e := s[p + k..p + k + n];
    assert forall t :: 0 <= t < n ==> e[t] == s[p + k + t];
  }

  /** With no line break from index `i` on, the line there runs to the end. */
  lemma {:induction false} LineToEnd(s: string, i: nat)
    requires i <= |s| && '\n' !in s[i..]
    ensures LineFrom(s, i) == |s| - i
    decreases |s| - i
  {
    if i < |s| {
      assert s[i] == s[i..][0];
      assert s[i + 1..] == s[i..][1..];
      LineToEnd(s, i + 1);
    }
  }

  /** One space then a line that does not start with whitespace: the group is that line. */
  lemma TailOneSpace(head: string, e: string)
    requires |e| >= 1 && !IsSpace(e[0]) && '\n' !in e
    ensures Tail(head + " " + e, |head|) == Some(e)
  {
    var s := head + " " + e;
    var p := |head|;
    assert s[p] == ' ' && s[p + 1] == e[0];
    assert s[p + 1..] == e;
    SpacesFromIs(s, p, p + 1);
    assert Opens(s, p, 1);
    assert TailStart(s, p, 1) == Some(1);
    LineToEnd(s, p + 1);
    assert Tail(s, p) == Some(s[p + 1..p + 1 + LineFrom(s, p + 1)]);
    assert s[p + 1..|s|] == e;
  }

  /** How many trials to run, and the expression each of them evaluates. */
  datatype Repeat = Repeat(times: nat, expression: string)

  /** `re.match(r'\.m\s+-(\d+)\s+(.+)', command)`: the count and the expression. */
  function MatchMany(command: string): Option<Repeat> {
    if |command| >= 2 && command[0] == '.' && command[1] == 'm' then
      var w := SpacesFrom(command, 2);
      if w >= 1 && 2 + w < |command| && command[2 + w] == '-' then
        var digits := DigitRun(command, 3 + w);
        if |digits| >= 1 then
          match Tail(command, 3 + w + |digits|)
          case None => None
          case Some(e) => Some(Repeat(DigitsValue(digits), e))
        else None
      else None
    else None
  }

  /** `re.match(r'\.(d|t)\s+(.+)', command)`: `.d` repeats twice, `.t` three times. */
  function MatchTwiceOrThrice(command: string): Option<Repeat> {
    if |command| >= 2 && command[0] == '.' && (command[1] == 'd' || command[1] == 't') then
      match Tail(command, 2)
      case None => None
      case Some(e) => Some(Repeat(if command[1] == 'd' then 2 else 3, e))
    else None
  }

  /** The `.m` pattern is tried first, then `.d`/`.t`; None is the invalid repeat command. */
  function ParseRepeat(command: string): Option<Repeat> {
    match MatchMany(command)
    case Some(r) => Some(r)
    case None => MatchTwiceOrThrice(command)
  }

  /** The expression a repeat command carries is one non-empty line. */
  lemma RepeatExpressionLine(command: string)
    requires ParseRepeat(command).Some?
    ensures var e := ParseRepeat(command).value.expression; |e| >= 1 && '\n' !in e
  {
    if MatchMany(command).Some? {
      var w := SpacesFrom(command, 2);
      var digits := DigitRun(command, 3 + w);
      TailLine(command, 3 + w + |digits|);
    } else {
      TailLine(command, 2);
    }
  }

  /** `.d` followed by one space reads back the line that follows, to be rolled twice. */
  lemma TwiceRoundTrip(e: string)
    requires |e| >= 1 && !IsSpace(e[0]) && '\n' !in e
    ensures ParseRepeat(".d " + e) == Some(Repeat(2, e))
  {
    var command := ".d" + " " + e;
    assert command[0] == '.' && command[1] == 'd';
    TailOneSpace(".d", e);
    assert MatchMany(command).None?;
    assert MatchTwiceOrThrice(command) == Some(Repeat(2, e));
    assert ".d " + e == command;
  }

  /** `.t` followed by one space reads back the line that follows, to be rolled three times. */
  lemma ThriceRoundTrip(e: string)
    requires |e| >= 1 && !IsSpace(e[0]) && '\n' !in e
    ensures ParseRepeat(".t " + e) == Some(Repeat(3, e))
  {
    var command := ".t" + " " + e;
    assert command[0] == '.' && command[1] == 't';
    TailOneSpace(".t", e);
    assert MatchMany(command).None?;
    assert MatchTwiceOrThrice(command) == Some(Repeat(3, e));
    assert ".t " + e == command;
  }

  /** `.m -<n> <e>` reads back the count `n` and the line `e`. */
  lemma ManyRoundTrip(n: nat, e: string)
    requires |e| >= 1 && !IsSpace(e[0]) && '\n' !in e
    ensures ParseRepeat(".m -" + NatToString(n) + " " + e) == Some(Repeat(n, e))
  {
    var digits := NatToString(n);
    var head := ".m -" + digits;
    var command := head + " " + e;
    assert command[..4] == ".m -" && command[4..4 + |digits|] == digits;
    assert command[2] == ' ' && command[3] == '-';
    SpacesFromIs(command, 2, 3);
    DigitsSlice(command, 4, 4 + |digits|);
    assert command[4 + |digits|] == ' ';
    DigitsFromIs(command, 4, 4 + |digits|);
    TailOneSpace(head, e);
  }

  /** A command that starts with none of ".m", ".d" and ".t" is not a repeat command. */
  lemma RepeatUnknown(command: string)
    requires !StartsWith(command, ".m") && !StartsWith(command, ".d") && !StartsWith(command, ".t")
    ensures ParseRepeat(command).None?
  {
    StartsWithPair(command, '.', 'm');
    StartsWithPair(command, '.', 'd');
    StartsWithPair(command, '.', 't');
  }

  // ----- _execute_rolls -----

  /** `f"第 {i+1} 次 -> {result}"`. */
  function TrialLine(i: nat, result: string): string {
    "第 " + NatToString(i + 1) + " 次 -> " + result
  }

  /** The lines of a run of trials and the part of the stream they left. */
  datatype Batch = Batch(lines: seq<string>, rest: seq<int>)

  /**
   * One trial on the stream it finds: the line it prints and the stream it
   * leaves, or None when the stream is too short for its roll.
   */
  type Step = seq<int> -> Option<(string, seq<int>)>

  /** The trial `_execute_rolls` repeats: `evaluate_expression` of one expression. */
  function EvaluateStep(v: Variant, expression: string): Step {
    (draws: seq<int>) =>
      if DrawsFit(FlagsOf(v, expression), draws) then
        var e := Evaluate(v, expression, draws);
        Some((e.line, draws[e.used..]))
      else None
  }

  /**
   * The first `n` trials: each runs on what the ones before it left of the
   * stream, and its line is numbered. None when some trial finds too few draws.
   */
  function Trials(step: Step, n: nat, draws: seq<int>): (r: Option<Batch>)
    ensures r.Some? ==> |r.value.lines| == n
  {
    if n == 0 then Some(Batch([], draws))
    else
      match Trials(step, n - 1, draws)
      case None => None
      case Some(before) =>
        match step(before.rest)
        case None => None
        case Some(out) => Some(Batch(before.lines + [TrialLine(n - 1, out.0)], out.1))
  }

  /** Draws that suffice for `n` trials suffice for every shorter run of trials. */
  lemma {:induction false} FitsPrefix(step: Step, m: nat, n: nat, draws: seq<int>)
    requires m <= n && Trials(step, n, draws).Some?
    ensures Trials(step, m, draws).Some?
    decreases n - m
  {
    if m < n {
      FitsPrefix(step, m, n - 1, draws);
    }
  }

  /**
   * `_execute_rolls`: the loop appends one numbered line per trial, then the
   * lines are joined with line breaks.
   */
  method ExecuteRolls(v: Variant, times: nat, expression: string, draws: seq<int>) returns (output: string, rest: seq<int>)
    requires Trials(EvaluateStep(v, expression), times, draws).Some?
    ensures output == Join(Trials(EvaluateStep(v, expression), times, draws).value.lines, "\n")
    ensures rest == Trials(EvaluateStep(v, expression), times, draws).value.rest
  {
    ghost var step := EvaluateStep(v, expression);
    var results: seq<string> := [];
    var stream := draws;
    var i := 0;
    while i < times
      invariant i <= times
      invariant Trials(step, i, draws) == Some(Batch(results, stream))
    {
      FitsPrefix(step, i + 1, times, draws);
      assert step(stream).Some?;
      var line, after := EvaluateExpression(v, expression, stream);
      assert step(stream) == Some((line, after));
      results := results + [TrialLine(i, line)];
      stream := after;
      i := i + 1;
    }
    output := Join(results, "\n");
    rest := stream;
  }

  /** A numbered line holds a line break only where its result does. */
  lemma TrialLineWithout(i: nat, result: string)
    requires '\n' !in result
    ensures '\n' !in TrialLine(i, result)
  {
    NatWithout(i + 1, '\n');
  }

  /**
   * Line `i` of `n` trials is trial `i`'s line numbered `i + 1`, printed on
   * what the `i` trials before it left of the stream.
   */
  lemma {:induction false} TrialsEach(step: Step, n: nat, draws: seq<int>, i: nat)
    requires i < n && Trials(step, n, draws).Some?
    ensures Trials(step, i, draws).Some? && step(Trials(step, i, draws).value.rest).Some?
    ensures Trials(step, n, draws).value.lines[i] ==
      TrialLine(i, step(Trials(step, i, draws).value.rest).value.0)
    decreases n
  {
    if i < n - 1 {
      TrialsEach(step, n - 1, draws, i);
    }
  }

  /** Trials whose lines hold no line break print one line each: the output splits back into them. */
  lemma TrialsSplit(step: Step, n: nat, draws: seq<int>)
    requires n >= 1 && Trials(step, n, draws).Some?
    requires forall d :: step(d).Some? ==> '\n' !in step(d).value.0
    ensures Split(Join(Trials(step, n, draws).value.lines, "\n"), '\n') == Trials(step, n, draws).value.lines
  {
    var lines := Trials(step, n, draws).value.lines;
    forall i | 0 <= i < n
      ensures '\n' !in lines[i]
    {
      TrialsEach(step, n, draws, i);
      TrialLineWithout(i, step(Trials(step, i, draws).value.rest).value.0);
    }
    SplitJoin(lines, '\n');
  }

  /** An expression without a line break evaluates to one line on every stream it fits. */
  lemma EvaluateStepLine(v: Variant, expression: string)
    requires '\n' !in expression
    ensures forall d :: EvaluateStep(v, expression)(d).Some? ==> '\n' !in EvaluateStep(v, expression)(d).value.0
  {
    forall d | EvaluateStep(v, expression)(d).Some?
      ensures '\n' !in EvaluateStep(v, expression)(d).value.0
    {
      EvaluateWithout(v, expression, d);
    }
  }

  /**
   * A repeat command whose count is at least one prints exactly that many
   * lines, line `i` numbered `i + 1`.
   */
  lemma RepeatLines(v: Variant, command: string, draws: seq<int>)
    requires RepeatFits(v, command, draws) && ParseRepeat(command).Some?
    requires ParseRepeat(command).value.times >= 1
    ensures var r := ParseRepeat(command).value;
      var lines := Trials(EvaluateStep(v, r.expression), r.times, draws).value.lines;
      |Split(Join(lines, "\n"), '\n')| == r.times &&
      forall i :: 0 <= i < r.times ==> StartsWith(Split(Join(lines, "\n"), '\n')[i], "第 " + NatToString(i + 1) + " 次 -> ")
  {
    var r := ParseRepeat(command).value;
    var step := EvaluateStep(v, r.expression);
    RepeatExpressionLine(command);
    EvaluateStepLine(v, r.expression);
    TrialsSplit(step, r.times, draws);
    forall i | 0 <= i < r.times
      ensures StartsWith(Trials(step, r.times, draws).value.lines[i], "第 " + NatToString(i + 1) + " 次 -> ")
    {
      TrialsEach(step, r.times, draws, i);
    }
  }

  /** The draws `repeat_roll` needs: those of its trials when the command parses. */
  predicate RepeatFits(v: Variant, command: string, draws: seq<int>) {
    match ParseRepeat(command)
    case None => true
    case Some(r) => Trials(EvaluateStep(v, r.expression), r.times, draws).Some?
  }

  /** `repeat_roll`: the trials of a parsed command, or the invalid-command error line. */
  method RepeatRoll(v: Variant, command: string, draws: seq<int>) returns (output: string, rest: seq<int>)
    requires RepeatFits(v, command, draws)
    ensures ParseRepeat(command).None? ==> output == "错误：无效的重复检定指令！" && rest == draws
    ensures ParseRepeat(command).Some? ==>
      var r := ParseRepeat(command).value;
      output == Join(Trials(EvaluateStep(v, r.expression), r.times, draws).value.lines, "\n") &&
      rest == Trials(EvaluateStep(v, r.expression), r.times, draws).value.rest
  {
    var parsed := ParseRepeat(command);
    if parsed.None? {
      output := ErrorLine(InvalidRepeat);
      rest := draws;
    } else {
      var r := parsed.value;
      output, rest := ExecuteRolls(v, r.times, r.expression, draws);
    }
  }
}
