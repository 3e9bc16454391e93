/**
 * `roll_dice` and `check_success`, shared by both copies of the dice roller:
 * a roll that takes its dice from a supplied stream of draws, the faults the
 * engine reports, and the difficulty threshold.
 */
module Dice {
  import opened Wrappers
  import opened Text
  import opened Pattern

  /** An exception raised inside the engine; it reaches the caller as "错误：<message>". */
  datatype Fault =
    | InvalidExpression         // raised by roll_dice and quick_roll
    | InvalidRepeat             // raised by repeat_roll
    | TooManySlashes            // unpacking a split with more than one '/'
    | BadInteger(text: string)  // int() of a text that is not an integer
    | EmptyRange(sides: nat)    // randint(1, 0)

  /**
   * The text of a fault. The engine's own two messages are exact; the other
   * three stand in for the wording of Python's own exceptions.
   */
  function Message(f: Fault): string {
    match f
    case InvalidExpression => "无效的表达式！"
    case InvalidRepeat => "无效的重复检定指令！"
    case TooManySlashes => "too many values to unpack (expected 2)"
    case BadInteger(text) => "invalid literal for int() with base 10: '" + text + "'"
    case EmptyRange(sides) => "empty range for randrange() (1, " + NatToString(sides + 1) + ")"
  }

  /** The line every entry point returns in place of raising. */
  function ErrorLine(f: Fault): string {
    "错误：" + Message(f)
  }

  datatype Result<T> = Ok(value: T) | Err(fault: Fault)

  /** No error line holds a line break unless the text it quotes does. */
  lemma ErrorLineWithout(f: Fault)
    requires f.BadInteger? ==> '\n' !in f.text
    ensures '\n' !in ErrorLine(f)
  {
    match f {
      case InvalidExpression =>
      case InvalidRepeat =>
      case TooManySlashes => UnpackLine();
      case BadInteger(text) => BadIntegerLine(text);
      case EmptyRange(sides) => EmptyRangeLine(sides);
    }
  }

  lemma UnpackLine()
    ensures '\n' !in ErrorLine(TooManySlashes)
  {
  }

  lemma BadIntegerHead()
    ensures '\n' !in "invalid literal for int() with base 10: '"
  {
  }

  lemma EmptyRangeHead()
    ensures '\n' !in "empty range for randrange() (1, "
  {
  }

  lemma BadIntegerLine(text: string)
    requires '\n' !in text
    ensures '\n' !in ErrorLine(BadInteger(text))
  {
    BadIntegerHead();
  }

  lemma EmptyRangeLine(sides: nat)
    ensures '\n' !in ErrorLine(EmptyRange(sides))
  {
    EmptyRangeHead();
    NatWithout(sides + 1, '\n');
  }

  /** What `roll_dice` computes: the draws, their total with the modifier, and the breakdown text. */
  datatype Roll = Roll(rolls: seq<int>, total: int, details: string)

  function Sum(xs: seq<int>): int {
    if xs == [] then 0 else Sum(xs[..|xs| - 1]) + xs[|xs| - 1]
  }

  /** `map(str, xs)`. */
  function Decimals(xs: seq<int>): (r: seq<string>)
    ensures |r| == |xs|
    ensures forall i :: 0 <= i < |xs| ==> r[i] == IntToString(xs[i])
  {
    if xs == [] then [] else [IntToString(xs[0])] + Decimals(xs[1..])
  }

  /** `'+'.join(map(str, rolls))`. */
  function Breakdown(rolls: seq<int>): string {
    Join(Decimals(rolls), "+")
  }

  /** The breakdown text names every draw, in order: splitting it on '+' reads them back. */
  lemma BreakdownDecodes(rolls: seq<int>)
    requires |rolls| >= 1
    ensures |Split(Breakdown(rolls), '+')| == |rolls|
    ensures forall i :: 0 <= i < |rolls| ==> ParseInt(Split(Breakdown(rolls), '+')[i]) == Some(rolls[i])
  {
    var parts := Decimals(rolls);
    assert forall k :: 0 <= k < |parts| ==> '+' !in parts[k];
    SplitJoin(parts, '+');
    forall i | 0 <= i < |rolls|
      ensures ParseInt(parts[i]) == Some(rolls[i])
    {
      ParseIntToString(rolls[i]);
    }
  }

  /** The number of draws a roll of `m` takes: none when no die is drawn or the range is empty. */
  function Used(m: DiceMatch): nat
    requires m.Valid()
  {
    if m.Sides() == 0 then 0 else m.Count()
  }

  /** The stream holds every draw a roll of `m` takes, each within [1, sides]. */
  predicate Supplies(m: DiceMatch, draws: seq<int>)
    requires m.Valid()
  {
    Used(m) <= |draws| && forall i :: 0 <= i < Used(m) ==> 1 <= draws[i] <= m.Sides()
  }

  /**
   * `randint(1, sides)` returns draws within range: the stream suits a roll of
   * `text`. A match is always valid (`MatchDiceValid`); saying so here lets
   * the roll read its numbers.
   */
  predicate DrawsFor(text: string, draws: seq<int>) {
    match MatchDice(text)
    case None => true
    case Some(m) => m.Valid() && Supplies(m, draws)
  }

  /**
   * `roll_dice`: takes `count` draws from the front of the stream, adds the
   * modifier and writes the breakdown; the modifier text is shown only when
   * the modifier is not zero.
   */
  function RollDice(text: string, draws: seq<int>): (r: Result<Roll>)
    requires DrawsFor(text, draws)
    ensures MatchDice(text).None? <==> r == Err(InvalidExpression)
    ensures r.Ok? ==>
      MatchDice(text).Some? &&
      var m := MatchDice(text).value;
      |r.value.rolls| == m.Count() <= |draws| && r.value.rolls == draws[..m.Count()] &&
      (forall i :: 0 <= i < |r.value.rolls| ==> 1 <= r.value.rolls[i] <= m.Sides()) &&
      r.value.total == Sum(r.value.rolls) + m.Modifier() &&
      r.value.details == Breakdown(r.value.rolls) + (if m.Modifier() != 0 then m.modText else "")
    ensures r.Err? && MatchDice(text).Some? ==>
      var m := MatchDice(text).value;
      m.Count() > 0 && m.Sides() == 0 && r == Err(EmptyRange(0))
  {
    match MatchDice(text)
    case None => Err(InvalidExpression)
    case Some(m) =>
      if m.Count() > 0 && m.Sides() == 0 then Err(EmptyRange(m.Sides()))
      else
        var rolls := draws[..m.Count()];
        var suffix := if m.Modifier() != 0 then m.modText else "";
        Ok(Roll(rolls, Sum(rolls) + m.Modifier(), Breakdown(rolls) + suffix))
  }

  /** The difficulty chosen by the flags: `'n'`, `'h'` or `'e'` in the source. */
  datatype Level = Normal | Hard | Extreme

  /** What `evaluate_expression` reads from the flags: gamble, the level, and the text left over. */
  datatype Flags = Flags(gamble: bool, level: Level, rest: string)

  /** Two distinct two-character flags `-x` and `-y` can never share a character of the text. */
  lemma DashFlagsApart(p: string, q: string)
    requires |p| == 2 && |q| == 2 && p[0] == '-' && q[0] == '-'
    requires p[1] != q[1] && p[1] != '-' && q[1] != '-'
    ensures NoOverlap(p, q)
  {
    assert !Compatible(p[0..], q) by { assert p[0..][1] != q[1]; }
    assert !Compatible(p[1..], q) by { assert p[1..][0] != q[0]; }
    assert !Compatible(q[1..], p) by { assert q[1..][0] != p[0]; }
  }

  /** In a dash-free text followed by one flag `-x`, no other flag `-y` occurs. */
  lemma OtherFlagAbsent(x: string, f: string, o: string)
    requires '-' !in x && |f| == 2 && |o| == 2 && f[0] == '-' && o[0] == '-' && f[1] != o[1]
    ensures !Contains(x + " " + f, o)
  {
    var s := x + " " + f;
    forall i | 0 <= i
      ensures !OccursAt(s, o, i)
    {
      if i + 2 <= |s| {
        assert s[i..i + 2][0] == s[i] && s[i..i + 2][1] == s[i + 1];
        if i < |x| {
          assert s[i] == x[i];
        } else if i == |x| {
          assert s[i] == ' ';
        } else {
          assert s[i + 1] == f[1];
        }
      }
    }
    ContainsIff(s, o);
  }

  /** A flag written with a leading space, ` -x`, never shares a character with a different flag `-y`. */
  lemma SpacedFlagApart(p: string, q: string)
    requires |p| == 3 && |q| == 2 && p[0] == ' ' && p[1] == '-' && q[0] == '-'
    requires p[2] != q[1] && p[2] != '-' && p[2] != ' ' && q[1] != ' '
    ensures NoOverlap(p, q)
  {
    assert !Compatible(p[0..], q) by { assert p[0..][0] != q[0]; }
    assert !Compatible(p[1..], q) by { assert p[1..][1] != q[1]; }
    assert !Compatible(p[2..], q) by { assert p[2..][0] != q[0]; }
    assert !Compatible(q[1..], p) by { assert q[1..][0] != p[0]; }
  }

  /** Two different spaced flags ` -x` and ` -y` never share a character. */
  lemma SpacedFlagsApart(p: string, q: string)
    requires |p| == 3 && |q| == 3 && p[0] == ' ' && p[1] == '-' && q[0] == ' ' && q[1] == '-'
    requires p[2] != q[2] && p[2] != '-' && p[2] != ' ' && q[2] != '-' && q[2] != ' '
    ensures NoOverlap(p, q)
  {
    assert !Compatible(p[0..], q) by { assert p[0..][2] != q[2]; }
    assert !Compatible(p[1..], q) by { assert p[1..][0] != q[0]; }
    assert !Compatible(p[2..], q) by { assert p[2..][0] != q[0]; }
    assert !Compatible(q[1..], p) by { assert q[1..][0] != p[0]; }
    assert !Compatible(q[2..], p) by { assert q[2..][0] != p[0]; }
  }

  /** The qualifier a level puts before the success and failure phrases. */
  function Label(level: Level): string {
    match level
    case Normal => ""
    case Hard => "困难"
    case Extreme => "极难"
  }

  /**
   * `check_success`: the threshold is the target floor-divided by 2 (hard) or
   * 5 (extreme), and the check passes iff the total does not exceed it.
   */
  function CheckSuccess(target: int, total: int, level: Level): (r: (bool, int))
    ensures level == Normal ==> r.1 == target
    ensures level == Hard ==> 2 * r.1 <= target < 2 * r.1 + 2
    ensures level == Extreme ==> 5 * r.1 <= target < 5 * r.1 + 5
    ensures r.0 <==> total <= r.1
  {
    var threshold :=
      match level
      case Normal => target
      case Hard => target / 2
      case Extreme => target / 5;
    (total <= threshold, threshold)
  }

  /** For a non-negative target a harder level only lowers the threshold. */
  lemma HarderIsStricter(target: int, total: int)
    requires target >= 0
    ensures CheckSuccess(target, total, Extreme).1 <= CheckSuccess(target, total, Hard).1
    ensures CheckSuccess(target, total, Hard).1 <= CheckSuccess(target, total, Normal).1
    ensures CheckSuccess(target, total, Extreme).0 ==> CheckSuccess(target, total, Hard).0
    ensures CheckSuccess(target, total, Hard).0 ==> CheckSuccess(target, total, Normal).0
  {
  }

  /** Floor division rounds a negative target down, so there a hard check can pass where a normal one fails. */
  lemma NegativeTargetFloors()
    ensures CheckSuccess(-3, -2, Hard) == (true, -2)
    ensures CheckSuccess(-3, -2, Normal) == (false, -3)
  {
  }
}
