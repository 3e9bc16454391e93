/**
 * The dice pattern `(\d*)d(\d+)([+-]\d+)?` of `roll_dice`, matched with
 * `re.match` at the start of a text: what it finds, and that what it finds is
 * the only greedy match there.
 */
module Pattern {
  import opened Wrappers
  import opened Text

  /** The three groups of the dice pattern; an absent group is the empty text. */
  datatype DiceMatch = DiceMatch(countText: string, sidesText: string, modText: string)
  {
    predicate Valid() {
      AllDigits(countText) && |sidesText| > 0 && AllDigits(sidesText) &&
      (modText == [] ||
       (|modText| >= 2 && (modText[0] == '+' || modText[0] == '-') && AllDigits(modText[1..])))
    }

    /** The text the pattern consumed. */
    function Span(): string {
      countText + "d" + sidesText + modText
    }

    /** The number of dice: 1 only when the count digits are absent. */
    function Count(): nat
      requires Valid()
    {
      if countText == [] then 1 else DigitsValue(countText)
    }

    function Sides(): nat
      requires Valid()
    {
      DigitsValue(sidesText)
    }

    /** The signed modifier, 0 when the group is absent. */
    function Modifier(): int
      requires Valid()
    {
      if modText == [] then 0
      else
        var magnitude: int := DigitsValue(modText[1..]);
        if modText[0] == '-' then -magnitude else magnitude
    }
  }

  /** Every group took as many characters as it could: what follows the match cannot extend it. */
  predicate Maximal(text: string, m: DiceMatch) {
    var k := |m.Span()|;
    (k < |text| ==> !IsDigit(text[k])) &&
    (m.modText == [] ==> !(k + 1 < |text| && (text[k] == '+' || text[k] == '-') && IsDigit(text[k + 1])))
  }

  /** The length of the optional group `[+-]\d+` at index `k` of `text`: 0 when it is absent. */
  function ModifierLength(text: string, k: nat): (c: nat)
    requires k <= |text|
    ensures k + c <= |text|
    ensures c == 0 ==> !(k + 1 < |text| && (text[k] == '+' || text[k] == '-') && IsDigit(text[k + 1]))
    ensures c > 0 ==>
      c >= 2 && (text[k] == '+' || text[k] == '-') && DigitsIn(text, k + 1, k + c) &&
      (k + c == |text| || !IsDigit(text[k + c]))
  {
    if k + 1 < |text| && (text[k] == '+' || text[k] == '-') && IsDigit(text[k + 1]) then
      1 + DigitsFrom(text, k + 1)
    else 0
  }

  /**
   * The pattern read at fixed positions: digits before the `d` at index `a`,
   * digits from `a + 1` up to `k`, then a modifier of length `c`, each group
   * as long as it can be.
   */
  predicate GroupsAt(text: string, a: nat, k: nat, c: nat) {
    a + 1 < k <= |text| && k + c <= |text| && text[a] == 'd' &&
    DigitsIn(text, 0, a) && DigitsIn(text, a + 1, k) && (k == |text| || !IsDigit(text[k])) &&
    (c == 0 ==> !(k + 1 < |text| && (text[k] == '+' || text[k] == '-') && IsDigit(text[k + 1]))) &&
    (c > 0 ==>
      c >= 2 && (text[k] == '+' || text[k] == '-') && DigitsIn(text, k + 1, k + c) &&
      (k + c == |text| || !IsDigit(text[k + c])))
  }

  /**
   * Where `re.match` ends the groups of the pattern in `text`: the index `a`
   * of the `d`, the end `k` of the sides and the length `c` of the modifier.
   */
  function Groups(text: string): (r: Option<(nat, nat, nat)>)
    ensures r.Some? ==> GroupsAt(text, r.value.0, r.value.1, r.value.2)
  {
    var a := DigitsFrom(text, 0);
    if a + 1 < |text| && text[a] == 'd' && IsDigit(text[a + 1]) then
      var k := a + 1 + DigitsFrom(text, a + 1);
      Some((a, k, ModifierLength(text, k)))
    else None
  }

  /** Groups that can be read at positions `a`, `k`, `c` are the ones found there. */
  lemma GroupsUnique(text: string, a: nat, k: nat, c: nat)
    requires GroupsAt(text, a, k, c)
    ensures Groups(text) == Some((a, k, c))
  {
    DigitsFromIs(text, 0, a);
    DigitsFromIs(text, a + 1, k);
    if c > 0 {
      DigitsFromIs(text, k + 1, k + c);
    }
    assert ModifierLength(text, k) == c;
  }

  /** The three groups of a text cut at `a` (the `d`), `k` (end of the sides) and `k + c` (end of the modifier). */
  function Cut(text: string, a: nat, k: nat, c: nat): DiceMatch
    requires a < k <= k + c <= |text|
  {
    DiceMatch(text[..a], text[a + 1..k], text[k..k + c])
  }

  /** Groups read at their positions satisfy the pattern. */
  lemma CutValid(text: string, a: nat, k: nat, c: nat)
    requires GroupsAt(text, a, k, c)
    ensures Cut(text, a, k, c).Valid()
  {
    DigitsSlice(text, 0, a);
    DigitsSlice(text, a + 1, k);
    if c > 0 {
      DigitsSlice(text, k + 1, k + c);
      assert text[k..k + c][1..] == text[k + 1..k + c];
    }
  }

  /** The text consumed by groups cut at `a`, `k` and `k + c` is the prefix of length `k + c`. */
  lemma CutSpan(text: string, a: nat, k: nat, c: nat)
    requires a < k <= k + c <= |text| && text[a] == 'd'
    ensures Cut(text, a, k, c).Span() == text[..k + c]
  {
    assert text[..a] + "d" + text[a + 1..k] + text[k..k + c] == text[..k + c];
  }

  /** Groups read at their positions cannot be extended by what follows them. */
  lemma CutMaximal(text: string, a: nat, k: nat, c: nat)
    requires GroupsAt(text, a, k, c)
    ensures StartsWith(text, Cut(text, a, k, c).Span()) && Maximal(text, Cut(text, a, k, c))
  {
    CutSpan(text, a, k, c);
    assert |Cut(text, a, k, c).Span()| == k + c;
    assert Cut(text, a, k, c).modText == [] <==> c == 0;
  }

  /** `re.match(r'(\d*)d(\d+)([+-]\d+)?', text)`: the greedy match at the start of `text`, if any. */
  function MatchDice(text: string): Option<DiceMatch> {
    match Groups(text)
    case None => None
    case Some(g) => Some(Cut(text, g.0, g.1, g.2))
  }

  /** Whenever the groups can be read at positions `a`, `k`, `c`, those are the ones the match takes. */
  lemma MatchAt(text: string, a: nat, k: nat, c: nat)
    requires GroupsAt(text, a, k, c)
    ensures MatchDice(text) == Some(Cut(text, a, k, c))
  {
    GroupsUnique(text, a, k, c);
  }

  /** Every match found has digits where the pattern demands them. */
  lemma MatchDiceValid(text: string)
    requires MatchDice(text).Some?
    ensures MatchDice(text).value.Valid()
  {
    var g := Groups(text).value;
    CutValid(text, g.0, g.1, g.2);
  }

  /** A match found is a prefix of the text, and no group could have taken more. */
  lemma MatchDiceSound(text: string)
    requires MatchDice(text).Some?
    ensures StartsWith(text, MatchDice(text).value.Span()) && Maximal(text, MatchDice(text).value)
  {
    var g := Groups(text).value;
    CutMaximal(text, g.0, g.1, g.2);
  }

  /** The pattern matches whenever the text starts with digits, `d` and a digit. */
  lemma MatchDiceFinds(text: string, a: nat)
    requires a + 1 < |text| && AllDigits(text[..a]) && text[a] == 'd' && IsDigit(text[a + 1])
    ensures MatchDice(text).Some? && MatchDice(text).value.countText == text[..a]
  {
    DigitsSlice(text, 0, a);
    assert text[0..a] == text[..a];
    DigitsFromIs(text, 0, a);
  }

  /** The pieces of a span, read back by position. */
  lemma SpanSlices(m: DiceMatch)
    ensures var s := m.Span(); var a := |m.countText|; var k := a + 1 + |m.sidesText|;
      |s| == k + |m.modText| && s[..a] == m.countText && s[a] == 'd' &&
      s[a + 1..k] == m.sidesText && s[k..] == m.modText
  {
  }

  /** A text that starts with the span of `m` holds its groups at their positions. */
  lemma SpanCut(text: string, m: DiceMatch)
    requires StartsWith(text, m.Span())
    ensures var a := |m.countText|; var k := a + 1 + |m.sidesText|;
      k + |m.modText| <= |text| && text[a] == 'd' && m == Cut(text, a, k, |m.modText|)
  {
    var a := |m.countText|;
    var k := a + 1 + |m.sidesText|;
    var n := k + |m.modText|;
    var s := m.Span();
    SpanSlices(m);
    var t := text[..n];
    assert t == s;
    assert text[..a] == t[..a];
    assert text[a + 1..k] == t[a + 1..k];
    assert text[k..n] == t[k..];
    assert text[a] == t[a];
  }

  /** The groups of a valid match that no group could extend are read at their positions. */
  lemma CutGroups(text: string, a: nat, k: nat, c: nat)
    requires a < k <= k + c <= |text| && text[a] == 'd'
    requires Cut(text, a, k, c).Valid() && Maximal(text, Cut(text, a, k, c))
    ensures GroupsAt(text, a, k, c)
  {
    DigitsSlice(text, 0, a);
    assert text[0..a] == text[..a];
    DigitsSlice(text, a + 1, k);
    if c > 0 {
      assert text[k..k + c][1..] == text[k + 1..k + c];
      DigitsSlice(text, k + 1, k + c);
    }
    CutSpan(text, a, k, c);
    assert |Cut(text, a, k, c).Span()| == k + c;
  }

  /** A valid, maximal match at the start of `text` is the one the pattern finds. */
  lemma MatchDiceUnique(text: string, m: DiceMatch)
    requires m.Valid() && StartsWith(text, m.Span()) && Maximal(text, m)
    ensures MatchDice(text) == Some(m)
  {
    var a := |m.countText|;
    var k := a + 1 + |m.sidesText|;
    var c := |m.modText|;
    SpanCut(text, m);
    CutGroups(text, a, k, c);
    MatchAt(text, a, k, c);
  }

  /** Text after the match is ignored: the matched prefix alone gives the same groups. */
  lemma MatchIgnoresTail(text: string)
    requires MatchDice(text).Some?
    ensures MatchDice(MatchDice(text).value.Span()) == MatchDice(text)
  {
    var m := MatchDice(text).value;
    MatchDiceValid(text);
    assert StartsWith(m.Span(), m.Span());
    MatchDiceUnique(m.Span(), m);
  }
}
