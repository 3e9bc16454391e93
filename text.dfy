/**
 * The part of Python's `str` behaviour the dice engine relies on: substring
 * search, `replace(p, '')`, `strip()`, `split(c)`, `sep.join(parts)`, `str(n)`
 * and `int(s)`.  Whitespace is the six ASCII whitespace characters (Python's
 * `\s` and `strip()` also take `\x1c` to `\x1f`, which are not modelled) and
 * digits are the ASCII digits.
 */
module Text {
  import opened Wrappers

  predicate IsDigit(c: char) { '0' <= c <= '9' }

  /** Space, tab, line feed, carriage return, vertical tab and form feed. */
  predicate IsSpace(c: char) {
    c == ' ' || c == '\t' || c == '\n' || c == '\r' || c == '\U{B}' || c == '\U{C}'
  }

  /** Every character of `s` is a decimal digit, read from the last one back. */
  predicate AllDigits(s: string) {
    |s| == 0 || (AllDigits(s[..|s| - 1]) && IsDigit(s[|s| - 1]))
  }

  predicate NoSpace(s: string) { forall i :: 0 <= i < |s| ==> !IsSpace(s[i]) }

  predicate StartsWith(s: string, p: string) { |p| <= |s| && s[..|p|] == p }

  /** Python's `s.endswith(p)`. */
  predicate EndsWith(s: string, p: string) { |p| <= |s| && s[|s| - |p|..] == p }

  /** Text put in front keeps the ending. */
  lemma EndsWithAppend(a: string, b: string, p: string)
    requires EndsWith(b, p)
    ensures EndsWith(a + b, p)
  {
    assert (a + b)[|a + b| - |p|..] == b[|b| - |p|..];
  }

  /** A text ending in `p` ends in every tail of `p`, and in no other text as short. */
  lemma EndsWithBoth(s: string, p: string, q: string)
    requires EndsWith(s, p) && EndsWith(s, q) && |q| <= |p|
    ensures p[|p| - |q|..] == q
  {
    assert p[|p| - |q|..] == s[|s| - |q|..];
  }

  /** A text starts with two given characters exactly when its first two are those. */
  lemma StartsWithPair(s: string, a: char, b: char)
    ensures StartsWith(s, [a, b]) <==> |s| >= 2 && s[0] == a && s[1] == b
  {
    if |s| >= 2 && s[0] == a && s[1] == b {
      assert s[..2] == [a, b];
    }
  }

  /** `p` occurs in `s` starting at index `i`. */
  predicate OccursAt(s: string, p: string, i: int) {
    0 <= i && i + |p| <= |s| && s[i..i + |p|] == p
  }

  /** Python's `p in s`. */
  predicate Contains(s: string, p: string)
    decreases |s|
  {
    StartsWith(s, p) || (|s| > 0 && Contains(s[1..], p))
  }

  lemma {:induction false} ContainsAt(s: string, p: string, i: int)
    requires OccursAt(s, p, i)
    ensures Contains(s, p)
    decreases i
  {
    if i > 0 {
      ContainsAt(s[1..], p, i - 1);
    } else {
      assert StartsWith(s, p);
    }
  }

  lemma {:induction false} ContainsWitness(s: string, p: string) returns (i: nat)
    requires Contains(s, p)
    ensures OccursAt(s, p, i)
    decreases |s|
  {
    if StartsWith(s, p) {
      i := 0;
    } else {
      var j := ContainsWitness(s[1..], p);
      i := j + 1;
      assert s[1..][j..j + |p|] == s[i..i + |p|];
    }
  }

  /** Python's `p in s` in the index form: some occurrence exists. */
  lemma ContainsIff(s: string, p: string)
    ensures Contains(s, p) <==> exists i :: OccursAt(s, p, i)
  {
    if Contains(s, p) {
      var i := ContainsWitness(s, p);
    }
    if exists i :: OccursAt(s, p, i) {
      var i :| OccursAt(s, p, i);
      ContainsAt(s, p, i);
    }
  }

  /** A pattern holding a character the text lacks does not occur in it. */
  lemma MissingChar(s: string, p: string, k: nat)
    requires k < |p| && p[k] !in s
    ensures !Contains(s, p)
  {
    forall i | 0 <= i
      ensures !OccursAt(s, p, i)
    {
      if i + |p| <= |s| {
        assert s[i..i + |p|][k] == s[i + k];
      }
    }
    ContainsIff(s, p);
  }

  /** Deleting `p` from `x + p` leaves `x` when `x` lacks the first character of `p`. */
  lemma RemoveTrailing(x: string, p: string)
    requires |p| > 0 && p[0] !in x
    ensures RemoveAll(x + p, p) == x
  {
    var s := x + p;
    assert NoMatchBefore(s, p, |x|) by {
      forall j | 0 <= j < |x|
        ensures !StartsWith(s[j..], p)
      {
        assert s[j..][0] == x[j];
      }
    }
    RemoveAllKeepsPrefix(s, p, |x|);
    assert s[|x|..] == p && s[..|x|] == x;
    assert RemoveAll(p, p) == RemoveAll(p[|p|..], p);
  }

  /**
   * Deleting `p` from `x + p` leaves `x` when some character of `p` is absent
   * from `x` and differs from every character of `p` before it.
   */
  lemma RemoveTrailingAt(x: string, p: string, k: nat)
    requires k < |p| && p[k] !in x
    requires forall i :: 0 <= i < k ==> p[i] != p[k]
    ensures RemoveAll(x + p, p) == x
  {
    var s := x + p;
    assert NoMatchBefore(s, p, |x|) by {
      forall j | 0 <= j < |x|
        ensures !StartsWith(s[j..], p)
      {
        if j + k < |x| {
          assert s[j + k] == x[j + k];
        } else {
          assert s[j + k] == p[j + k - |x|];
        }
        assert s[j..][k] != p[k];
      }
    }
    RemoveAllKeepsPrefix(s, p, |x|);
    assert s[|x|..] == p && s[..|x|] == x;
    assert RemoveAll(p, p) == RemoveAll(p[|p|..], p);
  }

  /**
   * Python's `s.replace(p, '')`: scanning from the left, every occurrence of
   * `p` that does not overlap an earlier removed one is deleted.
   */
  function RemoveAll(s: string, p: string): (r: string)
    requires |p| > 0
    ensures |r| <= |s|
    decreases |s|
  {
    if |s| == 0 then []
    else if StartsWith(s, p) then RemoveAll(s[|p|..], p)
    else [s[0]] + RemoveAll(s[1..], p)
  }

  /** Removing a pattern that does not occur changes nothing. */
  lemma {:induction false} RemoveAllAbsent(s: string, p: string)
    requires |p| > 0 && !Contains(s, p)
    ensures RemoveAll(s, p) == s
    decreases |s|
  {
    if |s| > 0 {
      RemoveAllAbsent(s[1..], p);
    }
  }

  /** Deleting a pattern never brings in a character the text lacks. */
  lemma {:induction false} RemoveAllWithout(s: string, p: string, d: char)
    requires |p| > 0 && d !in s
    ensures d !in RemoveAll(s, p)
    decreases |s|
  {
    if |s| > 0 {
      if StartsWith(s, p) {
        assert forall k :: 0 <= k < |s| - |p| ==> s[|p|..][k] == s[|p| + k];
        RemoveAllWithout(s[|p|..], p, d);
      } else {
        assert forall k :: 0 <= k < |s| - 1 ==> s[1..][k] == s[1 + k];
        RemoveAllWithout(s[1..], p, d);
      }
    }
  }

  /** No occurrence of `p` starts among the first `n` characters of `s`. */
  predicate NoMatchBefore(s: string, p: string, n: nat) {
    forall j :: 0 <= j < n && j <= |s| ==> !StartsWith(s[j..], p)
  }

  /** Where no occurrence of `p` starts in the first `n` characters, they are kept as they are. */
  lemma {:induction false} RemoveAllKeepsPrefix(s: string, p: string, n: nat)
    requires |p| > 0 && n <= |s|
    requires NoMatchBefore(s, p, n)
    ensures RemoveAll(s, p) == s[..n] + RemoveAll(s[n..], p)
    decreases n
  {
    if n > 0 {
      var t := s[1..];
      FirstKept(s, p, n);
      NoMatchBeforeTail(s, p, n);
      RemoveAllKeepsPrefix(t, p, n - 1);
      assert t[n - 1..] == s[n..];
      calc {
        RemoveAll(s, p);
        [s[0]] + RemoveAll(t, p);
        [s[0]] + (t[..n - 1] + RemoveAll(s[n..], p));
        { assert [s[0]] + t[..n - 1] == s[..n]; }
        s[..n] + RemoveAll(s[n..], p);
      }
    }
  }

  lemma FirstKept(s: string, p: string, n: nat)
    requires |p| > 0 && 0 < n <= |s| && NoMatchBefore(s, p, n)
    ensures RemoveAll(s, p) == [s[0]] + RemoveAll(s[1..], p)
  {
    assert s[0..] == s;
  }

  lemma NoMatchBeforeTail(s: string, p: string, n: nat)
    requires 0 < n <= |s| && NoMatchBefore(s, p, n)
    ensures NoMatchBefore(s[1..], p, n - 1)
  {
    var t := s[1..];
    forall j | 0 <= j < n - 1 && j <= |t|
      ensures !StartsWith(t[j..], p)
    {
      assert t[j..] == s[j + 1..];
    }
  }

  /** One of `x`, `y` is a prefix of the other: they agree wherever both are defined. */
  predicate Compatible(x: string, y: string) { StartsWith(x, y) || StartsWith(y, x) }

  /** No occurrence of `p` can share a character with an occurrence of `q`. */
  predicate NoOverlap(p: string, q: string) {
    (forall k :: 0 <= k < |p| ==> !Compatible(p[k..], q)) &&
    (forall k :: 0 < k < |q| ==> !Compatible(q[k..], p))
  }

  /** Two occurrences whose spans intersect agree on the shared characters. */
  lemma OverlapCompatible(s: string, p: string, q: string, j: nat, i: nat)
    requires j <= i < j + |p| && i <= |s|
    requires StartsWith(s[j..], p) && StartsWith(s[i..], q)
    ensures Compatible(p[i - j..], q)
  {
    if |q| <= |p| - (i - j) {
      assert p[i - j..][..|q|] == s[i..i + |q|];
    } else {
      assert q[..|p| - (i - j)] == s[i..j + |p|] == p[i - j..];
    }
  }

  /**
   * Deleting the occurrences of `p` keeps every occurrence of a pattern `q`
   * that cannot overlap `p`.
   */
  lemma {:induction false} RemoveAllKeepsOther(s: string, p: string, q: string, i: int)
    requires |p| > 0 && |q| > 0 && NoOverlap(p, q)
    requires OccursAt(s, q, i)
    ensures Contains(RemoveAll(s, p), q)
    decreases |s|
  {
    if StartsWith(s, p) {
      if i < |p| {
        assert s[0..] == s;
        OverlapCompatible(s, p, q, 0, i);
        assert false;
      }
      assert s[|p|..][i - |p|..i - |p| + |q|] == s[i..i + |q|];
      RemoveAllKeepsOther(s[|p|..], p, q, i - |p|);
    } else if i > 0 {
      assert s[1..][i - 1..i - 1 + |q|] == s[i..i + |q|];
      RemoveAllKeepsOther(s[1..], p, q, i - 1);
      ContainsAfter(s[0], RemoveAll(s[1..], p), q);
    } else {
      KeptAtFront(s, p, q);
    }
  }

  /** A text found in `x` is found in `[c] + x`. */
  lemma ContainsAfter(c: char, x: string, q: string)
    requires Contains(x, q)
    ensures Contains([c] + x, q)
  {
    assert ([c] + x)[1..] == x;
  }

  /** An occurrence of `q` at the front, overlapping no `p`, is still at the front once `p` is deleted. */
  lemma KeptAtFront(s: string, p: string, q: string)
    requires |p| > 0 && |q| > 0 && NoOverlap(p, q)
    requires OccursAt(s, q, 0) && !StartsWith(s, p)
    ensures Contains(RemoveAll(s, p), q)
  {
    assert s[0..] == s;
    forall j | 0 < j < |q| && j <= |s|
      ensures !StartsWith(s[j..], p)
    {
      if StartsWith(s[j..], p) {
        OverlapCompatible(s, q, p, 0, j);
        assert false;
      }
    }
    assert NoMatchBefore(s, p, |q|);
    RemoveAllKeepsPrefix(s, p, |q|);
    assert StartsWith(RemoveAll(s, p), q);
  }

  /** Drops leading whitespace. */
  function TrimStart(s: string): (r: string)
    ensures |r| <= |s| && r == s[|s| - |r|..]
    ensures r == [] || !IsSpace(r[0])
    ensures forall k :: 0 <= k < |s| - |r| ==> IsSpace(s[k])
    decreases |s|
  {
    if |s| > 0 && IsSpace(s[0]) then TrimStart(s[1..]) else s
  }

  /** Drops trailing whitespace. */
  function TrimEnd(s: string): (r: string)
    ensures |r| <= |s| && r == s[..|r|]
    ensures r == [] || !IsSpace(r[|r| - 1])
    ensures forall k :: |r| <= k < |s| ==> IsSpace(s[k])
    decreases |s|
  {
    if |s| > 0 && IsSpace(s[|s| - 1]) then TrimEnd(s[..|s| - 1]) else s
  }

  /** Python's `s.strip()`. */
  function Strip(s: string): (r: string)
    ensures |r| <= |s|
    ensures r == [] || (!IsSpace(r[0]) && !IsSpace(r[|r| - 1]))
  {
    TrimEnd(TrimStart(s))
  }

  /**
   * What `strip()` keeps: a slice `s[i..j]` with nothing but whitespace
   * before it and after it.
   */
  lemma StripSlice(s: string) returns (i: nat, j: nat)
    ensures i <= j <= |s| && Strip(s) == s[i..j]
    ensures SpacesIn(s, 0, i) && SpacesIn(s, j, |s|)
  {
    var t := TrimStart(s);
    var r := TrimEnd(t);
    i := |s| - |t|;
    j := i + |r|;
    SpacesEach(s, 0, i);
    TrailingRun(s, t, i, r);
    SliceOfSlice(s, i, |r|);
  }

  /** `TrimEnd` keeps a prefix of the tail `t` of `s`, and the rest of `s` is whitespace. */
  lemma TrailingRun(s: string, t: string, i: nat, r: string)
    requires i + |t| == |s| && t == s[i..] && r == TrimEnd(t)
    ensures r == t[..|r|] && i + |r| <= |s|
    ensures SpacesIn(s, i + |r|, |s|)
  {
    TrimEndRun(s, t, i + |r|);
  }

  /** A stretch of whitespace characters is a run of whitespace. */
  lemma {:induction false} SpacesEach(s: string, i: nat, j: nat)
    requires i <= j <= |s| && forall k :: i <= k < j ==> IsSpace(s[k])
    ensures SpacesIn(s, i, j)
    decreases j - i
  {
    if i < j {
      SpacesEach(s, i + 1, j);
    }
  }

  lemma SliceOfSlice(s: string, i: nat, n: nat)
    requires i + n <= |s|
    ensures s[i..][..n] == s[i..i + n]
  {
  }

  /** The characters `TrimEnd` drops from the tail `t` of `s` form a run of whitespace in `s`. */
  lemma {:induction false} TrimEndRun(s: string, t: string, j: nat)
    requires |t| <= |s| && t == s[|s| - |t|..]
    requires |s| - |t| + |TrimEnd(t)| <= j <= |s|
    ensures SpacesIn(s, j, |s|)
    decreases |s| - j
  {
    if j < |s| {
      assert s[j] == t[j - (|s| - |t|)];
      TrimEndRun(s, t, j + 1);
    }
  }

  /** Trailing whitespace comes off with the rest: stripping ignores it. */
  lemma StripTrailingSpace(x: string, c: char)
    requires IsSpace(c)
    ensures Strip(x + [c]) == Strip(x)
  {
    TrimStartSpace(x, c);
    var t := TrimStart(x);
    if t != [] {
      assert (t + [c])[..|t|] == t;
    }
  }

  lemma {:induction false} TrimStartSpace(x: string, c: char)
    requires IsSpace(c)
    ensures TrimStart(x + [c]) == if TrimStart(x) == [] then [] else TrimStart(x) + [c]
    decreases |x|
  {
    if |x| > 0 && IsSpace(x[0]) {
      assert (x + [c])[1..] == x[1..] + [c];
      TrimStartSpace(x[1..], c);
    } else if |x| == 0 {
      assert TrimStart([c]) == TrimStart([c][1..]);
    }
  }

  /** Stripping never brings in a character the text lacks. */
  lemma StripWithout(s: string, d: char)
    requires d !in s
    ensures d !in Strip(s)
  {
    var t := TrimStart(s);
    var u := TrimEnd(t);
    forall k | 0 <= k < |u|
      ensures u[k] != d
    {
      assert u[k] == t[k] == s[|s| - |t| + k];
    }
  }

  /** Stripping text that has no whitespace at either end changes nothing. */
  lemma StripTrimmed(s: string)
    requires s == [] || (!IsSpace(s[0]) && !IsSpace(s[|s| - 1]))
    ensures Strip(s) == s
  {
  }

  lemma TrimStartKeeps(s: string, q: string, i: int)
    requires |q| > 0 && NoSpace(q) && OccursAt(s, q, i)
    ensures OccursAt(TrimStart(s), q, i - (|s| - |TrimStart(s)|))
  {
    var t := TrimStart(s);
    var d := |s| - |t|;
    assert s[i] == q[0] by { assert s[i..i + |q|][0] == s[i]; }
    assert !IsSpace(s[i]);
    assert d <= i;
    assert t == s[d..];
    SliceShift(s, d, i - d, |q|);
  }

  lemma SliceShift(s: string, d: nat, a: nat, n: nat)
    requires d + a + n <= |s|
    ensures s[d..][a..a + n] == s[d + a..d + a + n]
  {
  }

  lemma TrimEndKeeps(s: string, q: string, i: int)
    requires |q| > 0 && NoSpace(q) && OccursAt(s, q, i)
    ensures OccursAt(TrimEnd(s), q, i)
  {
    var u := TrimEnd(s);
    var e := i + |q| - 1;
    assert s[e] == q[|q| - 1] by { assert s[i..i + |q|][|q| - 1] == s[e]; }
    assert !IsSpace(s[e]);
    assert e < |u|;
    assert u[i..i + |q|] == s[i..i + |q|];
  }

  /** Stripping keeps every occurrence of a pattern that holds no whitespace. */
  lemma StripKeeps(s: string, q: string)
    requires |q| > 0 && NoSpace(q) && Contains(s, q)
    ensures Contains(Strip(s), q)
  {
    var i := ContainsWitness(s, q);
    var t := TrimStart(s);
    TrimStartKeeps(s, q, i);
    var k := i - (|s| - |t|);
    TrimEndKeeps(t, q, k);
    var u := TrimEnd(t);
    assert u == Strip(s);
    ContainsAt(u, q, k);
  }

  /** Python's `sep.join(parts)`. */
  function Join(parts: seq<string>, sep: string): string
  {
    if |parts| == 0 then []
    else if |parts| == 1 then parts[0]
    else parts[0] + sep + Join(parts[1..], sep)
  }

  /** Python's `s.split(c)` for a separator of one character. */
  function Split(s: string, c: char): (parts: seq<string>)
    ensures |parts| >= 1
    ensures forall k :: 0 <= k < |parts| ==> c !in parts[k]
    ensures Join(parts, [c]) == s
    decreases |s|
  {
    if |s| == 0 then [[]]
    else
      var tail := Split(s[1..], c);
      if s[0] == c then [[]] + tail
      else
        assert Join([[s[0]] + tail[0]] + tail[1..], [c]) == [s[0]] + Join(tail, [c]);
        [[s[0]] + tail[0]] + tail[1..]
  }

  lemma {:induction false} SplitAfterFirst(x: string, c: char, y: string)
    requires c !in x
    ensures Split(x + [c] + y, c) == [x] + Split(y, c)
    decreases |x|
  {
    if |x| == 0 {
      assert x + [c] + y == [c] + y;
      assert ([c] + y)[1..] == y;
    } else {
      assert (x + [c] + y)[1..] == x[1..] + [c] + y;
      SplitAfterFirst(x[1..], c, y);
      assert [x[0]] + x[1..] == x;
    }
  }

  /** Text without the separator splits into itself alone. */
  lemma {:induction false} SplitWithout(s: string, c: char)
    requires c !in s
    ensures Split(s, c) == [s]
    decreases |s|
  {
    if |s| > 0 {
      SplitWithout(s[1..], c);
      assert [s[0]] + s[1..] == s;
    }
  }

  /** Splitting undoes joining, when no part holds the separator. */
  lemma {:induction false} SplitJoin(parts: seq<string>, c: char)
    requires |parts| >= 1
    requires forall k :: 0 <= k < |parts| ==> c !in parts[k]
    ensures Split(Join(parts, [c]), c) == parts
    decreases |parts|
  {
    if |parts| == 1 {
      SplitWithout(parts[0], c);
    } else {
      SplitJoin(parts[1..], c);
      assert parts[0] + [c] + Join(parts[1..], [c]) == Join(parts, [c]);
      SplitAfterFirst(parts[0], c, Join(parts[1..], [c]));
      assert [parts[0]] + parts[1..] == parts;
    }
  }

  /** A character absent from a text is absent from every part of its split. */
  lemma {:induction false} SplitPartsWithout(s: string, c: char, d: char)
    requires d !in s
    ensures forall i :: 0 <= i < |Split(s, c)| ==> d !in Split(s, c)[i]
    decreases |s|
  {
    if |s| > 0 {
      SplitPartsWithout(s[1..], c, d);
    }
  }

  /** Joining lines free of the separator adds exactly the separators between them. */
  lemma {:induction false} JoinChars(parts: seq<string>, c: char, d: char)
    requires d != c
    requires forall k :: 0 <= k < |parts| ==> d !in parts[k]
    ensures d !in Join(parts, [c])
    decreases |parts|
  {
    if |parts| > 1 {
      JoinChars(parts[1..], c, d);
    }
  }

  function DigitValue(c: char): nat
    requires IsDigit(c)
  {
    (c as int) - ('0' as int)
  }

  function DigitChar(d: nat): (c: char)
    requires d < 10
    ensures IsDigit(c) && DigitValue(c) == d
  {
    (('0' as int) + d) as char
  }

  /** The value of a run of decimal digits. */
  function DigitsValue(s: string): nat
    requires AllDigits(s)
  {
    if |s| == 0 then 0 else DigitsValue(s[..|s| - 1]) * 10 + DigitValue(s[|s| - 1])
  }

  /** Python's `str(n)` for a non-negative integer: its decimal digits without leading zeros. */
  function NatToString(n: nat): (r: string)
    ensures |r| >= 1 && AllDigits(r)
    ensures DigitsValue(r) == n
    ensures r[0] == '0' ==> r == "0"
  {
    if n < 10 then [DigitChar(n)]
    else
      var r := NatToString(n / 10) + [DigitChar(n % 10)];
      assert r[..|r| - 1] == NatToString(n / 10);
      r
  }

  /** Python's `str(i)` for an integer. */
  function IntToString(i: int): (r: string)
    ensures |r| >= 1
    ensures forall k :: 0 <= k < |r| ==> IsDigit(r[k]) || r[k] == '-'
  {
    var d := NatToString(if i < 0 then -i else i);
    DigitsEach(d);
    if i < 0 then "-" + d else d
  }

  /** The decimal text of a number holds nothing but digits. */
  lemma NatWithout(n: nat, d: char)
    requires !IsDigit(d)
    ensures d !in NatToString(n)
  {
    DigitsEach(NatToString(n));
  }

  /** The decimal text of an integer holds nothing but digits and the minus sign. */
  lemma IntWithout(i: int, d: char)
    requires !IsDigit(d) && d != '-'
    ensures d !in IntToString(i)
  {
    var s := IntToString(i);
    assert forall k :: 0 <= k < |s| ==> s[k] != d;
  }

  /** Every character of `s` from index `i` up to `j` is a digit, read from index `i` on. */
  predicate DigitsIn(s: string, i: nat, j: nat)
    requires i <= j <= |s|
    decreases j - i
  {
    i == j || (IsDigit(s[i]) && DigitsIn(s, i + 1, j))
  }

  /** The same run read from its last character back. */
  lemma {:induction false} DigitsInLast(s: string, i: nat, j: nat)
    requires i < j <= |s|
    ensures DigitsIn(s, i, j) <==> DigitsIn(s, i, j - 1) && IsDigit(s[j - 1])
    decreases j - i
  {
    if i + 1 < j {
      DigitsInLast(s, i + 1, j);
    }
  }

  /** The length of the run of digits that starts at index `i`: what a greedy `\d*` takes there. */
  function DigitsFrom(s: string, i: nat): (n: nat)
    requires i <= |s|
    ensures i + n <= |s| && DigitsIn(s, i, i + n)
    ensures i + n == |s| || !IsDigit(s[i + n])
    decreases |s| - i
  {
    if i < |s| && IsDigit(s[i]) then 1 + DigitsFrom(s, i + 1) else 0
  }

  /** The run of digits that starts at index `i`, as a text of its own. */
  function DigitRun(s: string, i: nat): (r: string)
    requires i <= |s|
    ensures AllDigits(r) && r == s[i..i + DigitsFrom(s, i)]
  {
    var n := DigitsFrom(s, i);
    DigitsSlice(s, i, i + n);
    s[i..i + n]
  }

  /** A run of digits ended by a non-digit or by the end of the text is the run `\d*` takes. */
  lemma {:induction false} DigitsFromIs(s: string, i: nat, j: nat)
    requires i <= j <= |s| && DigitsIn(s, i, j)
    requires j == |s| || !IsDigit(s[j])
    ensures DigitsFrom(s, i) == j - i
    decreases j - i
  {
    if i < j {
      DigitsFromIs(s, i + 1, j);
    }
  }

  /** The digits of a stretch of text, taken out as a text of their own. */
  lemma {:induction false} DigitsSlice(s: string, i: nat, j: nat)
    requires i <= j <= |s|
    ensures DigitsIn(s, i, j) <==> AllDigits(s[i..j])
    decreases j - i
  {
    if i < j {
      DigitsSlice(s, i, j - 1);
      DigitsInLast(s, i, j);
      assert s[i..j][..j - i - 1] == s[i..j - 1];
      assert s[i..j][j - i - 1] == s[j - 1];
    }
  }

  /** A text of digits read as a whole. */
  lemma DigitsWhole(s: string)
    ensures DigitsIn(s, 0, |s|) <==> AllDigits(s)
  {
    DigitsSlice(s, 0, |s|);
    assert s[0..|s|] == s;
  }

  /** Each character of a text of digits is a digit. */
  lemma {:induction false} DigitsEach(s: string)
    requires AllDigits(s)
    ensures forall k :: 0 <= k < |s| ==> IsDigit(s[k])
  {
    if |s| > 0 {
      DigitsEach(s[..|s| - 1]);
      assert forall k :: 0 <= k < |s| - 1 ==> s[k] == s[..|s| - 1][k];
    }
  }

  /** Every character of `s` from index `i` up to `j` is whitespace, read from index `i` on. */
  predicate SpacesIn(s: string, i: nat, j: nat)
    requires i <= j <= |s|
    decreases j - i
  {
    i == j || (IsSpace(s[i]) && SpacesIn(s, i + 1, j))
  }

  /** The length of the run of whitespace that starts at index `i`: what a greedy `\s*` takes there. */
  function SpacesFrom(s: string, i: nat): (n: nat)
    requires i <= |s|
    ensures i + n <= |s| && SpacesIn(s, i, i + n)
    ensures i + n == |s| || !IsSpace(s[i + n])
    decreases |s| - i
  {
    if i < |s| && IsSpace(s[i]) then 1 + SpacesFrom(s, i + 1) else 0
  }

  /** A run of whitespace ended by another character or by the end of the text is the run `\s*` takes. */
  lemma {:induction false} SpacesFromIs(s: string, i: nat, j: nat)
    requires i <= j <= |s| && SpacesIn(s, i, j)
    requires j == |s| || !IsSpace(s[j])
    ensures SpacesFrom(s, i) == j - i
    decreases j - i
  {
    if i < j {
      SpacesFromIs(s, i + 1, j);
    }
  }

  /** `k` characters from index `p` are whitespace exactly when the run there is at least `k` long. */
  lemma {:induction false} SpacesRun(s: string, p: nat, k: nat)
    requires p + k <= |s|
    ensures SpacesIn(s, p, p + k) <==> k <= SpacesFrom(s, p)
    decreases k
  {
    if k > 0 {
      SpacesRun(s, p + 1, k - 1);
    }
  }

  /**
   * Python's `int(s)` restricted to ASCII: surrounding whitespace, an optional
   * sign, then one or more decimal digits.
   */
  function ParseInt(s: string): Option<int> {
    var t := Strip(s);
    if |t| > 0 && (t[0] == '+' || t[0] == '-') then
      if |t| > 1 && AllDigits(t[1..]) then
        var magnitude: int := DigitsValue(t[1..]);
        Some(if t[0] == '-' then -magnitude else magnitude)
      else None
    else if |t| > 0 && AllDigits(t) then Some(DigitsValue(t))
    else None
  }

  /** A bare run of digits reads as its decimal value. */
  lemma ParseDigits(s: string)
    requires |s| > 0 && AllDigits(s)
    ensures ParseInt(s) == Some(DigitsValue(s))
  {
    DigitsWhole(s);
    assert IsDigit(s[0]) && IsDigit(s[|s| - 1]);
    StripTrimmed(s);
    assert Strip(s) == s;
  }

  /** `int(str(i)) == i`. */
  lemma ParseIntToString(i: int)
    ensures ParseInt(IntToString(i)) == Some(i)
  {
    var d := NatToString(if i < 0 then -i else i);
    DigitsWhole(d);
    var s := IntToString(i);
    StripTrimmed(s);
    if i < 0 {
      assert s[1..] == d;
    } else {
      assert s == d;
    }
  }

}
