/**
  String helpers the table keywords rely on: prefix tests, substring
  containment (Python's `in` on strings), decimal rendering of naturals
  (Python's `%s` and `%d` on a non-negative int) and splitting at the last
  occurrence of a character.
 */
module Text {
  import opened Wrappers

  /** Python's `s.startswith(prefix)`: `s` is `prefix` followed by something. */
  function StartsWith(s: string, prefix: string): (r: bool)
    ensures r <==> exists rest :: s == prefix + rest
  {
    if |prefix| <= |s| && s[..|prefix|] == prefix then
      assert s == prefix + s[|prefix|..];
      true
    else
      false
  }

  /** `sub` occurs in `s` starting at index `i`. */
  ghost predicate OccursAt(s: string, sub: string, i: int) {
    0 <= i && i + |sub| <= |s| && s[i..i + |sub|] == sub
  }

  lemma OccursAtZero(s: string, sub: string)
    ensures OccursAt(s, sub, 0) <==> StartsWith(s, sub)
  {
  }

  /** Dropping the first character shifts every occurrence one place left. */
  lemma OccursAtShift(s: string, sub: string, i: int)
    requires |s| > 0 && 0 <= i
    ensures OccursAt(s[1..], sub, i) <==> OccursAt(s, sub, i + 1)
  {
    if i + |sub| <= |s| - 1 {
      assert s[1..][i..i + |sub|] == s[i + 1..i + 1 + |sub|];
    }
  }

  lemma ContainsStep(s: string, sub: string)
    requires |s| > 0 && !StartsWith(s, sub)
    ensures (exists i :: OccursAt(s, sub, i)) <==> (exists i :: OccursAt(s[1..], sub, i))
  {
    if exists i :: OccursAt(s, sub, i) {
      var i :| OccursAt(s, sub, i);
      OccursAtZero(s, sub);
      assert i != 0;
      OccursAtShift(s, sub, i - 1);
    }
    if exists i :: OccursAt(s[1..], sub, i) {
      var i :| OccursAt(s[1..], sub, i);
      OccursAtShift(s, sub, i);
    }
  }

  /** Python's `sub in s`: true exactly when `sub` occurs somewhere in `s`
      (the empty string occurs everywhere). */
  function Contains(s: string, sub: string): (r: bool)
    ensures r <==> exists i :: OccursAt(s, sub, i)
    decreases |s|
  {
    if StartsWith(s, sub) then
      OccursAtZero(s, sub);
      true
    else if |s| == 0 then
      assert forall i :: !OccursAt(s, sub, i);
      false
    else
      ContainsStep(s, sub);
      Contains(s[1..], sub)
  }

  /** A string ends with itself. */
  lemma ContainsAtEnd(a: string, b: string)
    ensures Contains(a + b, b)
  {
    var s := a + b;
    assert s[|a|..|a| + |b|] == b;
    assert OccursAt(s, b, |a|);
  }

  /** Appending text keeps every occurrence. */
  lemma ContainsExtendRight(s: string, sub: string, t: string)
    requires Contains(s, sub)
    ensures Contains(s + t, sub)
  {
    var i :| OccursAt(s, sub, i);
    assert (s + t)[i..i + |sub|] == s[i..i + |sub|];
    assert OccursAt(s + t, sub, i);
  }

  /** Appending two pieces keeps every occurrence. */
  lemma ContainsExtendRight2(s: string, sub: string, t: string, u: string)
    requires Contains(s, sub)
    ensures Contains(s + t + u, sub)
  {
    ContainsExtendRight(s, sub, t);
    ContainsExtendRight(s + t, sub, u);
  }

  /** Prepending text keeps every occurrence, shifted. */
  lemma ContainsExtendLeft(t: string, s: string, sub: string)
    requires Contains(s, sub)
    ensures Contains(t + s, sub)
  {
    var i :| OccursAt(s, sub, i);
    assert (t + s)[|t| + i..|t| + i + |sub|] == s[i..i + |sub|];
    assert OccursAt(t + s, sub, |t| + i);
  }

  /** Equal strings glued to equal left parts are equal. */
  lemma CancelLeft(a: string, b1: string, b2: string)
    requires a + b1 == a + b2
    ensures b1 == b2
  {
    assert b1 == (a + b1)[|a|..];
    assert b2 == (a + b2)[|a|..];
  }

  /** Equal strings glued to equal right parts are equal. */
  lemma CancelRight(a1: string, a2: string, b: string)
    requires a1 + b == a2 + b
    ensures a1 == a2
  {
    assert a1 == (a1 + b)[..|a1|];
    assert a2 == (a2 + b)[..|a2|];
  }

  /** Equal strings glued to two equal right parts are equal. */
  lemma CancelRight2(a1: string, a2: string, b: string, c: string)
    requires a1 + b + c == a2 + b + c
    ensures a1 == a2
  {
    CancelRight(a1 + b, a2 + b, c);
    CancelRight(a1, a2, b);
  }

  predicate IsDigit(c: char) {
    '0' <= c <= '9'
  }

  predicate AllDigits(s: string) {
    forall i :: 0 <= i < |s| ==> IsDigit(s[i])
  }

  function Digit(d: nat): (c: char)
    requires d < 10
    ensures IsDigit(c)
  {
    ('0' as int + d) as char
  }

  function DigitValue(c: char): (d: nat)
    requires IsDigit(c)
    ensures d < 10 && Digit(d) == c
  {
    c as int - '0' as int
  }

  /** The decimal rendering of `n`, as Python's `str(n)` and `"%d" % n`
      give it for a non-negative integer: one or more digits, with no
      leading zero. */
  function Decimal(n: nat): (r: string)
    ensures |r| >= 1 && AllDigits(r)
    ensures r[0] == '0' <==> n == 0
    ensures |r| > 1 ==> r[0] != '0'
  {
    if n < 10 then [Digit(n)] else Decimal(n / 10) + [Digit(n % 10)]
  }

  /** Reads a string of digits as a number; the partner of `Decimal`. */
  function DecimalValue(s: string): (n: nat)
    requires AllDigits(s)
  {
    if |s| == 0 then 0 else DecimalValue(s[..|s| - 1]) * 10 + DigitValue(s[|s| - 1])
  }

  /** Reading a rendered number back gives the number. */
  lemma {:induction false} DecimalRoundTrip(n: nat)
    ensures DecimalValue(Decimal(n)) == n
  {
    var s := Decimal(n);
    if n >= 10 {
      assert s[..|s| - 1] == Decimal(n / 10);
      DecimalRoundTrip(n / 10);
    }
  }

  /** Distinct numbers render differently. */
  lemma DecimalInjective(m: nat, n: nat)
    requires Decimal(m) == Decimal(n)
    ensures m == n
  {
    DecimalRoundTrip(m);
    DecimalRoundTrip(n);
  }

  /** Splits `s` at the last occurrence of `c`: the part before it and the
      part after it, which holds no `c`; `None` when `c` does not occur. */
  function SplitLast(s: string, c: char): (r: Option<(string, string)>)
    ensures r.Some? ==> s == r.value.0 + [c] + r.value.1 && c !in r.value.1
    ensures r.None? <==> c !in s
  {
    if |s| == 0 then None
    else if s[|s| - 1] == c then
      assert s == s[..|s| - 1] + [c] + [];
      Some((s[..|s| - 1], []))
    else
      match SplitLast(s[..|s| - 1], c)
      case None =>
        assert s == s[..|s| - 1] + [s[|s| - 1]];
        None
      case Some((front, back)) =>
        assert s == s[..|s| - 1] + [s[|s| - 1]];
        Some((front, back + [s[|s| - 1]]))
  }

  /** Splitting a string glued at a `c` whose right part has no `c`
      recovers the two parts. */
  lemma {:induction false} SplitLastOfJoin(front: string, c: char, back: string)
    requires c !in back
    ensures SplitLast(front + [c] + back, c) == Some((front, back))
  {
    var s := front + [c] + back;
    if |back| == 0 {
      assert s[..|s| - 1] == front;
    } else {
      var last := back[|back| - 1];
      var shorter := back[..|back| - 1];
      assert s[..|s| - 1] == front + [c] + shorter;
      assert back == shorter + [last];
      SplitLastOfJoin(front, c, shorter);
    }
  }
}
