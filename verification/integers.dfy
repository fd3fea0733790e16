/**
 Decimal integers on byte strings: Python 2's `int(s)` for a byte string `s`
 (base 10), its inverse `str(n)`, and the zero-padded fixed-width form in which
 the record file stores its counts.
 */
module Integers {
  import opened Wrappers
  import opened Bytes

  const PlusSign: byte := 43
  const MinusSign: byte := 45
  const DigitZero: byte := 48

  /** C `isspace` in the C locale: tab, newline, vertical tab, form feed,
      carriage return and space. */
  predicate IsSpace(b: byte) {
    b == 32 || 9 <= b <= 13
  }

  predicate IsDigit(b: byte) {
    48 <= b <= 57
  }

  predicate AllDigits(s: Bytes) {
    forall k | 0 <= k < |s| :: IsDigit(s[k])
  }

  /** The value of a string of decimal digits, most significant first. */
  function DigitsValue(ds: Bytes): nat
    requires AllDigits(ds)
  {
    if ds == [] then 0 else DigitsValue(ds[..|ds| - 1]) * 10 + (ds[|ds| - 1] - DigitZero)
  }

  predicate AllSpaces(s: Bytes) {
    forall k | 0 <= k < |s| :: IsSpace(s[k])
  }

  /** The number of whitespace bytes at the start of `s`. */
  function Lead(s: Bytes): (n: nat)
    ensures n <= |s|
    ensures n < |s| ==> !IsSpace(s[n])
  {
    if |s| > 0 && IsSpace(s[0]) then 1 + Lead(s[1..]) else 0
  }

  /** The number of whitespace bytes at the end of `s`. */
  function Trail(s: Bytes): (n: nat)
    ensures n <= |s|
    ensures n < |s| ==> !IsSpace(s[|s| - n - 1])
  {
    if |s| > 0 && IsSpace(s[|s| - 1]) then 1 + Trail(s[..|s| - 1]) else 0
  }

  /** `s` with surrounding whitespace removed, as `strip` would. */
  function Strip(s: Bytes): Bytes
  {
    if Lead(s) + Trail(s) >= |s| then [] else s[Lead(s)..|s| - Trail(s)]
  }

  /** Python 2 `int(s)` with base 10, as CPython 2.7 parses a byte string:
      optional whitespace, an optional `+` or `-` (which the C library's
      `strtoul` lets whitespace follow), one or more ASCII digits, optional
      whitespace. Anything else raises ValueError, modelled as None. */
  function ParseInt(s: Bytes): (r: Option<int>)
    ensures |s| > 0 && AllDigits(s) ==> r == Some(DigitsValue(s))
    ensures AllSpaces(s) ==> r == None
  {
    assert |s| > 0 && AllDigits(s) ==> Lead(s) == 0 && Trail(s) == 0 && s[0..|s|] == s;
    var t := Strip(s);
    if |t| > 0 && (t[0] == PlusSign || t[0] == MinusSign) then
      var ds := t[1..][Lead(t[1..])..];
      if |ds| > 0 && AllDigits(ds) then
        var v: int := DigitsValue(ds);
        Some(if t[0] == MinusSign then -v else v)
      else None
    else if |t| > 0 && AllDigits(t) then
      Some(DigitsValue(t))
    else None
  }

  function Pow10(n: nat): (p: nat)
    ensures p >= 1
  {
    if n == 0 then 1 else 10 * Pow10(n - 1)
  }

  /** `v` written in exactly `w` decimal digits, with leading zeros. */
  function PadDecimal(v: nat, w: nat): (r: Bytes)
    requires v < Pow10(w)
    ensures |r| == w && AllDigits(r)
    ensures DigitsValue(r) == v
  {
    if w == 0 then []
    else
      var r := PadDecimal(v / 10, w - 1) + [DigitZero + v % 10];
      assert r[..|r| - 1] == PadDecimal(v / 10, w - 1);
      r
  }

  /** Python `str(n)`: the shortest decimal form, with `-` before a negative value. */
  function Decimal(n: int): (r: Bytes)
    ensures |r| > 0
    ensures n >= 0 ==> AllDigits(r) && DigitsValue(r) == n
    ensures n >= 0 && |r| > 1 ==> r[0] != DigitZero
    ensures n < 0 ==> r[0] == MinusSign && AllDigits(r[1..]) && DigitsValue(r[1..]) == -n
    ensures n < 0 && |r| > 2 ==> r[1] != DigitZero
    decreases if n < 0 then 1 - n else n
  {
    if n < 0 then [MinusSign] + Decimal(-n)
    else if n < 10 then [DigitZero + n]
    else
      var r := Decimal(n / 10) + [DigitZero + n % 10];
      assert r[..|r| - 1] == Decimal(n / 10);
      r
  }

  /** A count stored zero-padded in a field of width `w` reads back as itself. */
  lemma ParsePadded(v: nat, w: nat)
    requires 0 < w && v < Pow10(w)
    ensures ParseInt(PadDecimal(v, w)) == Some(v)
  {
  }

  /** Reading back what `str` wrote gives the original integer. */
  lemma ParseDecimal(n: int)
    ensures ParseInt(Decimal(n)) == Some(n)
  {
    var d := Decimal(n);
    assert Lead(d) == 0 && Trail(d) == 0;
    assert Strip(d) == d;
    if n < 0 {
      assert Lead(d[1..]) == 0;
      assert d[1..][0..] == d[1..];
    }
  }

  lemma {:induction false} LeadPrefix(pre: Bytes, s: Bytes)
    requires AllSpaces(pre)
    ensures Lead(pre + s) == |pre| + Lead(s)
  {
    if |pre| > 0 {
      assert (pre + s)[0] == pre[0];
      assert (pre + s)[1..] == pre[1..] + s;
      LeadPrefix(pre[1..], s);
    } else {
      assert pre + s == s;
    }
  }

  lemma {:induction false} TrailSuffix(s: Bytes, post: Bytes)
    requires AllSpaces(post)
    ensures Trail(s + post) == Trail(s) + |post|
  {
    if |post| > 0 {
      assert (s + post)[|s + post| - 1] == post[|post| - 1];
      assert (s + post)[..|s + post| - 1] == s + post[..|post| - 1];
      TrailSuffix(s, post[..|post| - 1]);
    } else {
      assert s + post == s;
    }
  }

  lemma {:induction false} LeadNotBlank(s: Bytes, post: Bytes)
    requires Lead(s) < |s|
    ensures Lead(s + post) == Lead(s)
  {
    if IsSpace(s[0]) {
      assert (s + post)[1..] == s[1..] + post;
      LeadNotBlank(s[1..], post);
    }
  }

  lemma {:induction false} TrailNotBlank(pre: Bytes, s: Bytes)
    requires Trail(s) < |s|
    ensures Trail(pre + s) == Trail(s)
  {
    if IsSpace(s[|s| - 1]) {
      assert (pre + s)[..|pre + s| - 1] == pre + s[..|s| - 1];
      TrailNotBlank(pre, s[..|s| - 1]);
    }
  }

  lemma {:induction false} BlankPadded(pre: Bytes, s: Bytes, post: Bytes)
    requires AllSpaces(pre) && AllSpaces(s) && AllSpaces(post)
    ensures Strip(pre + s + post) == []
  {
    var x := pre + s + post;
    assert AllSpaces(x) by {
      forall k | 0 <= k < |x|
        ensures IsSpace(x[k])
      {
        if k < |pre| {
          assert x[k] == pre[k];
        } else if k < |pre| + |s| {
          assert x[k] == s[k - |pre|];
        } else {
          assert x[k] == post[k - |pre| - |s|];
        }
      }
    }
  }

  lemma LeadPadded(pre: Bytes, s: Bytes, post: Bytes)
    requires AllSpaces(pre) && Lead(s) < |s|
    ensures Lead(pre + s + post) == |pre| + Lead(s)
  {
    assert pre + s + post == pre + (s + post);
    LeadPrefix(pre, s + post);
    LeadNotBlank(s, post);
  }

  lemma TrailPadded(pre: Bytes, s: Bytes, post: Bytes)
    requires AllSpaces(post) && Trail(s) < |s|
    ensures Trail(pre + s + post) == Trail(s) + |post|
  {
    TrailSuffix(pre + s, post);
    TrailNotBlank(pre, s);
  }

  lemma {:induction false} LeadSpaces(s: Bytes)
    ensures forall k | 0 <= k < Lead(s) :: IsSpace(s[k])
  {
    if |s| > 0 && IsSpace(s[0]) {
      LeadSpaces(s[1..]);
    }
  }

  lemma {:induction false} TrailSpaces(s: Bytes)
    ensures forall k | |s| - Trail(s) <= k < |s| :: IsSpace(s[k])
  {
    if |s| > 0 && IsSpace(s[|s| - 1]) {
      TrailSpaces(s[..|s| - 1]);
    }
  }

  /** Leading and trailing whitespace meet only in a blank string. */
  lemma LeadTrailDisjoint(s: Bytes)
    requires Lead(s) < |s|
    ensures Lead(s) + Trail(s) < |s|
  {
    TrailSpaces(s);
  }

  lemma {:induction false} NonBlankPadded(pre: Bytes, s: Bytes, post: Bytes)
    requires AllSpaces(pre) && AllSpaces(post) && Lead(s) < |s|
    ensures Strip(pre + s + post) == Strip(s)
  {
    var x := pre + s + post;
    var l, t := Lead(s), Trail(s);
    LeadPadded(pre, s, post);
    LeadTrailDisjoint(s);
    TrailPadded(pre, s, post);
    assert Lead(x) == |pre| + l;
    assert Trail(x) == |x| - |pre| - |s| + t;
    assert |pre| + |s| <= |x|;
    SliceOfPadded(pre, s, post, l, |s| - t);
    assert x[|pre| + l..|pre| + |s| - t] == s[l..|s| - t];
    StripWindow(x, s, |pre|);
  }

  lemma {:induction false} StripWindow(x: Bytes, s: Bytes, d: nat)
    requires Lead(s) + Trail(s) < |s| && d + |s| <= |x|
    requires Lead(x) == d + Lead(s) && Trail(x) == |x| - d - |s| + Trail(s)
    requires x[d + Lead(s)..d + |s| - Trail(s)] == s[Lead(s)..|s| - Trail(s)]
    ensures Strip(x) == Strip(s)
  {
    var lx, tx, l, t := Lead(x), Trail(x), Lead(s), Trail(s);
    assert lx == d + l && |x| - tx == d + |s| - t;
    assert !(lx + tx >= |x|) && !(l + t >= |s|);
    assert Strip(x) == x[lx..|x| - tx];
    assert Strip(s) == s[l..|s| - t];
  }

  lemma SliceOfPadded(pre: Bytes, s: Bytes, post: Bytes, i: nat, j: nat)
    requires i <= j <= |s|
    ensures (pre + s + post)[|pre| + i..|pre| + j] == s[i..j]
  {
  }

  lemma {:induction false} StripPadded(pre: Bytes, s: Bytes, post: Bytes)
    requires AllSpaces(pre) && AllSpaces(post)
    ensures Strip(pre + s + post) == Strip(s)
  {
    if Lead(s) == |s| {
      LeadSpaces(s);
      BlankPadded(pre, s, post);
    } else {
      NonBlankPadded(pre, s, post);
    }
  }

  /** A byte that is neither a digit, whitespace nor a sign anywhere in the
      string makes `int` raise `ValueError`: a letter, a NUL byte, a dot. */
  lemma ParseRejectsStrayByte(s: Bytes, k: nat)
    requires k < |s| && !IsDigit(s[k]) && !IsSpace(s[k]) && s[k] != PlusSign && s[k] != MinusSign
    ensures ParseInt(s) == None
  {
    var u := Strip(s);
    var m := StrayKept(s, k);
    var v := u[1..];
    if |u| > 0 && (u[0] == PlusSign || u[0] == MinusSign) {
      LeadSpaces(v);
      assert v[m - 1] == s[k];
      assert v[Lead(v)..][m - 1 - Lead(v)] == s[k];
    } else {
      assert u[m] == s[k];
    }
    NoDigitsNoParse(s);
  }

  /** `int` raises unless the stripped string, after any sign and the
      whitespace behind it, is a non-empty run of digits. */
  lemma NoDigitsNoParse(s: Bytes)
    requires var t := Strip(s);
      if |t| > 0 && (t[0] == PlusSign || t[0] == MinusSign) then
        var ds := t[1..][Lead(t[1..])..];
        !(|ds| > 0 && AllDigits(ds))
      else !(|t| > 0 && AllDigits(t))
    ensures ParseInt(s) == None
  {
  }

  /** A byte that is not whitespace survives stripping: the index it moves to. */
  lemma StrayKept(s: Bytes, k: nat) returns (m: nat)
    requires k < |s| && !IsSpace(s[k])
    ensures m < |Strip(s)| && Strip(s)[m] == s[k]
    ensures m == k - Lead(s) && Strip(s) == s[Lead(s)..|s| - Trail(s)]
  {
    LeadSpaces(s);
    TrailSpaces(s);
    m := k - Lead(s);
  }

  /** Surrounding whitespace never changes what `int` returns. */
  lemma ParseIgnoresPadding(pre: Bytes, s: Bytes, post: Bytes)
    requires AllSpaces(pre) && AllSpaces(post)
    ensures ParseInt(pre + s + post) == ParseInt(s)
  {
    StripPadded(pre, s, post);
  }
}
