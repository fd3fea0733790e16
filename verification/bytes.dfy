/**
 Byte strings as Python 2 sees them: a file opened in binary mode yields `str`
 objects that are sequences of 8-bit bytes. This module gives Python's slicing
 and Python 2's string ordering on them.
 */
module Bytes {

  type byte = b: int | 0 <= b < 256

  type Bytes = seq<byte>

  function Min(a: int, b: int): int {
    if a <= b then a else b
  }

  /** Python's `s[lo:hi]` for non-negative bounds: both ends are clamped to the
      length of `s`, and an empty slice results when they cross. */
  function Slice(s: Bytes, lo: nat, hi: nat): (r: Bytes)
    ensures |r| == if Min(lo, |s|) <= Min(hi, |s|) then Min(hi, |s|) - Min(lo, |s|) else 0
    ensures lo <= hi <= |s| ==> r == s[lo..hi]
    ensures forall k | 0 <= k < |r| :: r[k] == s[lo + k]
  {
    var e := Min(hi, |s|);
    var b := Min(lo, e);
    s[b..e]
  }

  lemma SliceOfAppendLeft(x: Bytes, y: Bytes, lo: nat, hi: nat)
    requires lo <= hi <= |x|
    ensures (x + y)[lo..hi] == x[lo..hi]
  {
  }

  lemma SliceOfAppendRight(x: Bytes, y: Bytes)
    ensures (x + y)[|x|..|x| + |y|] == y
  {
  }

  lemma SliceMiddle(x: Bytes, y: Bytes, z: Bytes)
    ensures (x + y + z)[|x|..|x| + |y|] == y
  {
  }

  /** The bytes of an ASCII text literal. */
  function Ascii(t: string): (r: Bytes)
    requires forall k | 0 <= k < |t| :: t[k] as int < 128
    ensures |r| == |t|
    ensures forall k | 0 <= k < |t| :: r[k] == t[k] as int
  {
    seq(|t|, k requires 0 <= k < |t| => t[k] as int)
  }

  /** Python 2 `a < b` on byte strings: bytes compared as unsigned values from the
      left, and a proper prefix sorts before the longer string. */
  predicate Below(a: Bytes, b: Bytes)
  {
    if |a| == 0 then |b| > 0
    else |b| > 0 && (a[0] < b[0] || (a[0] == b[0] && Below(a[1..], b[1..])))
  }

  lemma {:induction false} BelowIrreflexive(a: Bytes)
    ensures !Below(a, a)
  {
    if |a| > 0 {
      BelowIrreflexive(a[1..]);
    }
  }

  lemma {:induction false} BelowTransitive(a: Bytes, b: Bytes, c: Bytes)
    requires Below(a, b) && Below(b, c)
    ensures Below(a, c)
  {
    if |a| > 0 && a[0] == b[0] && b[0] == c[0] {
      BelowTransitive(a[1..], b[1..], c[1..]);
    }
  }

  /** Any two distinct byte strings are ordered one way or the other. */
  lemma {:induction false} BelowTotal(a: Bytes, b: Bytes)
    ensures a == b || Below(a, b) || Below(b, a)
  {
    if |a| > 0 && |b| > 0 && a[0] == b[0] {
      BelowTotal(a[1..], b[1..]);
      if a[1..] == b[1..] {
        assert a == [a[0]] + a[1..] && b == [b[0]] + b[1..];
      }
    }
  }

  lemma BelowAsymmetric(a: Bytes, b: Bytes)
    requires Below(a, b)
    ensures !Below(b, a)
  {
    if Below(b, a) {
      BelowTransitive(a, b, a);
      BelowIrreflexive(a);
    }
  }
}
