/**
 Byte strings read as big-endian numbers.
 */
module Bytes {

  type Byte = x: int | 0 <= x < 256

  function Pow256(n: nat): (r: nat)
    ensures r > 0
  {
    if n == 0 then 1 else 256 * Pow256(n - 1)
  }

  function Pow2(n: nat): (r: nat)
    ensures r > 0
  {
    if n == 0 then 1 else 2 * Pow2(n - 1)
  }

  function Value(bs: seq<Byte>): nat
  {
    if bs == [] then 0 else Value(bs[..|bs| - 1]) * 256 + bs[|bs| - 1]
  }

  /** The byte at position `i`; past the end the input reads as zero. */
  function ByteAt(bs: seq<Byte>, i: nat): Byte
  {
    if i < |bs| then bs[i] else 0
  }

  /** The `n` low base-256 digits of `v`, most significant first. */
  function Digits(v: nat, n: nat): (bs: seq<Byte>)
    ensures |bs| == n
  {
    if n == 0 then [] else Digits(v / 256, n - 1) + [v % 256]
  }

  lemma {:induction false} PowSum(m: nat, n: nat)
    ensures Pow256(m + n) == Pow256(m) * Pow256(n)
  {
    if m == 0 {
    } else {
      PowSum(m - 1, n);
      assert Pow256(m + n) == 256 * (Pow256(m - 1) * Pow256(n));
    }
  }

  lemma {:induction false} ValueBound(bs: seq<Byte>)
    ensures Value(bs) < Pow256(|bs|)
  {
    if bs != [] {
      ValueBound(bs[..|bs| - 1]);
    }
  }

  lemma {:induction false} ValueConcat(a: seq<Byte>, b: seq<Byte>)
    ensures Value(a + b) == Value(a) * Pow256(|b|) + Value(b)
  {
    if b == [] {
      assert a + b == a;
    } else {
      var b' := b[..|b| - 1];
      assert (a + b)[..|a + b| - 1] == a + b';
      ValueConcat(a, b');
      assert Value(a) * Pow256(|b|) == Value(a) * Pow256(|b'|) * 256;
    }
  }

  lemma {:induction false} ValueDigits(v: nat, n: nat)
    requires v < Pow256(n)
    ensures Value(Digits(v, n)) == v
  {
    if n > 0 {
      ValueDigits(v / 256, n - 1);
      assert Digits(v, n)[..n - 1] == Digits(v / 256, n - 1);
    }
  }

  /** A byte string is determined by its length and its value. */
  lemma {:induction false} ValueInjective(a: seq<Byte>, b: seq<Byte>)
    requires |a| == |b| && Value(a) == Value(b)
    ensures a == b
  {
    hide Value;
    if a != [] {
      var n := |a| - 1;
      LastDigit(a);
      LastDigit(b);
      ValueInjective(a[..n], b[..n]);
      assert a == a[..n] + [a[n]] && b == b[..n] + [b[n]];
    }
  }

  lemma LastDigit(bs: seq<Byte>)
    requires bs != []
    ensures Value(bs) / 256 == Value(bs[..|bs| - 1]) && Value(bs) % 256 == bs[|bs| - 1]
  {
  }

  /** Dropping trailing bytes divides the value. */
  lemma ValuePrefix(bs: seq<Byte>, n: nat)
    requires n <= |bs|
    ensures Value(bs[..n]) * Pow256(|bs| - n) <= Value(bs) < (Value(bs[..n]) + 1) * Pow256(|bs| - n)
  {
    assert bs == bs[..n] + bs[n..];
    ValueConcat(bs[..n], bs[n..]);
    ValueBound(bs[n..]);
  }

  lemma ValueSnoc(bs: seq<Byte>, n: nat)
    requires n < |bs|
    ensures Value(bs[..n + 1]) == Value(bs[..n]) * 256 + bs[n]
  {
    assert bs[..n + 1][..n] == bs[..n];
  }

  /** The quotient and the remainder are the only ones that fit. */
  lemma DivModUnique(x: int, m: int, q: int, r: int)
    requires m > 0 && x == q * m + r && 0 <= r < m
    ensures x / m == q && x % m == r
  {
    var k := q - x / m;
    assert k * m == x % m - r;
    assert k > 0 ==> k * m >= m;
    assert k < 0 ==> k * m <= -m;
  }

  /** rt_memcpy between stretches that do not overlap. */
  method MemCopy(a: array<Byte>, from: nat, to: nat, n: nat)
    requires from + n <= a.Length && to + n <= a.Length && (from + n <= to || to + n <= from)
    modifies a
    ensures a[to..to + n] == old(a[from..from + n])
    ensures forall k | 0 <= k < a.Length && !(to <= k < to + n) :: a[k] == old(a[k])
  {
    var k := 0;
    while k < n
      invariant 0 <= k <= n
      invariant forall j | 0 <= j < a.Length && !(to <= j < to + k) :: a[j] == old(a[j])
      invariant forall j | to <= j < to + k :: a[j] == old(a[j - to + from])
    {
      a[to + k] := a[from + k];
      k := k + 1;
    }
  }
}
