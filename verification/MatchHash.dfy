/** The hashes of the match finder, over 32-bit words given as numbers. */
module MatchHash {
  import opened Bytes

  const HASH2_SIZE := 0x400
  const HASH3_SIZE := 0x1_0000
  const FIX3_HASH_SIZE := HASH2_SIZE
  const FIX4_HASH_SIZE := HASH2_SIZE + HASH3_SIZE

  /** Exclusive or of the lowest `n` bits. */
  function Xor(a: nat, b: nat, n: nat): nat
  {
    if n == 0 then 0 else 2 * Xor(a / 2, b / 2, n - 1) + (a + b) % 2
  }

  /** The table for the first byte; any table does. */
  type Table = s: seq<nat> | |s| == 256 witness seq(256, _ => 0)

  function Temp(crc: Table, c0: Byte, c1: Byte): nat
  {
    Xor(crc[c0], c1, 32)
  }

  function Hash2(crc: Table, c0: Byte, c1: Byte): (h: nat)
    ensures h < HASH2_SIZE
  {
    Temp(crc, c0, c1) % HASH2_SIZE
  }

  function Hash3(crc: Table, c0: Byte, c1: Byte, c2: Byte): (h: nat)
    ensures h < HASH3_SIZE
  {
    Xor(Temp(crc, c0, c1), c2 * 256, 32) % HASH3_SIZE
  }

  function Hash4(crc: Table, size: nat, c0: Byte, c1: Byte, c2: Byte, c3: Byte): (h: nat)
    requires size > 0
    ensures h < size
  {
    Xor(Xor(Temp(crc, c0, c1), c2 * 256, 32), crc[c3] * 32, 32) % size
  }

  /** One bit of it. */
  lemma XorStep(a: nat, b: nat, n: nat)
    requires n > 0
    ensures Xor(a, b, n) == 2 * Xor(a / 2, b / 2, n - 1) + (a + b) % 2
    ensures Xor(a, b, n) / 2 == Xor(a / 2, b / 2, n - 1) && Xor(a, b, n) % 2 == (a + b) % 2
  {
  }

  lemma {:induction false} XorAssoc(a: nat, b: nat, c: nat, n: nat)
    ensures Xor(Xor(a, b, n), c, n) == Xor(a, Xor(b, c, n), n)
    decreases n
  {
    hide Xor;
    if n > 0 {
      XorAssoc(a / 2, b / 2, c / 2, n - 1);
      var u, v := Xor(a, b, n), Xor(b, c, n);
      XorStep(a, b, n);
      XorStep(b, c, n);
      XorStep(u, c, n);
      XorStep(a, v, n);
    } else {
      XorNone(Xor(a, b, n), c);
      XorNone(a, Xor(b, c, n));
    }
  }

  lemma XorNone(a: nat, b: nat)
    ensures Xor(a, b, 0) == 0
  {
  }

  /** `b` shifted left by `k` bits. */
  function Shift(b: nat, k: nat): nat
  {
    if k == 0 then b else 2 * Shift(b, k - 1)
  }

  /** Words without a common bit are added. */
  lemma {:induction false} XorAdds(a: nat, b: nat, k: nat, n: nat)
    requires k <= n && a < Pow2(k) && Shift(b, k) < Pow2(n)
    ensures Xor(a, Shift(b, k), n) == a + Shift(b, k)
    decreases n
  {
    hide Xor, Pow2;
    PowOne();
    if n == 0 {
      XorNone(a, Shift(b, k));
    } else {
      XorStep(a, Shift(b, k), n);
      PowDouble(n);
      if k > 0 {
        PowDouble(k);
        assert Shift(b, k) == 2 * Shift(b, k - 1);
        XorAdds(a / 2, b, k - 1, n - 1);
      } else {
        XorAdds(0, b / 2, 0, n - 1);
      }
    }
  }

  lemma ShiftByte(b: nat)
    ensures Shift(b, 8) == b * 256
  {
    assert Shift(b, 1) == 2 * b;
    assert Shift(b, 2) == 2 * Shift(b, 1) && Shift(b, 3) == 2 * Shift(b, 2) && Shift(b, 4) == 2 * Shift(b, 3);
    assert Shift(b, 5) == 2 * Shift(b, 4) && Shift(b, 6) == 2 * Shift(b, 5) && Shift(b, 7) == 2 * Shift(b, 6);
  }

  lemma PowDouble(k: nat)
    requires k > 0
    ensures Pow2(k) == 2 * Pow2(k - 1) && Pow2(k - 1) > 0
  {
  }

  lemma HalfMod(x: nat, r: nat, m: nat)
    requires m > 0 && r < 2
    ensures (2 * x + r) % (2 * m) == 2 * (x % m) + r
  {
    var q := x / m;
    assert 2 * x + r == q * (2 * m) + (2 * (x % m) + r);
    DivModUnique(2 * x + r, 2 * m, q, 2 * (x % m) + r);
  }

  /** One bit of what `XorTells` needs. */
  lemma BitTells(t: nat, x: nat, y: nat, a: nat, b: nat, m: nat)
    requires m > 0 && (2 * a + (t + x) % 2) % (2 * m) == (2 * b + (t + y) % 2) % (2 * m)
    ensures a % m == b % m && x % 2 == y % 2
  {
    HalfMod(a, (t + x) % 2, m);
    HalfMod(b, (t + y) % 2, m);
  }

  /** The lowest bits of the result tell the operand. */
  lemma {:induction false} XorTells(t: nat, x: nat, y: nat, k: nat, n: nat)
    requires k <= n && x < Pow2(k) && y < Pow2(k) && Xor(t, x, n) % Pow2(k) == Xor(t, y, n) % Pow2(k)
    ensures x == y
    decreases k
  {
    hide Xor, Pow2;
    if k == 0 {
      PowOne();
    } else {
      PowDouble(k);
      XorStep(t, x, n);
      XorStep(t, y, n);
      BitTells(t, x, y, Xor(t / 2, x / 2, n - 1), Xor(t / 2, y / 2, n - 1), Pow2(k - 1));
      XorTells(t / 2, x / 2, y / 2, k - 1, n - 1);
    }
  }

  lemma PowOne()
    ensures Pow2(0) == 1
  {
  }

  /** Same first byte and same two-byte hash: two equal bytes, whatever the table is. */
  lemma Hash2Tells(crc: Table, c0: Byte, c1: Byte, d1: Byte)
    requires Hash2(crc, c0, c1) == Hash2(crc, c0, d1)
    ensures c1 == d1
  {
    hide Xor;
    Powers();
    XorTells(crc[c0], c1, d1, 10, 32);
  }

  /** Same first byte and same three-byte hash: three equal bytes. */
  lemma Hash3Tells(crc: Table, c0: Byte, c1: Byte, c2: Byte, d1: Byte, d2: Byte)
    requires Hash3(crc, c0, c1, c2) == Hash3(crc, c0, d1, d2)
    ensures c1 == d1 && c2 == d2
  {
    hide Xor, Pow2, Shift;
    Powers();
    XorAssoc(crc[c0], c1, c2 * 256, 32);
    XorAssoc(crc[c0], d1, d2 * 256, 32);
    ShiftByte(c2);
    ShiftByte(d2);
    XorAdds(c1, c2, 8, 32);
    XorAdds(d1, d2, 8, 32);
    XorTells(crc[c0], c1 + c2 * 256, d1 + d2 * 256, 16, 32);
  }

  lemma Powers()
    ensures Pow2(8) == 0x100 && Pow2(10) == 0x400 && Pow2(16) == 0x1_0000 && Pow2(32) == 0x1_0000_0000
  {
    assert Pow2(4) == 2 * Pow2(3) && Pow2(2) == 2 * Pow2(1);
    assert Pow2(6) == 2 * Pow2(5) && Pow2(8) == 2 * Pow2(7) && Pow2(10) == 2 * Pow2(9) && Pow2(12) == 2 * Pow2(11);
    assert Pow2(14) == 2 * Pow2(13) && Pow2(16) == 2 * Pow2(15) && Pow2(18) == 2 * Pow2(17) && Pow2(20) == 2 * Pow2(19);
    assert Pow2(22) == 2 * Pow2(21) && Pow2(24) == 2 * Pow2(23) && Pow2(26) == 2 * Pow2(25) && Pow2(28) == 2 * Pow2(27);
    assert Pow2(30) == 2 * Pow2(29) && Pow2(32) == 2 * Pow2(31);
  }
}
