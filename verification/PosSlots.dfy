/**
 Distance slots: a distance is coded as a slot and the bits below it.  The
 encoder finds the slot in a table of 2^LOG_BITS entries; this module shows that
 the table look-up is the slot for every distance the encoder admits.
 */
module PosSlots {
  import opened Bytes
  import S = Symbols

  /** The slot of a distance: twice the bit length, plus the bit below the top one. */
  function PosSlot(dist: nat): nat
  {
    if dist < 4 then dist else PosSlot(dist / 2) + 2
  }

  /** A slot holds exactly the distances that its footer bits can reach. */
  lemma {:induction false} SlotRange(dist: nat)
    requires 4 <= dist
    ensures 4 <= PosSlot(dist)
    ensures S.SlotBase(PosSlot(dist)) <= dist < S.SlotBase(PosSlot(dist)) + Pow2(S.FooterBits(PosSlot(dist)))
  {
    hide S.SlotBase, S.FooterBits, Pow2, PosSlot;
    SlotHalf(dist);
    if dist < 8 {
      FirstSlots(dist);
    } else {
      SlotRange(dist / 2);
      SlotDouble(PosSlot(dist / 2));
    }
  }

  lemma SlotHalf(dist: nat)
    requires 4 <= dist
    ensures PosSlot(dist) == PosSlot(dist / 2) + 2
  {
  }

  lemma FirstSlots(dist: nat)
    requires 4 <= dist < 8
    ensures 4 <= PosSlot(dist)
            && S.SlotBase(PosSlot(dist)) <= dist < S.SlotBase(PosSlot(dist)) + Pow2(S.FooterBits(PosSlot(dist)))
  {
    assert PosSlot(dist / 2) == dist / 2;
    assert Pow2(1) == 2;
  }

  lemma SlotDouble(s: nat)
    requires 4 <= s
    ensures S.FooterBits(s + 2) == S.FooterBits(s) + 1 && S.SlotBase(s + 2) == 2 * S.SlotBase(s)
    ensures Pow2(S.FooterBits(s + 2)) == 2 * Pow2(S.FooterBits(s))
  {
  }

  lemma {:induction false} SlotSmall(dist: nat, n: nat)
    requires dist < Pow2(n) && 2 <= n
    ensures PosSlot(dist) < 2 * n
  {
    if dist >= 4 {
      if n == 2 {
        assert Pow2(1) == 2;
      } else {
        SlotSmall(dist / 2, n - 1);
      }
    } else {
      assert Pow2(1) == 2;
    }
  }

  /** Halving drops the slot by two as long as the halves are at least 2. */
  lemma {:induction false} SlotShift(dist: nat, i: nat)
    requires dist / Pow2(i) >= 2
    ensures PosSlot(dist) == PosSlot(dist / Pow2(i)) + 2 * i
  {
    if i > 0 {
      HalveFirst(dist, i);
      AtLeastTwice(dist, Pow2(i));
      SlotShift(dist / 2, i - 1);
    }
  }

  lemma AtLeastTwice(a: nat, w: nat)
    requires w > 0 && a / w >= 2
    ensures a >= 2 * w
  {
    var q := a / w;
    assert a == q * w + a % w;
    assert (q - 2) * w >= 0;
  }

  lemma HalveFirst(dist: nat, i: nat)
    requires i > 0
    ensures dist / Pow2(i) == dist / 2 / Pow2(i - 1)
  {
    var w := Pow2(i - 1);
    var h := dist / 2;
    var q, r := h / w, h % w;
    assert h == q * w + r;
    assert dist == 2 * (q * w + r) + dist % 2;
    assert 2 * (q * w) == q * (2 * w);
    DivModUnique(dist, 2 * w, q, 2 * r + dist % 2);
  }

  /** The table of slots for the distances below 2^logBits. */
  method FastPosInit(g: array<Byte>, logBits: nat)
    requires 2 <= logBits <= 13 && g.Length == Pow2(logBits)
    modifies g
    ensures forall d | 0 <= d < g.Length :: g[d] == PosSlot(d)
  {
    assert Pow2(1) == 2 && Pow2(2) == 4;
    S.Pow2Mono(2, logBits);
    g[0], g[1] := 0, 1;
    var c, slot := 2, 2;
    while slot < logBits * 2
      invariant 2 <= slot <= 2 * logBits
      invariant c == SlotStart(slot) && c <= g.Length
      invariant forall d | 0 <= d < c :: g[d] == PosSlot(d)
    {
      SlotStartNext(slot, logBits);
      c := FillSlot(g, c, slot);
      slot := slot + 1;
    }
    SlotStartEnd(logBits);
  }

  /** The inner loop of FastPosInit: one slot of the table. */
  method FillSlot(g: array<Byte>, start: nat, slot: nat) returns (c: nat)
    requires 2 <= slot < 26 && start == SlotStart(slot)
    requires start + Pow2(slot / 2 - 1) <= g.Length
    requires forall d | 0 <= d < start :: g[d] == PosSlot(d)
    modifies g
    ensures c == start + Pow2(slot / 2 - 1)
    ensures forall d | 0 <= d < c :: g[d] == PosSlot(d)
  {
    hide PosSlot, SlotStart, Pow2;
    c := start;
    var k, j := Pow2(slot / 2 - 1), 0;
    while j < k
      invariant 0 <= j <= k && c == start + j
      invariant forall d | 0 <= d < c :: g[d] == PosSlot(d)
    {
      SlotOf(c, slot);
      g[c] := slot;
      j := j + 1;
      c := c + 1;
    }
  }

  lemma SlotStartEnd(logBits: nat)
    requires 2 <= logBits
    ensures SlotStart(2 * logBits) == Pow2(logBits)
  {
  }

  /** The first distance of a slot. */
  ghost function SlotStart(slot: nat): nat
    requires 2 <= slot
  {
    (2 + slot % 2) * Pow2(slot / 2 - 1)
  }

  lemma Pow2Next(n: nat)
    ensures Pow2(n + 1) == 2 * Pow2(n)
  {
  }

  lemma SlotStartNext(slot: nat, logBits: nat)
    requires 2 <= slot < 2 * logBits
    ensures SlotStart(slot + 1) == SlotStart(slot) + Pow2(slot / 2 - 1) <= Pow2(logBits)
  {
    hide Pow2;
    var h := slot / 2;
    Pow2Next(h - 1);
    Pow2Next(h);
    S.Pow2Mono(h + 1, logBits);
    if slot % 2 == 0 {
      assert (slot + 1) / 2 == h && (slot + 1) % 2 == 1;
    } else {
      assert (slot + 1) / 2 == h + 1 && (slot + 1) % 2 == 0;
    }
  }

  lemma {:induction false} SlotOf(d: nat, slot: nat)
    requires 2 <= slot && SlotStart(slot) <= d < SlotStart(slot) + Pow2(slot / 2 - 1)
    ensures PosSlot(d) == slot
    decreases slot
  {
    if slot >= 4 {
      var w := Pow2(slot / 2 - 2);
      assert Pow2(slot / 2 - 1) == 2 * w;
      assert (slot - 2) / 2 - 1 == slot / 2 - 2 && (slot - 2) % 2 == slot % 2;
      assert SlotStart(slot) == 2 * SlotStart(slot - 2);
      SlotOf(d / 2, slot - 2);
      assert SlotStart(slot) >= 4;
    } else {
      assert Pow2(0) == 1;
    }
  }

  /**
   The look-up: small distances directly, larger ones after dropping 6 or
   6 + logBits - 1 low bits.  The shift is picked by the sign of a wrapped
   32-bit difference.
   */
  method GetPosSlot(g: array<Byte>, logBits: nat, pos: nat) returns (slot: nat)
    requires logBits == 11 || logBits == 13
    requires g.Length == Pow2(logBits) && forall d | 0 <= d < g.Length :: g[d] == PosSlot(d)
    requires pos < Pow2((logBits - 1) * 2 + 7)
    ensures slot == PosSlot(pos)
  {
    Sizes();
    if pos < 128 {
      slot := g[pos];
    } else {
      var diff := (Pow2(logBits + 6) - 1 - pos) % 0x1_0000_0000;
      var i := 6 + if diff / 0x8000_0000 == 1 then logBits - 1 else 0;
      LookUp(logBits, pos, i);
      slot := g[pos / Pow2(i)] + i * 2;
    }
  }

  lemma Sizes()
    ensures Pow2(11) == 0x800 && Pow2(13) == 0x2000 && Pow2(17) == 0x2_0000 && Pow2(19) == 0x8_0000
    ensures Pow2(27) == 0x800_0000 && Pow2(31) == 0x8000_0000 && Pow2(6) == 64
  {
    S.SmallPow2();
    S.Pow2Sum(8, 3);
    S.Pow2Sum(8, 5);
    S.Pow2Sum(11, 6);
    S.Pow2Sum(13, 6);
    S.Pow2Sum(26, 1);
    S.Pow2Sum(26, 5);
  }

  lemma LookUp(logBits: nat, pos: nat, i: nat)
    requires logBits == 11 || logBits == 13
    requires 128 <= pos < Pow2((logBits - 1) * 2 + 7)
    requires i == if pos < Pow2(logBits + 6) then 6 else 6 + logBits - 1
    ensures pos / Pow2(i) < Pow2(logBits)
    ensures PosSlot(pos) == PosSlot(pos / Pow2(i)) + 2 * i
  {
    Sizes();
    S.Pow2Sum(10, 6);
    S.Pow2Sum(12, 6);
    assert Pow2(11) == 2 * Pow2(10) && Pow2(13) == 2 * Pow2(12);
    SlotShift(pos, i);
  }
}
