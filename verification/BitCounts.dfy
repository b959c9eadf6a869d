/** How many modelled and how many direct bits a symbol takes. */
module BitCounts {
  import opened Bytes
  import opened Lists
  import opened Layout
  import opened Lockstep
  import opened PosSlots
  import opened Events
  import opened Packets
  import S = Symbols

  function Modelled(evs: List<Event>): nat
  {
    match evs
    case Nil => 0
    case Cons(ev, rest) => (if ev.Coded? then 1 else 0) + Modelled(rest)
  }

  function Direct(evs: List<Event>): nat
  {
    match evs
    case Nil => 0
    case Cons(ev, rest) => (if ev.Coded? then 0 else 1) + Direct(rest)
  }

  lemma {:induction false} CountAppend(a: List<Event>, b: List<Event>)
    ensures Modelled(Append(a, b)) == Modelled(a) + Modelled(b) && Direct(Append(a, b)) == Direct(a) + Direct(b)
  {
    match a
    case Nil =>
    case Cons(_, rest) => CountAppend(rest, b);
  }

  lemma {:induction false} CountTree(t: Tree, n: nat, symbol: nat, m: nat)
    requires m >= 1 && (t.SpecTree? ==> t.slot >= 4)
    ensures Modelled(TreeEvents(t, n, symbol, m)) == n && Direct(TreeEvents(t, n, symbol, m)) == 0
    decreases n
  {
    if n > 0 {
      CountTree(t, n - 1, symbol, 2 * m + symbol / Pow2(n - 1) % 2);
    }
  }

  lemma {:induction false} CountReverse(t: Tree, n: nat, symbol: nat, m: nat)
    requires m >= 1 && (t.SpecTree? ==> t.slot >= 4)
    ensures Modelled(ReverseEvents(t, n, symbol, m)) == n && Direct(ReverseEvents(t, n, symbol, m)) == 0
    decreases n
  {
    if n > 0 {
      CountReverse(t, n - 1, symbol / 2, 2 * m + symbol % 2);
    }
  }

  lemma {:induction false} CountRaw(value: nat, n: nat)
    ensures Modelled(RawEvents(value, n)) == 0 && Direct(RawEvents(value, n)) == n
  {
    if n > 0 {
      CountRaw(value, n - 1);
    }
  }

  lemma {:induction false} CountLit(base: nat, x: nat, n: nat)
    requires x >= 0x100 && 0x10000 <= x * Pow2(n) < 0x20000
    ensures Modelled(LitEvents(base, x)) == n && Direct(LitEvents(base, x)) == 0
    decreases n
  {
    if n > 0 {
      Halved(x, n);
      CountLit(base, 2 * x, n - 1);
    }
  }

  lemma {:induction false} CountMatched(base: nat, x: nat, mb: nat, offs: nat, n: nat)
    requires x >= 0x100 && (offs == 0 || offs == 0x100) && 0x10000 <= x * Pow2(n) < 0x20000
    ensures Modelled(MatchedEvents(base, x, mb, offs)) == n && Direct(MatchedEvents(base, x, mb, offs)) == 0
    decreases n
  {
    if n > 0 {
      Halved(x, n);
      CountMatched(base, 2 * x, 2 * mb, if offs == 0x100 && 2 * mb / 0x100 % 2 == 2 * x / 0x100 % 2 then 0x100 else 0,
          n - 1);
    }
  }

  lemma Halved(x: nat, n: nat)
    requires n > 0 && x * Pow2(n) < 0x20000
    ensures 2 * x * Pow2(n - 1) == x * Pow2(n) && x < 0x10000
  {
    var w := Pow2(n - 1);
    assert Pow2(n) == 2 * w && w >= 1;
    assert x * (2 * w) == 2 * x * w;
    assert 2 * x * w >= 2 * x;
  }

  lemma CountLen(rep: bool, symbol: nat, posState: nat)
    ensures Modelled(LenEvents(rep, symbol, posState)) == (if symbol < 8 then 4 else if symbol < 16 then 5 else 10)
    ensures Direct(LenEvents(rep, symbol, posState)) == 0
  {
    if symbol < 8 {
      CountTree(LowTree(rep, posState), 3, symbol, 1);
    } else if symbol < 16 {
      CountTree(MidTree(rep, posState), 3, symbol - 8, 1);
    } else {
      CountTree(HighTree(rep), 8, symbol - 16, 1);
    }
  }

  lemma CountTwo(a: Event, b: Event, rest: List<Event>)
    requires a.Coded? && b.Coded?
    ensures Modelled(Cons(a, Cons(b, rest))) == 2 + Modelled(rest) && Direct(Cons(a, Cons(b, rest))) == Direct(rest)
  {
  }

  lemma CountRep(state: nat, posState: nat, index: nat, len: nat)
    requires len >= 1
    ensures Modelled(RepEvents(state, posState, index, len)) <= 15
            && Direct(RepEvents(state, posState, index, len)) == 0
  {
    hide LenEvents;
    var evs := RepEvents(state, posState, index, len);
    var which := evs.tail.tail;
    CountTwo(evs.head, evs.tail.head, which);
    CountTwo(which.head, which.tail.head, which.tail.tail);
    if len >= MATCH_MIN {
      CountLen(true, len - MATCH_MIN, posState);
    }
  }

  /** The modelled bits of the footer: five of them for the distances from 64 to 127 only. */
  lemma CountFooter(dist: nat)
    requires dist <= END_MARK
    ensures Modelled(FooterEvents(dist)) <= 5 && (Modelled(FooterEvents(dist)) == 5 <==> 64 <= dist < 128)
    ensures Direct(FooterEvents(dist)) <= 26 && (64 <= dist < 128 ==> Direct(FooterEvents(dist)) == 0)
  {
    hide Pow2, PosSlot, S.SlotBase, RawEvents, ReverseEvents, Append;
    var slot := PosSlot(dist);
    SlotOfSmall(dist);
    if slot >= 4 {
      SlotRange(dist);
      SlotsOfSix(dist);
      var footer, reduced := S.FooterBits(slot), dist - S.SlotBase(slot);
      if slot < 14 {
        CountReverse(SpecTree(slot), footer, reduced, 1);
      } else {
        CountRaw(reduced / 16, footer - 4);
        CountReverse(AlignTree, 4, reduced % 16, 1);
        CountAppend(RawEvents(reduced / 16, footer - 4), ReverseEvents(AlignTree, 4, reduced % 16, 1));
      }
    }
  }

  lemma SlotsOfSix(dist: nat)
    requires 4 <= dist <= END_MARK
    ensures PosSlot(dist) < 64 && (12 <= PosSlot(dist) < 14 <==> 64 <= dist < 128)
  {
    hide Pow2, PosSlot;
    S.Word32();
    SlotSmall(dist, 32);
    SlotRange(dist);
    S.SmallPow2();
    if 64 <= dist < 128 {
      SixHalves(dist);
    }
  }

  lemma FirstSlot(dist: nat)
    requires dist < 4
    ensures PosSlot(dist) == dist
  {
  }

  lemma SixHalves(dist: nat)
    requires 64 <= dist < 128
    ensures 12 <= PosSlot(dist) < 14
  {
    hide PosSlot;
    SlotHalf(dist);
    SlotHalf(dist / 2);
    SlotHalf(dist / 2 / 2);
    SlotHalf(dist / 2 / 2 / 2);
    SlotHalf(dist / 2 / 2 / 2 / 2);
    FirstSlot(dist / 2 / 2 / 2 / 2 / 2);
  }

  /**
   A symbol takes at most 22 modelled bits and 26 direct ones, with one exception:
   a match of at least 18 bytes at a distance from 65 to 128 takes 23 modelled bits,
   and no direct one.
   */
  lemma SymbolBits(c: Coder, hist: seq<Byte>, b: Byte, p: Packet, props: Props)
    requires PropsOk(props) && (p.Literal? && c.state >= 7 ==> c.reps.r0 < |hist|)
    requires (p.Rep? || p.Match? ==> p.len >= MATCH_MIN) && (p.Match? ==> p.dist <= END_MARK)
    ensures var evs := PacketEvents(c, hist, b, p, props);
            && Modelled(evs) <= 23 && Direct(evs) <= 26
            && (Modelled(evs) == 23 <==> p.Match? && p.len >= 18 && 64 <= p.dist < 128)
            && (Modelled(evs) == 23 ==> Direct(evs) == 0)
  {
    hide FooterEvents, TreeEvents, LenEvents, LitEvents, MatchedEvents, PosState, LitBase;
    match p
    case Literal =>
      assert Pow2(8) == 256 by { S.SmallPow2(); }
      CountLit(LitBase(hist, props), 0x100 + b, 8);
      if c.state >= 7 {
        CountMatched(LitBase(hist, props), 0x100 + b, hist[|hist| - c.reps.r0 - 1], 0x100, 8);
      }
    case ShortRep =>
      CountRep(c.state, PosState(|hist|, props), 0, 1);
    case Rep(index, len) =>
      CountRep(c.state, PosState(|hist|, props), index, len);
    case Match(dist, len) =>
      var lenState := if len < 5 then len - 2 else 3;
      CountLen(false, len - MATCH_MIN, PosState(|hist|, props));
      CountFooter(dist);
      CountTree(SlotTree(lenState), 6, PosSlot(dist), 1);
      CountAppend(TreeEvents(SlotTree(lenState), 6, PosSlot(dist), 1), FooterEvents(dist));
      CountAppend(LenEvents(false, len - MATCH_MIN, PosState(|hist|, props)), DistEvents(dist, lenState));
  }
}
