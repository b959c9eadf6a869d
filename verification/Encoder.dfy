/**
 The encoder's own loops, proved to code the events of module Events.
 */
module Encoder {
  import opened Bytes
  import opened Lists
  import opened RangeCoder
  import opened RangeEncoding
  import opened Layout
  import opened Lockstep
  import opened Events
  import opened PosSlots
  import opened Packets
  import S = Symbols
  import St = States

  const LITERAL_BACK := 0xFFFF_FFFF
  const NUM_REPS := 4

  /** A choice as the optimiser returns it: a length and a `back` code. */
  function PacketOf(len: nat, back: nat): Packet
  {
    if len == 1 && back == LITERAL_BACK then Literal
    else if back < NUM_REPS then (if len == 1 && back == 0 then ShortRep else Rep(back, len))
    else Match(back - NUM_REPS, len)
  }

  /** The `back` code of a packet. */
  function BackOf(p: Packet): nat
  {
    match p
    case Literal => LITERAL_BACK
    case ShortRep => 0
    case Rep(index, _) => index
    case Match(dist, _) => dist + NUM_REPS
  }

  /** Distances below this have their slot in the table of 2^logBits entries. */
  function DistLimit(logBits: nat): nat
    requires logBits == 11 || logBits == 13
  {
    Pow2((logBits - 1) * 2 + 7)
  }

  class LzmaEnc {
    const rc: RangeEncoder
    const props: Props
    const logBits: nat
    const fastPos: array<Byte>
    var probs: EncProbs
    var state: nat
    var reps: Reps

    ghost predicate Valid()
      reads this, rc, fastPos
    {
      && rc.Valid() && PropsOk(props) && state < St.NUM_STATES && (logBits == 11 || logBits == 13)
      && fastPos.Length == Pow2(logBits)
      && forall d | 0 <= d < fastPos.Length :: fastPos[d] == PosSlot(d)
    }

    ghost function Place(): Coder
      reads this
    {
      Coder(state, reps)
    }

    ghost function View(): Enc
      reads this, rc, fastPos
      requires Valid()
    {
      Enc(rc.View(), probs)
    }

    constructor (props: Props, logBits: nat)
      requires PropsOk(props) && (logBits == 11 || logBits == 13)
      ensures Valid() && fresh(rc) && View() == ENC_START && Place() == CODER_START
      ensures this.props == props && this.logBits == logBits
    {
      rc := new RangeEncoder();
      this.props := props;
      this.logBits := logBits;
      var table := new Byte[Pow2(logBits)];
      FastPosInit(table, logBits);
      fastPos := table;
      probs := map[];
      state := 0;
      reps := Reps(0, 0, 0, 0);
    }

    method EncodeBit(c: EncCell, bit: Bit)
      requires Valid()
      modifies rc, this`probs
      ensures Valid() && View() == EncStep(old(View()), Coded(c, bit))
    {
      var p := rc.EncodeBit(Get(probs, c), bit);
      probs := probs[c := p];
    }

    method EncodeDirectBits(value: nat, numBits: nat)
      requires Valid() && numBits > 0
      modifies rc
      ensures Valid() && View() == EncRun(old(View()), RawEvents(value, numBits))
    {
      rc.EncodeDirectBits(value, numBits);
      RawIsDirect(old(View()), value, numBits);
    }

    method TreeEncode(t: Tree, numBits: nat, symbol: nat)
      requires Valid() && !t.SpecTree?
      modifies rc, this`probs
      ensures Valid() && View() == EncRun(old(View()), TreeEvents(t, numBits, symbol, 1))
    {
      hide EncStep, Exact, Pow2, Node;
      var m, i := 1, numBits;
      while i != 0
        invariant 0 <= i <= numBits && m >= 1 && Valid()
        invariant EncRun(View(), TreeEvents(t, i, symbol, m)) == EncRun(old(View()), TreeEvents(t, numBits, symbol, 1))
      {
        i := i - 1;
        var bit := symbol / Pow2(i) % 2;
        EncodeBit(Node(t, m), bit);
        m := 2 * m + bit;
      }
    }

    method TreeReverseEncode(t: Tree, numBits: nat, symbol: nat)
      requires Valid() && (t.SpecTree? ==> t.slot >= 4)
      modifies rc, this`probs
      ensures Valid() && View() == EncRun(old(View()), ReverseEvents(t, numBits, symbol, 1))
    {
      hide EncStep, Exact, Pow2, Node;
      var m, i, sym := 1, 0, symbol;
      while i < numBits
        invariant 0 <= i <= numBits && m >= 1 && Valid()
        invariant EncRun(View(), ReverseEvents(t, numBits - i, sym, m))
                  == EncRun(old(View()), ReverseEvents(t, numBits, symbol, 1))
      {
        var bit := sym % 2;
        EncodeBit(Node(t, m), bit);
        m := 2 * m + bit;
        sym := sym / 2;
        i := i + 1;
      }
    }

    method LitEncode(base: nat, b: Byte)
      requires Valid()
      modifies rc, this`probs
      ensures Valid() && View() == EncRun(old(View()), LitEvents(base, 0x100 + b))
    {
      hide EncStep, Exact, Pow2, Node;
      var x: nat := 0x100 + b;
      while x < 0x10000
        invariant x >= 0x100 && Valid()
        invariant EncRun(View(), LitEvents(base, x)) == EncRun(old(View()), LitEvents(base, 0x100 + b))
        decreases 0x10000 - x
      {
        EncodeBit(LitProb(base + x / 0x100), x / 0x80 % 2);
        x := 2 * x;
      }
    }

    method LitEncodeMatched(base: nat, b: Byte, matchByte: Byte)
      requires Valid()
      modifies rc, this`probs
      ensures Valid() && View() == EncRun(old(View()), MatchedEvents(base, 0x100 + b, matchByte, 0x100))
    {
      hide EncStep, Exact, Pow2, Node, MatchedEvents;
      var x: nat, mb: nat, offs := 0x100 + b, matchByte, 0x100;
      while x < 0x10000
        invariant x >= 0x100 && (offs == 0 || offs == 0x100) && Valid()
        invariant EncRun(View(), MatchedEvents(base, x, mb, offs))
                  == EncRun(old(View()), MatchedEvents(base, 0x100 + b, matchByte, 0x100))
        decreases 0x10000 - x
      {
        MatchedStep(base, x, mb, offs);
        mb := 2 * mb;
        var sub := if offs == 0x100 && mb / 0x100 % 2 == 1 then 0x100 else 0;
        EncodeBit(LitProb(base + offs + sub + x / 0x100), x / 0x80 % 2);
        x := 2 * x;
        offs := if offs == 0x100 && mb / 0x100 % 2 == x / 0x100 % 2 then 0x100 else 0;
      }
      MatchedDone(base, x, mb, offs);
    }

    method LenEncode(rep: bool, symbol: nat, posState: nat)
      requires Valid()
      modifies rc, this`probs
      ensures Valid() && View() == EncRun(old(View()), LenEvents(rep, symbol, posState))
    {
      hide EncStep, Exact, Pow2, Node;
      if symbol < 8 {
        EncodeBit(LenChoice(rep), 0);
        TreeEncode(LowTree(rep, posState), 3, symbol);
      } else {
        EncodeBit(LenChoice(rep), 1);
        if symbol < 16 {
          EncodeBit(LenChoice2(rep), 0);
          TreeEncode(MidTree(rep, posState), 3, symbol - 8);
        } else {
          EncodeBit(LenChoice2(rep), 1);
          TreeEncode(HighTree(rep), 8, symbol - 16);
        }
      }
    }

    /** The slot and the footer of a distance; `posSlot` is what the table look-up gives. */
    method DistEncode(dist: nat, posSlot: nat, lenState: nat)
      requires Valid() && posSlot == PosSlot(dist)
      modifies rc, this`probs
      ensures Valid() && View() == EncRun(old(View()), DistEvents(dist, lenState))
    {
      hide EncStep, Exact, Pow2, Node;
      TreeEncode(SlotTree(lenState), 6, posSlot);
      EncRunConcat(old(View()), TreeEvents(SlotTree(lenState), 6, posSlot, 1), FooterEvents(dist));
      if posSlot >= 4 {
        SlotOfSmall(dist);
        SlotRange(dist);
        var footerBits := posSlot / 2 - 1;
        var base := (2 + posSlot % 2) * Pow2(footerBits);
        var posReduced := dist - base;
        if posSlot < 14 {
          TreeReverseEncode(SpecTree(posSlot), footerBits, posReduced);
        } else {
          ghost var v := View();
          EncodeDirectBits(posReduced / 16, footerBits - 4);
          TreeReverseEncode(AlignTree, 4, posReduced % 16);
          EncRunConcat(v, RawEvents(posReduced / 16, footerBits - 4), ReverseEvents(AlignTree, 4, posReduced % 16, 1));
        }
      }
    }

    /** The literal branch of CodeOneBlock. */
    method CodeLiteral(data: seq<Byte>, pos: nat)
      requires Valid() && CoderOk(Place(), pos) && pos < |data|
      modifies rc, this`probs, this`state
      ensures Valid() && Place() == NextCoder(old(Place()), Literal)
      ensures View() == EncRun(old(View()), PacketEvents(old(Place()), data[..pos], data[pos], Literal, props))
    {
      hide EncStep, Exact, Pow2, LitEvents, MatchedEvents;
      EncodeBit(IsMatch(state, PosState(pos, props)), 0);
      var base := LitProbs(pos, data, props);
      if state < 7 {
        LitEncode(base, data[pos]);
      } else {
        LitEncodeMatched(base, data[pos], data[pos - reps.r0 - 1]);
      }
      St.TablesAgree(state);
      state := St.LITERAL_NEXT_STATES[state];
    }

    /** The repeat branch: `back` names one of the last four distances. */
    method CodeRep(pos: nat, len: nat, back: nat)
      requires Valid() && back < 4 && len >= 1 && (len == 1 ==> back == 0)
      modifies rc, this`probs, this`state, this`reps
      ensures Valid() && Place() == NextCoder(old(Place()), PacketOf(len, back))
      ensures View() == EncRun(old(View()), RepEvents(old(state), PosState(pos, props), back, len))
    {
      hide EncStep, Exact, Pow2, LenEvents, PosState, RepLen;
      var posState := PosState(pos, props);
      EncodeBit(IsMatch(state, posState), 1);
      EncodeBit(IsRep(state), 1);
      ChooseRep(posState, len, back);
      RepLenIs(len, posState);
      St.TablesAgree(state);
      if len == 1 {
        state := St.SHORT_REP_NEXT_STATES[state];
      } else {
        LenEncode(true, len - MATCH_MIN, posState);
        state := St.REP_NEXT_STATES[state];
      }
    }

    /** The bits that tell which distance is repeated; that distance moves to the front. */
    method ChooseRep(posState: nat, len: nat, back: nat)
      requires Valid() && back < 4 && len >= 1 && (len == 1 ==> back == 0)
      modifies rc, this`probs, this`reps
      ensures Valid() && reps == old(reps).ToFront(back)
      ensures EncRun(View(), RepLen(len, posState))
              == EncRun(old(View()), RepEvents(state, posState, back, len).tail.tail)
    {
      hide EncStep, Exact, Pow2, LenEvents;
      ghost var evs := RepEvents(state, posState, back, len).tail.tail;
      if back == 0 {
        EncodeBit(IsRepG0(state), 0);
        EncodeBit(IsRep0Long(state, posState), if len == 1 then 0 else 1);
        assert evs.tail.tail == RepLen(len, posState);
      } else {
        var distance := reps.At(back);
        EncodeBit(IsRepG0(state), 1);
        ghost var v := View();
        if back == 1 {
          EncodeBit(IsRepG1(state), 0);
          assert evs.tail.tail == RepLen(len, posState);
        } else {
          EncodeBit(IsRepG1(state), 1);
          EncodeBit(IsRepG2(state), back - 2);
          assert EncRun(View(), RepLen(len, posState)) == EncRun(v, evs.tail);
          if back == 3 {
            reps := reps.(r3 := reps.r2);
          }
          reps := reps.(r2 := reps.r1);
        }
        reps := reps.(r1 := reps.r0);
        reps := reps.(r0 := distance);
      }
    }

    /** The match branch. */
    method CodeMatch(pos: nat, len: nat, dist: nat)
      requires Valid() && len >= MATCH_MIN && dist < DistLimit(logBits)
      modifies rc, this`probs, this`state, this`reps
      ensures Valid() && Place() == NextCoder(old(Place()), Match(dist, len))
      ensures View() == EncRun(old(View()), MatchEvents(old(state), PosState(pos, props), dist, len))
    {
      hide EncStep, Exact, Pow2, LenEvents, DistEvents, PosSlot;
      var posState := PosState(pos, props);
      EncodeBit(IsMatch(state, posState), 1);
      EncodeBit(IsRep(state), 0);
      ghost var v := View();
      St.TablesAgree(state);
      state := St.MATCH_NEXT_STATES[state];
      LenEncode(false, len - MATCH_MIN, posState);
      var posSlot := GetPosSlot(fastPos, logBits, dist);
      var lenState := if len < 5 then len - 2 else 3;
      DistEncode(dist, posSlot, lenState);
      EncRunConcat(v, LenEvents(false, len - MATCH_MIN, posState), DistEvents(dist, lenState));
      reps := reps.(r3 := reps.r2);
      reps := reps.(r2 := reps.r1);
      reps := reps.(r1 := reps.r0);
      reps := reps.(r0 := dist);
    }

    /** The end marker: a shortest match with all distance bits set. */
    method WriteEndMarker(posState: nat)
      requires Valid()
      modifies rc, this`probs, this`state
      ensures Valid() && state == St.MatchNext(old(state))
      ensures View() == EncRun(old(View()), MatchEvents(old(state), posState, END_MARK, MATCH_MIN))
    {
      hide EncStep, Exact, Pow2, LenEvents, DistEvents, TreeEvents, RawEvents, ReverseEvents;
      EncodeBit(IsMatch(state, posState), 1);
      EncodeBit(IsRep(state), 0);
      ghost var v := View();
      St.TablesAgree(state);
      state := St.MATCH_NEXT_STATES[state];
      LenEncode(false, 0, posState);
      ghost var v2 := View();
      TreeEncode(SlotTree(0), 6, 63);
      ghost var v3 := View();
      EncodeDirectBits(0x3FF_FFFF, 26);
      TreeReverseEncode(AlignTree, 4, 15);
      EndMarkEvents();
      EncRunConcat(v3, RawEvents(0x3FF_FFFF, 26), ReverseEvents(AlignTree, 4, 15, 1));
      EncRunConcat(v2, TreeEvents(SlotTree(0), 6, 63, 1),
          Append(RawEvents(0x3FF_FFFF, 26), ReverseEvents(AlignTree, 4, 15, 1)));
      EncRunConcat(v, LenEvents(false, 0, posState), DistEvents(END_MARK, 0));
    }

    /** One packet, from the length and the `back` code that were chosen for it. */
    method CodePacket(data: seq<Byte>, pos: nat, len: nat, back: nat)
      requires Valid() && CoderOk(Place(), pos) && pos < |data|
      requires PacketOk(Place(), data, pos, PacketOf(len, back), props)
      requires PacketOf(len, back).Match? ==> back - NUM_REPS < DistLimit(logBits)
      modifies rc, this`probs, this`state, this`reps
      ensures Valid() && Place() == NextCoder(old(Place()), PacketOf(len, back))
      ensures View() == EncRun(old(View()), EventsFor(old(Place()), data, pos, PacketOf(len, back), props))
      ensures forall kinds ::
                old(state) == St.StateOf(kinds) ==> state == St.StateOf(kinds + [KindOf(PacketOf(len, back))])
    {
      hide St.StateOf, EncRun, LitEvents, MatchedEvents, RepEvents, MatchEvents, Pow2, Exact;
      if len == 1 && back == LITERAL_BACK {
        CodeLiteral(data, pos);
      } else if back < NUM_REPS {
        CodeRep(pos, len, back);
      } else {
        CodeMatch(pos, len, back - NUM_REPS);
      }
      forall kinds | old(state) == St.StateOf(kinds)
        ensures state == St.StateOf(kinds + [KindOf(PacketOf(len, back))])
      {
        CoderState(old(Place()), PacketOf(len, back), kinds);
      }
    }

    /** Every packet in turn, then the end marker if wanted. */
    method CodePackets(data: seq<Byte>, ps: List<Packet>, mark: bool)
      requires Valid() && Place() == CODER_START && props.dicSize <= DistLimit(logBits)
      requires Covers(CODER_START, data, 0, ps, props)
      modifies rc, this`probs, this`state, this`reps
      ensures Valid() && View() == EncRun(old(View()), AllEvents(CODER_START, data, 0, ps, props, mark))
      ensures state == St.StateOf(Kinds(ps) + if mark then [St.Match] else [])
    {
      hide St.StateOf, EncStep, EventsFor, Exact, Pow2, PosSlot, MatchEvents, PacketOk, EncRun, PosState, PacketOf, BackOf,
           DistLimit, AllEvents, Covers;
      var rest, pos: nat := ps, 0;
      ghost var evs := AllEvents(CODER_START, data, 0, ps, props, mark);
      ghost var done: seq<St.Kind> := [];
      NoState();
      while rest.Cons?
        invariant state == St.StateOf(done) && done + Kinds(rest) == Kinds(ps)
        invariant Valid() && CoderOk(Place(), pos) && Covers(Place(), data, pos, rest, props)
        invariant EncRun(View(), AllEvents(Place(), data, pos, rest, props, mark)) == EncRun(old(View()), evs)
        decreases rest
      {
        ghost var c, v := Place(), View();
        var p := rest.head;
        FirstPacket(c, data, pos, p, rest.tail, props, mark, v);
        BackOfPacket(c, data, pos, p, props);
        CodePacket(data, pos, PacketLen(p), BackOf(p));
        assert done + [KindOf(p)] + Kinds(rest.tail) == done + Kinds(rest);
        done := done + [KindOf(p)];
        pos := pos + PacketLen(p);
        rest := rest.tail;
      }
      NoPacket(Place(), data, pos, props, mark, View());
      assert done == Kinds(ps) == Kinds(ps) + [];
      St.StateStep(done, St.Match);
      if mark {
        WriteEndMarker(PosState(pos, props));
      }
    }
  }

  lemma NoState()
    ensures St.StateOf([]) == CODER_START.state
  {
  }

  /** LIT_PROBS: the literal cells by the masked position and the byte before. */
  function LitProbs(pos: nat, data: seq<Byte>, props: Props): (base: nat)
    requires PropsOk(props) && pos <= |data|
    ensures base == LitBase(data[..pos], props)
  {
    if pos == 0 then 0
    else (pos % Pow2(props.lp) * Pow2(props.lc) + data[pos - 1] / Pow2(8 - props.lc)) * 0x300
  }

  /** The events of all packets are those of the first, and then those of the others. */
  ghost predicate FirstThenRest(c: Coder, data: seq<Byte>, pos: nat, p: Packet, rest: List<Packet>, props: Props,
                                mark: bool)
    requires PropsOk(props) && CoderOk(c, pos) && Covers(c, data, pos, Cons(p, rest), props)
  {
    hide EventsFor, PacketOk, CoderOk, AllEvents, NextCoder, Append;
    var after := NextCoder(c, p);
    && pos < |data| && PacketOk(c, data, pos, p, props)
    && CoderOk(after, pos + PacketLen(p)) && Covers(after, data, pos + PacketLen(p), rest, props)
    && AllEvents(c, data, pos, Cons(p, rest), props, mark)
       == Append(EventsFor(c, data, pos, p, props), AllEvents(after, data, pos + PacketLen(p), rest, props, mark))
  }

  lemma FirstEvents(c: Coder, data: seq<Byte>, pos: nat, p: Packet, rest: List<Packet>, props: Props, mark: bool)
    requires PropsOk(props) && CoderOk(c, pos) && Covers(c, data, pos, Cons(p, rest), props)
    ensures FirstThenRest(c, data, pos, p, rest, props, mark)
  {
    hide EventsFor, PacketOk, CoderOk, NextCoder, Append;
  }

  /** Coding the first packet and then the others is coding all. */
  ghost predicate CodedInTurn(c: Coder, data: seq<Byte>, pos: nat, p: Packet, rest: List<Packet>, props: Props,
                              mark: bool, v: Enc)
    requires PropsOk(props) && CoderOk(c, pos) && Covers(c, data, pos, Cons(p, rest), props) && Normal(v.s)
    requires FirstThenRest(c, data, pos, p, rest, props, mark)
  {
    hide EncRun, EventsFor, PacketOk, CoderOk, AllEvents, NextCoder, Append, Covers;
    EncRun(EncRun(v, EventsFor(c, data, pos, p, props)),
        AllEvents(NextCoder(c, p), data, pos + PacketLen(p), rest, props, mark))
    == EncRun(v, AllEvents(c, data, pos, Cons(p, rest), props, mark))
  }

  lemma FirstPacket(c: Coder, data: seq<Byte>, pos: nat, p: Packet, rest: List<Packet>, props: Props, mark: bool,
                    v: Enc)
    requires PropsOk(props) && CoderOk(c, pos) && Covers(c, data, pos, Cons(p, rest), props) && Normal(v.s)
    ensures FirstThenRest(c, data, pos, p, rest, props, mark) && CodedInTurn(c, data, pos, p, rest, props, mark, v)
  {
    hide EncRun, EventsFor, PacketOk, CoderOk, AllEvents, NextCoder, Append, Covers;
    FirstEvents(c, data, pos, p, rest, props, mark);
    EncRunConcat(v, EventsFor(c, data, pos, p, props),
        AllEvents(NextCoder(c, p), data, pos + PacketLen(p), rest, props, mark));
  }

  lemma NoPacket(c: Coder, data: seq<Byte>, pos: nat, props: Props, mark: bool, v: Enc)
    requires PropsOk(props) && CoderOk(c, pos) && Covers(c, data, pos, Nil, props) && Normal(v.s)
    ensures AllEvents(c, data, pos, Nil, props, mark)
            == if mark then MatchEvents(c.state, PosState(pos, props), END_MARK, MATCH_MIN) else Nil
    ensures EncRun(v, Nil) == v
  {
    hide MatchEvents, PosState;
  }

  lemma {:induction false} RawIsDirect(e: Enc, value: nat, n: nat)
    requires Normal(e.s)
    ensures EncRun(e, RawEvents(value, n)) == Enc(Run(e.s, DirectBits(value, n)), e.probs)
    decreases n
  {
    if n > 0 {
      RawIsDirect(EncStep(e, Raw(value / Pow2(n - 1) % 2)), value, n - 1);
    }
  }

  lemma EndMarkEvents()
    ensures DistEvents(END_MARK, 0)
         == Append(TreeEvents(SlotTree(0), 6, 63, 1),
             Append(RawEvents(0x3FF_FFFF, 26), ReverseEvents(AlignTree, 4, 15, 1)))
  {
    hide TreeEvents, RawEvents, ReverseEvents;
    assert Pow2(30) == 0x4000_0000 by {
      S.SmallPow2();
      S.Pow2Sum(26, 4);
    }
    SlotOf(END_MARK, 63);
  }

  lemma RepLenIs(len: nat, posState: nat)
    requires len >= 1
    ensures RepLen(len, posState) == if len == 1 then Nil else LenEvents(true, len - MATCH_MIN, posState)
  {
    hide LenEvents;
  }

  lemma BackOfPacket(c: Coder, data: seq<Byte>, pos: nat, p: Packet, props: Props)
    requires CoderOk(c, pos) && PacketOk(c, data, pos, p, props)
    ensures PacketOf(PacketLen(p), BackOf(p)) == p && (p.Match? ==> NUM_REPS <= BackOf(p) < NUM_REPS + props.dicSize)
  {
  }

  /** The whole encoder: every packet in turn, the end marker if wanted, then the flush. */
  method Encode(data: seq<Byte>, ps: List<Packet>, props: Props, logBits: nat, mark: bool) returns (out: seq<Byte>)
    requires PropsOk(props) && (logBits == 11 || logBits == 13) && props.dicSize <= DistLimit(logBits)
    requires Covers(CODER_START, data, 0, ps, props)
    ensures out == Stream(AllEvents(CODER_START, data, 0, ps, props, mark))
  {
    hide EncStep, EventsFor, Exact, Pow2, PosSlot, MatchEvents, Encoded, PacketOk, Covers, AllEvents, EncRun;
    var enc := new LzmaEnc(props, logBits);
    ghost var evs := AllEvents(CODER_START, data, 0, ps, props, mark);
    enc.CodePackets(data, ps, mark);
    enc.rc.FlushData();
    out := enc.rc.out;
    EncRunIsRun(ENC_START, evs);
    EncodedValue(Choices(map[], evs));
    ValueInjective(out, Stream(evs));
  }
}
