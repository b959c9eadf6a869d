/**
 The decoder's walk through one LZMA symbol, as an automaton.

 A control point says which probability cell the next bit is read with, or that
 it is read directly; a bit leads to the next control point.  The real decoder
 and the dry run follow the same automaton: one adapts the cells it reads, the
 other does not.
 */
module Symbols {
  import opened Bytes
  import opened RangeCoder
  import States

  // The decoder's single array of cells.
  const IS_MATCH := 0
  const IS_REP := 192
  const IS_REP_G0 := 204
  const IS_REP_G1 := 216
  const IS_REP_G2 := 228
  const IS_REP0_LONG := 240
  const POS_SLOT := 432
  const SPEC_POS := 688
  const ALIGN := 802
  const LEN_CODER := 818
  const REP_LEN_CODER := 1332
  const LITERAL := 1846
  const LIT_SIZE := 768

  // Offsets inside a length coder.
  const LEN_CHOICE2 := 1
  const LEN_LOW := 2
  const LEN_MID := 130
  const LEN_HIGH := 258


  /** What a decoded symbol asks for; lengths count from the shortest match. */
  datatype Symbol =
    | Lit(byte: Byte)
    | ShortRep
    | Rep(index: nat, len: nat)
    | Match(dist: nat, len: nat)

  datatype Kind = NewMatch | Repeat(index: nat)

  datatype Ctl =
    | AtIsMatch
    | AtLit(sym: nat)
    | AtMatched(sym: nat, offs: nat, mb: nat)
    | AtIsRep
    | AtRepG0
    | AtRep0Long
    | AtRepG1
    | AtRepG2
    | AtLenChoice(kind: Kind)
    | AtLenChoice2(kind: Kind)
    | AtLenTree(kind: Kind, base: nat, limit: nat, offset: nat, i: nat)
    | AtSlot(len: nat, i: nat)
    | AtSpec(len: nat, slot: nat, dist: nat, mask: nat, i: nat, left: nat)
    | AtDirect(len: nat, dist: nat, left: nat)
    | AtAlign(len: nat, dist: nat, mask: nat, i: nat)
    | Done(symbol: Symbol)
    | Failed

  /** What stays fixed while one symbol is decoded. */
  datatype Env = Env(state: nat, posState: nat, lit: nat, matchByte: Byte, noHistory: bool)

  predicate EnvOk(env: Env, numProbs: nat)
  {
    && env.state < 12 && env.posState < 16
    && LITERAL <= env.lit && env.lit + LIT_SIZE <= numProbs
    && (env.lit - LITERAL) % LIT_SIZE == 0
  }

  datatype Ask = Cell(index: nat) | Plain | Stop

  function LenCoder(kind: Kind): nat
  {
    if kind.NewMatch? then LEN_CODER else REP_LEN_CODER
  }

  function FooterBits(slot: nat): nat
    requires 4 <= slot
  {
    slot / 2 - 1
  }

  /** The first distance of a slot. */
  function SlotBase(slot: nat): nat
    requires 4 <= slot
  {
    (2 + slot % 2) * Pow2(FooterBits(slot))
  }

  function SpecBase(slot: nat): nat
    requires 4 <= slot < 14
  {
    SPEC_POS + SlotBase(slot) - slot - 1
  }

  /** The bit of the shifted match byte that selects the sub-table, or 0. */
  function MatchBit(offs: nat, mb: nat): nat
  {
    if offs == 0x100 && (2 * mb) / 0x100 % 2 == 1 then 0x100 else 0
  }

  function AskAt(q: Ctl, env: Env): Ask
    requires Wf(q, env)
  {
    match q
    case AtIsMatch => Cell(IS_MATCH + env.state * 16 + env.posState)
    case AtLit(sym) => Cell(env.lit + sym)
    case AtMatched(sym, offs, mb) => Cell(env.lit + offs + MatchBit(offs, mb) + sym)
    case AtIsRep => Cell(IS_REP + env.state)
    case AtRepG0 => Cell(IS_REP_G0 + env.state)
    case AtRep0Long => Cell(IS_REP0_LONG + env.state * 16 + env.posState)
    case AtRepG1 => Cell(IS_REP_G1 + env.state)
    case AtRepG2 => Cell(IS_REP_G2 + env.state)
    case AtLenChoice(kind) => Cell(LenCoder(kind))
    case AtLenChoice2(kind) => Cell(LenCoder(kind) + LEN_CHOICE2)
    case AtLenTree(_, base, _, _, i) => Cell(base + i)
    case AtSlot(len, i) => Cell(POS_SLOT + (if len < 4 then len else 3) * 64 + i)
    case AtSpec(_, slot, _, _, i, _) => Cell(SpecBase(slot) + i)
    case AtDirect(_, _, _) => Plain
    case AtAlign(_, _, _, i) => Cell(ALIGN + i)
    case Done(_) => Stop
    case Failed => Stop
  }

  function Next(q: Ctl, env: Env, bit: Bit): (r: Ctl)
    requires Wf(q, env) && !AskAt(q, env).Stop?
  {
    match q
    case AtIsMatch =>
      if bit == 1 then AtIsRep
      else if env.state < States.NUM_LIT_STATES then AtLit(1)
      else AtMatched(1, 0x100, env.matchByte)
    case AtLit(sym) => Literal(2 * sym + bit, AtLit(2 * sym + bit))
    case AtMatched(sym, offs, mb) =>
      var b := MatchBit(offs, mb);
      var offs' := if bit == 0 then (if b == 0 then offs else 0) else b;
      Literal(2 * sym + bit, AtMatched(2 * sym + bit, offs', 2 * mb))
    case AtIsRep =>
      if bit == 0 then AtLenChoice(NewMatch)
      else if env.noHistory then Failed
      else AtRepG0
    case AtRepG0 => if bit == 0 then AtRep0Long else AtRepG1
    case AtRep0Long => if bit == 0 then Done(ShortRep) else AtLenChoice(Repeat(0))
    case AtRepG1 => if bit == 0 then AtLenChoice(Repeat(1)) else AtRepG2
    case AtRepG2 => AtLenChoice(Repeat(2 + bit))
    case AtLenChoice(kind) =>
      if bit == 0 then AtLenTree(kind, LenCoder(kind) + LEN_LOW + env.posState * 8, 8, 0, 1)
      else AtLenChoice2(kind)
    case AtLenChoice2(kind) =>
      if bit == 0 then AtLenTree(kind, LenCoder(kind) + LEN_MID + env.posState * 8, 8, 8, 1)
      else AtLenTree(kind, LenCoder(kind) + LEN_HIGH, 256, 16, 1)
    case AtLenTree(kind, base, limit, offset, i) =>
      var i' := 2 * i + bit;
      if i' < limit then AtLenTree(kind, base, limit, offset, i')
      else AfterLen(kind, i' - limit + offset)
    case AtSlot(len, i) =>
      var i' := 2 * i + bit;
      if i' < 64 then AtSlot(len, i') else AfterSlot(len, i' - 64)
    case AtSpec(len, slot, dist, mask, i, left) =>
      var dist' := if bit == 0 then dist else dist + mask;
      if left == 1 then Done(Match(dist', len))
      else AtSpec(len, slot, dist', 2 * mask, 2 * i + bit, left - 1)
    case AtDirect(len, dist, left) =>
      var dist' := 2 * dist + bit;
      if left == 1 then AtAlign(len, dist' * 16, 1, 1) else AtDirect(len, dist', left - 1)
    case AtAlign(len, dist, mask, i) =>
      var dist' := if bit == 0 then dist else dist + mask;
      if mask == 8 then Done(Match(dist', len)) else AtAlign(len, dist', 2 * mask, 2 * i + bit)
  }

  function Literal(sym: nat, more: Ctl): Ctl
    requires sym < 0x200
  {
    if sym < 0x100 then more else Done(Lit(sym - 0x100))
  }

  /** Where the automaton goes with a length. */
  function AfterLen(kind: Kind, len: nat): Ctl
  {
    if kind.NewMatch? then AtSlot(len, 1) else Done(Rep(kind.index, len))
  }

  function AfterSlot(len: nat, slot: nat): Ctl
  {
    if slot < 4 then Done(Match(slot, len))
    else if slot < 14 then
      AtSpec(len, slot, SlotBase(slot), 1, 1, FooterBits(slot))
    else AtDirect(len, 2 + slot % 2, FooterBits(slot) - 4)
  }

  /** The control points that a symbol can pass through. */
  predicate Wf(q: Ctl, env: Env)
  {
    match q
    case AtLit(sym) => 1 <= sym < 256
    case AtMatched(sym, offs, _) => 1 <= sym < 256 && (offs == 0 || offs == 0x100)
    case AtLenChoice(kind) => KindOk(kind)
    case AtLenChoice2(kind) => KindOk(kind)
    case AtLenTree(kind, base, limit, offset, i) =>
      && KindOk(kind) && 1 <= i < limit
      && (|| (limit == 8 && offset == 0 && base == LenCoder(kind) + LEN_LOW + env.posState * 8)
          || (limit == 8 && offset == 8 && base == LenCoder(kind) + LEN_MID + env.posState * 8)
          || (limit == 256 && offset == 16 && base == LenCoder(kind) + LEN_HIGH))
    case AtSlot(len, i) => len < 272 && 1 <= i < 64
    case AtSpec(len, slot, dist, mask, i, left) =>
      && len < 272 && 4 <= slot < 14 && 1 <= left <= 5 && 1 <= i < 2 * MaskMax(left)
      && dist <= 96 + mask - 1 && 1 <= mask <= MaskMax(left)
    case AtDirect(len, dist, left) => len < 272 && 1 <= left <= 26 && dist < Pow2(28 - left)
    case AtAlign(len, dist, mask, i) =>
      && len < 272 && mask <= i < 2 * mask && (mask == 1 || mask == 2 || mask == 4 || mask == 8)
      && dist <= 0xFFFF_FFF0 + mask - 1
    case Done(s) => SymbolOk(s)
    case _ => true
  }

  /** The largest mask with `left` footer bits to go. */
  function MaskMax(left: nat): nat
  {
    if left <= 1 then 16 else if left == 2 then 8 else if left == 3 then 4 else if left == 4 then 2 else 1
  }

  predicate KindOk(kind: Kind)
  {
    kind.NewMatch? || kind.index < 4
  }

  predicate SymbolOk(s: Symbol)
  {
    match s
    case Lit(_) => true
    case ShortRep => true
    case Rep(index, len) => index < 4 && len < 272
    case Match(dist, len) => dist < WORD && len < 272
  }

  lemma MiddleSlotWf(len: nat, slot: nat, env: Env)
    requires len < 272 && 4 <= slot < 14
    ensures Wf(AfterSlot(len, slot), env)
  {
    SmallPow2();
    var left := slot / 2 - 1;
    assert left == 1 || left == 2 || left == 3 || left == 4 || left == 5;
  }

  lemma LargeSlotWf(len: nat, slot: nat, env: Env)
    requires len < 272 && 14 <= slot < 64
    ensures Wf(AfterSlot(len, slot), env)
  {
    assert Pow2(2) == 4 by { SmallPow2(); }
    Pow2Mono(2, 28 - (slot / 2 - 5));
  }

  lemma SmallPow2()
    ensures Pow2(0) == 1 && Pow2(1) == 2 && Pow2(2) == 4 && Pow2(3) == 8
    ensures Pow2(4) == 16 && Pow2(5) == 32 && Pow2(6) == 64 && Pow2(8) == 256
    ensures Pow2(26) == 0x400_0000
  {
    assert Pow2(2) == 2 * Pow2(1);
    assert Pow2(4) == 2 * Pow2(3);
    assert Pow2(6) == 2 * Pow2(5);
    assert Pow2(8) == 2 * Pow2(7);
    assert Pow2(10) == 2 * Pow2(9);
    assert Pow2(13) == 0x2000 by { assert Pow2(12) == 2 * Pow2(11); }
    Pow2Sum(13, 13);
  }

  lemma Word32()
    ensures Pow2(32) == 0x1_0000_0000
  {
    Pow2Sum(8, 8);
    Pow2Sum(16, 16);
    SmallPow2();
  }

  lemma {:induction false} Pow2Sum(m: nat, n: nat)
    ensures Pow2(m + n) == Pow2(m) * Pow2(n)
  {
    if m > 0 {
      Pow2Sum(m - 1, n);
      assert Pow2(m + n) == 2 * (Pow2(m - 1) * Pow2(n));
    }
  }

  lemma {:induction false} Pow2Mono(m: nat, n: nat)
    requires m <= n
    ensures Pow2(m) <= Pow2(n)
    decreases n
  {
    if m < n {
      Pow2Mono(m, n - 1);
    }
  }

  lemma SpecNextWf(q: Ctl, env: Env, bit: Bit)
    requires Wf(q, env) && q.AtSpec?
    ensures Wf(Next(q, env, bit), env)
  {
  }

  lemma DirectNextWf(q: Ctl, env: Env, bit: Bit)
    requires Wf(q, env) && q.AtDirect?
    ensures Wf(Next(q, env, bit), env)
  {
    assert Pow2(29 - q.left) == 2 * Pow2(28 - q.left);
    if q.left == 1 {
      assert Pow2(28) == 0x1000_0000 by {
        SmallPow2();
        assert Pow2(28) == 4 * Pow2(26);
      }
    }
  }

  lemma SlotNextWf(q: Ctl, env: Env, bit: Bit)
    requires Wf(q, env) && q.AtSlot?
    ensures Wf(Next(q, env, bit), env)
  {
    var slot := 2 * q.i + bit - 64;
    if 14 <= slot {
      LargeSlotWf(q.len, slot, env);
    } else if 4 <= slot {
      MiddleSlotWf(q.len, slot, env);
    }
  }

  lemma HeadNextWf(q: Ctl, env: Env, bit: Bit)
    requires Wf(q, env) && AskAt(q, env).Cell? && !q.AtSlot? && !q.AtSpec?
    ensures Wf(Next(q, env, bit), env)
  {
  }

  lemma NextWf(q: Ctl, env: Env, bit: Bit)
    requires Wf(q, env) && !AskAt(q, env).Stop?
    ensures Wf(Next(q, env, bit), env)
  {
    if q.AtSpec? {
      SpecNextWf(q, env, bit);
    } else if q.AtDirect? {
      DirectNextWf(q, env, bit);
    } else if q.AtSlot? {
      SlotNextWf(q, env, bit);
    } else {
      HeadNextWf(q, env, bit);
    }
  }

  /** Every cell asked for lies in the array. */
  lemma AskInside(q: Ctl, env: Env, numProbs: nat)
    requires EnvOk(env, numProbs) && Wf(q, env)
    ensures AskAt(q, env).Cell? ==> AskAt(q, env).index < numProbs
  {
    if q.AtSpec? {
      SpecInside(q.slot);
    }
  }

  lemma SpecInside(slot: nat)
    requires 4 <= slot < 14
    ensures SPEC_POS - 1 <= SpecBase(slot) && SpecBase(slot) + 31 < ALIGN
  {
    SmallPow2();
  }

  // ------------------------------------------------------------ how far a symbol goes

  /** Doublings until `i` reaches `limit`, for a limit of at most 256. */
  function BitsLeft(i: nat, limit: nat): nat
  {
    if i >= limit then 0
    else if 2 * i >= limit then 1
    else if 4 * i >= limit then 2
    else if 8 * i >= limit then 3
    else if 16 * i >= limit then 4
    else if 32 * i >= limit then 5
    else if 64 * i >= limit then 6
    else if 128 * i >= limit then 7
    else 8
  }

  /** A bound on the modelled bits still to come. */
  function ModelledLeft(q: Ctl): nat
  {
    match q
    case AtIsMatch => 22
    case AtLit(sym) => BitsLeft(sym, 256)
    case AtMatched(sym, _, _) => BitsLeft(sym, 256)
    case AtIsRep => 21
    case AtRepG0 => 13
    case AtRep0Long => 11
    case AtRepG1 => 12
    case AtRepG2 => 11
    case AtLenChoice(kind) => if kind.NewMatch? then 20 else 10
    case AtLenChoice2(kind) => if kind.NewMatch? then 19 else 9
    case AtLenTree(kind, _, limit, _, i) => BitsLeft(i, limit) + if kind.NewMatch? then 10 else 0
    case AtSlot(_, i) => BitsLeft(i, 64) + 4
    case AtSpec(_, _, _, _, _, left) => if left == 5 then 4 else left
    case AtDirect(_, _, _) => 4
    case AtAlign(_, _, mask, _) => if mask == 1 then 4 else if mask == 2 then 3 else if mask == 4 then 2 else 1
    case _ => 0
  }

  /**
   A bound on the direct bits still to come.  The fifth bit of a middle distance
   slot is charged to all of them: such a symbol has no direct bits.
   */
  function DirectLeft(q: Ctl): nat
  {
    match q
    case AtIsMatch => 26
    case AtIsRep => 26
    case AtLenChoice(kind) => if kind.NewMatch? then 26 else 0
    case AtLenChoice2(kind) => if kind.NewMatch? then 26 else 0
    case AtLenTree(kind, _, _, _, _) => if kind.NewMatch? then 26 else 0
    case AtSlot(_, _) => 26
    case AtSpec(_, _, _, _, _, left) => if left == 5 then 26 else 0
    case AtDirect(_, _, left) => left
    case _ => 0
  }

  lemma BitsLeftStep(i: nat, bit: Bit, limit: nat)
    requires 1 <= i < limit <= 256
    ensures BitsLeft(2 * i + bit, limit) + 1 <= BitsLeft(i, limit)
  {
  }

  /** The step from `q` to `n` pays for a modelled bit. */
  predicate PaysModelled(q: Ctl, n: Ctl)
  {
    || (ModelledLeft(n) + 1 <= ModelledLeft(q) && DirectLeft(n) <= DirectLeft(q))
    || (ModelledLeft(n) <= ModelledLeft(q) && DirectLeft(n) + 26 <= DirectLeft(q))
  }

  lemma LiteralCost(q: Ctl, env: Env, bit: Bit)
    requires Wf(q, env) && (q.AtLit? || q.AtMatched?)
    ensures PaysModelled(q, Next(q, env, bit))
  {
    BitsLeftStep(q.sym, bit, 256);
  }

  lemma LenTreeCost(q: Ctl, env: Env, bit: Bit)
    requires Wf(q, env) && q.AtLenTree?
    ensures PaysModelled(q, Next(q, env, bit))
  {
    BitsLeftStep(q.i, bit, q.limit);
  }

  lemma SlotCost(q: Ctl, env: Env, bit: Bit)
    requires Wf(q, env) && q.AtSlot?
    ensures PaysModelled(q, Next(q, env, bit))
  {
    BitsLeftStep(q.i, bit, 64);
  }

  lemma HeadCost(q: Ctl, env: Env, bit: Bit)
    requires Wf(q, env) && AskAt(q, env).Cell?
    requires !q.AtLit? && !q.AtMatched? && !q.AtLenTree? && !q.AtSlot?
    ensures PaysModelled(q, Next(q, env, bit))
  {
  }

  lemma CellCost(q: Ctl, env: Env, bit: Bit)
    requires Wf(q, env) && AskAt(q, env).Cell?
    ensures PaysModelled(q, Next(q, env, bit))
  {
    if q.AtLit? || q.AtMatched? {
      LiteralCost(q, env, bit);
    } else if q.AtLenTree? {
      LenTreeCost(q, env, bit);
    } else if q.AtSlot? {
      SlotCost(q, env, bit);
    } else {
      HeadCost(q, env, bit);
    }
  }

  lemma PlainCost(q: Ctl, env: Env, bit: Bit)
    requires Wf(q, env) && q.AtDirect?
    ensures ModelledLeft(Next(q, env, bit)) <= ModelledLeft(q)
    ensures DirectLeft(Next(q, env, bit)) + 1 <= DirectLeft(q)
  {
  }

  /** Each step uses up at least the bit it reads. */
  lemma StepCost(q: Ctl, env: Env, bit: Bit)
    requires Wf(q, env) && !AskAt(q, env).Stop?
    ensures Wf(Next(q, env, bit), env)
    ensures ModelledLeft(Next(q, env, bit)) + DirectLeft(Next(q, env, bit)) < ModelledLeft(q) + DirectLeft(q)
  {
    NextWf(q, env, bit);
    if q.AtDirect? {
      PlainCost(q, env, bit);
    } else {
      CellCost(q, env, bit);
    }
  }
}
