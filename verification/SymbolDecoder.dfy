/**
 The decoder's code for one symbol and the dry run of it, proved against the
 automaton: the methods mirror the loops and branches, the ghost control point
 says where in the automaton they are.
 */
module SymbolDecoder {
  import opened Bytes
  import opened RangeCoder
  import opened Decoding
  import S = Symbols
  import St = States

  // ------------------------------------------------------------ the real decode

  /** The next bit needs no byte beyond those of the whole symbol. */
  lemma ReadWithin(q: S.Ctl, env: S.Env, rc: Rc, probs: Probs, buf: seq<Byte>, goal: Outcome)
    requires S.EnvOk(env, |probs|) && S.Wf(q, env) && !S.AskAt(q, env).Stop? && Sane(rc)
    requires Real(q, env, rc, probs, buf) == goal && goal.rc.pos <= |buf|
    ensures Refill(rc, buf).pos <= |buf|
  {
    hide S.Next, S.Wf, S.AskAt;
    var bit := ReadBit(q, env, rc, probs, buf).0;
    S.StepCost(q, env, bit);
    assert ReadBit(q, env, rc, probs, buf).1.pos == Refill(rc, buf).pos;
  }

  class BitReader {
    const probs: array<Prob>
    var range: nat
    var code: nat
    var pos: nat

    constructor (numProbs: nat)
      ensures fresh(probs) && probs.Length == numProbs
      ensures forall i | 0 <= i < numProbs :: probs[i] == PROB_INIT
      ensures range == INIT_RANGE && code == 0 && pos == 0
    {
      probs := new Prob[numProbs](_ => PROB_INIT);
      range, code, pos := INIT_RANGE, 0, 0;
    }

    ghost function View(): Rc
      reads this
    {
      Rc(range, code, pos)
    }

    /** The rest of the symbol, from control point `q`, comes out as `goal`. */
    ghost predicate Walking(q: S.Ctl, env: S.Env, buf: seq<Byte>, goal: Outcome)
      reads this, probs
    {
      && S.EnvOk(env, probs.Length) && S.Wf(q, env) && Sane(View())
      && goal.rc.pos <= |buf|
      && Real(q, env, View(), probs[..], buf) == goal
    }

    /** NORMALIZE. */
    method Normalise(buf: seq<Byte>)
      requires Sane(View()) && Refill(View(), buf).pos <= |buf|
      modifies this`range, this`code, this`pos
      ensures View() == Refill(old(View()), buf)
    {
      if range < TOP {
        range := range * 256;
        code := (code * 256 + buf[pos]) % WORD;
        pos := pos + 1;
      }
    }

    /** IF_BIT_0 with both updates. */
    method ModelledBit(i: nat, buf: seq<Byte>) returns (bit: Bit)
      requires Sane(View()) && Refill(View(), buf).pos <= |buf| && i < probs.Length
      modifies this`range, this`code, this`pos, probs
      ensures (bit, View()) == GetModelled(old(View()), old(probs[i]), buf)
      ensures probs[..] == old(probs[..])[i := Adapt(old(probs[i]), bit)]
    {
      var ttt: int := probs[i];
      Normalise(buf);
      BoundInside(range, ttt);
      var bound := range / 2048 * ttt;
      if code < bound {
        range := bound;
        probs[i] := ttt + (2048 - ttt) / 32;
        bit := 0;
      } else {
        range := range - bound;
        code := code - bound;
        probs[i] := ttt - ttt / 32;
        bit := 1;
      }
    }

    method GetBit(i: nat, buf: seq<Byte>, ghost q: S.Ctl, ghost env: S.Env, ghost goal: Outcome) returns (bit: Bit)
      requires Walking(q, env, buf, goal) && S.AskAt(q, env) == S.Cell(i)
      modifies this`range, this`code, this`pos, probs
      ensures Walking(S.Next(q, env, bit), env, buf, goal)
    {
      hide S.Next, S.Wf, S.AskAt, GetModelled, Adapt;
      S.AskInside(q, env, probs.Length);
      ghost var b := ReadBit(q, env, View(), probs[..], buf).0;
      S.StepCost(q, env, b);
      ReadWithin(q, env, View(), probs[..], buf, goal);
      bit := ModelledBit(i, buf);
    }

    /** One direct bit, with the sign trick. */
    method GetDirectBit(buf: seq<Byte>, ghost q: S.Ctl, ghost env: S.Env, ghost goal: Outcome) returns (bit: Bit)
      requires Walking(q, env, buf, goal) && S.AskAt(q, env).Plain?
      modifies this`range, this`code, this`pos
      ensures Walking(S.Next(q, env, bit), env, buf, goal)
    {
      hide S.Next, S.Wf, S.AskAt;
      ghost var b := ReadBit(q, env, View(), probs[..], buf).0;
      S.StepCost(q, env, b);
      ReadWithin(q, env, View(), probs[..], buf, goal);
      Normalise(buf);
      range := range / 2;
      code := Sub32(code, range);
      var t := Sub32(0, code / 0x8000_0000);
      bit := Add32(t, 1);
      code := if t == 0 then code else Add32(code, range);
    }

    method DecodeLiteral(prob: nat, buf: seq<Byte>, ghost env: S.Env, ghost goal: Outcome) returns (symbol: nat)
      requires Walking(S.AtLit(1), env, buf, goal) && prob == env.lit
      modifies this`range, this`code, this`pos, probs
      ensures 0x100 <= symbol < 0x200 && Walking(S.Done(S.Lit(symbol - 0x100)), env, buf, goal)
    {
      hide Real;
      symbol := 1;
      while symbol < 0x100
        invariant 1 <= symbol < 0x200
        invariant Walking(if symbol < 0x100 then S.AtLit(symbol) else S.Done(S.Lit(symbol - 0x100)), env, buf, goal)
        decreases 0x200 - symbol
      {
        var bit := GetBit(prob + symbol, buf, S.AtLit(symbol), env, goal);
        symbol := symbol + symbol + bit;
      }
    }

    method DecodeMatched(prob: nat, matchByte: Byte, buf: seq<Byte>, ghost env: S.Env, ghost goal: Outcome)
      returns (symbol: nat)
      requires Walking(S.AtMatched(1, 0x100, matchByte), env, buf, goal) && prob == env.lit
      modifies this`range, this`code, this`pos, probs
      ensures 0x100 <= symbol < 0x200 && Walking(S.Done(S.Lit(symbol - 0x100)), env, buf, goal)
    {
      hide Real;
      symbol := 1;
      var mb: nat, offs: nat := matchByte, 0x100;
      while symbol < 0x100
        invariant 1 <= symbol < 0x200 && (offs == 0 || offs == 0x100)
        invariant Walking(if symbol < 0x100 then S.AtMatched(symbol, offs, mb)
                          else S.Done(S.Lit(symbol - 0x100)), env, buf, goal)
        decreases 0x200 - symbol
      {
        ghost var q := S.AtMatched(symbol, offs, mb);
        mb := 2 * mb;
        var sub := if offs == 0x100 && mb / 0x100 % 2 == 1 then 0x100 else 0;
        var bit := GetBit(prob + offs + sub + symbol, buf, q, env, goal);
        symbol := symbol + symbol + bit;
        if bit == 0 {
          offs := if sub == 0 then offs else 0;
        } else {
          offs := sub;
        }
      }
    }

    /** The length coder: which of the three trees, then the tree. */
    method DecodeLen(prob: nat, posState: nat, buf: seq<Byte>, ghost kind: S.Kind, ghost env: S.Env,
                     ghost goal: Outcome)
      returns (len: nat)
      requires Walking(S.AtLenChoice(kind), env, buf, goal) && prob == S.LenCoder(kind) && posState == env.posState
      modifies this`range, this`code, this`pos, probs
      ensures Walking(S.AfterLen(kind, len), env, buf, goal)
    {
      hide Real;
      var bit := GetBit(prob, buf, S.AtLenChoice(kind), env, goal);
      var probLen, limit, offset: nat;
      if bit == 0 {
        probLen, offset, limit := prob + S.LEN_LOW + posState * 8, 0, 8;
      } else {
        bit := GetBit(prob + S.LEN_CHOICE2, buf, S.AtLenChoice2(kind), env, goal);
        if bit == 0 {
          probLen, offset, limit := prob + S.LEN_MID + posState * 8, 8, 8;
        } else {
          probLen, offset, limit := prob + S.LEN_HIGH, 16, 256;
        }
      }
      len := DecodeLenTree(probLen, limit, offset, buf, kind, env, goal);
    }

    /** TREE_DECODE for a length. */
    method DecodeLenTree(probLen: nat, limit: nat, offset: nat, buf: seq<Byte>, ghost kind: S.Kind, ghost env: S.Env,
                         ghost goal: Outcome) returns (len: nat)
      requires Walking(S.AtLenTree(kind, probLen, limit, offset, 1), env, buf, goal)
      modifies this`range, this`code, this`pos, probs
      ensures Walking(S.AfterLen(kind, len), env, buf, goal)
    {
      hide Real;
      var i := 1;
      while i < limit
        invariant 1 <= i < 2 * limit
        invariant Walking(if i < limit then S.AtLenTree(kind, probLen, limit, offset, i)
                          else S.AfterLen(kind, i - limit + offset),
                          env, buf, goal)
        decreases 2 * limit - i
      {
        var bit := GetBit(probLen + i, buf, S.AtLenTree(kind, probLen, limit, offset, i), env, goal);
        i := i + i + bit;
      }
      len := i - limit + offset;
    }

    /** The slot tree and the footer. */
    method DecodeDistance(len: nat, buf: seq<Byte>, ghost env: S.Env, ghost goal: Outcome) returns (distance: nat)
      requires Walking(S.AtSlot(len, 1), env, buf, goal)
      modifies this`range, this`code, this`pos, probs
      ensures Walking(S.Done(S.Match(distance, len)), env, buf, goal)
    {
      hide Real, S.SlotBase;
      var prob := S.POS_SLOT + (if len < 4 then len else 3) * 64;
      var i := 1;
      while i < 64
        invariant 1 <= i < 128
        invariant Walking(if i < 64 then S.AtSlot(len, i) else S.AfterSlot(len, i - 64), env, buf, goal)
        decreases 128 - i
      {
        var bit := GetBit(prob + i, buf, S.AtSlot(len, i), env, goal);
        i := i + i + bit;
      }
      var slot := i - 64;
      distance := slot;
      if slot >= 4 {
        if slot < 14 {
          distance := DecodeSpec(len, slot, buf, env, goal);
        } else {
          distance := DecodeDirect(len, slot, buf, env, goal);
        }
      }
    }

    method DecodeSpec(len: nat, slot: nat, buf: seq<Byte>, ghost env: S.Env, ghost goal: Outcome)
      returns (distance: nat)
      requires 4 <= slot < 14 && Walking(S.AfterSlot(len, slot), env, buf, goal)
      modifies this`range, this`code, this`pos, probs
      ensures Walking(S.Done(S.Match(distance, len)), env, buf, goal)
    {
      hide Real, Pow2;
      var numDirectBits := slot / 2 - 1;
      distance := (2 + slot % 2) * Pow2(numDirectBits);
      var prob := S.SPEC_POS + distance - slot - 1;
      var mask: nat, i: nat := 1, 1;
      while numDirectBits != 0
        invariant 0 <= numDirectBits <= 5
        invariant prob == S.SpecBase(slot)
        invariant Walking(if numDirectBits != 0 then S.AtSpec(len, slot, distance, mask, i, numDirectBits)
                          else S.Done(S.Match(distance, len)), env, buf, goal)
        decreases numDirectBits
      {
        var bit := GetBit(prob + i, buf, S.AtSpec(len, slot, distance, mask, i, numDirectBits), env, goal);
        if bit == 1 {
          distance := distance + mask;
        }
        i := i + i + bit;
        mask := 2 * mask;
        numDirectBits := numDirectBits - 1;
      }
    }

    method DecodeDirect(len: nat, slot: nat, buf: seq<Byte>, ghost env: S.Env, ghost goal: Outcome)
      returns (distance: nat)
      requires 14 <= slot < 64 && Walking(S.AfterSlot(len, slot), env, buf, goal)
      modifies this`range, this`code, this`pos, probs
      ensures Walking(S.Done(S.Match(distance, len)), env, buf, goal)
    {
      hide Real, Pow2;
      var numDirectBits := slot / 2 - 1 - 4;
      distance := 2 + slot % 2;
      while numDirectBits != 0
        invariant 0 <= numDirectBits <= 26
        invariant Walking(if numDirectBits != 0 then S.AtDirect(len, distance, numDirectBits)
                          else S.AtAlign(len, distance * 16, 1, 1), env, buf, goal)
        decreases numDirectBits
      {
        var bit := GetDirectBit(buf, S.AtDirect(len, distance, numDirectBits), env, goal);
        distance := distance + distance + bit;
        numDirectBits := numDirectBits - 1;
      }
      distance := DecodeAlign(len, distance * 16, buf, env, goal);
    }

    /** One reverse bit of the align part. */
    method AlignBit(len: nat, dist: nat, mask: nat, i: nat, buf: seq<Byte>, ghost env: S.Env, ghost goal: Outcome)
      returns (distance: nat, i': nat)
      requires Walking(S.AtAlign(len, dist, mask, i), env, buf, goal)
      modifies this`range, this`code, this`pos, probs
      ensures Walking(if mask == 8 then S.Done(S.Match(distance, len))
                      else S.AtAlign(len, distance, 2 * mask, i'), env, buf, goal)
    {
      hide Real;
      var bit := GetBit(S.ALIGN + i, buf, S.AtAlign(len, dist, mask, i), env, goal);
      distance, i' := if bit == 0 then dist else dist + mask, i + i + bit;
    }

    /** Four reverse bits, written out. */
    method DecodeAlign(len: nat, dist: nat, buf: seq<Byte>, ghost env: S.Env, ghost goal: Outcome)
      returns (distance: nat)
      requires Walking(S.AtAlign(len, dist, 1, 1), env, buf, goal)
      modifies this`range, this`code, this`pos, probs
      ensures Walking(S.Done(S.Match(distance, len)), env, buf, goal)
    {
      hide Walking;
      var i;
      distance, i := AlignBit(len, dist, 1, 1, buf, env, goal);
      distance, i := AlignBit(len, distance, 2, i, buf, env, goal);
      distance, i := AlignBit(len, distance, 4, i, buf, env, goal);
      distance, i := AlignBit(len, distance, 8, i, buf, env, goal);
    }

    /** One whole symbol, or `Failed` for a repeat with nothing to repeat. */
    method ReadSymbol(env: S.Env, buf: seq<Byte>) returns (end: S.Ctl)
      requires S.EnvOk(env, probs.Length) && Sane(View())
      requires Real(S.AtIsMatch, env, View(), probs[..], buf).rc.pos <= |buf|
      modifies this`range, this`code, this`pos, probs
      ensures Outcome(end, View(), probs[..]) == old(Real(S.AtIsMatch, env, View(), probs[..], buf))
    {
      hide Real;
      ghost var goal := Real(S.AtIsMatch, env, View(), probs[..], buf);
      var bit := GetBit(S.IS_MATCH + env.state * 16 + env.posState, buf, S.AtIsMatch, env, goal);
      if bit == 0 {
        var symbol;
        if env.state < St.NUM_LIT_STATES {
          symbol := DecodeLiteral(env.lit, buf, env, goal);
        } else {
          symbol := DecodeMatched(env.lit, env.matchByte, buf, env, goal);
        }
        end := S.Done(S.Lit(symbol - 0x100));
      } else {
        bit := GetBit(S.IS_REP + env.state, buf, S.AtIsRep, env, goal);
        if bit == 0 {
          var len := DecodeLen(S.LEN_CODER, env.posState, buf, S.NewMatch, env, goal);
          var distance := DecodeDistance(len, buf, env, goal);
          end := S.Done(S.Match(distance, len));
        } else if env.noHistory {
          end := S.Failed;
        } else {
          end := ReadRepeat(buf, env, goal);
        }
      }
      Stopped(end, env, View(), probs[..], buf);
    }

    /** Which of the four distances, and how long. */
    method ReadRepeat(buf: seq<Byte>, env: S.Env, ghost goal: Outcome) returns (end: S.Ctl)
      requires Walking(S.AtRepG0, env, buf, goal)
      modifies this`range, this`code, this`pos, probs
      ensures end.Done? && Walking(end, env, buf, goal)
    {
      hide Real;
      var index: nat;
      var bit := GetBit(S.IS_REP_G0 + env.state, buf, S.AtRepG0, env, goal);
      if bit == 0 {
        bit := GetBit(S.IS_REP0_LONG + env.state * 16 + env.posState, buf, S.AtRep0Long, env, goal);
        if bit == 0 {
          return S.Done(S.ShortRep);
        }
        index := 0;
      } else {
        bit := GetBit(S.IS_REP_G1 + env.state, buf, S.AtRepG1, env, goal);
        if bit == 0 {
          index := 1;
        } else {
          bit := GetBit(S.IS_REP_G2 + env.state, buf, S.AtRepG2, env, goal);
          index := if bit == 0 then 2 else 3;
        }
      }
      var len := DecodeLen(S.REP_LEN_CODER, env.posState, buf, S.Repeat(index), env, goal);
      end := S.Done(S.Rep(index, len));
    }
  }

  lemma Stopped(q: S.Ctl, env: S.Env, rc: Rc, probs: Probs, buf: seq<Byte>)
    requires S.EnvOk(env, |probs|) && S.Wf(q, env) && Sane(rc) && S.AskAt(q, env).Stop?
    ensures Real(q, env, rc, probs, buf) == Outcome(q, rc, probs)
    ensures Dry(q, env, rc, probs, buf) == (q, rc)
  {
  }

  // ------------------------------------------------------------ the dry run

  datatype Dummy = DummyError | DummyLit | DummyMatch | DummyRep

  function DummyOf(symbol: S.Symbol): Dummy
  {
    match symbol
    case Lit(_) => DummyLit
    case Match(_, _) => DummyMatch
    case _ => DummyRep
  }

  /** The registers of the dry run, or that the input ran out. */
  datatype Probe = Short | At(rc: Rc)

  /** The dry run is at `q`, on its way to `goal`; or the symbol that ends at `goal` needs more input. */
  ghost predicate Probing(q: S.Ctl, env: S.Env, probs: Probs, buf: seq<Byte>, p: Probe, goal: (S.Ctl, Rc))
  {
    if p.Short? then Refill(goal.1, buf).pos > |buf|
    else
      && S.EnvOk(env, |probs|) && S.Wf(q, env) && Sane(p.rc) && p.rc.pos <= |buf|
      && Dry(q, env, p.rc, probs, buf) == goal
  }

  lemma DryAhead(q: S.Ctl, env: S.Env, rc: Rc, probs: Probs, buf: seq<Byte>)
    requires S.EnvOk(env, |probs|) && S.Wf(q, env) && !S.AskAt(q, env).Stop? && Sane(rc)
    ensures S.Wf(S.Next(q, env, ReadBit(q, env, rc, probs, buf).0), env)
    ensures var (bit, rc') := ReadBit(q, env, rc, probs, buf);
            rc'.pos == Refill(rc, buf).pos <= Dry(q, env, rc, probs, buf).1.pos
            && Dry(q, env, rc, probs, buf) == Dry(S.Next(q, env, bit), env, rc', probs, buf)
  {
    hide S.Next, S.Wf, S.AskAt;
    S.StepCost(q, env, ReadBit(q, env, rc, probs, buf).0);
  }

  /** NORMALIZE_CHECK. */
  method ProbeNormalise(rc: Rc, buf: seq<Byte>) returns (p: Probe)
    requires Sane(rc) && rc.pos <= |buf|
    ensures p == if Refill(rc, buf).pos > |buf| then Short else At(Refill(rc, buf))
  {
    if rc.range < TOP {
      if rc.pos >= |buf| {
        return Short;
      }
      return At(Rc(rc.range * 256, (rc.code * 256 + buf[rc.pos]) % WORD, rc.pos + 1));
    }
    return At(rc);
  }

  /** IF_BIT_0_CHECK: no cell is written. */
  method ProbeBit(i: nat, probs: array<Prob>, buf: seq<Byte>, rc: Rc, ghost q: S.Ctl, ghost env: S.Env,
                  ghost goal: (S.Ctl, Rc))
    returns (bit: Bit, p: Probe)
    requires Probing(q, env, probs[..], buf, At(rc), goal) && S.AskAt(q, env) == S.Cell(i)
    ensures p.Short? || S.Wf(S.Next(q, env, bit), env)
    ensures Probing(S.Next(q, env, bit), env, probs[..], buf, p, goal)
  {
    hide S.Next, S.Wf, S.AskAt, Dry;
    S.AskInside(q, env, probs.Length);
    DryAhead(q, env, rc, probs[..], buf);
    p := ProbeNormalise(rc, buf);
    bit := 0;
    if p.At? {
      var ttt: int := probs[i];
      BoundInside(p.rc.range, ttt);
      var bound := p.rc.range / 2048 * ttt;
      if p.rc.code < bound {
        p := At(p.rc.(range := bound));
      } else {
        bit := 1;
        p := At(p.rc.(range := p.rc.range - bound, code := p.rc.code - bound));
      }
    }
  }

  method ProbeLiteral(prob: nat, probs: array<Prob>, buf: seq<Byte>, rc: Rc, ghost env: S.Env, ghost goal: (S.Ctl, Rc))
    returns (p: Probe, ghost symbol: S.Symbol)
    requires Probing(S.AtLit(1), env, probs[..], buf, At(rc), goal) && prob == env.lit
    ensures symbol.Lit? && Probing(S.Done(symbol), env, probs[..], buf, p, goal)
  {
    hide Dry;
    p := At(rc);
    var sym: nat := 1;
    while sym < 0x100
      invariant 1 <= sym < 0x200 && p.At?
      invariant Probing(if sym < 0x100 then S.AtLit(sym) else S.Done(S.Lit(sym - 0x100)), env, probs[..], buf, p, goal)
      decreases 0x200 - sym
    {
      var bit;
      bit, p := ProbeBit(prob + sym, probs, buf, p.rc, S.AtLit(sym), env, goal);
      if p.Short? {
        return p, S.Lit(0);
      }
      sym := sym + sym + bit;
    }
    symbol := S.Lit(sym - 0x100);
  }

  method ProbeMatched(prob: nat, matchByte: Byte, probs: array<Prob>, buf: seq<Byte>, rc: Rc, ghost env: S.Env,
                      ghost goal: (S.Ctl, Rc))
    returns (p: Probe, ghost symbol: S.Symbol)
    requires Probing(S.AtMatched(1, 0x100, matchByte), env, probs[..], buf, At(rc), goal) && prob == env.lit
    ensures symbol.Lit? && Probing(S.Done(symbol), env, probs[..], buf, p, goal)
  {
    hide Dry;
    p := At(rc);
    var sym: nat := 1;
    var mb: nat, offs: nat := matchByte, 0x100;
    while sym < 0x100
      invariant 1 <= sym < 0x200 && (offs == 0 || offs == 0x100) && p.At?
      invariant Probing(if sym < 0x100 then S.AtMatched(sym, offs, mb)
                        else S.Done(S.Lit(sym - 0x100)), env, probs[..], buf, p, goal)
      decreases 0x200 - sym
    {
      ghost var q := S.AtMatched(sym, offs, mb);
      mb := 2 * mb;
      var sub := if offs == 0x100 && mb / 0x100 % 2 == 1 then 0x100 else 0;
      var bit;
      bit, p := ProbeBit(prob + offs + sub + sym, probs, buf, p.rc, q, env, goal);
      if p.Short? {
        return p, S.Lit(0);
      }
      sym := sym + sym + bit;
      if bit == 0 {
        offs := if sub == 0 then offs else 0;
      } else {
        offs := sub;
      }
    }
    symbol := S.Lit(sym - 0x100);
  }

  method ProbeLen(prob: nat, posState: nat, probs: array<Prob>, buf: seq<Byte>, rc: Rc, ghost kind: S.Kind,
                  ghost env: S.Env, ghost goal: (S.Ctl, Rc)) returns (len: nat, p: Probe)
    requires Probing(S.AtLenChoice(kind), env, probs[..], buf, At(rc), goal)
    requires prob == S.LenCoder(kind) && posState == env.posState
    ensures Probing(S.AfterLen(kind, len), env, probs[..], buf, p, goal)
  {
    hide Dry;
    len := 0;
    var probLen, limit, offset, bit;
    bit, p := ProbeBit(prob, probs, buf, rc, S.AtLenChoice(kind), env, goal);
    if p.Short? {
      return;
    }
    if bit == 0 {
      probLen, offset, limit := prob + S.LEN_LOW + posState * 8, 0, 8;
    } else {
      bit, p := ProbeBit(prob + S.LEN_CHOICE2, probs, buf, p.rc, S.AtLenChoice2(kind), env, goal);
      if p.Short? {
        return;
      }
      if bit == 0 {
        probLen, offset, limit := prob + S.LEN_MID + posState * 8, 8, 8;
      } else {
        probLen, offset, limit := prob + S.LEN_HIGH, 16, 256;
      }
    }
    len, p := ProbeLenTree(probLen, limit, offset, probs, buf, p.rc, kind, env, goal);
  }

  /** TREE_DECODE_CHECK for a length. */
  method ProbeLenTree(probLen: nat, limit: nat, offset: nat, probs: array<Prob>, buf: seq<Byte>, rc: Rc,
                      ghost kind: S.Kind, ghost env: S.Env, ghost goal: (S.Ctl, Rc)) returns (len: nat, p: Probe)
    requires Probing(S.AtLenTree(kind, probLen, limit, offset, 1), env, probs[..], buf, At(rc), goal)
    ensures Probing(S.AfterLen(kind, len), env, probs[..], buf, p, goal)
  {
    hide Dry;
    p := At(rc);
    var i := 1;
    while i < limit
      invariant 1 <= i < 2 * limit && p.At?
      invariant Probing(if i < limit then S.AtLenTree(kind, probLen, limit, offset, i)
                        else S.AfterLen(kind, i - limit + offset), env, probs[..], buf, p, goal)
      decreases 2 * limit - i
    {
      var bit;
      bit, p := ProbeBit(probLen + i, probs, buf, p.rc, S.AtLenTree(kind, probLen, limit, offset, i), env, goal);
      if p.Short? {
        return 0, p;
      }
      i := i + i + bit;
    }
    len := i - limit + offset;
  }

  method ProbeDistance(len: nat, probs: array<Prob>, buf: seq<Byte>, rc: Rc, ghost env: S.Env, ghost goal: (S.Ctl, Rc))
    returns (p: Probe, ghost symbol: S.Symbol)
    requires Probing(S.AtSlot(len, 1), env, probs[..], buf, At(rc), goal)
    ensures symbol.Match? && Probing(S.Done(symbol), env, probs[..], buf, p, goal)
  {
    hide Dry, S.SlotBase;
    symbol := S.Match(0, len);
    p := At(rc);
    var prob := S.POS_SLOT + (if len < 4 then len else 3) * 64;
    var i := 1;
    while i < 64
      invariant 1 <= i < 128 && p.At?
      invariant Probing(if i < 64 then S.AtSlot(len, i) else S.AfterSlot(len, i - 64), env, probs[..], buf, p, goal)
      decreases 128 - i
    {
      var bit;
      bit, p := ProbeBit(prob + i, probs, buf, p.rc, S.AtSlot(len, i), env, goal);
      if p.Short? {
        return;
      }
      i := i + i + bit;
    }
    var slot := i - 64;
    symbol := S.Match(slot, len);
    if slot >= 4 {
      if slot < 14 {
        p, symbol := ProbeSpec(len, slot, probs, buf, p.rc, env, goal);
      } else {
        p, symbol := ProbeDirect(len, slot, probs, buf, p.rc, env, goal);
      }
    }
  }

  method ProbeSpec(ghost len: nat, slot: nat, probs: array<Prob>, buf: seq<Byte>, rc: Rc, ghost env: S.Env,
                   ghost goal: (S.Ctl, Rc))
    returns (p: Probe, ghost symbol: S.Symbol)
    requires 4 <= slot < 14 && Probing(S.AfterSlot(len, slot), env, probs[..], buf, At(rc), goal)
    ensures symbol.Match? && Probing(S.Done(symbol), env, probs[..], buf, p, goal)
  {
    hide Dry, Pow2;
    p := At(rc);
    var numDirectBits := slot / 2 - 1;
    var prob := S.SPEC_POS + (2 + slot % 2) * Pow2(numDirectBits) - slot - 1;
    var i: nat := 1;
    ghost var distance: nat, mask: nat := (2 + slot % 2) * Pow2(numDirectBits), 1;
    while numDirectBits != 0
      invariant 0 <= numDirectBits <= 5 && p.At? && prob == S.SpecBase(slot)
      invariant Probing(if numDirectBits != 0 then S.AtSpec(len, slot, distance, mask, i, numDirectBits)
                        else S.Done(S.Match(distance, len)), env, probs[..], buf, p, goal)
      decreases numDirectBits
    {
      var bit;
      bit, p := ProbeBit(prob + i, probs, buf, p.rc, S.AtSpec(len, slot, distance, mask, i, numDirectBits), env, goal);
      if p.Short? {
        return p, S.Match(0, len);
      }
      distance := if bit == 0 then distance else distance + mask;
      i, mask := i + i + bit, 2 * mask;
      numDirectBits := numDirectBits - 1;
    }
    symbol := S.Match(distance, len);
  }

  /** A direct bit, with the dry run's own form of the sign trick; the bit itself is not kept. */
  method ProbeDirectBit(probs: array<Prob>, buf: seq<Byte>, rc: Rc, ghost q: S.Ctl, ghost env: S.Env,
                        ghost goal: (S.Ctl, Rc))
    returns (ghost bit: Bit, p: Probe)
    requires Probing(q, env, probs[..], buf, At(rc), goal) && S.AskAt(q, env).Plain?
    ensures p.Short? || S.Wf(S.Next(q, env, bit), env)
    ensures Probing(S.Next(q, env, bit), env, probs[..], buf, p, goal)
  {
    hide S.Next, S.Wf, S.AskAt, Dry;
    DryAhead(q, env, rc, probs[..], buf);
    bit := ReadBit(q, env, rc, probs[..], buf).0;
    p := ProbeNormalise(rc, buf);
    if p.At? {
      var range := p.rc.range / 2;
      var mask := Sub32(Sub32(p.rc.code, range) / 0x8000_0000, 1);
      p := At(Rc(range, Sub32(p.rc.code, if mask == 0 then 0 else range), p.rc.pos));
    }
  }

  method ProbeDirect(ghost len: nat, slot: nat, probs: array<Prob>, buf: seq<Byte>, rc: Rc, ghost env: S.Env,
                     ghost goal: (S.Ctl, Rc))
    returns (p: Probe, ghost symbol: S.Symbol)
    requires 14 <= slot < 64 && Probing(S.AfterSlot(len, slot), env, probs[..], buf, At(rc), goal)
    ensures symbol.Match? && Probing(S.Done(symbol), env, probs[..], buf, p, goal)
  {
    hide Dry, Pow2;
    p := At(rc);
    var numDirectBits := slot / 2 - 1 - 4;
    ghost var distance: nat := 2 + slot % 2;
    while numDirectBits != 0
      invariant 0 <= numDirectBits <= 26 && p.At?
      invariant Probing(if numDirectBits != 0 then S.AtDirect(len, distance, numDirectBits)
                        else S.AtAlign(len, distance * 16, 1, 1), env, probs[..], buf, p, goal)
      decreases numDirectBits
    {
      ghost var bit;
      bit, p := ProbeDirectBit(probs, buf, p.rc, S.AtDirect(len, distance, numDirectBits), env, goal);
      if p.Short? {
        return p, S.Match(0, len);
      }
      distance := 2 * distance + bit;
      numDirectBits := numDirectBits - 1;
    }
    p, symbol := ProbeAlign(len, distance * 16, probs, buf, p.rc, env, goal);
  }

  method ProbeAlign(ghost len: nat, ghost dist: nat, probs: array<Prob>, buf: seq<Byte>, rc: Rc, ghost env: S.Env,
                    ghost goal: (S.Ctl, Rc))
    returns (p: Probe, ghost symbol: S.Symbol)
    requires Probing(S.AtAlign(len, dist, 1, 1), env, probs[..], buf, At(rc), goal)
    ensures symbol.Match? && Probing(S.Done(symbol), env, probs[..], buf, p, goal)
  {
    hide Dry;
    p := At(rc);
    var numDirectBits: nat, i: nat := 4, 1;
    ghost var distance: nat, mask: nat := dist, 1;
    while numDirectBits != 0
      invariant 0 <= numDirectBits <= 4 && p.At?
      invariant mask == if numDirectBits == 4 then 1 else if numDirectBits == 3 then 2 else if numDirectBits == 2 then 4
                        else if numDirectBits == 1 then 8 else 16
      invariant Probing(if numDirectBits != 0 then S.AtAlign(len, distance, mask, i)
                        else S.Done(S.Match(distance, len)),
                        env, probs[..], buf, p, goal)
      decreases numDirectBits
    {
      var bit;
      bit, p := ProbeBit(S.ALIGN + i, probs, buf, p.rc, S.AtAlign(len, distance, mask, i), env, goal);
      if p.Short? {
        return p, S.Match(0, len);
      }
      distance := if bit == 0 then distance else distance + mask;
      i, mask := i + i + bit, 2 * mask;
      numDirectBits := numDirectBits - 1;
    }
    symbol := S.Match(distance, len);
  }

  method ProbeRepeat(env: S.Env, probs: array<Prob>, buf: seq<Byte>, rc: Rc, ghost goal: (S.Ctl, Rc))
    returns (p: Probe, ghost symbol: S.Symbol)
    requires Probing(S.AtRepG0, env, probs[..], buf, At(rc), goal)
    ensures (symbol.Rep? || symbol.ShortRep?) && Probing(S.Done(symbol), env, probs[..], buf, p, goal)
  {
    hide Dry;
    symbol := S.ShortRep;
    var bit;
    ghost var index: nat := 0;
    bit, p := ProbeBit(S.IS_REP_G0 + env.state, probs, buf, rc, S.AtRepG0, env, goal);
    if p.Short? {
      return;
    }
    if bit == 0 {
      bit, p := ProbeBit(S.IS_REP0_LONG + env.state * 16 + env.posState, probs, buf, p.rc, S.AtRep0Long, env, goal);
      if p.Short? || bit == 0 {
        return;
      }
    } else {
      bit, p := ProbeBit(S.IS_REP_G1 + env.state, probs, buf, p.rc, S.AtRepG1, env, goal);
      if p.Short? {
        return;
      }
      index := 1;
      if bit == 1 {
        bit, p := ProbeBit(S.IS_REP_G2 + env.state, probs, buf, p.rc, S.AtRepG2, env, goal);
        if p.Short? {
          return;
        }
        index := if bit == 0 then 2 else 3;
      }
    }
    var len;
    len, p := ProbeLen(S.REP_LEN_CODER, env.posState, probs, buf, p.rc, S.Repeat(index), env, goal);
    symbol := S.Rep(index, len);
  }

  method ProbeMatch(env: S.Env, probs: array<Prob>, buf: seq<Byte>, rc: Rc, ghost goal: (S.Ctl, Rc))
    returns (p: Probe, ghost symbol: S.Symbol)
    requires Probing(S.AtLenChoice(S.NewMatch), env, probs[..], buf, At(rc), goal)
    ensures symbol.Match? && Probing(S.Done(symbol), env, probs[..], buf, p, goal)
  {
    hide Dry;
    symbol := S.Match(0, 0);
    var len;
    len, p := ProbeLen(S.LEN_CODER, env.posState, probs, buf, rc, S.NewMatch, env, goal);
    if p.At? {
      p, symbol := ProbeDistance(len, probs, buf, p.rc, env, goal);
    }
  }

  /** The branches of the dry run. */
  method ProbeSymbol(env: S.Env, rc: Rc, probs: array<Prob>, buf: seq<Byte>, ghost goal: (S.Ctl, Rc))
    returns (p: Probe, r: Dummy, ghost symbol: S.Symbol)
    requires Probing(S.AtIsMatch, env, probs[..], buf, At(rc), goal) && !env.noHistory
    ensures r == DummyOf(symbol) && Probing(S.Done(symbol), env, probs[..], buf, p, goal)
  {
    hide Dry, S.SlotBase, S.SpecBase;
    r, symbol := DummyLit, S.Lit(0);
    var bit;
    bit, p := ProbeBit(S.IS_MATCH + env.state * 16 + env.posState, probs, buf, rc, S.AtIsMatch, env, goal);
    if p.Short? {
      return;
    }
    if bit == 0 {
      if env.state < St.NUM_LIT_STATES {
        p, symbol := ProbeLiteral(env.lit, probs, buf, p.rc, env, goal);
      } else {
        p, symbol := ProbeMatched(env.lit, env.matchByte, probs, buf, p.rc, env, goal);
      }
    } else {
      bit, p := ProbeBit(S.IS_REP + env.state, probs, buf, p.rc, S.AtIsRep, env, goal);
      if p.Short? {
        return;
      }
      if bit == 0 {
        r := DummyMatch;
        p, symbol := ProbeMatch(env, probs, buf, p.rc, goal);
      } else {
        r := DummyRep;
        p, symbol := ProbeRepeat(env, probs, buf, p.rc, goal);
      }
    }
  }

  /**
   Whether the input holds a whole symbol and of what kind it is, found without
   changing a cell: the answer is that of the real decode.
   */
  method TryDummy(env: S.Env, rc: Rc, probs: array<Prob>, buf: seq<Byte>) returns (r: Dummy)
    requires S.EnvOk(env, probs.Length) && !env.noHistory && Sane(rc) && rc.pos <= |buf|
    ensures var o := Real(S.AtIsMatch, env, rc, probs[..], buf);
            && o.end.Done?
            && r == if Refill(o.rc, buf).pos > |buf| then DummyError else DummyOf(o.end.symbol)
  {
    hide Dry, Real, S.Wf, S.AskAt, S.Next, S.EnvOk;
    FirstPoint(env);
    DryIsReal(S.AtIsMatch, env, rc, probs[..], probs[..], buf);
    ghost var goal := Dry(S.AtIsMatch, env, rc, probs[..], buf);
    NeverFails(S.AtIsMatch, env, rc, probs[..], buf);
    var p;
    ghost var symbol;
    p, r, symbol := ProbeSymbol(env, rc, probs, buf, goal);
    if p.Short? {
      return DummyError;
    }
    EndPoint(S.Done(symbol), env);
    Stopped(S.Done(symbol), env, p.rc, probs[..], buf);
    p := ProbeNormalise(p.rc, buf);
    if p.Short? {
      return DummyError;
    }
  }

  lemma FirstPoint(env: S.Env)
    ensures S.Wf(S.AtIsMatch, env)
  {
  }

  lemma EndPoint(q: S.Ctl, env: S.Env)
    requires q.Done? && S.Wf(q, env)
    ensures S.AskAt(q, env).Stop?
  {
  }

  /** Only a repeat without history fails. */
  lemma {:induction false} NeverFails(q: S.Ctl, env: S.Env, rc: Rc, probs: Probs, buf: seq<Byte>)
    requires S.EnvOk(env, |probs|) && S.Wf(q, env) && Sane(rc) && !env.noHistory && !q.Failed?
    ensures Real(q, env, rc, probs, buf).end.Done?
    decreases Left(q, env)
  {
    if !S.AskAt(q, env).Stop? {
      var (bit, rc') := ReadBit(q, env, rc, probs, buf);
      S.StepCost(q, env, bit);
      NeverFails(S.Next(q, env, bit), env, rc', Learn(q, env, probs, bit), buf);
    }
  }
}
