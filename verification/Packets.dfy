/**
 The packet layer.  The encoder's choices - literals, matches, repeats - are an
 arbitrary valid sequence; decoding what it codes gives back the data.
 */
module Packets {
  import opened Bytes
  import opened Lists
  import opened RangeCoder
  import opened Layout
  import opened Lockstep
  import opened Decoding
  import opened Events
  import S = Symbols
  import St = States

  const END_MARK := 0xFFFF_FFFF
  const MATCH_MIN := 2
  const MATCH_MAX := 273

  /** The stream's parameters. */
  datatype Props = Props(lc: nat, lp: nat, pb: nat, dicSize: nat)

  predicate PropsOk(props: Props)
  {
    props.lc <= 8 && props.lp <= 4 && props.pb <= 4 && props.dicSize > 0
  }

  function NumProbs(props: Props): nat
  {
    S.LITERAL + S.LIT_SIZE * Pow2(props.lc + props.lp)
  }

  /** One choice of the encoder; `dist` counts from zero, `len` in bytes. */
  datatype Packet = Literal | ShortRep | Rep(index: nat, len: nat) | Match(dist: nat, len: nat)

  /** The four most recent match distances. */
  datatype Reps = Reps(r0: nat, r1: nat, r2: nat, r3: nat) {
    function At(i: nat): nat
    {
      if i == 0 then r0 else if i == 1 then r1 else if i == 2 then r2 else r3
    }

    /** Moves distance `i` to the front. */
    function ToFront(i: nat): Reps
    {
      if i == 0 then this
      else if i == 1 then Reps(r1, r0, r2, r3)
      else if i == 2 then Reps(r2, r0, r1, r3)
      else Reps(r3, r0, r1, r2)
    }

    function Push(d: nat): Reps
    {
      Reps(d, r0, r1, r2)
    }

    function List(): (s: seq<nat>)
      ensures |s| == 4
    {
      [r0, r1, r2, r3]
    }
  }

  /** The encoder between packets; `reps` are distances minus one. */
  datatype Coder = Coder(state: nat, reps: Reps)

  const CODER_START := Coder(0, Reps(0, 0, 0, 0))

  predicate CoderOk(c: Coder, pos: nat)
  {
    && c.state < 12 && (pos == 0 ==> c.state == 0)
    && Behind(c.reps.r0, pos) && Behind(c.reps.r1, pos) && Behind(c.reps.r2, pos) && Behind(c.reps.r3, pos)
  }

  predicate Behind(rep: nat, pos: nat)
  {
    rep == 0 || rep < pos
  }

  function PacketLen(p: Packet): nat
  {
    match p
    case Literal => 1
    case ShortRep => 1
    case Rep(_, len) => len
    case Match(_, len) => len
  }

  /** `data` at `pos` repeats what is `back` bytes behind. */
  ghost predicate Repeats(data: seq<Byte>, pos: nat, back: nat, len: nat)
  {
    && 1 <= back <= pos && pos + len <= |data|
    && forall k | pos <= k < pos + len :: data[k] == data[k - back]
  }

  ghost predicate PacketOk(c: Coder, data: seq<Byte>, pos: nat, p: Packet, props: Props)
    requires CoderOk(c, pos)
  {
    match p
    case Literal => pos < |data|
    case ShortRep => pos > 0 && Repeats(data, pos, c.reps.r0 + 1, 1)
    case Rep(index, len) =>
      && pos > 0 && index < 4 && MATCH_MIN <= len <= MATCH_MAX
      && Repeats(data, pos, c.reps.At(index) + 1, len)
    case Match(dist, len) =>
      && pos > 0 && MATCH_MIN <= len <= MATCH_MAX && dist < props.dicSize && dist < END_MARK
      && Repeats(data, pos, dist + 1, len)
  }

  function NextCoder(c: Coder, p: Packet): Coder
  {
    match p
    case Literal => c.(state := St.LiteralNext(c.state))
    case ShortRep => c.(state := St.ShortRepNext(c.state))
    case Rep(index, _) => Coder(St.RepNext(c.state), c.reps.ToFront(index))
    case Match(dist, _) => Coder(St.MatchNext(c.state), c.reps.Push(dist))
  }

  function KindOf(p: Packet): St.Kind
  {
    match p
    case Literal => St.Lit
    case ShortRep => St.ShortRep
    case Rep(_, _) => St.Rep
    case Match(_, _) => St.Match
  }

  ghost function Kinds(ps: List<Packet>): seq<St.Kind>
  {
    match ps
    case Nil => []
    case Cons(p, rest) => [KindOf(p)] + Kinds(rest)
  }

  /** A packet takes the encoder to the state of the packets so far and this one. */
  lemma CoderState(c: Coder, p: Packet, kinds: seq<St.Kind>)
    requires c.state == St.StateOf(kinds)
    ensures NextCoder(c, p).state == St.StateOf(kinds + [KindOf(p)])
  {
    hide St.StateOf;
    St.StateStep(kinds, KindOf(p));
  }

  /** Moving a distance to the front keeps the order of the others; a new one pushes out the last. */
  lemma RepsOrder(reps: Reps, i: nat, d: nat)
    requires i < 4
    ensures reps.ToFront(i).List() == [reps.List()[i]] + reps.List()[..i] + reps.List()[i + 1..]
    ensures reps.Push(d).List() == [d] + reps.List()[..3] && reps.At(i) == reps.List()[i]
  {
  }

  /** The literal cells to use at `pos`: by position and by the byte before. */
  function LitBase(hist: seq<Byte>, props: Props): nat
    requires PropsOk(props)
  {
    if hist == [] then 0
    else
      S.LIT_SIZE * (|hist| % Pow2(props.lp) * Pow2(props.lc) + hist[|hist| - 1] / Pow2(8 - props.lc))
  }

  function PosState(pos: nat, props: Props): nat
  {
    pos % Pow2(props.pb)
  }

  lemma LitBaseBound(hist: seq<Byte>, props: Props)
    requires PropsOk(props)
    ensures LitBase(hist, props) + S.LIT_SIZE <= NumProbs(props) - S.LITERAL
    ensures LitBase(hist, props) % S.LIT_SIZE == 0
  {
    S.Pow2Sum(props.lc, props.lp);
    if hist == [] {
      S.Pow2Mono(0, props.lc + props.lp);
    } else {
      var x, y := |hist| % Pow2(props.lp), hist[|hist| - 1] / Pow2(8 - props.lc);
      S.Pow2Sum(props.lc, 8 - props.lc);
      assert Pow2(8) == 256 by { S.SmallPow2(); }
      QuotientBelow(hist[|hist| - 1], Pow2(8 - props.lc), Pow2(props.lc));
      ContextBelow(x, y, Pow2(props.lp), Pow2(props.lc));
      DivModUnique(LitBase(hist, props), S.LIT_SIZE, x * Pow2(props.lc) + y, 0);
    }
  }

  /** Two literals share their cells exactly if the masked positions and the high bits of the bytes before agree. */
  lemma LitBaseTells(hist: seq<Byte>, hist': seq<Byte>, props: Props)
    requires PropsOk(props) && hist != [] && hist' != []
    ensures LitBase(hist, props) == LitBase(hist', props) <==>
            && |hist| % Pow2(props.lp) == |hist'| % Pow2(props.lp)
            && hist[|hist| - 1] / Pow2(8 - props.lc) == hist'[|hist'| - 1] / Pow2(8 - props.lc)
  {
    var n := Pow2(props.lc);
    var x, y := |hist| % Pow2(props.lp), hist[|hist| - 1] / Pow2(8 - props.lc);
    var x', y' := |hist'| % Pow2(props.lp), hist'[|hist'| - 1] / Pow2(8 - props.lc);
    S.Pow2Sum(props.lc, 8 - props.lc);
    assert Pow2(8) == 256 by { S.SmallPow2(); }
    QuotientBelow(hist[|hist| - 1], Pow2(8 - props.lc), n);
    QuotientBelow(hist'[|hist'| - 1], Pow2(8 - props.lc), n);
    DivModUnique(x * n + y, n, x, y);
    DivModUnique(x' * n + y', n, x', y');
  }

  lemma QuotientBelow(a: nat, w: nat, n: nat)
    requires w > 0 && a < n * w
    ensures a / w < n
  {
    var q := a / w;
    assert a == q * w + a % w;
    assert q >= n ==> (q - n) * w >= 0;
  }

  lemma ContextBelow(x: nat, y: nat, m: nat, n: nat)
    requires x < m && y < n
    ensures x * n + y < n * m
  {
    MulMono(x + 1, m, n);
    assert (x + 1) * n == x * n + n;
  }

  // ------------------------------------------------------------ what a packet codes

  function LiteralEvents(state: nat, hist: seq<Byte>, b: Byte, matchByte: Byte, props: Props): List<Event>
    requires PropsOk(props)
  {
    Cons(Coded(IsMatch(state, PosState(|hist|, props)), 0),
         if state < 7 then LitEvents(LitBase(hist, props), 0x100 + b)
         else MatchedEvents(LitBase(hist, props), 0x100 + b, matchByte, 0x100))
  }

  function MatchEvents(state: nat, posState: nat, dist: nat, len: nat): List<Event>
    requires len >= MATCH_MIN
  {
    Cons(Coded(IsMatch(state, posState), 1), Cons(Coded(IsRep(state), 0),
         Append(LenEvents(false, len - MATCH_MIN, posState),
                DistEvents(dist, if len < 5 then len - 2 else 3))))
  }

  function RepEvents(state: nat, posState: nat, index: nat, len: nat): List<Event>
    requires len >= 1
  {
    Cons(Coded(IsMatch(state, posState), 1), Cons(Coded(IsRep(state), 1),
         if index == 0 then
           Cons(Coded(IsRepG0(state), 0),
                if len == 1 then Cons(Coded(IsRep0Long(state, posState), 0), Nil)
                else Cons(Coded(IsRep0Long(state, posState), 1), LenEvents(true, len - MATCH_MIN, posState)))
         else
           Cons(Coded(IsRepG0(state), 1),
                if index == 1 then Cons(Coded(IsRepG1(state), 0), RepLen(len, posState))
                else Cons(Coded(IsRepG1(state), 1), Cons(Coded(IsRepG2(state), if index == 2 then 0 else 1), RepLen(len, posState))))))
  }

  function RepLen(len: nat, posState: nat): List<Event>
  {
    if len < MATCH_MIN then Nil else LenEvents(true, len - MATCH_MIN, posState)
  }

  function PacketEvents(c: Coder, hist: seq<Byte>, b: Byte, p: Packet, props: Props): List<Event>
    requires PropsOk(props)
    requires p.Literal? && c.state >= 7 ==> c.reps.r0 < |hist|
    requires p.Rep? || p.Match? ==> p.len >= MATCH_MIN
  {
    match p
    case Literal =>
      LiteralEvents(c.state, hist, b, if c.state < 7 then 0 else hist[|hist| - c.reps.r0 - 1], props)
    case ShortRep => RepEvents(c.state, PosState(|hist|, props), 0, 1)
    case Rep(index, len) => RepEvents(c.state, PosState(|hist|, props), index, len)
    case Match(dist, len) => MatchEvents(c.state, PosState(|hist|, props), dist, len)
  }

  // ------------------------------------------------------------ the decoder

  /** The decoder between symbols; `reps` are distances, `hist` is all output so far. */
  datatype Dec = Dec(rc: Rc, probs: Probs, state: nat, reps: Reps, hist: seq<Byte>)

  predicate DecOk(d: Dec, props: Props)
  {
    && PropsOk(props) && Sane(d.rc) && |d.probs| == NumProbs(props)
    && d.state < 12 && (d.hist == [] ==> d.state == 0)
    && Within(d.reps.r0, d.hist) && Within(d.reps.r1, d.hist) && Within(d.reps.r2, d.hist) && Within(d.reps.r3, d.hist)
  }

  predicate Within(rep: nat, hist: seq<Byte>)
  {
    rep == 1 || 1 <= rep <= |hist|
  }

  function EnvOf(d: Dec, props: Props): S.Env
    requires DecOk(d, props)
  {
    S.Env(d.state, PosState(|d.hist|, props), S.LITERAL + LitBase(d.hist, props),
          if d.state < 7 then 0 else d.hist[|d.hist| - d.reps.r0], d.hist == [])
  }

  lemma EnvOfOk(d: Dec, props: Props)
    requires DecOk(d, props)
    ensures S.EnvOk(EnvOf(d, props), |d.probs|)
  {
    LitBaseBound(d.hist, props);
    S.Pow2Mono(props.pb, 4);
    assert Pow2(4) == 16 by { S.SmallPow2(); }
  }

  /** Appends `len` bytes, each a copy of the one `back` bytes behind. */
  function CopyBack(hist: seq<Byte>, back: nat, len: nat): (r: seq<Byte>)
    requires 1 <= back <= |hist|
    ensures |r| == |hist| + len && hist <= r
    decreases len
  {
    if len == 0 then hist else CopyBack(hist + [hist[|hist| - back]], back, len - 1)
  }

  /** How far back a new match may reach. */
  function Reach(hist: seq<Byte>, props: Props): nat
  {
    if |hist| < props.dicSize then |hist| else props.dicSize
  }

  datatype Verdict = Decoded(d: Dec) | Ended(d: Dec) | DataError

  /** What a symbol does to the decoder. */
  function Apply(d: Dec, symbol: S.Symbol, props: Props): (r: Verdict)
    requires DecOk(d, props) && S.SymbolOk(symbol) && (symbol.Rep? || symbol.ShortRep? ==> d.hist != [])
    ensures !r.DataError? ==> DecOk(r.d, props)
  {
    match symbol
    case Lit(b) => Decoded(d.(state := St.LiteralNext(d.state), hist := d.hist + [b]))
    case ShortRep => Decoded(d.(state := St.ShortRepNext(d.state), hist := CopyBack(d.hist, d.reps.r0, 1)))
    case Rep(index, len) =>
      var reps := d.reps.ToFront(index);
      Decoded(d.(state := St.RepNext(d.state), reps := reps, hist := CopyBack(d.hist, reps.r0, len + MATCH_MIN)))
    case Match(dist, len) =>
      if dist == END_MARK then Ended(d)
      else if dist >= Reach(d.hist, props) then DataError
      else
        Decoded(d.(state := St.MatchNext(d.state), reps := d.reps.Push(dist + 1),
                   hist := CopyBack(d.hist, dist + 1, len + MATCH_MIN)))
  }

  function SymbolKind(symbol: S.Symbol): St.Kind
  {
    match symbol
    case Lit(_) => St.Lit
    case ShortRep => St.ShortRep
    case Rep(_, _) => St.Rep
    case Match(_, _) => St.Match
  }

  /** A symbol takes the decoder to the state of the symbols so far and this one. */
  lemma DecoderState(d: Dec, symbol: S.Symbol, props: Props, kinds: seq<St.Kind>)
    requires DecOk(d, props) && S.SymbolOk(symbol) && (symbol.Rep? || symbol.ShortRep? ==> d.hist != [])
    requires d.state == St.StateOf(kinds) && Apply(d, symbol, props).Decoded?
    ensures Apply(d, symbol, props).d.state == St.StateOf(kinds + [SymbolKind(symbol)])
  {
    hide St.StateOf, CopyBack, NumProbs;
    St.StateStep(kinds, SymbolKind(symbol));
  }

  /** One symbol from the input. */
  function DecodeSymbol(d: Dec, props: Props, buf: seq<Byte>): (r: Verdict)
    requires DecOk(d, props)
    ensures !r.DataError? ==> DecOk(r.d, props)
  {
    EnvOfOk(d, props);
    var o := Real(S.AtIsMatch, EnvOf(d, props), d.rc, d.probs, buf);
    FailedOnlyFirst(S.AtIsMatch, EnvOf(d, props), d.rc, d.probs, buf);
    if o.end.Failed? then DataError
    else Apply(d.(rc := o.rc, probs := o.probs), o.end.symbol, props)
  }

  /** Without history no repeat comes out. */
  ghost predicate NoRepeatAhead(q: S.Ctl)
  {
    !q.AtRepG0? && !q.AtRep0Long? && !q.AtRepG1? && !q.AtRepG2?
    && (q.AtLenChoice? || q.AtLenChoice2? || q.AtLenTree? ==> q.kind.NewMatch?)
    && (q.Done? ==> !q.symbol.Rep? && !q.symbol.ShortRep?)
  }

  lemma {:induction false} FailedOnlyFirst(q: S.Ctl, env: S.Env, rc: Rc, probs: Probs, buf: seq<Byte>)
    requires S.EnvOk(env, |probs|) && S.Wf(q, env) && Sane(rc)
    requires env.noHistory ==> NoRepeatAhead(q)
    ensures env.noHistory ==> NoRepeatAhead(Real(q, env, rc, probs, buf).end)
    decreases Left(q, env)
  {
    if !S.AskAt(q, env).Stop? {
      var (bit, rc') := ReadBit(q, env, rc, probs, buf);
      S.StepCost(q, env, bit);
      FailedOnlyFirst(S.Next(q, env, bit), env, rc', Learn(q, env, probs, bit), buf);
    }
  }

  // ------------------------------------------------------------ round trip

  function SymbolOf(p: Packet, b: Byte): S.Symbol
    requires p.Rep? || p.Match? ==> p.len >= MATCH_MIN
  {
    match p
    case Literal => S.Lit(b)
    case ShortRep => S.ShortRep
    case Rep(index, len) => S.Rep(index, len - MATCH_MIN)
    case Match(dist, len) => S.Match(dist, len - MATCH_MIN)
  }

  lemma FirstOnLiteral(b: Byte)
    ensures OnLiteral(0x100 + b, 8, b)
  {
    S.SmallPow2();
  }

  lemma LiteralPath(env: S.Env, b: Byte)
    requires env.lit >= S.LITERAL && env.state < 12 && env.posState < 16
    ensures Follows(S.AtIsMatch, env,
                    Cons(Coded(IsMatch(env.state, env.posState), 0),
                         if env.state < 7 then LitEvents(env.lit - S.LITERAL, 0x100 + b)
                         else MatchedEvents(env.lit - S.LITERAL, 0x100 + b, env.matchByte, 0x100)),
                    S.Done(S.Lit(b)))
  {
    hide LitEvents, MatchedEvents, OnLiteral, S.SlotBase, S.SpecBase;
    FirstOnLiteral(b);
    if env.state < 7 {
      LitPath(0x100 + b, 8, b, env);
    } else {
      MatchedPath(0x100 + b, 8, b, env.matchByte, 0x100, env);
    }
  }

  lemma MatchPath(env: S.Env, dist: nat, len: nat)
    requires env.state < 12 && env.posState < 16 && dist < WORD && MATCH_MIN <= len <= MATCH_MAX
    ensures Follows(S.AtIsMatch, env, MatchEvents(env.state, env.posState, dist, len),
                    S.Done(S.Match(dist, len - MATCH_MIN)))
  {
    var l := len - MATCH_MIN;
    LenPath(S.NewMatch, l, env);
    DistPath(l, dist, env);
    FollowsConcat(S.AtLenChoice(S.NewMatch), env, LenEvents(false, l, env.posState), S.AtSlot(l, 1),
                  DistEvents(dist, if l < 4 then l else 3), S.Done(S.Match(dist, l)));
  }

  lemma RepPath(env: S.Env, index: nat, len: nat)
    requires env.state < 12 && env.posState < 16 && !env.noHistory && index < 4 && MATCH_MIN <= len <= MATCH_MAX
    ensures Follows(S.AtIsMatch, env, RepEvents(env.state, env.posState, index, len),
                    S.Done(S.Rep(index, len - MATCH_MIN)))
  {
    hide LenEvents, S.SlotBase, S.SpecBase, Pow2;
    var r := S.Done(S.Rep(index, len - MATCH_MIN));
    var evs := RepEvents(env.state, env.posState, index, len);
    IndexPath(env, index, len);
    assert Follows(S.AtIsRep, env, evs.tail, r);
  }

  lemma IndexPath(env: S.Env, index: nat, len: nat)
    requires env.state < 12 && env.posState < 16 && !env.noHistory && index < 4 && MATCH_MIN <= len <= MATCH_MAX
    ensures Follows(S.AtRepG0, env, RepEvents(env.state, env.posState, index, len).tail.tail,
                    S.Done(S.Rep(index, len - MATCH_MIN)))
  {
    hide LenEvents, S.SlotBase, S.SpecBase, Pow2;
    var r := S.Done(S.Rep(index, len - MATCH_MIN));
    LenPath(S.Repeat(index), len - MATCH_MIN, env);
    var g0 := RepEvents(env.state, env.posState, index, len).tail.tail;
    if index == 0 {
      assert Follows(S.AtRep0Long, env, g0.tail, r);
    } else {
      LaterIndexPath(env, index, len);
    }
  }

  lemma LaterIndexPath(env: S.Env, index: nat, len: nat)
    requires env.state < 12 && env.posState < 16 && !env.noHistory && 0 < index < 4 && MATCH_MIN <= len <= MATCH_MAX
    ensures Follows(S.AtRepG1, env, RepEvents(env.state, env.posState, index, len).tail.tail.tail,
                    S.Done(S.Rep(index, len - MATCH_MIN)))
  {
    hide LenEvents, S.SlotBase, S.SpecBase, Pow2;
    LenPath(S.Repeat(index), len - MATCH_MIN, env);
    var g1 := RepEvents(env.state, env.posState, index, len).tail.tail.tail;
    if index > 1 {
      assert Follows(S.AtRepG2, env, g1.tail, S.Done(S.Rep(index, len - MATCH_MIN)));
    }
  }

  lemma ShortRepPath(env: S.Env)
    requires env.state < 12 && env.posState < 16 && !env.noHistory
    ensures Follows(S.AtIsMatch, env, RepEvents(env.state, env.posState, 0, 1), S.Done(S.ShortRep))
  {
    var evs := RepEvents(env.state, env.posState, 0, 1);
    assert Follows(S.AtRepG0, env, evs.tail.tail, S.Done(S.ShortRep));
  }

  /** What is coded for packet `p` of `data` at `pos`. */
  ghost function EventsFor(c: Coder, data: seq<Byte>, pos: nat, p: Packet, props: Props): List<Event>
    requires PropsOk(props) && CoderOk(c, pos) && pos < |data| && PacketOk(c, data, pos, p, props)
  {
    PacketEvents(c, data[..pos], data[pos], p, props)
  }

  /** The first bit tells a literal from the rest, by the cell of the packets so far and of the position. */
  lemma PacketOpens(c: Coder, data: seq<Byte>, pos: nat, p: Packet, props: Props, kinds: seq<St.Kind>)
    requires PropsOk(props) && CoderOk(c, pos) && pos < |data| && PacketOk(c, data, pos, p, props)
    requires c.state == St.StateOf(kinds)
    ensures EventsFor(c, data, pos, p, props).Cons?
    ensures EventsFor(c, data, pos, p, props).head
            == Coded(IsMatch(St.StateOf(kinds), pos % Pow2(props.pb)), if p.Literal? then 0 else 1)
  {
    hide LitEvents, MatchedEvents, LenEvents, DistEvents, LitBase, St.StateOf;
  }

  /** What the encoder codes for a packet is the decoder's path to the same symbol. */
  lemma PacketPath(c: Coder, data: seq<Byte>, pos: nat, p: Packet, props: Props, env: S.Env)
    requires PropsOk(props) && CoderOk(c, pos) && pos < |data| && PacketOk(c, data, pos, p, props)
    requires env.state == c.state && env.posState == PosState(pos, props) < 16
    requires env.lit == S.LITERAL + LitBase(data[..pos], props)
    requires c.state >= 7 ==> env.matchByte == data[pos - c.reps.r0 - 1]
    requires env.noHistory == (pos == 0)
    ensures Follows(S.AtIsMatch, env, EventsFor(c, data, pos, p, props), S.Done(SymbolOf(p, data[pos])))
  {
    hide Follows, RepEvents, MatchEvents, LitEvents, MatchedEvents, LitBase;
    match p
    case Literal => LiteralPath(env, data[pos]);
    case ShortRep => ShortRepPath(env);
    case Rep(index, len) => RepPath(env, index, len);
    case Match(dist, len) => MatchPath(env, dist, len);
  }

  /** The decoder is where the encoder was: same state, distances off by one, output so far. */
  ghost predicate Mirrors(d: Dec, c: Coder, data: seq<Byte>, pos: nat)
  {
    && pos <= |data| && d.hist == data[..pos]
    && d.state == c.state
    && d.reps == Reps(c.reps.r0 + 1, c.reps.r1 + 1, c.reps.r2 + 1, c.reps.r3 + 1)
  }

  /** Copying reproduces a stretch of data that repeats itself. */
  lemma {:induction false} CopyReproduces(data: seq<Byte>, pos: nat, back: nat, len: nat)
    requires Repeats(data, pos, back, len)
    ensures 1 <= back <= pos && pos + len <= |data|
    ensures CopyBack(data[..pos], back, len) == data[..pos + len]
    decreases len
  {
    if len > 0 {
      assert data[..pos][pos - back] == data[pos];
      assert data[..pos] + [data[pos]] == data[..pos + 1];
      CopyReproduces(data, pos + 1, back, len - 1);
    }
  }

  /** The decoder's answer mirrors the encoder after `p`. */
  ghost predicate Reproduced(r: Verdict, d: Dec, c: Coder, data: seq<Byte>, pos: nat, p: Packet)
  {
    && r.Decoded? && r.d.rc == d.rc && r.d.probs == d.probs
    && CoderOk(NextCoder(c, p), pos + PacketLen(p))
    && Mirrors(r.d, NextCoder(c, p), data, pos + PacketLen(p))
  }

  lemma RepMirrors(d: Dec, c: Coder, data: seq<Byte>, pos: nat, p: Packet, props: Props)
    requires DecOk(d, props) && CoderOk(c, pos) && Mirrors(d, c, data, pos) && p.Rep?
    requires pos < |data| && PacketOk(c, data, pos, p, props)
    ensures Reproduced(Apply(d, SymbolOf(p, data[pos]), props), d, c, data, pos, p)
  {
    hide CopyBack, Repeats, Sane;
    CopyReproduces(data, pos, c.reps.At(p.index) + 1, p.len);
  }

  lemma MatchMirrors(d: Dec, c: Coder, data: seq<Byte>, pos: nat, p: Packet, props: Props)
    requires DecOk(d, props) && CoderOk(c, pos) && Mirrors(d, c, data, pos) && p.Match?
    requires pos < |data| && PacketOk(c, data, pos, p, props)
    ensures Reproduced(Apply(d, SymbolOf(p, data[pos]), props), d, c, data, pos, p)
  {
    hide CopyBack, Repeats, Sane;
    CopyReproduces(data, pos, p.dist + 1, p.len);
  }

  /** Applying the symbol of a packet mirrors the encoder's own step. */
  lemma ApplyMirrors(d: Dec, c: Coder, data: seq<Byte>, pos: nat, p: Packet, props: Props)
    requires DecOk(d, props) && CoderOk(c, pos) && Mirrors(d, c, data, pos)
    requires pos < |data| && PacketOk(c, data, pos, p, props)
    ensures Reproduced(Apply(d, SymbolOf(p, data[pos]), props), d, c, data, pos, p)
  {
    if p.Rep? {
      RepMirrors(d, c, data, pos, p, props);
    } else if p.Match? {
      MatchMirrors(d, c, data, pos, p, props);
    } else if p.ShortRep? {
      CopyReproduces(data, pos, c.reps.r0 + 1, 1);
    } else {
      assert data[..pos] + [data[pos]] == data[..pos + 1];
    }
  }

  /** The encoder's whole choice: packets that cover the data from `pos` on. */
  ghost predicate Covers(c: Coder, data: seq<Byte>, pos: nat, ps: List<Packet>, props: Props)
    requires CoderOk(c, pos)
    decreases ps
  {
    match ps
    case Nil => pos == |data|
    case Cons(p, rest) =>
      && pos < |data| && PacketOk(c, data, pos, p, props)
      && CoderOk(NextCoder(c, p), pos + PacketLen(p))
      && Covers(NextCoder(c, p), data, pos + PacketLen(p), rest, props)
  }

  /** Everything coded for `ps`, and the end marker if one is written. */
  ghost function AllEvents(c: Coder, data: seq<Byte>, pos: nat, ps: List<Packet>, props: Props, mark: bool): List<Event>
    requires PropsOk(props) && CoderOk(c, pos) && Covers(c, data, pos, ps, props)
    decreases ps
  {
    hide PacketOk, CoderOk;
    match ps
    case Nil => if mark then MatchEvents(c.state, PosState(pos, props), END_MARK, MATCH_MIN) else Nil
    case Cons(p, rest) =>
      Append(EventsFor(c, data, pos, p, props),
             AllEvents(NextCoder(c, p), data, pos + PacketLen(p), rest, props, mark))
  }

  /** Decodes symbols until the output has `size` bytes. */
  function DecodeAll(d: Dec, props: Props, buf: seq<Byte>, size: nat): (r: Verdict)
    requires DecOk(d, props)
    ensures !r.DataError? ==> DecOk(r.d, props)
    decreases size - |d.hist|
  {
    if |d.hist| >= size then Decoded(d)
    else
      var r := DecodeSymbol(d, props, buf);
      if !r.Decoded? then r
      else
        GrowsBySymbol(d, props, buf);
        DecodeAll(r.d, props, buf, size)
  }

  lemma GrowsBySymbol(d: Dec, props: Props, buf: seq<Byte>)
    requires DecOk(d, props) && DecodeSymbol(d, props, buf).Decoded?
    ensures |DecodeSymbol(d, props, buf).d.hist| > |d.hist|
  {
  }

  /** One packet: the decoder reads it, reproduces its bytes and stays in lockstep. */
  lemma PacketRoundTrip(d: Dec, e: Enc, c: Coder, data: seq<Byte>, pos: nat, p: Packet, rest: List<Event>, props: Props,
                        out: seq<Byte>)
    requires DecOk(d, props) && CoderOk(c, pos) && Mirrors(d, c, data, pos)
    requires pos < |data| && PacketOk(c, data, pos, p, props)
    requires Sync(d.rc, d.probs, e, Append(EventsFor(c, data, pos, p, props), rest), out)
    ensures var r := DecodeSymbol(d, props, out);
            && r.Decoded? && CoderOk(NextCoder(c, p), pos + PacketLen(p))
            && Mirrors(r.d, NextCoder(c, p), data, pos + PacketLen(p))
            && Sync(r.d.rc, r.d.probs, EncRun(e, EventsFor(c, data, pos, p, props)), rest, out)
  {
    var env := EnvOf(d, props);
    EnvOfOk(d, props);
    PacketPath(c, data, pos, p, props, env);
    PathSync(S.AtIsMatch, env, d.rc, d.probs, e, EventsFor(c, data, pos, p, props), rest,
             S.Done(SymbolOf(p, data[pos])), out);
    var o := Real(S.AtIsMatch, env, d.rc, d.probs, out);
    ApplyMirrors(d.(rc := o.rc, probs := o.probs), c, data, pos, p, props);
  }

  /**
   Decoding from `d` gives `data`; the stream is then used up, after the end
   marker if there is one, and the code register is zero.
   */
  ghost predicate Restores(d: Dec, props: Props, out: seq<Byte>, data: seq<Byte>, mark: bool)
    requires DecOk(d, props)
  {
    var r := DecodeAll(d, props, out, |data|);
    && r.Decoded? && r.d.hist == data
    && if mark then
         var s := DecodeSymbol(r.d, props, out);
         s.Ended? && s.d.hist == data && Spent(s.d.rc, out)
       else Spent(r.d.rc, out)
  }

  ghost predicate Spent(rc: Rc, out: seq<Byte>)
  {
    Refill(rc, out).code == 0 && Refill(rc, out).pos == |out|
  }

  lemma RestoresStep(d: Dec, props: Props, out: seq<Byte>, data: seq<Byte>, mark: bool)
    requires DecOk(d, props) && |d.hist| < |data| && DecodeSymbol(d, props, out).Decoded?
    requires Restores(DecodeSymbol(d, props, out).d, props, out, data, mark)
    ensures Restores(d, props, out, data, mark)
  {
    hide Real, Apply, EnvOf, DecOk;
  }

  /** All packets, from any point where decoder and encoder are in lockstep. */
  lemma {:induction false} RestRoundTrip(d: Dec, e: Enc, c: Coder, data: seq<Byte>, pos: nat, ps: List<Packet>,
                                         props: Props, mark: bool, out: seq<Byte>)
    requires DecOk(d, props) && CoderOk(c, pos) && Mirrors(d, c, data, pos)
    requires Covers(c, data, pos, ps, props)
    requires Sync(d.rc, d.probs, e, AllEvents(c, data, pos, ps, props, mark), out)
    ensures Restores(d, props, out, data, mark)
    decreases ps
  {
    hide DecodeSymbol, Restores, PacketOk, EventsFor, EncRun;
    match ps
    case Nil => EndRoundTrip(d, e, c, data, props, mark, out);
    case Cons(p, rest) =>
      var c', pos' := NextCoder(c, p), pos + PacketLen(p);
      var evs, more := EventsFor(c, data, pos, p, props), AllEvents(c', data, pos', rest, props, mark);
      assert AllEvents(c, data, pos, ps, props, mark) == Append(evs, more);
      PacketRoundTrip(d, e, c, data, pos, p, more, props, out);
      RestRoundTrip(DecodeSymbol(d, props, out).d, EncRun(e, evs), c', data, pos', rest, props, mark, out);
      RestoresStep(d, props, out, data, mark);
  }

  lemma EndRoundTrip(d: Dec, e: Enc, c: Coder, data: seq<Byte>, props: Props, mark: bool, out: seq<Byte>)
    requires DecOk(d, props) && CoderOk(c, |data|) && Mirrors(d, c, data, |data|)
    requires Sync(d.rc, d.probs, e, AllEvents(c, data, |data|, Nil, props, mark), out)
    ensures Restores(d, props, out, data, mark)
  {
    assert data[..|data|] == data;
    if mark {
      EndMarkRoundTrip(d, e, c, props, out);
    } else {
      EndSync(d.rc, d.probs, e, out);
    }
  }

  lemma EndMarkRoundTrip(d: Dec, e: Enc, c: Coder, props: Props, out: seq<Byte>)
    requires DecOk(d, props) && d.state == c.state
    requires Sync(d.rc, d.probs, e, MatchEvents(c.state, PosState(|d.hist|, props), END_MARK, MATCH_MIN), out)
    ensures var s := DecodeSymbol(d, props, out);
            s.Ended? && s.d.hist == d.hist && Spent(s.d.rc, out)
  {
    hide MatchEvents, LitBase, NumProbs, EncRun, Pow2, Real, Follows;
    var env := EnvOf(d, props);
    EnvOfOk(d, props);
    var evs := MatchEvents(c.state, PosState(|d.hist|, props), END_MARK, MATCH_MIN);
    MatchPath(env, END_MARK, MATCH_MIN);
    AppendNil(evs);
    PathSync(S.AtIsMatch, env, d.rc, d.probs, e, evs, Nil, S.Done(S.Match(END_MARK, 0)), out);
    var o := Real(S.AtIsMatch, env, d.rc, d.probs, out);
    EndSync(o.rc, o.probs, EncRun(e, evs), out);
  }

  /** The decoder before the first symbol of `out`. */
  function DecStart(props: Props, out: seq<Byte>): Dec
  {
    Dec(InitRc(out), seq(NumProbs(props), _ => PROB_INIT), 0, Reps(1, 1, 1, 1), [])
  }

  /**
   Decoding the stream of any data, coded with any valid choice of packets, gives
   the data back, uses up the stream and leaves a zero code register.
   */
  lemma RoundTrip(data: seq<Byte>, ps: List<Packet>, props: Props, mark: bool)
    requires PropsOk(props) && Covers(CODER_START, data, 0, ps, props)
    ensures var out := Stream(AllEvents(CODER_START, data, 0, ps, props, mark));
            && out[0] == 0 && DecOk(DecStart(props, out), props)
            && Restores(DecStart(props, out), props, out, data, mark)
  {
    hide AllEvents, Covers, Restores, Sync, Encoded;
    var evs := AllEvents(CODER_START, data, 0, ps, props, mark);
    EncodedValue(Choices(map[], evs));
    StartSync(evs, DecStart(props, Stream(evs)).probs);
    StartMirrors(props, Stream(evs), data);
    RestRoundTrip(DecStart(props, Stream(evs)), ENC_START, CODER_START, data, 0, ps, props, mark, Stream(evs));
  }

  lemma StartMirrors(props: Props, out: seq<Byte>, data: seq<Byte>)
    requires PropsOk(props) && Sane(InitRc(out))
    ensures DecOk(DecStart(props, out), props)
    ensures CoderOk(CODER_START, 0) && Mirrors(DecStart(props, out), CODER_START, data, 0)
  {
  }
}
