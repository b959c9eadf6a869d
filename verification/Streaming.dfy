/**
 Decoding in pieces.  The reference decoder `Go` takes symbols as long as the
 input holds all bytes of the next one; what it does with an input does not
 depend on how the input is cut into chunks.
 */
module Streaming {
  import opened Bytes
  import opened RangeCoder
  import opened Decoding
  import opened Packets
  import opened Lockstep
  import Lists
  import B = ByteBound
  import S = Symbols

  // ------------------------------------------------------------ where the input is cut

  /** A symbol that fits into the input reads the same when more input follows. */
  lemma {:induction false} RealPrefix(q: S.Ctl, env: S.Env, rc: Rc, probs: Probs, z: seq<Byte>, y: seq<Byte>)
    requires S.EnvOk(env, |probs|) && S.Wf(q, env) && Sane(rc)
    requires Real(q, env, rc, probs, z).rc.pos <= |z|
    ensures Real(q, env, rc, probs, z + y) == Real(q, env, rc, probs, z)
    decreases Left(q, env)
  {
    hide S.Next, S.Wf, S.AskAt;
    if !S.AskAt(q, env).Stop? {
      var (bit, rc') := ReadBit(q, env, rc, probs, z);
      S.StepCost(q, env, bit);
      ReadPrefix(q, env, rc, probs, z, y);
      RealPrefix(S.Next(q, env, bit), env, rc', Learn(q, env, probs, bit), z, y);
    }
  }

  lemma ReadPrefix(q: S.Ctl, env: S.Env, rc: Rc, probs: Probs, z: seq<Byte>, y: seq<Byte>)
    requires S.EnvOk(env, |probs|) && S.Wf(q, env) && !S.AskAt(q, env).Stop? && Sane(rc)
    requires ReadBit(q, env, rc, probs, z).1.pos <= |z|
    ensures ReadBit(q, env, rc, probs, z + y) == ReadBit(q, env, rc, probs, z)
  {
    hide S.Next, S.Wf, S.AskAt;
    assert Refill(rc, z + y) == Refill(rc, z);
  }

  lemma RefillShift(rc: Rc, buf: seq<Byte>, k: nat)
    requires k <= |buf|
    ensures Refill(rc.(pos := rc.pos + k), buf) == var n := Refill(rc, buf[k..]); n.(pos := n.pos + k)
  {
    assert ByteAt(buf, rc.pos + k) == ByteAt(buf[k..], rc.pos);
  }

  lemma ReadShift(q: S.Ctl, env: S.Env, rc: Rc, probs: Probs, z: seq<Byte>, k: nat)
    requires S.EnvOk(env, |probs|) && S.Wf(q, env) && !S.AskAt(q, env).Stop? && Sane(rc) && k <= |z|
    ensures var (bit, rc') := ReadBit(q, env, rc, probs, z[k..]);
            ReadBit(q, env, rc.(pos := rc.pos + k), probs, z) == (bit, rc'.(pos := rc'.pos + k))
  {
    hide S.Next, S.Wf, S.AskAt;
    RefillShift(rc, z, k);
  }

  /** Reading starts anywhere: only what lies ahead counts. */
  lemma {:induction false} RealShift(q: S.Ctl, env: S.Env, rc: Rc, probs: Probs, z: seq<Byte>, k: nat)
    requires S.EnvOk(env, |probs|) && S.Wf(q, env) && Sane(rc) && k <= |z|
    ensures var o := Real(q, env, rc, probs, z[k..]);
            Real(q, env, rc.(pos := rc.pos + k), probs, z) == o.(rc := o.rc.(pos := o.rc.pos + k))
    decreases Left(q, env)
  {
    hide S.Next, S.Wf, S.AskAt, ReadBit, Learn;
    if !S.AskAt(q, env).Stop? {
      var (bit, rc') := ReadBit(q, env, rc, probs, z[k..]);
      S.StepCost(q, env, bit);
      ReadShift(q, env, rc, probs, z, k);
      RealShift(S.Next(q, env, bit), env, rc', Learn(q, env, probs, bit), z, k);
    }
  }

  // ------------------------------------------------------------ the reference decoder

  /** The decoder between symbols, with its registers normalised and its input not yet touched. */
  predicate AtRest(d: Dec, props: Props)
  {
    DecOk(d, props) && d.rc.pos == 0 && d.rc.range >= TOP
  }

  /** The dry run does not look at whether there is history. */
  function DryEnv(env: S.Env): S.Env
  {
    env.(noHistory := false)
  }

  /** Where the next symbol ends in `z`, with the last normalisation. */
  function SymbolEnd(d: Dec, props: Props, z: seq<Byte>): Rc
    requires DecOk(d, props)
  {
    EnvOfOk(d, props);
    Refill(Real(S.AtIsMatch, DryEnv(EnvOf(d, props)), d.rc, d.probs, z).rc, z)
  }

  lemma DryEnvWalk(q: S.Ctl, env: S.Env)
    requires S.Wf(q, env)
    ensures S.Wf(q, DryEnv(env)) && S.AskAt(q, DryEnv(env)) == S.AskAt(q, env)
    ensures q.Failed? ==> S.AskAt(q, env).Stop?
  {
  }

  lemma DryEnvNext(q: S.Ctl, env: S.Env, bit: Bit)
    requires S.Wf(q, env) && !S.AskAt(q, env).Stop? && S.Wf(q, DryEnv(env)) && !S.AskAt(q, DryEnv(env)).Stop?
    ensures S.Next(q, env, bit).Failed? || S.Next(q, DryEnv(env), bit) == S.Next(q, env, bit)
  {
  }

  /** History only matters for a symbol that fails, and that one fails early. */
  lemma {:induction false} HistoryMatters(q: S.Ctl, env: S.Env, rc: Rc, probs: Probs, z: seq<Byte>)
    requires S.EnvOk(env, |probs|) && S.Wf(q, env) && Sane(rc)
    ensures S.EnvOk(DryEnv(env), |probs|) && S.Wf(q, DryEnv(env))
    ensures var o, f := Real(q, env, rc, probs, z), Real(q, DryEnv(env), rc, probs, z);
            o.rc.pos <= f.rc.pos && (o == f || o.end.Failed?)
    decreases Left(q, env)
  {
    hide S.Next, S.Wf, S.AskAt;
    DryEnvWalk(q, env);
    if !S.AskAt(q, env).Stop? {
      var (bit, rc') := ReadBit(q, env, rc, probs, z);
      S.StepCost(q, env, bit);
      S.StepCost(q, DryEnv(env), bit);
      assert ReadBit(q, DryEnv(env), rc, probs, z) == (bit, rc');
      DryEnvNext(q, env, bit);
      var n := S.Next(q, env, bit);
      if n.Failed? {
        DryEnvWalk(n, env);
      } else {
        HistoryMatters(n, env, rc', Learn(q, env, probs, bit), z);
      }
    }
  }

  predicate Enough(d: Dec, props: Props, z: seq<Byte>)
    requires DecOk(d, props)
  {
    SymbolEnd(d, props, z).pos <= |z|
  }

  datatype Phase = Running | Finished | Broken

  /** The decoder, the input it has not used, and whether it can go on. */
  datatype Progress = Progress(d: Dec, rest: seq<Byte>, phase: Phase)

  function Settled(d: Dec, z: seq<Byte>): Dec
  {
    d.(rc := Refill(d.rc, z).(pos := 0))
  }

  lemma SettledAtRest(d: Dec, props: Props, z: seq<Byte>)
    requires DecOk(d, props)
    ensures AtRest(Settled(d, z), props)
  {
  }

  /** Decodes from `z` until the output has `limit` bytes, the input runs short, or the stream ends. */
  function Go(d: Dec, props: Props, z: seq<Byte>, limit: nat): (r: Progress)
    requires AtRest(d, props)
    ensures AtRest(r.d, props)
    decreases limit - |d.hist|
  {
    if |d.hist| >= limit || !Enough(d, props, z) then Progress(d, z, Running)
    else
      var used := SymbolEnd(d, props, z).pos;
      match DecodeSymbol(d, props, z)
      case DataError => Progress(d, z, Broken)
      case Ended(d') =>
        SettledAtRest(d', props, z);
        Progress(Settled(d', z), z[used..], Finished)
      case Decoded(d') =>
        GrowsBySymbol(d, props, z);
        SettledAtRest(d', props, z);
        Go(Settled(d', z), props, z[used..], limit)
  }

  /** The next symbol, with more input behind it. */
  lemma SymbolPrefix(d: Dec, props: Props, z: seq<Byte>, y: seq<Byte>)
    requires AtRest(d, props) && Enough(d, props, z)
    ensures SymbolEnd(d, props, z + y) == SymbolEnd(d, props, z)
    ensures DecodeSymbol(d, props, z + y) == DecodeSymbol(d, props, z)
    ensures var v := DecodeSymbol(d, props, z);
            !v.DataError? ==> Settled(v.d, z + y) == Settled(v.d, z)
  {
    hide Real, Apply, S.SymbolOk;
    EnvOfOk(d, props);
    var env := EnvOf(d, props);
    HistoryMatters(S.AtIsMatch, env, d.rc, d.probs, z);
    RealPrefix(S.AtIsMatch, env, d.rc, d.probs, z, y);
    RealPrefix(S.AtIsMatch, DryEnv(env), d.rc, d.probs, z, y);
    RefillPrefix(Real(S.AtIsMatch, DryEnv(env), d.rc, d.probs, z).rc, z, y);
    if !DecodeSymbol(d, props, z).DataError? {
      SymbolKeepsRc(d, props, z);
    }
  }

  lemma RefillPrefix(rc: Rc, z: seq<Byte>, y: seq<Byte>)
    requires Refill(rc, z).pos <= |z|
    ensures Refill(rc, z + y) == Refill(rc, z)
  {
  }

  lemma SymbolKeepsRc(d: Dec, props: Props, z: seq<Byte>)
    requires DecOk(d, props) && !DecodeSymbol(d, props, z).DataError?
    ensures Refill(DecodeSymbol(d, props, z).d.rc, z) == SymbolEnd(d, props, z)
    ensures DecodeSymbol(d, props, z).d.probs
            == (EnvOfOk(d, props); Real(S.AtIsMatch, EnvOf(d, props), d.rc, d.probs, z).probs)
  {
    hide Real;
    EnvOfOk(d, props);
    HistoryMatters(S.AtIsMatch, EnvOf(d, props), d.rc, d.probs, z);
  }

  /** Decoding a longer input goes on from where the shorter one stopped. */
  lemma {:induction false} GoOn(d: Dec, props: Props, z: seq<Byte>, y: seq<Byte>, limit: nat)
    requires AtRest(d, props)
    ensures var r := Go(d, props, z, limit);
            if r.phase.Running? then Go(d, props, z + y, limit) == Go(r.d, props, r.rest + y, limit)
            else Go(d, props, z + y, limit) == r.(rest := r.rest + y)
    decreases limit - |d.hist|
  {
    hide S.Next, S.Wf, S.AskAt, Real, DecodeSymbol, SymbolEnd;
    if |d.hist| < limit && Enough(d, props, z) {
      SymbolPrefix(d, props, z, y);
      var used := SymbolEnd(d, props, z).pos;
      assert (z + y)[used..] == z[used..] + y;
      var v := DecodeSymbol(d, props, z);
      if v.Decoded? {
        GrowsBySymbol(d, props, z);
        SettledAtRest(v.d, props, z);
        GoOn(Settled(v.d, z), props, z[used..], y, limit);
      }
    }
  }

  function Joined(chunks: seq<seq<Byte>>): seq<Byte>
  {
    if chunks == [] then [] else chunks[0] + Joined(chunks[1..])
  }

  /** Chunk after chunk; what a chunk leaves unused is kept and comes first next time. */
  function Feed(r: Progress, props: Props, chunks: seq<seq<Byte>>, limit: nat): (s: Progress)
    requires AtRest(r.d, props)
    decreases |chunks|
  {
    if chunks == [] then r
    else if !r.phase.Running? then Feed(r.(rest := r.rest + chunks[0]), props, chunks[1..], limit)
    else Feed(Go(r.d, props, r.rest + chunks[0], limit), props, chunks[1..], limit)
  }

  /** The same decoder state, output and unused input come out for every way to cut the input. */
  lemma {:induction false} ChunksDoNotMatter(d: Dec, props: Props, z: seq<Byte>, chunks: seq<seq<Byte>>, limit: nat)
    requires AtRest(d, props)
    ensures Feed(Go(d, props, z, limit), props, chunks, limit) == Go(d, props, z + Joined(chunks), limit)
    decreases |chunks|
  {
    hide Go, AtRest;
    if chunks == [] {
      assert z + Joined(chunks) == z;
    } else {
      var r, c := Go(d, props, z, limit), chunks[0];
      GoOn(d, props, z, c, limit);
      ChunksDoNotMatter(d, props, z + c, chunks[1..], limit);
      assert z + Joined(chunks) == z + c + Joined(chunks[1..]);
    }
  }

  /** A symbol that ends inside the first part of the input does not need the second. */
  lemma {:induction false} RealCut(q: S.Ctl, env: S.Env, rc: Rc, probs: Probs, z: seq<Byte>, y: seq<Byte>)
    requires S.EnvOk(env, |probs|) && S.Wf(q, env) && Sane(rc)
    requires Real(q, env, rc, probs, z + y).rc.pos <= |z|
    ensures Real(q, env, rc, probs, z) == Real(q, env, rc, probs, z + y)
    decreases Left(q, env)
  {
    hide S.Next, S.Wf, S.AskAt, ReadBit, Learn;
    if !S.AskAt(q, env).Stop? {
      var (bit, rc') := ReadBit(q, env, rc, probs, z + y);
      S.StepCost(q, env, bit);
      ReadCut(q, env, rc, probs, z, y);
      RealCut(S.Next(q, env, bit), env, rc', Learn(q, env, probs, bit), z, y);
    }
  }

  lemma ReadCut(q: S.Ctl, env: S.Env, rc: Rc, probs: Probs, z: seq<Byte>, y: seq<Byte>)
    requires S.EnvOk(env, |probs|) && S.Wf(q, env) && !S.AskAt(q, env).Stop? && Sane(rc)
    requires ReadBit(q, env, rc, probs, z + y).1.pos <= |z|
    ensures ReadBit(q, env, rc, probs, z) == ReadBit(q, env, rc, probs, z + y)
  {
    hide S.Next, S.Wf, S.AskAt;
    RefillCut(rc, z, y);
  }

  lemma CutIsEnough(d: Dec, props: Props, z: seq<Byte>, y: seq<Byte>)
    requires DecOk(d, props) && SymbolEnd(d, props, z + y).pos <= |z|
    ensures Enough(d, props, z)
  {
    hide Real;
    EnvOfOk(d, props);
    var env := DryEnv(EnvOf(d, props));
    RealCut(S.AtIsMatch, env, d.rc, d.probs, z, y);
    RefillCut(Real(S.AtIsMatch, env, d.rc, d.probs, z).rc, z, y);
  }

  lemma RefillCut(rc: Rc, z: seq<Byte>, y: seq<Byte>)
    requires Refill(rc, z + y).pos <= |z|
    ensures Refill(rc, z) == Refill(rc, z + y)
  {
  }

  /** A symbol that needs more than `z` ends behind `z`, whatever follows. */
  lemma EndsBehind(d: Dec, props: Props, z: seq<Byte>, y: seq<Byte>)
    requires DecOk(d, props) && !Enough(d, props, z)
    ensures SymbolEnd(d, props, z + y).pos > |z|
  {
    if SymbolEnd(d, props, z + y).pos <= |z| {
      CutIsEnough(d, props, z, y);
    }
  }

  // ------------------------------------------------------------ a decoder in the middle of its input

  function Ahead(rc: Rc, k: nat): Rc
  {
    rc.(pos := rc.pos + k)
  }

  /** What `Go` makes of a decoder that stands inside `buf`, perhaps one byte short of normalised. */
  function GoFrom(d: Dec, props: Props, buf: seq<Byte>, limit: nat): Progress
    requires DecOk(d, props) && Refill(d.rc, buf).pos <= |buf|
  {
    SettledAtRest(d, props, buf);
    Go(Settled(d, buf), props, buf[Refill(d.rc, buf).pos..], limit)
  }

  /** The last normalisation of a symbol may as well be the first of the next. */
  lemma RealRefill(env: S.Env, rc: Rc, probs: Probs, buf: seq<Byte>)
    requires S.EnvOk(env, |probs|) && Sane(rc)
    ensures Real(S.AtIsMatch, env, Refill(rc, buf), probs, buf) == Real(S.AtIsMatch, env, rc, probs, buf)
  {
    hide S.Next, S.Wf, S.AskAt, ReadBit, Learn;
    FirstAsk(env);
    RefillTwice(rc, buf);
    ReadRefill(env, rc, probs, buf);
    S.StepCost(S.AtIsMatch, env, ReadBit(S.AtIsMatch, env, rc, probs, buf).0);
  }

  lemma RefillTwice(rc: Rc, buf: seq<Byte>)
    requires Sane(rc)
    ensures Sane(Refill(rc, buf)) && Refill(Refill(rc, buf), buf) == Refill(rc, buf)
  {
  }

  lemma ReadRefill(env: S.Env, rc: Rc, probs: Probs, buf: seq<Byte>)
    requires S.EnvOk(env, |probs|) && Sane(rc) && Sane(Refill(rc, buf)) && !S.AskAt(S.AtIsMatch, env).Stop?
    ensures ReadBit(S.AtIsMatch, env, Refill(rc, buf), probs, buf) == ReadBit(S.AtIsMatch, env, rc, probs, buf)
  {
    hide S.Next;
    RefillTwice(rc, buf);
  }

  lemma FirstAsk(env: S.Env)
    ensures S.Wf(S.AtIsMatch, env) && S.AskAt(S.AtIsMatch, env) == S.Cell(S.IS_MATCH + env.state * 16 + env.posState)
  {
  }

  lemma AheadShift(rc: Rc, buf: seq<Byte>, k: nat)
    requires k <= |buf|
    ensures Refill(Ahead(rc, k), buf) == Ahead(Refill(rc, buf[k..]), k)
  {
    hide Refill;
    RefillShift(rc, buf, k);
  }

  lemma RealSettled(env: S.Env, rc: Rc, probs: Probs, buf: seq<Byte>)
    requires S.EnvOk(env, |probs|) && Sane(rc) && Refill(rc, buf).pos <= |buf|
    ensures Sane(Refill(rc, buf))
    ensures var n := Refill(rc, buf);
            var o := Real(S.AtIsMatch, env, n.(pos := 0), probs, buf[n.pos..]);
            && Real(S.AtIsMatch, env, rc, probs, buf) == o.(rc := Ahead(o.rc, n.pos))
            && Refill(Ahead(o.rc, n.pos), buf) == Ahead(Refill(o.rc, buf[n.pos..]), n.pos)
  {
    hide Real, Refill, S.EnvOk;
    RefillTwice(rc, buf);
    RealRefill(env, rc, probs, buf);
    var n := Refill(rc, buf);
    assert n.(pos := 0).(pos := 0 + n.pos) == n;
    RealShift(S.AtIsMatch, env, n.(pos := 0), probs, buf, n.pos);
    AheadShift(Real(S.AtIsMatch, env, n.(pos := 0), probs, buf[n.pos..]).rc, buf, n.pos);
  }

  /** One symbol, seen from inside `buf` and from the settled decoder. */
  lemma SettledSymbol(d: Dec, props: Props, buf: seq<Byte>)
    requires DecOk(d, props) && Refill(d.rc, buf).pos <= |buf|
    ensures DecOk(Settled(d, buf), props)
    ensures var k := Refill(d.rc, buf).pos;
            var z, v := buf[k..], DecodeSymbol(d, props, buf);
            var u := DecodeSymbol(Settled(d, buf), props, z);
            && SymbolEnd(d, props, buf) == Ahead(SymbolEnd(Settled(d, buf), props, z), k)
            && u.DataError? == v.DataError? && u.Ended? == v.Ended?
            && (!v.DataError? ==> v.d == u.d.(rc := Ahead(u.d.rc, k)) && Settled(v.d, buf) == Settled(u.d, z)
                                  && Refill(v.d.rc, buf).pos == k + SymbolEnd(Settled(d, buf), props, z).pos)
  {
    hide Real, Refill;
    EnvOfOk(d, props);
    var env := EnvOf(d, props);
    RealSettled(env, d.rc, d.probs, buf);
    assert EnvOf(Settled(d, buf), props) == env;
    RealSettled(DryEnv(env), d.rc, d.probs, buf);
    if !DecodeSymbol(d, props, buf).DataError? {
      SymbolKeepsRc(d, props, buf);
    }
  }

  /** One step of `GoFrom`. */
  lemma GoStep(d: Dec, props: Props, buf: seq<Byte>, limit: nat)
    requires DecOk(d, props) && Refill(d.rc, buf).pos <= |buf|
    requires |d.hist| < limit && SymbolEnd(d, props, buf).pos <= |buf|
    ensures var v := DecodeSymbol(d, props, buf);
            if v.DataError? then GoFrom(d, props, buf, limit).phase == Broken
            else
              && Refill(v.d.rc, buf) == SymbolEnd(d, props, buf)
              && GoFrom(d, props, buf, limit)
                 == if v.Ended? then Progress(Settled(v.d, buf), buf[Refill(v.d.rc, buf).pos..], Finished)
                    else GoFrom(v.d, props, buf, limit)
  {
    hide Real, DecodeSymbol, SymbolEnd;
    SettledSymbol(d, props, buf);
    SettledAtRest(d, props, buf);
    var k := Refill(d.rc, buf).pos;
    var used := SymbolEnd(Settled(d, buf), props, buf[k..]).pos;
    assert buf[k..][used..] == buf[k + used..];
    if !DecodeSymbol(d, props, buf).DataError? {
      SymbolKeepsRc(d, props, buf);
    }
  }

  // ------------------------------------------------------------ round trip in pieces

  /** A whole-buffer decode that stays inside its input is what `Go` does. */
  lemma {:induction false} GoDecodesAll(d: Dec, props: Props, out: seq<Byte>, size: nat, limit: nat)
    requires DecOk(d, props) && size <= limit && DecodeAll(d, props, out, size).Decoded?
    requires Refill(DecodeAll(d, props, out, size).d.rc, out).pos <= |out|
    ensures var r := DecodeAll(d, props, out, size).d;
            && Refill(d.rc, out).pos <= Refill(r.rc, out).pos
            && GoFrom(d, props, out, limit) == GoFrom(r, props, out, limit)
    decreases size - |d.hist|
  {
    hide Real, DecodeSymbol, SymbolEnd, GoFrom;
    if |d.hist| < size {
      var v := DecodeSymbol(d, props, out);
      GrowsBySymbol(d, props, out);
      GoDecodesAll(v.d, props, out, size, limit);
      SymbolKeepsRc(d, props, out);
      EndsAhead(d, props, out);
      GoStep(d, props, out, limit);
    }
  }

  lemma EndsAhead(d: Dec, props: Props, buf: seq<Byte>)
    requires DecOk(d, props)
    ensures Refill(d.rc, buf).pos <= SymbolEnd(d, props, buf).pos
  {
    hide Real;
    EnvOfOk(d, props);
    RealRefill(DryEnv(EnvOf(d, props)), d.rc, d.probs, buf);
  }

  /**
   Whatever way the stream of any data is cut into pieces, feeding the pieces
   gives the data back, uses up the stream and leaves a zero code register.
   */
  lemma StreamedRoundTrip(data: seq<Byte>, ps: Lists.List<Packet>, props: Props, mark: bool, chunks: seq<seq<Byte>>)
    requires PropsOk(props) && Covers(CODER_START, data, 0, ps, props)
    requires var out := Stream(AllEvents(CODER_START, data, 0, ps, props, mark));
             |out| >= 5 && Joined(chunks) == out[5..]
    ensures var out, limit :=
            Stream(AllEvents(CODER_START, data, 0, ps, props, mark)), if mark then |data| + 1 else |data|;
            var d := Settled(DecStart(props, out), out);
            && AtRest(d, props)
            && var r := Feed(Go(d, props, [], limit), props, chunks, limit);
               && r.d.hist == data && r.rest == [] && r.d.rc.code == 0
               && r.phase == if mark then Finished else Running
  {
    hide AllEvents, Covers, Go, DecodeAll, DecodeSymbol, SymbolEnd, Stream;
    RoundTrip(data, ps, props, mark);
    var out, limit := Stream(AllEvents(CODER_START, data, 0, ps, props, mark)), if mark then |data| + 1 else |data|;
    var d := DecStart(props, out);
    SettledAtRest(d, props, out);
    ChunksDoNotMatter(Settled(d, out), props, [], chunks, limit);
    assert [] + Joined(chunks) == out[5..];
    WholeRoundTrip(d, props, out, data, mark);
  }

  lemma WholeRoundTrip(d: Dec, props: Props, out: seq<Byte>, data: seq<Byte>, mark: bool)
    requires DecOk(d, props) && Restores(d, props, out, data, mark) && Refill(d.rc, out).pos <= |out|
    ensures var r := GoFrom(d, props, out, if mark then |data| + 1 else |data|);
            && r.d.hist == data && r.rest == [] && r.d.rc.code == 0
            && r.phase == if mark then Finished else Running
  {
    hide DecodeSymbol, SymbolEnd;
    var r := DecodeAll(d, props, out, |data|).d;
    if mark {
      SymbolKeepsRc(r, props, out);
      EndsAhead(r, props, out);
      GoDecodesAll(d, props, out, |data|, |data| + 1);
      GoStep(r, props, out, |data| + 1);
    } else {
      GoDecodesAll(d, props, out, |data|, |data|);
    }
  }
}
