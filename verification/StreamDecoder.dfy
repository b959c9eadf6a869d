/**
 The resumable decoder: a circular dictionary written in place, matches cut off
 at the output limit, a small buffer for the bytes of an incomplete symbol.  It
 is proved against the reference decoder `Go`, which knows none of these.
 */
module StreamDecoder {
  import opened Bytes
  import opened RangeCoder
  import opened Decoding
  import opened Packets
  import opened Streaming
  import opened SymbolDecoder
  import B = ByteBound
  import S = Symbols
  import St = States

  /** Values of `remainLen` from here on say that the end marker was read. */
  const SPEC_LEN := 274

  // ------------------------------------------------------------ the circular dictionary

  /** Where the byte `back` bytes behind `dicPos` is. */
  function Index(back: nat, dicPos: nat, size: nat): int
  {
    dicPos - back + if dicPos < back then size else 0
  }

  /** The dictionary holds the most recent of the first `w` bytes of `hist`. */
  ghost predicate Window(dic: seq<Byte>, dicPos: nat, hist: seq<Byte>, w: nat)
  {
    && dicPos <= |dic| && w <= |hist|
    && forall k | 1 <= k <= w && k <= |dic| :: dic[Index(k, dicPos, |dic|)] == hist[w - k]
  }

  lemma Emit(dic: seq<Byte>, dicPos: nat, hist: seq<Byte>, w: nat)
    requires Window(dic, dicPos, hist, w) && dicPos < |dic| && w < |hist|
    ensures Window(dic[dicPos := hist[w]], dicPos + 1, hist, w + 1)
  {
    var dic', p := dic[dicPos := hist[w]], dicPos + 1;
    forall k | 1 <= k <= w + 1 && k <= |dic|
      ensures dic'[Index(k, p, |dic|)] == hist[w + 1 - k]
    {
      if k > 1 {
        assert dic[Index(k - 1, dicPos, |dic|)] == hist[w - (k - 1)];
      }
    }
  }

  /** Once the dictionary is full up to its end, writing goes on at its start. */
  lemma WrapAround(dic: seq<Byte>, hist: seq<Byte>, w: nat)
    requires Window(dic, |dic|, hist, w)
    ensures Window(dic, 0, hist, w)
  {
    forall k | 1 <= k <= w && k <= |dic|
      ensures dic[Index(k, 0, |dic|)] == hist[w - k]
    {
      assert dic[Index(k, |dic|, |dic|)] == hist[w - k];
    }
  }

  /** From `w` on, `hist` repeats itself at distance `back`. */
  ghost predicate Pending(hist: seq<Byte>, w: nat, back: nat)
  {
    w < |hist| ==> 1 <= back <= w && forall j | w <= j < |hist| :: hist[j] == hist[j - back]
  }

  /** One byte of a copy. */
  lemma CopyByte(dic: seq<Byte>, dicPos: nat, hist: seq<Byte>, w: nat, n: nat, back: nat)
    requires Window(dic, dicPos, hist, n) && Pending(hist, w, back) && w <= n < |hist|
    requires dicPos < |dic| && back <= |dic|
    ensures back >= 1 && 0 <= Index(back, dicPos, |dic|) < |dic|
    ensures Window(dic[dicPos := dic[Index(back, dicPos, |dic|)]], dicPos + 1, hist, n + 1)
  {
    Emit(dic, dicPos, hist, n);
    assert dic[Index(back, dicPos, |dic|)] == hist[n - back];
  }

  lemma {:induction false} CopyBackRepeats(hist: seq<Byte>, back: nat, len: nat)
    requires 1 <= back <= |hist|
    ensures Pending(CopyBack(hist, back, len), |hist|, back)
    decreases len
  {
    if len > 0 {
      var h := hist + [hist[|hist| - back]];
      CopyBackRepeats(h, back, len - 1);
      var r := CopyBack(hist, back, len);
      assert h <= r && r[|hist|] == h[|hist|] && r[|hist| - back] == h[|hist| - back];
    }
  }

  /** More history leaves the written part as it was. */
  lemma WindowGrows(dic: seq<Byte>, dicPos: nat, hist: seq<Byte>, hist': seq<Byte>, w: nat)
    requires Window(dic, dicPos, hist, w) && hist <= hist'
    ensures Window(dic, dicPos, hist', w)
  {
  }

  // ------------------------------------------------------------ the 32-bit position

  ghost function Low32(w: nat): nat
  {
    w % WORD
  }

  lemma WrapAdd(w: nat, k: nat)
    requires k < WORD
    ensures Low32(w) < WORD && Add32(Low32(w), k) == Low32(w + k)
  {
    if w % WORD + k < WORD {
      DivModUnique(w + k, WORD, w / WORD, w % WORD + k);
    } else {
      DivModUnique(w + k, WORD, w / WORD + 1, w % WORD + k - WORD);
    }
  }

  lemma LowBelow(w: nat)
    ensures Low32(w) <= w
  {
  }

  lemma NoWrapYet(w: nat)
    requires w < WORD
    ensures Low32(w) == w
  {
  }

  // ------------------------------------------------------------ the decoder

  /** What kind of symbol comes next. */
  ghost function NextKind(d: Dec, props: Props, buf: seq<Byte>): (r: Dummy)
    requires DecOk(d, props)
    ensures !r.DummyError?
  {
    EnvOfOk(d, props);
    var env := DryEnv(EnvOf(d, props));
    NeverFails(S.AtIsMatch, env, d.rc, d.probs, buf);
    DummyOf(Real(S.AtIsMatch, env, d.rc, d.probs, buf).end.symbol)
  }

  datatype Status = NotSpecified | FinishedWithMark | NotFinished | NeedsMoreInput | MaybeFinishedWithoutMark

  datatype Reply = Reply(ok: bool, status: Status)

  /** After the end marker the code register has to be zero. */
  function Finish(code: nat): Reply
  {
    if code == 0 then Reply(true, FinishedWithMark) else Reply(false, NotSpecified)
  }

  /**
   What one call does with the input `z`: the decoder after it, the input it has
   not used, and the reply.  `limit` counts all output; with `finish` the stream
   has to end there, with or without an end marker.
   */
  ghost function Decode(d: Dec, props: Props, z: seq<Byte>, limit: nat, finish: bool): (Progress, Reply)
    requires AtRest(d, props)
  {
    var g := Go(d, props, z, limit);
    if g.phase.Broken? then (g, Reply(false, NotSpecified))
    else if g.phase.Finished? then (g, Finish(g.d.rc.code))
    else if |g.d.hist| < limit then (g, Reply(true, NeedsMoreInput))
    else if |g.d.hist| == limit && g.d.rc.code == 0 then (g, Reply(true, MaybeFinishedWithoutMark))
    else if !finish then (g, Reply(true, NotFinished))
    else if |g.d.hist| > limit then (g, Reply(false, NotFinished))
    else if !Enough(g.d, props, g.rest) then (g, Reply(true, NeedsMoreInput))
    else if NextKind(g.d, props, g.rest) != DummyMatch then (g, Reply(false, NotFinished))
    else
      var h := Go(g.d, props, g.rest, limit + 1);
      (h, if h.phase.Finished? then Finish(h.d.rc.code) else Reply(false, NotSpecified))
  }

  /** One more symbol has to be read: there is room, or the end marker is missing. */
  ghost predicate WantsSymbol(d: Dec, limit: nat, finish: bool)
  {
    |d.hist| < limit || (|d.hist| == limit && finish && d.rc.code != 0)
  }

  lemma Starved(d: Dec, props: Props, z: seq<Byte>, limit: nat, finish: bool)
    requires AtRest(d, props) && WantsSymbol(d, limit, finish) && !Enough(d, props, z)
    ensures Decode(d, props, z, limit, finish) == (Progress(d, z, Streaming.Running), Reply(true, NeedsMoreInput))
  {
    hide SymbolEnd, DecodeSymbol, NextKind;
  }

  lemma KindPrefix(d: Dec, props: Props, z: seq<Byte>, y: seq<Byte>)
    requires AtRest(d, props) && Enough(d, props, z)
    ensures NextKind(d, props, z + y) == NextKind(d, props, z)
  {
    hide Real;
    EnvOfOk(d, props);
    RealPrefix(S.AtIsMatch, DryEnv(EnvOf(d, props)), d.rc, d.probs, z, y);
  }

  lemma WrongKind(d: Dec, props: Props, z: seq<Byte>, y: seq<Byte>, limit: nat)
    requires AtRest(d, props) && |d.hist| == limit && d.rc.code != 0
    requires Enough(d, props, z) && NextKind(d, props, z) != DummyMatch
    ensures Decode(d, props, z + y, limit, true).1 == Reply(false, NotFinished)
  {
    hide DecodeSymbol, NextKind, SymbolEnd;
    SymbolPrefix(d, props, z, y);
    KindPrefix(d, props, z, y);
  }

  /** The limit for `Go` on the next symbol: one more when only the end marker may come. */
  ghost function SymbolLimit(d: Dec, limit: nat): nat
  {
    if |d.hist| < limit then limit else limit + 1
  }

  /** The next symbols, decoded from the first part `z` of the input, fail. */
  lemma SymbolFails(d: Dec, props: Props, z: seq<Byte>, y: seq<Byte>, limit: nat, finish: bool)
    requires AtRest(d, props) && WantsSymbol(d, limit, finish) && Enough(d, props, z)
    requires |d.hist| == limit ==> NextKind(d, props, z) == DummyMatch
    requires Go(d, props, z, SymbolLimit(d, limit)).phase.Broken?
             || (|d.hist| == limit && !DecodeSymbol(d, props, z).Ended?)
    ensures Decode(d, props, z + y, limit, finish).1 == Reply(false, NotSpecified)
  {
    hide DecodeSymbol, NextKind, SymbolEnd;
    SymbolPrefix(d, props, z, y);
    KindPrefix(d, props, z, y);
    GoOn(d, props, z, y, SymbolLimit(d, limit));
    if |d.hist| == limit && DecodeSymbol(d, props, z + y).Decoded? {
      GrowsBySymbol(d, props, z + y);
    }
  }

  /** They reach the end marker. */
  lemma SymbolEnds(d: Dec, props: Props, z: seq<Byte>, y: seq<Byte>, limit: nat, finish: bool, d': Dec, rest: seq<Byte>)
    requires AtRest(d, props) && WantsSymbol(d, limit, finish) && Enough(d, props, z)
    requires |d.hist| == limit ==> NextKind(d, props, z) == DummyMatch
    requires Go(d, props, z, SymbolLimit(d, limit)) == Progress(d', rest, Streaming.Finished)
    ensures Decode(d, props, z + y, limit, finish) == (Progress(d', rest + y, Streaming.Finished), Finish(d'.rc.code))
  {
    hide DecodeSymbol, NextKind, SymbolEnd;
    SymbolPrefix(d, props, z, y);
    KindPrefix(d, props, z, y);
    GoOn(d, props, z, y, SymbolLimit(d, limit));
  }

  /** They lead to `d'`, from where the call goes on. */
  lemma SymbolsDecoded(d: Dec, props: Props, z: seq<Byte>, y: seq<Byte>, limit: nat, finish: bool, d': Dec,
                       rest: seq<Byte>)
    requires AtRest(d, props) && AtRest(d', props) && |d.hist| < limit
    requires Go(d, props, z, limit) == Go(d', props, rest, limit)
    ensures Decode(d, props, z + y, limit, finish) == Decode(d', props, rest + y, limit, finish)
  {
    hide Go;
    GoOn(d, props, z, y, limit);
    GoOn(d', props, rest, y, limit);
  }

  predicate RepsFit(reps: Reps, dicSize: nat)
  {
    reps.r0 <= dicSize && reps.r1 <= dicSize && reps.r2 <= dicSize && reps.r3 <= dicSize
  }

  class LzmaDec {
    const props: Props
    const reader: BitReader
    const dic: array<Byte>
    const tempBuf: array<Byte>
    var dicPos: nat
    var processedPos: nat
    var checkDicSize: nat
    var state: nat
    var reps: Reps
    var remainLen: nat
    var needFlush: bool
    var needInitState: bool
    var tempBufSize: nat
    /** All output, with what a match that was cut off still has to write. */
    ghost var hist: seq<Byte>

    /** LzmaDec_Allocate and LzmaDec_Init. */
    constructor (props: Props, dicBufSize: nat)
      requires PropsOk(props) && props.dicSize < WORD
      ensures this.props == props && dic.Length == dicBufSize && fresh(dic) && fresh(tempBuf) && fresh(reader)
              && fresh(reader.probs)
      ensures hist == [] && needFlush && needInitState && dicPos == 0 && remainLen == 0 && tempBufSize == 0
      ensures Valid()
    {
      this.props := props;
      reader := new BitReader(NumProbs(props));
      dic := new Byte[dicBufSize];
      tempBuf := new Byte[B.REQUIRED_INPUT_MAX];
      dicPos, processedPos, checkDicSize, remainLen, tempBufSize := 0, 0, 0, 0, 0;
      needFlush, needInitState := true, true;
      state, reps, hist := 0, Reps(1, 1, 1, 1), [];
    }

    ghost function Remain(): nat
      reads this
    {
      if remainLen < SPEC_LEN then remainLen else 0
    }

    ghost function Written(): int
      reads this
    {
      |hist| - Remain()
    }

    ghost function View(): Dec
      reads this, reader, reader.probs
    {
      Dec(reader.View(), reader.probs[..], state, reps, hist)
    }

    ghost predicate Shape()
      reads this, reader, reader.probs
    {
      && PropsOk(props) && props.dicSize < WORD
      && reader.probs.Length == NumProbs(props) && Sane(reader.View())
      && tempBuf.Length == B.REQUIRED_INPUT_MAX && dic != tempBuf
    }

    /** The dictionary shows the written output, the rest follows by copying. */
    ghost predicate Output()
      reads this, dic
    {
      && Written() >= 0 && dicPos <= dic.Length && Window(dic[..], dicPos, hist, Written())
      && Pending(hist, Written(), reps.r0)
      && (props.dicSize <= dic.Length || Written() == dicPos)
      && processedPos == Low32(Written())
    }

    /** `checkDicSize` is set once the output is as long as the dictionary. */
    ghost predicate Checked()
      reads this
    {
      checkDicSize == if Written() < props.dicSize then 0 else props.dicSize
    }

    /** What holds between symbols while a stream is decoded. */
    ghost predicate Running()
      reads this, reader, reader.probs, dic
    {
      Shape() && Output() && DecOk(View(), props) && RepsFit(reps, props.dicSize)
    }

    // ---------------------------------------------------------- writing

    /** A match inside the buffer: source and destination move on together. */
    method CopyStraight(start: nat, len: nat, ghost w: nat)
      requires start + len <= dic.Length
      requires dicPos + len <= dic.Length && w + len <= |hist|
      requires Window(dic[..], dicPos, hist, w) && Pending(hist, w, reps.r0)
      requires reps.r0 <= dic.Length && start == Index(reps.r0, dicPos, dic.Length)
      modifies this`dicPos, dic
      ensures dicPos == old(dicPos) + len && Window(dic[..], dicPos, hist, w + len)
    {
      hide Window, Pending;
      var dest, src := dicPos, start - dicPos;
      var lim := dest + len;
      dicPos := dicPos + len;
      ghost var n := w;
      while dest != lim
        invariant dest <= lim == dicPos && n == w + len - (lim - dest)
        invariant Window(dic[..], dest, hist, n)
        decreases lim - dest
      {
        CopyByte(dic[..], dest, hist, w, n, reps.r0);
        dic[dest] := dic[dest + src];
        dest := dest + 1;
        n := n + 1;
      }
    }

    /** A match over the end of the buffer: the source index wraps around. */
    method CopyWrapping(start: nat, len: nat, ghost w: nat)
      requires start < dic.Length
      requires dicPos + len <= dic.Length && w + len <= |hist|
      requires Window(dic[..], dicPos, hist, w) && Pending(hist, w, reps.r0)
      requires reps.r0 <= dic.Length && start == Index(reps.r0, dicPos, dic.Length)
      modifies this`dicPos, dic
      ensures dicPos == old(dicPos) + len && Window(dic[..], dicPos, hist, w + len)
    {
      hide Window, Pending;
      var pos: nat, curLen: nat := start, len;
      ghost var n := w;
      while curLen != 0
        invariant curLen <= len && n == w + len - curLen && dicPos == old(dicPos) + len - curLen
        invariant pos == Index(reps.r0, dicPos, dic.Length) < dic.Length
        invariant Window(dic[..], dicPos, hist, n)
        decreases curLen
      {
        CopyByte(dic[..], dicPos, hist, w, n, reps.r0);
        dic[dicPos] := dic[pos];
        dicPos := dicPos + 1;
        pos := pos + 1;
        if pos == dic.Length {
          pos := 0;
        }
        n := n + 1;
        curLen := curLen - 1;
      }
    }

    /** Starts a match of `len` bytes and writes what fits below `limit`. */
    method CopyMatch(len: nat, limit: nat)
      requires Output() && remainLen == 0 && 0 < len < SPEC_LEN && dicPos < limit <= dic.Length
      requires 1 <= reps.r0 <= |hist| && reps.r0 <= dic.Length
      modifies this`dicPos, this`processedPos, this`remainLen, this`hist, dic
      ensures Output() && hist == old(CopyBack(hist, reps.r0, len))
      ensures dicPos <= limit && Written() - dicPos == old(Written() - dicPos)
      ensures remainLen < len && (remainLen == 0 || dicPos == limit)
    {
      hide Window, Pending, Low32, CopyBack;
      ghost var w := |hist|;
      WindowGrows(dic[..], dicPos, hist, CopyBack(hist, reps.r0, len), w);
      CopyBackRepeats(hist, reps.r0, len);
      hist := CopyBack(hist, reps.r0, len);
      var rem := limit - dicPos;
      var curLen := if rem < len then rem else len;
      var pos := dicPos - reps.r0 + if dicPos < reps.r0 then dic.Length else 0;
      WrapAdd(w, curLen);
      processedPos := Add32(processedPos, curLen);
      remainLen := len - curLen;
      PendingRest(hist, w, w + curLen, reps.r0);
      if pos + curLen <= dic.Length {
        CopyStraight(pos, curLen, w);
      } else {
        CopyWrapping(pos, curLen, w);
      }
    }

    method CopyRem(count: nat, ghost w: nat)
      requires dicPos + count <= dic.Length && w + count <= |hist|
      requires Window(dic[..], dicPos, hist, w) && Pending(hist, w, reps.r0) && reps.r0 <= dic.Length
      modifies this`dicPos, dic
      ensures dicPos == old(dicPos) + count && Window(dic[..], dicPos, hist, w + count)
    {
      hide Window, Pending;
      var len := count;
      ghost var n := w;
      while len != 0
        invariant 0 <= len <= count && n == w + count - len && dicPos == old(dicPos) + count - len
        invariant Window(dic[..], dicPos, hist, n)
        decreases len
      {
        CopyByte(dic[..], dicPos, hist, w, n, reps.r0);
        dic[dicPos] := dic[dicPos - reps.r0 + if dicPos < reps.r0 then dic.Length else 0];
        dicPos := dicPos + 1;
        n := n + 1;
        len := len - 1;
      }
    }

    /** LzmaDec_WriteRem: what an earlier match still owes. */
    method WriteRem(limit: nat)
      requires Shape() && Output() && Checked() && RepsFit(reps, props.dicSize) && dicPos <= limit <= dic.Length
      modifies this`dicPos, this`processedPos, this`remainLen, this`checkDicSize, dic
      ensures Output() && Checked() && Written() - dicPos == old(Written() - dicPos) && old(dicPos) <= dicPos <= limit
      ensures if old(remainLen) < SPEC_LEN then remainLen <= old(remainLen) && (remainLen == 0 || dicPos == limit)
              else remainLen == old(remainLen)
    {
      hide Window, Pending, Low32;
      if remainLen != 0 && remainLen < SPEC_LEN {
        ghost var w := Written();
        RepReaches(hist, w, reps.r0);
        var len := remainLen;
        if limit - dicPos < len {
          len := limit - dicPos;
        }
        if checkDicSize == 0 {
          NoWrapYet(w);
        }
        if checkDicSize == 0 && props.dicSize - processedPos <= len {
          checkDicSize := props.dicSize;
        }
        WrapAdd(w, len);
        processedPos := Add32(processedPos, len);
        remainLen := remainLen - len;
        PendingRest(hist, w, w + len, reps.r0);
        CopyRem(len, w);
      }
    }

    // ---------------------------------------------------------- one symbol

    /** The cells and the match byte for the next symbol, out of the dictionary. */
    method Context() returns (env: S.Env)
      requires Running() && Checked() && Remain() == 0
      ensures env == EnvOf(View(), props)
    {
      hide Window, Low32, LitBase, LitIndex, PosState;
      ghost var w := |hist|;
      WrappedCells(hist, props);
      if checkDicSize == 0 {
        NoWrapYet(w);
      }
      var lit := S.LITERAL;
      var noHistory := checkDicSize == 0 && processedPos == 0;
      if !noHistory {
        LookBack(dic[..], dicPos, hist, 1);
        lit := lit + LitIndex(processedPos, dic[(if dicPos == 0 then dic.Length else dicPos) - 1], props);
      }
      var matchByte: Byte := 0;
      if state >= St.NUM_LIT_STATES {
        LookBack(dic[..], dicPos, hist, reps.r0);
        matchByte := dic[dicPos - reps.r0 + if dicPos < reps.r0 then dic.Length else 0];
      }
      env := S.Env(state, PosState(processedPos, props), lit, matchByte, noHistory);
    }

    method PutByte(b: Byte)
      requires Output() && remainLen == 0 && dicPos < dic.Length
      modifies this`dicPos, this`processedPos, this`hist, dic
      ensures Output() && hist == old(hist) + [b] && dicPos == old(dicPos) + 1
    {
      hide Window, Low32;
      ghost var w := |hist|;
      WindowGrows(dic[..], dicPos, hist, hist + [b], w);
      hist := hist + [b];
      Emit(dic[..], dicPos, hist, w);
      dic[dicPos] := b;
      dicPos := dicPos + 1;
      WrapAdd(w, 1);
      processedPos := Add32(processedPos, 1);
    }

    /** Every distance on record can be read from the dictionary. */
    lemma RepInside(i: nat)
      requires Running() && Remain() == 0 && hist != []
      ensures 1 <= reps.At(i) <= |hist| && reps.At(i) <= dic.Length
    {
      hide Window, Low32;
    }

    method ApplyShortRep()
      requires Running() && remainLen == 0 && hist != [] && dicPos < dic.Length
      modifies this`dicPos, this`processedPos, this`hist, this`state, dic
      ensures Running() && Decoded(View()) == old(Apply(View(), S.ShortRep, props)) && dicPos == old(dicPos) + 1
    {
      hide Window, Low32, Pending, NumProbs;
      RepInside(0);
      LookBack(dic[..], dicPos, hist, reps.r0);
      PutByte(dic[dicPos - reps.r0 + if dicPos < reps.r0 then dic.Length else 0]);
      state := if state < St.NUM_LIT_STATES then 9 else 11;
    }

    method ApplyRep(index: nat, len: nat, limit: nat)
      requires Running() && remainLen == 0 && hist != [] && dicPos < limit <= dic.Length
      requires S.SymbolOk(S.Rep(index, len))
      modifies this`dicPos, this`processedPos, this`hist, this`state, this`reps, this`remainLen, dic
      ensures Running() && Decoded(View()) == old(Apply(View(), S.Rep(index, len), props))
      ensures dicPos <= limit && Written() - dicPos == old(Written() - dicPos)
      ensures remainLen < SPEC_LEN && (remainLen == 0 || dicPos == limit)
    {
      hide Window, Low32, Pending, CopyBack, NumProbs;
      RepInside(index);
      if index == 1 {
        reps := Reps(reps.r1, reps.r0, reps.r2, reps.r3);
      } else if index == 2 {
        reps := Reps(reps.r2, reps.r0, reps.r1, reps.r3);
      } else if index == 3 {
        reps := Reps(reps.r3, reps.r0, reps.r1, reps.r2);
      }
      state := if state < St.NUM_LIT_STATES then 8 else 11;
      NothingPending(hist, reps.r0);
      CopyMatch(len + MATCH_MIN, limit);
    }

    /** A new match; the end marker has its own length range. */
    method ApplyMatch(dist: nat, len: nat, limit: nat) returns (ok: bool)
      requires Running() && Checked() && remainLen == 0 && dicPos <= limit <= dic.Length
      requires S.SymbolOk(S.Match(dist, len))
      modifies this`dicPos, this`processedPos, this`hist, this`state, this`reps, this`remainLen, dic
      ensures var v := old(Apply(View(), S.Match(dist, len), props));
              && ok == (v.Ended? || (v.Decoded? && old(dicPos) < limit))
              && (ok ==> Running() && View() == v.d && dicPos <= limit && Written() - dicPos == old(Written() - dicPos)
                         && if v.Ended? then remainLen >= SPEC_LEN && dicPos == old(dicPos)
                            else remainLen < SPEC_LEN && (remainLen == 0 || dicPos == limit))
    {
      hide Window, Low32, Pending, CopyBack, NumProbs;
      if dist == END_MARK {
        remainLen := len + SPEC_LEN;
        return true;
      }
      if checkDicSize == 0 {
        NoWrapYet(|hist|);
        if dist >= processedPos {
          return false;
        }
      } else if dist >= checkDicSize {
        return false;
      }
      reps := Reps(dist + 1, reps.r0, reps.r1, reps.r2);
      state := if state < St.NUM_LIT_STATES then 7 else 10;
      if limit == dicPos {
        return false;
      }
      NothingPending(hist, reps.r0);
      CopyMatch(len + MATCH_MIN, limit);
      ok := true;
    }

    method ApplySymbol(symbol: S.Symbol, limit: nat) returns (ok: bool)
      requires Running() && Checked() && remainLen == 0 && dicPos <= limit <= dic.Length
      requires S.SymbolOk(symbol) && (symbol.Rep? || symbol.ShortRep? ==> hist != [])
      requires dicPos == limit ==> symbol.Match?
      modifies this`dicPos, this`processedPos, this`hist, this`state, this`reps, this`remainLen, dic
      ensures var v := old(Apply(View(), symbol, props));
              && ok == (v.Ended? || (v.Decoded? && old(dicPos) < limit))
              && (ok ==> Running() && View() == v.d && dicPos <= limit && Written() - dicPos == old(Written() - dicPos)
                         && if v.Ended? then remainLen >= SPEC_LEN && dicPos == old(dicPos)
                            else remainLen < SPEC_LEN && (remainLen == 0 || dicPos == limit))
    {
      hide Window, Low32, Pending, CopyBack, NumProbs;
      match symbol
      case Lit(b) =>
        PutByte(b);
        St.TablesAgree(state);
        state := St.DECODER_NEXT_STATES[state];
        ok := true;
      case ShortRep =>
        ApplyShortRep();
        ok := true;
      case Rep(index, len) =>
        ApplyRep(index, len, limit);
        ok := true;
      case Match(dist, len) =>
        ok := ApplyMatch(dist, len, limit);
    }

    /** One round of the loop of LzmaDec_DecodeReal. */
    method DecodeOne(limit: nat, buf: seq<Byte>) returns (ok: bool)
      requires Running() && Checked() && remainLen == 0 && dicPos <= limit <= dic.Length
      requires SymbolEnd(View(), props, buf).pos <= |buf|
      requires dicPos == limit ==> NextKind(View(), props, buf) == DummyMatch
      modifies this`dicPos, this`processedPos, this`hist, this`state, this`reps, this`remainLen, dic, reader,
               reader.probs
      ensures var v := old(DecodeSymbol(View(), props, buf));
              && ok == (v.Ended? || (v.Decoded? && old(dicPos) < limit))
              && (ok ==> Running() && View() == v.d && dicPos <= limit && Written() - dicPos == old(Written() - dicPos)
                         && if v.Ended? then remainLen >= SPEC_LEN && dicPos == old(dicPos)
                            else remainLen < SPEC_LEN && (remainLen == 0 || dicPos == limit))
    {
      hide Window, Low32, Pending, Real, Apply, LitBase, PosState, NumProbs;
      var env := Context();
      EnvOfOk(View(), props);
      HistoryMatters(S.AtIsMatch, env, reader.View(), reader.probs[..], buf);
      FailedOnlyFirst(S.AtIsMatch, env, reader.View(), reader.probs[..], buf);
      var end := reader.ReadSymbol(env, buf);
      if end.Failed? {
        return false;
      }
      ok := ApplySymbol(end.symbol, limit);
    }

    /** LzmaDec_TryDummy on the input `buf`. */
    method TryNext(buf: seq<Byte>) returns (r: Dummy)
      requires Running() && Checked() && Remain() == 0 && reader.pos <= |buf|
      ensures r == if SymbolEnd(View(), props, buf).pos > |buf| then DummyError else NextKind(View(), props, buf)
    {
      hide Real, Window, Low32;
      EnvOfOk(View(), props);
      var env := Context();
      r := TryDummy(env.(noHistory := false), Rc(reader.range, reader.code, reader.pos), reader.probs, buf);
    }

    // ---------------------------------------------------------- many symbols

    /** The decoder without its place in the input. */
    ghost function Rest(): Dec
      reads this, reader, reader.probs
    {
      View().(rc := reader.View().(pos := 0))
    }

    /**
     Decoding stopped between symbols: with the end marker, or at a point from
     where `Go` still reaches `g`.
     */
    ghost predicate Stopped(buf: seq<Byte>, limit: nat, lim: nat, g: Progress)
      reads this, reader, reader.probs, dic
    {
      && Running() && dicPos <= limit && reader.range >= TOP && reader.pos <= |buf|
      && if remainLen >= SPEC_LEN then g == Progress(Rest(), buf[reader.pos..], Finished)
         else g == GoFrom(View(), props, buf, lim) && (remainLen == 0 || dicPos == limit)
    }

    /** A symbol may be decoded from `buf`; at the limit only one that may be the end marker. */
    ghost predicate Ready(buf: seq<Byte>, limit: nat, lim: nat)
      reads this, reader, reader.probs, dic
    {
      && Running() && Checked() && remainLen == 0 && dicPos <= limit <= dic.Length
      && |hist| < lim && Written() + limit - dicPos <= lim
      && SymbolEnd(View(), props, buf).pos <= |buf| && Refill(View().rc, buf).pos <= |buf|
      && (dicPos == limit ==> NextKind(View(), props, buf) == DummyMatch)
    }

    /** LzmaDec_DecodeReal: symbols until the output or the input limit. */
    method DecodeReal(limit: nat, bufLimit: nat, buf: seq<Byte>, ghost lim: nat) returns (ok: bool)
      requires Ready(buf, limit, lim) && (bufLimit <= reader.pos || bufLimit + B.REQUIRED_INPUT_MAX <= |buf|)
      requires Written() < props.dicSize ==> Written() + limit - dicPos <= props.dicSize
      modifies this`dicPos, this`processedPos, this`hist, this`state, this`reps, this`remainLen, dic, reader,
               reader.probs
      ensures !ok ==> old(GoFrom(View(), props, buf, lim)).phase.Broken?
                      || (old(dicPos) == limit && !old(DecodeSymbol(View(), props, buf)).Ended?)
      ensures ok ==> Stopped(buf, limit, lim, old(GoFrom(View(), props, buf, lim)))
                     && Written() - dicPos == old(Written() - dicPos)
                     && old(dicPos) <= dicPos && old(SymbolEnd(View(), props, buf).pos) <= reader.pos
      ensures ok && remainLen < SPEC_LEN ==> old(dicPos) < dicPos && (dicPos == limit || reader.pos >= bufLimit)
    {
      hide Window, Low32, Pending, Real, GoFrom, DecodeSymbol, SymbolEnd, NextKind, DecOk, RepsFit, Sane;
      ghost var d, from := View(), dicPos;
      GoStep(d, props, buf, lim);
      ok := DecodeOne(limit, buf);
      if !ok {
        return;
      }
      Advances(d, props, buf);
      while remainLen < SPEC_LEN && dicPos < limit && reader.pos < bufLimit
        invariant Running() && from <= dicPos <= limit && Written() - dicPos == |d.hist| - from
        invariant old(reader.pos) <= reader.pos
                  && old(SymbolEnd(View(), props, buf).pos) <= Refill(View().rc, buf).pos <= |buf|
        invariant bufLimit <= reader.pos || bufLimit + B.REQUIRED_INPUT_MAX <= |buf|
        invariant remainLen < SPEC_LEN ==> from < dicPos && (remainLen == 0 || dicPos == limit)
        invariant GoFrom(d, props, buf, lim)
                  == if remainLen >= SPEC_LEN then Progress(Settled(View(), buf), buf[Refill(View().rc, buf).pos..], Finished)
                                                else GoFrom(View(), props, buf, lim)
        decreases remainLen < SPEC_LEN, limit - dicPos
      {
        ghost var e := View();
        SymbolFits(e, props, buf, bufLimit);
        EndsAhead(e, props, buf);
        GoStep(e, props, buf, lim);
        ok := DecodeOne(limit, buf);
        if !ok {
          return;
        }
        Advances(e, props, buf);
      }
      ghost var e := View();
      Resting(e, props, buf, lim);
      reader.Normalise(buf);
      assert View() == e.(rc := Refill(e.rc, buf));
    }

    /** One round of LzmaDec_DecodeReal2: not past the point where `checkDicSize` is set. */
    method DecodeRound(limit: nat, bufLimit: nat, buf: seq<Byte>, ghost lim: nat) returns (ok: bool)
      requires Ready(buf, limit, lim) && (bufLimit <= reader.pos || bufLimit + B.REQUIRED_INPUT_MAX <= |buf|)
      modifies this`dicPos, this`processedPos, this`hist, this`state, this`reps, this`remainLen, this`checkDicSize, dic,
               reader, reader.probs
      ensures !ok ==> old(GoFrom(View(), props, buf, lim)).phase.Broken?
                      || (old(dicPos) == limit && !old(DecodeSymbol(View(), props, buf)).Ended?)
      ensures ok ==> Stopped(buf, limit, lim, old(GoFrom(View(), props, buf, lim))) && Checked()
                     && Written() - dicPos == old(Written() - dicPos)
                     && old(dicPos) <= dicPos && old(SymbolEnd(View(), props, buf).pos) <= reader.pos
      ensures ok && remainLen < SPEC_LEN ==> old(dicPos) < dicPos
    {
      hide Window, Low32, Pending, Real, GoFrom, DecodeSymbol, SymbolEnd, NextKind, DecOk, RepsFit, Sane;
      var limit2 := limit;
      if checkDicSize == 0 {
        NoWrapYet(Written());
        var rem := props.dicSize - processedPos;
        if limit - dicPos > rem {
          limit2 := dicPos + rem;
        }
      }
      ok := DecodeReal(limit2, bufLimit, buf, lim);
      if !ok {
        return;
      }
      if checkDicSize == 0 {
        NoWrapYet(Written());
      }
      if processedPos >= props.dicSize {
        LowBelow(Written());
        checkDicSize := props.dicSize;
      }
      WriteRem(limit);
    }

    /** LzmaDec_DecodeReal2. */
    method DecodeReal2(limit: nat, bufLimit: nat, buf: seq<Byte>, ghost lim: nat) returns (ok: bool)
      requires Ready(buf, limit, lim) && (bufLimit <= reader.pos || bufLimit + B.REQUIRED_INPUT_MAX <= |buf|)
      modifies this`dicPos, this`processedPos, this`hist, this`state, this`reps, this`remainLen, this`checkDicSize, dic,
               reader, reader.probs
      ensures !ok ==> old(GoFrom(View(), props, buf, lim)).phase.Broken?
                      || (old(dicPos) == limit && !old(DecodeSymbol(View(), props, buf)).Ended?)
      ensures ok ==> Stopped(buf, limit, lim, old(GoFrom(View(), props, buf, lim))) && Checked()
                     && Written() - dicPos == old(Written() - dicPos)
                     && old(dicPos) <= dicPos && old(SymbolEnd(View(), props, buf).pos) <= reader.pos
                     && remainLen <= SPEC_LEN
      ensures ok && remainLen < SPEC_LEN ==> old(dicPos) < dicPos && (dicPos == limit || reader.pos >= bufLimit)
    {
      hide Window, Low32, Pending, Real, GoFrom, DecodeSymbol, SymbolEnd, NextKind, DecOk, RepsFit, Sane;
      ghost var g, from := GoFrom(View(), props, buf, lim), dicPos;
      EndsAhead(View(), props, buf);
      ok := DecodeRound(limit, bufLimit, buf, lim);
      while ok && dicPos < limit && reader.pos < bufLimit && remainLen < SPEC_LEN
        invariant ok ==>
                    Stopped(buf, limit, lim, g) && Checked() && from <= dicPos && Written() - dicPos == old(Written() - dicPos)
        invariant ok ==>
                    old(SymbolEnd(View(), props, buf).pos) <= reader.pos && (remainLen < SPEC_LEN ==> from < dicPos)
        invariant !ok ==> g.phase.Broken? || (old(dicPos) == limit && !old(DecodeSymbol(View(), props, buf)).Ended?)
        invariant ok ==> bufLimit <= reader.pos || bufLimit + B.REQUIRED_INPUT_MAX <= |buf|
        decreases ok, remainLen < SPEC_LEN, limit - dicPos
      {
        SymbolFits(View(), props, buf, bufLimit);
        EndsAhead(View(), props, buf);
        ok := DecodeRound(limit, bufLimit, buf, lim);
      }
      if ok && remainLen > SPEC_LEN {
        remainLen := SPEC_LEN;
      }
    }

    // ---------------------------------------------------------- one call

    /** The decoder as it starts on the next symbol; the cells may still have to be set up. */
    ghost function Start(): Dec
      reads this, reader, reader.probs
    {
      if needInitState then Dec(Rest().rc, seq(NumProbs(props), _ => PROB_INIT), 0, Reps(1, 1, 1, 1), hist)
      else Rest()
    }

    ghost function Temp(): seq<Byte>
      reads this, tempBuf
      requires tempBufSize <= tempBuf.Length
    {
      tempBuf[..tempBufSize]
    }

    /** What holds between calls; bytes kept from the last call are not yet a symbol. */
    ghost predicate Valid()
      reads this, reader, reader.probs, dic, tempBuf
    {
      && Shape() && Output() && Checked() && RepsFit(reps, props.dicSize) && DecOk(Start(), props)
      && tempBufSize <= tempBuf.Length && remainLen <= SPEC_LEN
      && (needInitState ==> remainLen == 0)
      && if needFlush then tempBufSize < 5 && remainLen == 0
         else reader.range >= TOP && (tempBufSize > 0 ==> remainLen < SPEC_LEN && !Enough(Start(), props, Temp()))
    }

    /** With `unread` still to come, the call will end as `goal` says. */
    ghost predicate OnTrack(unread: seq<Byte>, dicLimit: nat, limit: nat, finish: bool, goal: (Progress, Reply))
      reads this, reader, reader.probs, dic, tempBuf
    {
      && Valid() && !needFlush && dicPos <= dicLimit <= dic.Length && Written() + dicLimit - dicPos == limit
      && if remainLen == SPEC_LEN then goal == (Progress(Rest(), unread, Streaming.Finished), Finish(reader.code))
         else goal == Decode(Start(), props, Temp() + unread, limit, finish) && (remainLen == 0 || dicPos == dicLimit)
    }

    /** The call has ended where `p` says. */
    ghost predicate Reached(p: Progress, unread: seq<Byte>)
      reads this, reader, reader.probs, dic, tempBuf
    {
      && Valid() && !needFlush && Start() == p.d && Temp() + unread == p.rest
      && (remainLen == SPEC_LEN <==> p.phase.Finished?)
    }

    /** LzmaDec_InitStateReal. */
    method InitStateReal()
      requires Shape() && Output() && Remain() == 0
      modifies this`state, this`reps, this`needInitState, reader.probs
      ensures !needInitState && state == 0 && reps == Reps(1, 1, 1, 1) && Output()
      ensures reader.probs[..] == seq(NumProbs(props), _ => PROB_INIT)
    {
      hide Window, Low32;
      var i := 0;
      while i < reader.probs.Length
        invariant 0 <= i <= reader.probs.Length
        invariant forall k | 0 <= k < i :: reader.probs[k] == PROB_INIT
        modifies reader.probs
      {
        reader.probs[i] := PROB_INIT;
        i := i + 1;
      }
      state, reps, needInitState := 0, Reps(1, 1, 1, 1), false;
    }

    /** Decodes from `buf`, which holds at least one symbol and is followed by `more`. */
    method DecodeFrom(dicLimit: nat, bufLimit: nat, buf: seq<Byte>, ghost more: seq<Byte>, ghost limit: nat,
                      ghost finish: bool)
      returns (ok: bool)
      requires Running() && Checked() && remainLen == 0 && reader.range >= TOP && reader.pos == 0
      requires dicPos <= dicLimit <= dic.Length && Written() + dicLimit - dicPos == limit
      requires WantsSymbol(View(), limit, finish) && Enough(View(), props, buf)
      requires |hist| == limit ==> NextKind(View(), props, buf) == DummyMatch
      requires bufLimit == 0 || bufLimit + B.REQUIRED_INPUT_MAX <= |buf|
      modifies this`dicPos, this`processedPos, this`hist, this`state, this`reps, this`remainLen, this`checkDicSize, dic,
               reader, reader.probs
      ensures var goal := old(Decode(View(), props, buf + more, limit, finish));
              if !ok then goal.1 == Reply(false, NotSpecified)
              else
                && Running() && Checked() && AtRest(Rest(), props) && remainLen <= SPEC_LEN
                && old(SymbolEnd(View(), props, buf).pos) <= reader.pos <= |buf|
                && old(dicPos) <= dicPos <= dicLimit && Written() + dicLimit - dicPos == limit
                && if remainLen == SPEC_LEN then
                     goal == (Progress(Rest(), buf[reader.pos..] + more, Streaming.Finished), Finish(reader.code))
                   else
                     && old(dicPos) < dicPos && (remainLen == 0 || dicPos == dicLimit)
                     && goal == Decode(Rest(), props, buf[reader.pos..] + more, limit, finish)
    {
      hide Window, Low32, Pending, Real, GoFrom, DecodeSymbol, SymbolEnd, NextKind, DecOk, RepsFit, Sane, Decode;
      ghost var d := View();
      ghost var lim := SymbolLimit(d, limit);
      GoFromRest(d, props, buf, lim);
      EndsAhead(d, props, buf);
      ok := DecodeReal2(dicLimit, bufLimit, buf, lim);
      if !ok {
        SymbolFails(d, props, buf, more, limit, finish);
      } else if remainLen == SPEC_LEN {
        GoFromRest(View(), props, buf, lim);
        SymbolEnds(d, props, buf, more, limit, finish, Rest(), buf[reader.pos..]);
      } else {
        GoFromRest(View(), props, buf, lim);
        SymbolsDecoded(d, props, buf, more, limit, finish, Rest(), buf[reader.pos..]);
      }
    }

    /** With nothing kept from earlier calls the decoder is between symbols. */
    lemma BackOnTrack(unread: seq<Byte>, dicLimit: nat, limit: nat, finish: bool, goal: (Progress, Reply))
      requires Running() && Checked() && AtRest(Rest(), props) && remainLen <= SPEC_LEN
      requires !needFlush && !needInitState && tempBufSize == 0
      requires dicPos <= dicLimit <= dic.Length && Written() + dicLimit - dicPos == limit
      requires if remainLen == SPEC_LEN then goal == (Progress(Rest(), unread, Streaming.Finished), Finish(reader.code))
               else goal == Decode(Rest(), props, unread, limit, finish) && (remainLen == 0 || dicPos == dicLimit)
      ensures OnTrack(unread, dicLimit, limit, finish, goal)
    {
      hide Decode, Window, Pending, Low32, RepsFit;
      assert Temp() + unread == unread;
    }

    /** The next symbols come from the caller's input alone. */
    method DirectStep(dicLimit: nat, src: seq<Byte>, ghost limit: nat, ghost finish: bool,
                      ghost goal: (Progress, Reply))
      returns (n: nat, done: bool, r: Reply)
      requires OnTrack(src, dicLimit, limit, finish, goal) && remainLen == 0 && !needInitState && tempBufSize == 0
      requires WantsSymbol(Rest(), limit, finish)
      modifies this`dicPos, this`processedPos, this`hist, this`state, this`reps, this`remainLen, this`checkDicSize,
               this`tempBufSize,
               dic, tempBuf, reader, reader.probs
      ensures n <= |src|
      ensures if done then
                && r == goal.1
                && (r.ok ==>
                      && r.status == NeedsMoreInput && remainLen == 0 && Reached(goal.0, src[n..])
                      && n == |src| && dicPos == old(dicPos) && Written() == old(Written()))
              else OnTrack(src[n..], dicLimit, limit, finish, goal) && !needInitState
                   && old(dicPos) <= dicPos && (remainLen < SPEC_LEN ==> old(dicPos) < dicPos)
    {
      hide Window, Low32, Pending, Real, GoFrom, DecodeSymbol, SymbolEnd, NextKind, DecOk, RepsFit, Decode;
      var atLimit := dicPos >= dicLimit;
      reader.pos := 0;
      assert View() == old(Rest());
      assert Temp() + src == src && src + [] == src;
      n, done, r := 0, false, Reply(true, NotSpecified);
      var bufLimit := 0;
      if |src| < B.REQUIRED_INPUT_MAX || atLimit {
        var dummy := TryNext(src);
        if dummy == DummyError {
          Starved(View(), props, src, limit, finish);
          FitsTemp(View(), props, src);
          SetTemp(src);
          return |src|, true, Reply(true, NeedsMoreInput);
        }
        if atLimit && dummy != DummyMatch {
          WrongKind(View(), props, src, [], limit);
          return 0, true, Reply(false, NotFinished);
        }
      } else {
        EnoughInput(View(), props, src);
        bufLimit := |src| - B.REQUIRED_INPUT_MAX;
      }
      var ok := DecodeFrom(dicLimit, bufLimit, src, [], limit, finish);
      if !ok {
        return 0, true, Reply(false, NotSpecified);
      }
      n := reader.pos;
      assert src[n..] + [] == src[n..];
      BackOnTrack(src[n..], dicLimit, limit, finish, goal);
    }

    method SetTemp(src: seq<Byte>)
      requires |src| <= tempBuf.Length
      modifies this`tempBufSize, tempBuf
      ensures tempBufSize == |src| && Temp() == src
    {
      forall i | 0 <= i < |src| {
        tempBuf[i] := src[i];
      }
      tempBufSize := |src|;
    }

    /** Fills the buffer of kept bytes from the input. */
    method FillTemp(src: seq<Byte>) returns (lookAhead: nat)
      requires tempBufSize <= tempBuf.Length
      modifies this`tempBufSize, tempBuf
      ensures lookAhead <= |src| && tempBufSize <= tempBuf.Length && Temp() == old(Temp()) + src[..lookAhead]
      ensures tempBufSize == tempBuf.Length || lookAhead == |src|
    {
      var rem := tempBufSize;
      lookAhead := 0;
      while rem < tempBuf.Length && lookAhead < |src|
        invariant lookAhead <= |src| && rem == old(tempBufSize) + lookAhead <= tempBuf.Length
        invariant tempBuf[..rem] == old(Temp()) + src[..lookAhead]
        modifies tempBuf
      {
        tempBuf[rem] := src[lookAhead];
        rem, lookAhead := rem + 1, lookAhead + 1;
        assert tempBuf[..rem] == old(Temp()) + src[..lookAhead];
      }
      tempBufSize := rem;
    }

    /** The next symbol starts with the bytes kept from an earlier call. */
    method TempStep(dicLimit: nat, src: seq<Byte>, ghost limit: nat, ghost finish: bool, ghost goal: (Progress, Reply))
      returns (n: nat, done: bool, r: Reply)
      requires OnTrack(src, dicLimit, limit, finish, goal) && remainLen == 0 && !needInitState && tempBufSize > 0
      requires WantsSymbol(Rest(), limit, finish)
      modifies this`dicPos, this`processedPos, this`hist, this`state, this`reps, this`remainLen, this`checkDicSize,
               this`tempBufSize,
               dic, tempBuf, reader, reader.probs
      ensures n <= |src|
      ensures if done then
                && r == goal.1
                && (r.ok ==>
                      && r.status == NeedsMoreInput && remainLen == 0 && Reached(goal.0, src[n..])
                      && n == |src| && dicPos == old(dicPos) && Written() == old(Written()))
              else OnTrack(src[n..], dicLimit, limit, finish, goal) && !needInitState
                   && old(dicPos) <= dicPos && (remainLen < SPEC_LEN ==> old(dicPos) < dicPos)
    {
      hide Window, Low32, Pending, Real, GoFrom, DecodeSymbol, SymbolEnd, NextKind, DecOk, RepsFit, Decode;
      var atLimit := dicPos >= dicLimit;
      ghost var kept := Temp();
      var lookAhead := FillTemp(src);
      var rem, buf := tempBufSize, tempBuf[..tempBufSize];
      ghost var more := src[lookAhead..];
      assert kept + src == buf + more by {
        Unread(kept, src, lookAhead, |kept|);
      }
      reader.pos := 0;
      assert View() == old(Rest());
      EndsBehind(View(), props, kept, src[..lookAhead]);
      n, done, r := 0, false, Reply(true, NotSpecified);
      if rem < B.REQUIRED_INPUT_MAX || atLimit {
        var dummy := TryNext(buf);
        if dummy == DummyError {
          FitsTemp(View(), props, buf);
          assert buf + more == buf;
          Starved(View(), props, buf, limit, finish);
          return lookAhead, true, Reply(true, NeedsMoreInput);
        }
        if atLimit && dummy != DummyMatch {
          WrongKind(View(), props, buf, more, limit);
          return 0, true, Reply(false, NotFinished);
        }
      } else {
        EnoughInput(View(), props, buf);
      }
      var ok := DecodeFrom(dicLimit, 0, buf, more, limit, finish);
      if !ok {
        return 0, true, Reply(false, NotSpecified);
      }
      n := lookAhead - (rem - reader.pos);
      assert buf[reader.pos..] + more == src[n..] by {
        Unread(kept, src, lookAhead, reader.pos);
      }
      tempBufSize := 0;
      BackOnTrack(src[n..], dicLimit, limit, finish, goal);
    }

    /** The five bytes before the first symbol; the first has to be zero. */
    method ReadHeader(src: seq<Byte>) returns (n: nat, r: Reply)
      requires needFlush && tempBufSize < 5 <= tempBuf.Length
      modifies this`needFlush, this`tempBufSize, tempBuf, reader`range, reader`code
      ensures n <= |src|
      ensures var z := old(Temp()) + src;
              if |z| < 5 then
                needFlush && tempBufSize < 5 && Temp() == z && n == |src| && r == Reply(true, NeedsMoreInput)
                && reader.range == old(reader.range) && reader.code == old(reader.code)
              else if z[0] != 0 then r == Reply(false, NotSpecified)
              else
                && !needFlush && tempBufSize == 0 && r == Reply(true, NotSpecified) && src[n..] == z[5..]
                && Rc(reader.range, reader.code, 5) == InitRc(z)
    {
      hide Value, BigEndian;
      n := 0;
      while n < |src| && tempBufSize < 5
        invariant n <= |src| && tempBufSize == old(tempBufSize) + n <= 5
        invariant Temp() == old(Temp()) + src[..n]
        modifies this`tempBufSize, tempBuf
      {
        tempBuf[tempBufSize] := src[n];
        tempBufSize, n := tempBufSize + 1, n + 1;
        assert Temp() == old(Temp()) + src[..n];
      }
      ghost var z := old(Temp()) + src;
      assert Temp() == z[..tempBufSize] && src[n..] == z[tempBufSize..];
      if tempBufSize < 5 {
        return n, Reply(true, NeedsMoreInput);
      }
      assert forall k | 0 <= k < 5 :: tempBuf[k] == z[k];
      if tempBuf[0] != 0 {
        return n, Reply(false, NotSpecified);
      }
      FourBytes(tempBuf[1], tempBuf[2], tempBuf[3], tempBuf[4]);
      reader.code := BigEndian(tempBuf[1], tempBuf[2], tempBuf[3], tempBuf[4]);
      reader.range := 0xFFFF_FFFF;
      needFlush := false;
      tempBufSize := 0;
      r := Reply(true, NotSpecified);
    }

    /** The replies when there is no room for output; none if the end marker may follow. */
    method LimitReply(dicLimit: nat, src: seq<Byte>, finish: bool, ghost limit: nat, ghost goal: (Progress, Reply))
      returns (done: bool, r: Reply)
      requires OnTrack(src, dicLimit, limit, finish, goal) && remainLen != SPEC_LEN
      ensures if done then r == goal.1 && (r.ok ==> Reached(goal.0, src) && !r.status.NeedsMoreInput? && dicPos == dicLimit)
              else remainLen == 0 && WantsSymbol(Start(), limit, finish)
    {
      hide Window, Low32, Pending, DecOk, RepsFit, Decode, SymbolEnd;
      done, r := false, Reply(true, NotSpecified);
      if dicPos >= dicLimit {
        AtLimit(Start(), props, Temp() + src, limit, finish);
        if remainLen == 0 && reader.code == 0 {
          return true, Reply(true, MaybeFinishedWithoutMark);
        }
        if !finish {
          return true, Reply(true, NotFinished);
        }
        if remainLen != 0 {
          return true, Reply(false, NotFinished);
        }
      }
    }

    /** The next symbols, from kept and new bytes. */
    method DecodeStep(dicLimit: nat, src: seq<Byte>, finish: bool, ghost limit: nat, ghost goal: (Progress, Reply))
      returns (n: nat, done: bool, r: Reply)
      requires OnTrack(src, dicLimit, limit, finish, goal) && remainLen == 0 && WantsSymbol(Start(), limit, finish)
      modifies this, dic, tempBuf, reader, reader.probs
      ensures n <= |src|
      ensures if done then
                && r == goal.1
                && (r.ok ==>
                      && r.status == NeedsMoreInput && remainLen == 0 && Reached(goal.0, src[n..])
                      && n == |src| && dicPos == old(dicPos) && Written() == old(Written()))
              else OnTrack(src[n..], dicLimit, limit, finish, goal)
                   && old(dicPos) <= dicPos && (remainLen < SPEC_LEN ==> old(dicPos) < dicPos)
    {
      hide Shape, Output, Decode, Enough;
      if needInitState {
        PrepareState(src, dicLimit, finish, limit, goal);
      }
      if tempBufSize == 0 {
        n, done, r := DirectStep(dicLimit, src, limit, finish, goal);
      } else {
        n, done, r := TempStep(dicLimit, src, limit, finish, goal);
      }
    }

    /** The loop of LzmaDec_DecodeToDic, once the header is read. */
    method DecodeLoop(dicLimit: nat, src: seq<Byte>, finish: bool, ghost limit: nat, ghost goal: (Progress, Reply))
      returns (srcLen: nat, r: Reply)
      requires OnTrack(src, dicLimit, limit, finish, goal)
      modifies this, dic, tempBuf, reader, reader.probs
      ensures srcLen <= |src| && r == goal.1
      ensures r.ok ==>
                Reached(goal.0, src[srcLen..]) && old(dicPos) <= dicPos <= dicLimit && Written() + dicLimit - dicPos == limit
                       && (r.status.NeedsMoreInput? ==> srcLen == |src| && remainLen == 0)
                       && (r.status.NeedsMoreInput? || r.status.FinishedWithMark? || dicPos == dicLimit)
    {
      hide Shape, Output, Decode, Enough, WantsSymbol, AtRest, DecOk;
      srcLen := 0;
      while remainLen != SPEC_LEN
        invariant srcLen <= |src| && OnTrack(src[srcLen..], dicLimit, limit, finish, goal) && old(dicPos) <= dicPos
        decreases remainLen != SPEC_LEN, dicLimit - dicPos
      {
        var done;
        done, r := LimitReply(dicLimit, src[srcLen..], finish, limit, goal);
        if done {
          return;
        }
        var n;
        n, done, r := DecodeStep(dicLimit, src[srcLen..], finish, limit, goal);
        assert src[srcLen..][n..] == src[srcLen + n..];
        srcLen := srcLen + n;
        if done {
          return;
        }
      }
      assert Temp() + src[srcLen..] == src[srcLen..];
      r := Finish(reader.code);
    }

    /** Setting up the cells is what `Start` anticipates. */
    method PrepareState(ghost unread: seq<Byte>, dicLimit: nat, finish: bool, ghost limit: nat,
                        ghost goal: (Progress, Reply))
      requires OnTrack(unread, dicLimit, limit, finish, goal) && needInitState
      modifies this`state, this`reps, this`needInitState, reader.probs
      ensures OnTrack(unread, dicLimit, limit, finish, goal) && !needInitState && Start() == old(Start())
    {
      hide Window, Low32, Pending, SymbolEnd, Decode;
      InitStateReal();
      assert Start() == old(Start());
    }

    /** A full dictionary is written again from its start. */
    method Rewind()
      requires Valid() && dicPos == dic.Length && props.dicSize <= dic.Length
      modifies this`dicPos
      ensures Valid() && dicPos == 0
    {
      hide Low32, Pending, RepsFit, Enough, DecOk;
      WrapAround(dic[..], hist, Written());
      dicPos := 0;
    }

    /** What a call with the input `src` is to do, when no header is missing. */
    ghost function Goal(dicLimit: nat, src: seq<Byte>, finish: bool): (Progress, Reply)
      reads this, reader, reader.probs, dic, tempBuf
      requires Valid() && dicPos <= dicLimit <= dic.Length
      requires needFlush ==> |Temp() + src| >= 5
    {
      var z, limit := Temp() + src, Written() + dicLimit - dicPos;
      if remainLen == SPEC_LEN then (Progress(Rest(), src, Streaming.Finished), Finish(reader.code))
      else if needFlush then HeaderSane(z); Decode(AfterHeader(Start(), z), props, z[5..], limit, finish)
      else Decode(Start(), props, z, limit, finish)
    }

    /** The header is read, the loop can start. */
    lemma HeaderRead(unread: seq<Byte>, dicLimit: nat, finish: bool, before: Dec, z: seq<Byte>)
      requires Shape() && Output() && Checked() && RepsFit(reps, props.dicSize) && !needFlush && tempBufSize == 0
               && remainLen == 0
      requires DecOk(before, props) && Start() == before.(rc := Start().rc) && reader.View().(pos := 5) == InitRc(z)
      requires dicPos <= dicLimit <= dic.Length
      ensures AtRest(AfterHeader(before, z), props)
      ensures OnTrack(unread, dicLimit, Written() + dicLimit - dicPos, finish,
                      Decode(AfterHeader(before, z), props, unread, Written() + dicLimit - dicPos, finish))
    {
      hide Window, Low32, Pending, RepsFit, Decode, Value;
      assert Start() == AfterHeader(before, z);
      assert Temp() + unread == unread;
    }

    /** What is due before the first symbol: bytes of a match, and the header. */
    method Begin(dicLimit: nat, src: seq<Byte>, finish: bool) returns (srcLen: nat, r: Reply)
      requires Valid() && dicPos <= dicLimit <= dic.Length
      modifies this, dic, tempBuf, reader
      ensures srcLen <= |src|
      ensures var z := old(Temp()) + src;
              if old(needFlush) && |z| < 5 then
                r == Reply(true, NeedsMoreInput) && Valid() && needFlush && Temp() == z && srcLen == |src|
                && dicPos == old(dicPos) && Start() == old(Start())
              else if old(needFlush) && z[0] != 0 then r == Reply(false, NotSpecified)
              else
                && r == Reply(true, NotSpecified)
                && OnTrack(src[srcLen..], dicLimit, old(Written() - dicPos) + dicLimit, finish, old(Goal(dicLimit, src, finish)))
                && old(dicPos) <= dicPos
    {
      hide Window, Low32, Pending, RepsFit, Decode, Enough, DecOk, InitRc;
      ghost var before, z := Start(), Temp() + src;
      WriteRem(dicLimit);
      srcLen, r := 0, Reply(true, NotSpecified);
      if needFlush {
        srcLen, r := ReadHeader(src);
        if r == Reply(true, NotSpecified) {
          HeaderSane(z);
          HeaderRead(src[srcLen..], dicLimit, finish, before, z);
        }
      }
    }

    /**
     LzmaDec_DecodeToDic.  Everything it does is fixed by `Decode` on the kept
     bytes and the new ones together; in particular it does not matter how the
     input was cut up, where the dictionary wraps or where matches were cut off.
     */
    method DecodeToDic(dicLimit: nat, src: seq<Byte>, finish: bool) returns (srcLen: nat, r: Reply)
      requires Valid() && dicPos <= dicLimit <= dic.Length
      modifies this, dic, tempBuf, reader, reader.probs
      ensures srcLen <= |src|
      ensures var z := old(Temp()) + src;
              if old(needFlush) && |z| < 5 then
                r == Reply(true, NeedsMoreInput) && Valid() && needFlush && Temp() == z && srcLen == |src|
                && dicPos == old(dicPos) && Start() == old(Start())
              else if old(needFlush) && z[0] != 0 then r == Reply(false, NotSpecified)
              else
                var goal := old(Goal(dicLimit, src, finish));
                && r == goal.1
                && (r.ok ==>
                      && Reached(goal.0, src[srcLen..]) && old(dicPos) <= dicPos <= dicLimit
                      && Written() - dicPos == old(Written() - dicPos)
                             && (r.status.NeedsMoreInput? ==> srcLen == |src| && remainLen == 0)
                             && (r.status.NeedsMoreInput? || r.status.FinishedWithMark? || dicPos == dicLimit))
    {
      hide Goal, Reached, OnTrack, Window, Pending, DecOk, Enough;
      srcLen, r := Begin(dicLimit, src, finish);
      if r == Reply(true, NotSpecified) {
        var n;
        n, r := DecodeLoop(dicLimit, src[srcLen..], finish, old(Written() + dicLimit - dicPos),
            old(Goal(dicLimit, src, finish)));
        assert src[srcLen..][n..] == src[srcLen + n..];
        srcLen := srcLen + n;
      }
    }
  }

  /** The literal cells, from the position and the byte before it. */
  function LitIndex(pos: nat, prev: Byte, props: Props): nat
    requires PropsOk(props)
  {
    S.LIT_SIZE * (pos % Pow2(props.lp) * Pow2(props.lc) + prev / Pow2(8 - props.lc))
  }

  /** Wrapping the position around does not change which cells are used. */
  lemma WrappedCells(hist: seq<Byte>, props: Props)
    requires PropsOk(props)
    ensures PosState(Low32(|hist|), props) == PosState(|hist|, props)
    ensures LitBase(hist, props) == if hist == [] then 0 else LitIndex(Low32(|hist|), hist[|hist| - 1], props)
  {
    hide Pow2, Low32;
    MaskWrapped(|hist|, props.pb);
    MaskWrapped(|hist|, props.lp);
  }

  lemma LookBack(dic: seq<Byte>, dicPos: nat, hist: seq<Byte>, back: nat)
    requires Window(dic, dicPos, hist, |hist|) && 1 <= back <= |hist| && back <= |dic|
    ensures 0 <= Index(back, dicPos, |dic|) < |dic| && dic[Index(back, dicPos, |dic|)] == hist[|hist| - back]
  {
  }

  lemma MaskWrapped(w: nat, k: nat)
    requires k <= 8
    ensures Low32(w) % Pow2(k) == w % Pow2(k)
  {
    hide Pow2;
    S.Pow2Sum(k, 32 - k);
    S.Word32();
    ModOfMod(w, Pow2(k), Pow2(32 - k));
  }

  lemma ModOfMod(w: nat, m: nat, n: nat)
    requires m > 0 && n > 0
    ensures m * n > 0 && w % (m * n) % m == w % m
  {
    var a := w / (m * n);
    var q, r := w % (m * n) / m, w % (m * n) % m;
    Regroup(a, m, n, q);
    DivModUnique(w, m, a * n + q, r);
  }

  lemma Regroup(a: nat, m: nat, n: nat, q: nat)
    ensures a * (m * n) + q * m == (a * n + q) * m
  {
  }

  lemma PendingRest(hist: seq<Byte>, w: nat, w': nat, back: nat)
    requires Pending(hist, w, back) && w <= w' <= |hist|
    ensures Pending(hist, w', back)
  {
  }

  lemma NothingPending(hist: seq<Byte>, back: nat)
    ensures Pending(hist, |hist|, back)
  {
  }

  lemma RepReaches(hist: seq<Byte>, w: nat, back: nat)
    requires Pending(hist, w, back) && w < |hist|
    ensures 1 <= back <= w
  {
  }

  /** A symbol moves on in the input, and one that is decoded in the output. */
  lemma Advances(d: Dec, props: Props, buf: seq<Byte>)
    requires DecOk(d, props)
    ensures var v := DecodeSymbol(d, props, buf);
            && (v.Decoded? ==> |v.d.hist| > |d.hist|) && (!v.DataError? ==> v.d.rc.pos >= d.rc.pos)
  {
    hide Real;
    if DecodeSymbol(d, props, buf).Decoded? {
      GrowsBySymbol(d, props, buf);
    }
  }

  /** Twenty bytes beyond the limit are enough for a symbol that starts below it. */
  lemma SymbolFits(d: Dec, props: Props, buf: seq<Byte>, bufLimit: nat)
    requires DecOk(d, props) && d.rc.pos < bufLimit && bufLimit + B.REQUIRED_INPUT_MAX <= |buf|
    ensures SymbolEnd(d, props, buf).pos <= |buf|
  {
    EnvOfOk(d, props);
    B.SymbolBytes(DryEnv(EnvOf(d, props)), d.rc, d.probs, buf);
  }

  /** The last normalisation changes nothing for `Go`. */
  lemma Resting(d: Dec, props: Props, buf: seq<Byte>, lim: nat)
    requires DecOk(d, props) && Refill(d.rc, buf).pos <= |buf|
    ensures var n := d.(rc := Refill(d.rc, buf));
            && DecOk(n, props) && Sane(n.rc) && Refill(n.rc, buf) == n.rc && n.rc.range >= TOP
            && n.(rc := n.rc.(pos := 0)) == Settled(d, buf) && GoFrom(n, props, buf, lim) == GoFrom(d, props, buf, lim)
  {
    hide Go;
  }

  /** A normalised decoder inside `buf` is a resting one on what follows. */
  lemma GoFromRest(d: Dec, props: Props, buf: seq<Byte>, lim: nat)
    requires DecOk(d, props) && d.rc.range >= TOP && d.rc.pos <= |buf|
    ensures AtRest(d.(rc := d.rc.(pos := 0)), props)
    ensures GoFrom(d, props, buf, lim) == Go(d.(rc := d.rc.(pos := 0)), props, buf[d.rc.pos..], lim)
    ensures d.rc.pos == 0 ==> buf[d.rc.pos..] == buf
  {
    hide Go;
  }

  /** Twenty bytes hold a whole symbol. */
  lemma EnoughInput(d: Dec, props: Props, z: seq<Byte>)
    requires AtRest(d, props) && |z| >= B.REQUIRED_INPUT_MAX
    ensures Enough(d, props, z)
  {
    EnvOfOk(d, props);
    B.SymbolBytes(DryEnv(EnvOf(d, props)), d.rc, d.probs, z);
  }

  /** So what is not a whole symbol fits into the buffer for it. */
  lemma FitsTemp(d: Dec, props: Props, z: seq<Byte>)
    requires AtRest(d, props) && !Enough(d, props, z)
    ensures |z| < B.REQUIRED_INPUT_MAX
  {
    if |z| >= B.REQUIRED_INPUT_MAX {
      EnoughInput(d, props, z);
    }
  }

  function BigEndian(a: nat, b: nat, c: nat, d: nat): nat
  {
    a * 0x100_0000 + b * 0x1_0000 + c * 0x100 + d
  }

  lemma FourBytes(a: Byte, b: Byte, c: Byte, d: Byte)
    ensures Value([a, b, c, d]) == BigEndian(a, b, c, d)
  {
    assert [a, b, c, d][..3] == [a, b, c] && [a, b, c][..2] == [a, b] && [a, b][..1] == [a] && [a][..0] == [];
    assert Value([a, b]) == Value([a]) * 256 + b;
    assert Value([a, b, c]) == Value([a, b]) * 256 + c;
  }

  lemma HeaderSane(z: seq<Byte>)
    ensures Sane(InitRc(z)) && InitRc(z).range >= TOP
  {
    ValueBound([ByteAt(z, 1), ByteAt(z, 2), ByteAt(z, 3), ByteAt(z, 4)]);
    assert Pow256(4) == 256 * Pow256(3) && Pow256(2) == 256 * Pow256(1);
  }

  /** The decoder once the header `z` starts with is read. */
  function AfterHeader(d: Dec, z: seq<Byte>): Dec
  {
    d.(rc := InitRc(z).(pos := 0))
  }

  /** Bytes of `kept + src` from position `at` on, part of them in the filled buffer. */
  lemma Unread(kept: seq<Byte>, src: seq<Byte>, lookAhead: nat, at: nat)
    requires lookAhead <= |src| && |kept| <= at <= |kept| + lookAhead
    ensures (kept + src[..lookAhead])[at..] + src[lookAhead..] == src[at - |kept|..]
    ensures kept + src[..lookAhead] + src[lookAhead..] == kept + src
  {
  }

  /** The replies of a call that has no room for output. */
  lemma AtLimit(d: Dec, props: Props, z: seq<Byte>, limit: nat, finish: bool)
    requires AtRest(d, props) && |d.hist| >= limit
    ensures Go(d, props, z, limit) == Progress(d, z, Streaming.Running)
    ensures !WantsSymbol(d, limit, finish) ==>
      Decode(d, props, z, limit, finish)
      == (Progress(d, z, Streaming.Running),
          if |d.hist| == limit && d.rc.code == 0 then Reply(true, MaybeFinishedWithoutMark)
          else Reply(!finish, NotFinished))
  {
    hide SymbolEnd, DecodeSymbol, NextKind;
  }
}
