/**
 The decoder in use: LzmaDec_DecodeToBuf, and a client that decodes a compressed
 stream by any sequence of calls.
 */
module Decompress {
  import opened Bytes
  import opened RangeCoder
  import opened Decoding
  import opened Packets
  import opened Streaming
  import opened StreamDecoder
  import opened Lists
  import opened Lockstep
  import Encoder
  import S = Symbols
  import SymbolDecoder

  /** What a whole stream, with its header, decodes to. */
  ghost function Whole(d: Dec, props: Props, z: seq<Byte>, limit: nat): Progress
    requires DecOk(d, props)
  {
    if |z| < 5 || z[0] != 0 then Progress(d, z, Streaming.Broken)
    else HeaderSane(z); Go(AfterHeader(d, z), props, z[5..], limit)
  }

  /** A smaller limit for the output only interrupts. */
  lemma {:induction false} GoLimit(d: Dec, props: Props, z: seq<Byte>, l: nat, limit: nat)
    requires AtRest(d, props) && l <= limit
    ensures var r := Go(d, props, z, l);
            Go(d, props, z, limit) == if r.phase.Running? then Go(r.d, props, r.rest, limit) else r
    decreases l - |d.hist|
  {
    hide SymbolEnd, DecodeSymbol;
    if |d.hist| < l && Enough(d, props, z) {
      var v := DecodeSymbol(d, props, z);
      if v.Decoded? {
        GrowsBySymbol(d, props, z);
        SettledAtRest(v.d, props, z);
        GoLimit(Settled(v.d, z), props, z[SymbolEnd(d, props, z).pos..], l, limit);
      }
    }
  }

  /** Decoding stops below the limit only when a symbol is incomplete. */
  lemma {:induction false} GoStarves(d: Dec, props: Props, z: seq<Byte>, l: nat, limit: nat)
    requires AtRest(d, props) && l <= limit
    ensures var r := Go(d, props, z, l);
            r.phase.Running? && |r.d.hist| < l ==> Go(r.d, props, r.rest, limit) == r
    decreases l - |d.hist|
  {
    hide SymbolEnd, DecodeSymbol;
    if |d.hist| < l && Enough(d, props, z) {
      var v := DecodeSymbol(d, props, z);
      if v.Decoded? {
        GrowsBySymbol(d, props, z);
        SettledAtRest(v.d, props, z);
        GoStarves(Settled(v.d, z), props, z[SymbolEnd(d, props, z).pos..], l, limit);
      }
    }
  }

  /** Decoding only adds to the output. */
  lemma {:induction false} GoGrows(d: Dec, props: Props, z: seq<Byte>, limit: nat)
    requires AtRest(d, props)
    ensures d.hist <= Go(d, props, z, limit).d.hist
    decreases limit - |d.hist|
  {
    hide SymbolEnd, DecodeSymbol;
    if |d.hist| < limit && Enough(d, props, z) {
      var v := DecodeSymbol(d, props, z);
      if !v.DataError? {
        OnlyAdds(d, props, z);
      }
      if v.Decoded? {
        GrowsBySymbol(d, props, z);
        SettledAtRest(v.d, props, z);
        GoGrows(Settled(v.d, z), props, z[SymbolEnd(d, props, z).pos..], limit);
      }
    }
  }

  lemma OnlyAdds(d: Dec, props: Props, z: seq<Byte>)
    requires DecOk(d, props) && !DecodeSymbol(d, props, z).DataError?
    ensures d.hist <= DecodeSymbol(d, props, z).d.hist
  {
    hide Real;
  }

  /** Part of the input, with a smaller limit: decoding goes on from there. */
  lemma Interrupted(d: Dec, props: Props, z: seq<Byte>, y: seq<Byte>, l: nat, limit: nat)
    requires AtRest(d, props) && l <= limit
    ensures var r := Go(d, props, z, l);
            Go(d, props, z + y, limit) == if r.phase.Running? then Go(r.d, props, r.rest + y, limit)
                                          else r.(rest := r.rest + y)
  {
    hide Go;
    GoLimit(d, props, z, l, limit);
    GoOn(d, props, z, y, limit);
    var r := Go(d, props, z, l);
    GoOn(r.d, props, r.rest, y, limit);
  }

  /** The same for one call: what it leaves to do, or why it failed. */
  lemma CallTracks(d: Dec, props: Props, z: seq<Byte>, y: seq<Byte>, l: nat, finish: bool, limit: nat)
    requires AtRest(d, props) && (if finish then l + 1 else l) <= limit
    ensures var (g, r) := Decode(d, props, z, l, finish);
            var all := Go(d, props, z + y, limit);
            && AtRest(g.d, props)
            && (r.ok ==> all == if g.phase.Running? then Go(g.d, props, g.rest + y, limit) else g.(rest := g.rest + y))
            && (r.ok ==> !g.phase.Broken? && (r.status.FinishedWithMark? ==> g.phase.Finished?))
            && (r.ok && r.status.NeedsMoreInput? && y == [] ==> all == g && g.phase.Running?)
            && (r.ok && !finish ==> (r.status.FinishedWithMark? <==> g.phase.Finished?))
            && (!finish && !r.ok ==> all.phase.Broken? || (all.phase.Finished? && all.d.rc.code != 0))
  {
    hide Go, SymbolEnd, NextKind, Enough;
    var g := Go(d, props, z, l);
    Interrupted(d, props, z, y, l, limit);
    if finish && g.phase.Running? {
      Interrupted(g.d, props, g.rest, y, l + 1, limit);
    }
    if y == [] {
      assert g.rest + y == g.rest;
      GoStarves(d, props, z, l, limit);
      if !Enough(g.d, props, g.rest) {
        Incomplete(g.d, props, g.rest, limit);
      }
    }
  }

  lemma Incomplete(d: Dec, props: Props, z: seq<Byte>, limit: nat)
    requires AtRest(d, props) && !Enough(d, props, z)
    ensures Go(d, props, z, limit) == Progress(d, z, Streaming.Running)
  {
    hide SymbolEnd;
  }

  /** The decoder `p`, with `unread` still to come, leads to `goal`. */
  ghost predicate Tracks(p: LzmaDec, unread: seq<Byte>, goal: Progress, limit: nat)
    reads p, p.reader, p.reader.probs, p.dic, p.tempBuf
  {
    && p.Valid()
    && if p.needFlush then goal == Whole(p.Start(), p.props, p.Temp() + unread, limit)
       else if p.remainLen == SPEC_LEN then goal == Progress(p.Start(), p.Temp() + unread, Streaming.Finished)
       else goal == Go(p.Start(), p.props, p.Temp() + unread, limit)
  }

  /** All input is used up, and all output there is has been written. */
  ghost predicate Starved(p: LzmaDec, unread: seq<Byte>, goal: Progress)
    reads p
  {
    unread == [] && p.hist == goal.d.hist && p.remainLen == 0 && !goal.phase.Finished?
  }

  /** A sound stream without an end mark, decoded up to its end. */
  ghost predicate Full(goal: Progress, limit: nat)
  {
    goal.phase.Running? && goal.d.rc.code == 0 && |goal.d.hist| == limit
  }

  /** A call up to the end of such a stream says so. */
  lemma FullReply(d: Dec, props: Props, z: seq<Byte>, y: seq<Byte>, limit: nat)
    requires AtRest(d, props) && Full(Go(d, props, z + y, limit), limit)
    ensures var (g, r) := Decode(d, props, z, limit, false);
            r.ok && (|g.d.hist| == limit ==> r.status.MaybeFinishedWithoutMark?)
  {
    hide SymbolEnd, NextKind, DecodeSymbol;
    Interrupted(d, props, z, y, limit, limit);
    var g := Go(d, props, z, limit);
    GoGrows(g.d, props, g.rest + y, limit);
  }

  /** A stream that can be decoded. */
  ghost predicate Sound(goal: Progress)
  {
    !goal.phase.Broken? && goal.d.rc.code == 0
  }

  /** What is left to do after a call that got to `g`. */
  ghost predicate Leads(g: Progress, later: seq<Byte>, props: Props, goal: Progress, limit: nat)
  {
    && AtRest(g.d, props) && !g.phase.Broken?
    && goal == if g.phase.Running? then Go(g.d, props, g.rest + later, limit) else g.(rest := g.rest + later)
  }

  /** The call goes up to the end of a stream without an end mark. */
  ghost predicate AtEnd(p: LzmaDec, dicLimit: nat, finish: bool, goal: Progress, limit: nat)
    reads p
  {
    !finish && Full(goal, limit) && p.Written() + dicLimit - p.dicPos == limit
  }

  /** A call gets closer to the goal of the whole stream. */
  lemma GoalLeads(p: LzmaDec, dicLimit: nat, src: seq<Byte>, finish: bool, later: seq<Byte>, goal: Progress, limit: nat)
    requires Tracks(p, src + later, goal, limit) && p.dicPos <= dicLimit <= p.dic.Length
    requires p.Written() + dicLimit - p.dicPos + (if finish then 1 else 0) <= limit
    requires p.needFlush ==> |p.Temp() + src| >= 5 && (p.Temp() + src)[0] == 0
    ensures var (g, r) := p.Goal(dicLimit, src, finish);
            && (r.ok ==>
                  && Leads(g, later, p.props, goal, limit) && p.hist <= g.d.hist
                  && (r.status.FinishedWithMark? ==> g.phase.Finished?)
                         && (r.status.NeedsMoreInput? && later == [] ==> goal.d.hist == g.d.hist && goal.phase.Running?)
                         && (!finish ==> (r.status.FinishedWithMark? <==> g.phase.Finished?)))
            && (!finish && Sound(goal) ==> r.ok)
            && (AtEnd(p, dicLimit, finish, goal, limit) && |g.d.hist| == limit ==> r.status.MaybeFinishedWithoutMark?)
  {
    hide Go, Decode, SymbolEnd;
    var z, l := p.Temp() + src, p.Written() + dicLimit - p.dicPos;
    assert p.Temp() + (src + later) == z + later;
    if !p.needFlush && p.remainLen == SPEC_LEN {
      assert p.Temp() == [];
    } else {
      var d, y := p.Start(), z;
      if p.needFlush {
        HeaderSane(z);
        SameHeader(d, z, later);
        d, y := AfterHeader(d, z), z[5..];
        assert (z + later)[5..] == y + later;
      }
      CallTracks(d, p.props, y, later, l, finish, limit);
      if AtEnd(p, dicLimit, finish, goal, limit) {
        FullReply(d, p.props, y, later, limit);
      }
      CallGrows(d, p.props, y, l, finish);
    }
  }

  lemma SameHeader(d: Dec, z: seq<Byte>, later: seq<Byte>)
    requires |z| >= 5
    ensures AfterHeader(d, z + later) == AfterHeader(d, z)
  {
  }

  lemma CallGrows(d: Dec, props: Props, z: seq<Byte>, l: nat, finish: bool)
    requires AtRest(d, props)
    ensures d.hist <= Decode(d, props, z, l, finish).0.d.hist
  {
    hide Go, SymbolEnd, NextKind, Enough;
    var g := Go(d, props, z, l);
    GoGrows(d, props, z, l);
    GoGrows(g.d, props, g.rest, l + 1);
  }

  /** One call of LzmaDec_DecodeToDic on a part of the stream. */
  method ToDic(p: LzmaDec, dicLimit: nat, src: seq<Byte>, finish: bool, ghost later: seq<Byte>, ghost goal: Progress,
               ghost limit: nat)
    returns (n: nat, r: Reply)
    requires Tracks(p, src + later, goal, limit) && p.dicPos <= dicLimit <= p.dic.Length
    requires p.Written() + dicLimit - p.dicPos + (if finish then 1 else 0) <= limit
    modifies p, p.dic, p.tempBuf, p.reader, p.reader.probs
    ensures n <= |src| && (!finish && Sound(goal) ==> r.ok)
    ensures r.ok ==>
              && Tracks(p, src[n..] + later, goal, limit) && old(p.hist) <= p.hist
              && old(p.dicPos) <= p.dicPos <= dicLimit && p.Written() - p.dicPos == old(p.Written() - p.dicPos)
              && (Starved(p, src[n..] + later, goal) || (later != [] && n == |src|) || p.remainLen == SPEC_LEN
                  || p.dicPos == dicLimit)
              && (!finish ==> (r.status.FinishedWithMark? <==> p.remainLen == SPEC_LEN))
              && (old(AtEnd(p, dicLimit, finish, goal, limit)) && |p.hist| == limit && !p.needFlush ==>
                    r.status.MaybeFinishedWithoutMark?)
              && (p.needFlush ==> n == |src|)
  {
    hide Go, Decode, Whole, LzmaDec.Goal, LzmaDec.Reached, Leads, Tracks, LzmaDec.Shape, LzmaDec.Output, Sound;
    Begun(p, src + later, goal, limit);
    ghost var z := p.Temp() + src;
    ghost var begun := !p.needFlush || (|z| >= 5 && z[0] == 0);
    ghost var g, start := goal, p.Start();
    if begun {
      GoalLeads(p, dicLimit, src, finish, later, goal, limit);
      g := p.Goal(dicLimit, src, finish).0;
    } else {
      NoHeader(p, src, later, goal, limit);
    }
    n, r := p.DecodeToDic(dicLimit, src, finish);
    if r.ok {
      if begun {
        Arrived(p, g, src[n..], later, goal, limit);
      } else {
        StillNoHeader(p, z, start, later, goal, limit);
        assert src[n..] + later == later;
      }
    }
  }

  /** Without a whole header, or with a wrong one. */
  lemma NoHeader(p: LzmaDec, src: seq<Byte>, later: seq<Byte>, goal: Progress, limit: nat)
    requires Tracks(p, src + later, goal, limit) && p.needFlush
    ensures goal == Whole(p.Start(), p.props, p.Temp() + src + later, limit)
    ensures |p.Temp() + src| >= 5 && (p.Temp() + src)[0] != 0 ==> !Sound(goal)
  {
    hide Go;
    assert p.Temp() + (src + later) == p.Temp() + src + later;
  }

  lemma StillNoHeader(p: LzmaDec, z: seq<Byte>, start: Dec, later: seq<Byte>, goal: Progress, limit: nat)
    requires p.Valid() && p.needFlush && p.Temp() == z && p.Start() == start
             && goal == Whole(start, p.props, z + later, limit)
    ensures Tracks(p, later, goal, limit) && p.hist == start.hist && (later == [] ==> goal.d.hist == p.hist)
            && p.remainLen == 0
    ensures later == [] ==> goal.phase.Broken?
  {
    hide Go;
  }

  /** After a call that got to `g`. */
  lemma Arrived(p: LzmaDec, g: Progress, unread: seq<Byte>, later: seq<Byte>, goal: Progress, limit: nat)
    requires p.Reached(g, unread) && Leads(g, later, p.props, goal, limit)
    ensures Tracks(p, unread + later, goal, limit) && p.hist == g.d.hist
            && (g.phase.Finished? <==> p.remainLen == SPEC_LEN)
    ensures !p.needFlush
  {
    hide Go, SymbolEnd, LzmaDec.Shape, LzmaDec.Output;
    assert p.Temp() + (unread + later) == p.Temp() + unread + later;
  }

  /** What was written since `from` is in the dictionary. */
  lemma Shown(p: LzmaDec, from: nat, w: nat)
    requires p.Valid() && from <= p.dicPos && p.Written() - p.dicPos == w - from
    ensures w <= p.Written() <= |p.hist| && p.dic[from..p.dicPos] == p.hist[w..p.Written()]
  {
    hide DecOk, Pending, Low32, Enough, RepsFit;
    var a, b := p.dic[from..p.dicPos], p.hist[w..p.Written()];
    forall i | 0 <= i < |a|
      ensures a[i] == b[i]
    {
      var k := p.dicPos - from - i;
      assert p.dic[..][StreamDecoder.Index(k, p.dicPos, p.dic.Length)] == p.hist[p.Written() - k];
    }
  }

  /** One round of LzmaDec_DecodeToBuf: up to the end of the dictionary at most. */
  method Round(p: LzmaDec, left: nat, src: seq<Byte>, finish: bool, ghost later: seq<Byte>, ghost goal: Progress,
               ghost limit: nat)
    returns (got: seq<Byte>, n: nat, r: Reply)
    requires Tracks(p, src + later, goal, limit) && p.props.dicSize <= p.dic.Length && 0 < p.dic.Length
    requires p.Written() + left + (if finish then 1 else 0) <= limit
    modifies p, p.dic, p.tempBuf, p.reader, p.reader.probs
    ensures n <= |src| && (!finish && Sound(goal) ==> r.ok)
    ensures r.ok ==> Copied(p, old(p.hist), old(p.Written()), got) && |got| <= left
    ensures r.ok ==> Tracks(p, src[n..] + later, goal, limit)
    ensures r.ok && got == [] ==>
              left == 0 || Starved(p, src[n..] + later, goal) || (later != [] && n == |src|) || p.remainLen == SPEC_LEN
    ensures r.ok && !finish ==> (r.status.FinishedWithMark? <==> p.remainLen == SPEC_LEN)
    ensures r.ok && !finish && |got| == left && old(p.Written()) + left == limit == |p.hist| && Full(goal, limit)
            && !p.needFlush ==>
              r.status.MaybeFinishedWithoutMark?
    ensures r.ok && p.needFlush ==> n == |src|
  {
    hide Tracks, Window, LzmaDec.Shape, LzmaDec.Output, Starved, Sound, Full, LzmaDec.Valid;
    ghost var w := p.Written();
    Begun(p, src + later, goal, limit);
    TurnOver(p, src + later, goal, limit);
    var from := p.dicPos;
    var to, mode := p.dic.Length, false;
    if left <= p.dic.Length - from {
      to, mode := from + left, finish;
    }
    n, r := ToDic(p, to, src, mode, later, goal, limit);
    got := [];
    if r.ok {
      Begun(p, src[n..] + later, goal, limit);
      Shown(p, from, w);
      got := p.dic[from..p.dicPos];
    }
  }

  /** The bytes `got` are what was written beyond the first `w` bytes of `hist`. */
  ghost predicate Copied(p: LzmaDec, hist: seq<Byte>, w: int, got: seq<Byte>)
    reads p
  {
    0 <= w <= p.Written() <= |p.hist| && w <= |hist| && hist <= p.hist && got == p.hist[w..p.Written()]
  }

  /** LzmaDec_DecodeToBuf: the output is copied out of the dictionary, which is written round and round. */
  method DecodeToBuf(p: LzmaDec, outSize: nat, src: seq<Byte>, finish: bool, ghost later: seq<Byte>,
                     ghost goal: Progress, ghost limit: nat)
    returns (dest: seq<Byte>, srcLen: nat, r: Reply)
    requires Tracks(p, src + later, goal, limit) && p.props.dicSize <= p.dic.Length && 0 < p.dic.Length
    requires p.Written() + outSize + (if finish then 1 else 0) <= limit
    modifies p, p.dic, p.tempBuf, p.reader, p.reader.probs
    ensures srcLen <= |src| && (!finish && Sound(goal) ==> r.ok)
    ensures r.ok ==>
              Tracks(p, src[srcLen..] + later, goal, limit) && Copied(p, old(p.hist), old(p.Written()), dest) && |dest| <= outSize
    ensures r.ok ==>
              || |dest| == outSize || Starved(p, src[srcLen..] + later, goal)
              || (later != [] && srcLen == |src|) || p.remainLen == SPEC_LEN
    ensures r.ok && !finish ==> (r.status.FinishedWithMark? <==> p.remainLen == SPEC_LEN)
    ensures r.ok && p.needFlush ==> srcLen == |src|
    ensures r.ok && !finish && |dest| == outSize && old(p.Written()) + outSize == limit == |p.hist| && Full(goal, limit)
            && !p.needFlush ==>
              r.status.MaybeFinishedWithoutMark?
  {
    hide Tracks, Window, LzmaDec.Shape, LzmaDec.Output, Starved, Sound, Full, LzmaDec.Valid, LzmaDec.Written;
    var left: nat := outSize;
    dest, srcLen := [], 0;
    assert src[0..] == src;
    Begun(p, src + later, goal, limit);
    while true
      invariant srcLen <= |src| && left + |dest| == outSize
      invariant Tracks(p, src[srcLen..] + later, goal, limit) && Copied(p, old(p.hist), old(p.Written()), dest)
      decreases left
    {
      var got, n;
      ghost var hist, w := p.hist, p.Written();
      got, n, r := Round(p, left, src[srcLen..], finish, later, goal, limit);
      assert src[srcLen..][n..] == src[srcLen + n..];
      srcLen := srcLen + n;
      if !r.ok {
        return;
      }
      JoinedCopies(p.hist, hist, old(p.Written()), w, p.Written());
      dest := dest + got;
      left := left - |got|;
      if |got| == 0 || left == 0 {
        return;
      }
    }
  }

  lemma JoinedCopies(hist': seq<Byte>, hist: seq<Byte>, a: int, b: int, c: int)
    requires hist <= hist' && 0 <= a <= b <= c <= |hist'| && b <= |hist|
    ensures hist[a..b] + hist'[b..c] == hist'[a..c]
  {
  }

  lemma Begun(p: LzmaDec, unread: seq<Byte>, goal: Progress, limit: nat)
    requires Tracks(p, unread, goal, limit)
    ensures p.Valid() && p.dicPos <= p.dic.Length && 0 <= p.Written() <= |p.hist|
  {
    hide Go;
  }

  /** A full dictionary is written again from its start. */
  method TurnOver(p: LzmaDec, ghost unread: seq<Byte>, ghost goal: Progress, ghost limit: nat)
    requires Tracks(p, unread, goal, limit) && p.props.dicSize <= p.dic.Length && 0 < p.dic.Length
    modifies p`dicPos
    ensures Tracks(p, unread, goal, limit) && p.dicPos < p.dic.Length
  {
    hide Go;
    if p.dicPos == p.dic.Length {
      p.Rewind();
    }
  }

  // ------------------------------------------------------------ the whole way

  /** The compressed stream, decoded in one piece. */
  lemma WholeStream(data: seq<Byte>, ps: List<Packet>, props: Props, mark: bool, d: Dec, limit: nat)
    requires PropsOk(props) && Covers(CODER_START, data, 0, ps, props) && DecOk(d, props)
    requires d == DecStart(props, []).(rc := d.rc) && if mark then limit > |data| else limit == |data|
    ensures var goal := Whole(d, props, Stream(AllEvents(CODER_START, data, 0, ps, props, mark)), limit);
            Sound(goal) && goal.d.hist == data && (if mark then goal.phase.Finished? else Full(goal, limit))
  {
    hide AllEvents, Covers, Go;
    var out, l := Stream(AllEvents(CODER_START, data, 0, ps, props, mark)), if mark then |data| + 1 else |data|;
    var chunks := [out[5..]];
    assert chunks[1..] == [] && Joined(chunks) == out[5..] + [];
    StreamedRoundTrip(data, ps, props, mark, chunks);
    RoundTrip(data, ps, props, mark);
    HeaderSane(out);
    var start := AfterHeader(d, out);
    assert start == Settled(DecStart(props, out), out);
    ChunksDoNotMatter(start, props, [], chunks, l);
    assert [] + Joined(chunks) == out[5..];
    GoLimit(start, props, out[5..], l, limit);
  }

  /** A call of the client: how much input it offers, and how much output it has room for. */
  datatype Call = Call(take: nat, room: nat)

  /** The call is offered the whole rest of the stream and has room for the whole data. */
  predicate Suffices(call: Call, data: seq<Byte>, streamLen: nat)
  {
    call.room > |data| && call.take >= streamLen
  }

  ghost function Rooms(calls: seq<Call>): nat
  {
    if calls == [] then 0 else calls[0].room + Rooms(calls[1..])
  }

  /**
   Compresses any data with any valid choice of packets, and decodes the stream by
   any sequence of calls, with any pieces of input and any room for output.  No
   call fails, the output so far is always a front part of the data, and it is all
   of the data once a call is offered the rest of the stream and has enough room.
   The reply of that call says that the stream is finished.
   */
  method CompressAndDecode(data: seq<Byte>, ps: List<Packet>, props: Props, logBits: nat, mark: bool, dicBufSize: nat,
                           calls: seq<Call>)
    returns (result: seq<Byte>, r: Reply)
    requires PropsOk(props) && (logBits == 11 || logBits == 13) && props.dicSize <= Encoder.DistLimit(logBits)
    requires Covers(CODER_START, data, 0, ps, props) && props.dicSize < WORD && props.dicSize <= dicBufSize
             && 0 < dicBufSize
    ensures result <= data
    ensures calls != [] && Suffices(calls[|calls| - 1], data, |Stream(AllEvents(CODER_START, data, 0, ps, props, mark))|) ==>
              result == data && r == Reply(true, if mark then FinishedWithMark else MaybeFinishedWithoutMark)
  {
    hide AllEvents, Covers, Stream, Tracks, Whole, Sound, LzmaDec.Valid, Copied;
    var out := Encoder.Encode(data, ps, props, logBits, mark);
    var p := new LzmaDec(props, dicBufSize);
    ghost var limit := if mark then |data| + 1 + Rooms(calls) else |data|;
    ghost var goal := Prepared(p, out, data, ps, props, mark, limit);
    var fed, i := 0, 0;
    result, r := [], Reply(true, NotSpecified);
    assert calls[0..] == calls && out[0..] == out;
    while i < |calls|
      invariant 0 <= i <= |calls| && fed <= |out| && fresh(p) && fresh(p.dic) && fresh(p.tempBuf) && fresh(p.reader)
                && fresh(p.reader.probs)
      invariant p.props == props && p.dic.Length == dicBufSize && Ahead(p, out[fed..], goal, limit, result)
      invariant result <= data && (mark ==> |result| + Rooms(calls[i..]) <= limit)
      invariant i > 0 && Suffices(calls[i - 1], data, |out|) ==> result == data && r == LastReply(mark)
    {
      assert calls[i..][1..] == calls[i + 1..];
      fed, result, r := Serve(p, calls[i], out, fed, data, mark, result, goal, limit);
      i := i + 1;
    }
  }

  function LastReply(mark: bool): Reply
  {
    Reply(true, if mark then FinishedWithMark else MaybeFinishedWithoutMark)
  }

  /** The output so far is what the decoder has written. */
  ghost predicate Ahead(p: LzmaDec, unread: seq<Byte>, goal: Progress, limit: nat, result: seq<Byte>)
    reads p, p.reader, p.reader.probs, p.dic, p.tempBuf
  {
    Tracks(p, unread, goal, limit) && p.Written() == |result| <= |p.hist| && result == p.hist[..|result|]
  }

  lemma Prepared(p: LzmaDec, out: seq<Byte>, data: seq<Byte>, ps: List<Packet>, props: Props, mark: bool, limit: nat)
    returns (goal: Progress)
    requires PropsOk(props) && Covers(CODER_START, data, 0, ps, props)
             && out == Stream(AllEvents(CODER_START, data, 0, ps, props, mark))
    requires p.Valid() && p.props == props && p.needFlush && p.needInitState && p.tempBufSize == 0 && p.hist == []
    requires if mark then limit > |data| else limit == |data|
    ensures Sound(goal) && goal.d.hist == data && (if mark then goal.phase.Finished? else Full(goal, limit))
            && Ahead(p, out, goal, limit, [])
  {
    hide AllEvents, Covers, Go, Stream;
    goal := Whole(p.Start(), props, out, limit);
    WholeStream(data, ps, props, mark, p.Start(), limit);
    Starts(p, out, goal, limit);
  }

  /** One call of the client. */
  method Serve(p: LzmaDec, call: Call, out: seq<Byte>, fed: nat, data: seq<Byte>, mark: bool, result: seq<Byte>,
               ghost goal: Progress, ghost limit: nat)
    returns (fed': nat, result': seq<Byte>, r: Reply)
    requires (if mark then goal.phase.Finished? else Full(goal, limit)) && Sound(goal) && goal.d.hist == data
             && fed <= |out| && Ahead(p, out[fed..], goal, limit, result) && result <= data
    requires p.props.dicSize <= p.dic.Length && 0 < p.dic.Length
             && if mark then |result| + call.room <= limit else limit == |data|
    modifies p, p.dic, p.tempBuf, p.reader, p.reader.probs
    ensures fed <= fed' <= |out| && Ahead(p, out[fed'..], goal, limit, result') && result' <= data
            && |result'| <= |result| + call.room
    ensures Suffices(call, data, |out|) ==> result' == data && r == LastReply(mark)
  {
    hide Tracks, Sound, LzmaDec.Valid, LzmaDec.Written;
    var end := if fed + call.take <= |out| then fed + call.take else |out|;
    var room: nat := if mark || call.room <= |data| - |result| then call.room else |data| - |result|;
    var src := out[fed..end];
    ghost var later, hist := out[end..], p.hist;
    assert src + later == out[fed..];
    var dest, n;
    dest, n, r := DecodeToBuf(p, room, src, false, later, goal, limit);
    assert src[n..] + later == out[fed + n..];
    Extends(p, out[fed + n..], goal, limit);
    if out[fed + n..] == [] {
      NotBegun(p, out[fed + n..], goal, limit);
    }
    JoinedCopies(p.hist, hist, 0, |result|, p.Written());
    fed', result' := fed + n, result + dest;
  }

  lemma Starts(p: LzmaDec, out: seq<Byte>, goal: Progress, limit: nat)
    requires p.Valid() && p.needFlush && p.tempBufSize == 0 && goal == Whole(p.Start(), p.props, out, limit)
    ensures Tracks(p, out, goal, limit)
  {
    hide Go;
    assert p.Temp() + out == out;
  }

  /** With a good stream read to its end, the header has been read. */
  lemma NotBegun(p: LzmaDec, unread: seq<Byte>, goal: Progress, limit: nat)
    requires Tracks(p, unread, goal, limit) && unread == []
    ensures Sound(goal) ==> !p.needFlush
  {
    hide Go;
    assert p.Temp() + unread == p.Temp();
  }

  /** What the decoder has is a front part of what it will have. */
  lemma Extends(p: LzmaDec, unread: seq<Byte>, goal: Progress, limit: nat)
    requires Tracks(p, unread, goal, limit)
    ensures p.hist <= goal.d.hist && 0 <= p.Written() <= |p.hist|
    ensures p.remainLen == SPEC_LEN ==> p.hist == goal.d.hist && p.Written() == |p.hist|
    ensures p.remainLen == 0 ==> p.Written() == |p.hist|
  {
    hide Go;
    if p.needFlush {
      var z := p.Temp() + unread;
      if |z| >= 5 && z[0] == 0 {
        HeaderSane(z);
        GoGrows(AfterHeader(p.Start(), z), p.props, z[5..], limit);
      }
    } else if p.remainLen != SPEC_LEN {
      GoGrows(p.Start(), p.props, p.Temp() + unread, limit);
    }
  }

  // ------------------------------------------------------------ in one call

  datatype Code = Ok | BadData | InputEof

  /** A new decoder that has read the header of `z`. */
  function Opened(props: Props, z: seq<Byte>): Dec
  {
    AfterHeader(DecStart(props, z), z)
  }

  lemma OpenedAtRest(props: Props, z: seq<Byte>)
    requires PropsOk(props)
    ensures AtRest(Opened(props, z), props)
  {
    HeaderSane(z);
  }

  function CodeOf(r: Reply): Code
  {
    if !r.ok then BadData else if r.status.NeedsMoreInput? then InputEof else Ok
  }

  /** LzmaDecode: everything in one call, straight into the output. */
  method LzmaDecode(src: seq<Byte>, outSize: nat, props: Props, finish: bool)
    returns (dest: seq<Byte>, code: Code, status: Status)
    requires PropsOk(props) && props.dicSize < WORD
    ensures |src| < 5 ==> code == InputEof && dest == []
    ensures |src| >= 5 && src[0] != 0 ==> code == BadData
    ensures |src| >= 5 && src[0] == 0 ==>
              AtRest(Opened(props, src), props)
              && var (g, r) := Decode(Opened(props, src), props, src[5..], outSize, finish);
                 && code == CodeOf(r) && status == r.status
                 && (r.ok ==> dest == g.d.hist[..if |g.d.hist| < outSize then |g.d.hist| else outSize])
  {
    hide Decode, LzmaDec.Shape, LzmaDec.Output, LzmaDec.Reached, LzmaDec.Valid, AtRest;
    if |src| < 5 {
      return [], InputEof, NotSpecified;
    }
    var p := new LzmaDec(props, outSize);
    Fresh(p, src);
    var srcLen, r := p.DecodeToDic(outSize, src, finish);
    dest, code, status := [], CodeOf(r), r.status;
    if r.ok {
      ghost var g := Decode(Opened(props, src), props, src[5..], outSize, finish).0;
      MarkSeen(Opened(props, src), props, src[5..], outSize, finish);
      Shows(p, g, src[srcLen..], r.status, outSize);
      dest := p.dic[..p.dicPos];
    }
  }

  lemma Fresh(p: LzmaDec, src: seq<Byte>)
    requires p.Valid() && PropsOk(p.props) && |src| >= 5
    requires p.hist == [] && p.needFlush && p.needInitState && p.dicPos == 0 && p.remainLen == 0 && p.tempBufSize == 0
    ensures AtRest(Opened(p.props, src), p.props) && p.Temp() + src == src && p.Written() == 0
    ensures forall n: nat, finish | n <= p.dic.Length ::
              p.Goal(n, src, finish) == Decode(Opened(p.props, src), p.props, src[5..], n, finish)
  {
    hide Decode;
    OpenedAtRest(p.props, src);
    assert p.Temp() + src == src && AfterHeader(p.Start(), src) == Opened(p.props, src);
  }

  lemma MarkSeen(d: Dec, props: Props, z: seq<Byte>, limit: nat, finish: bool)
    requires AtRest(d, props)
    ensures var (g, r) := Decode(d, props, z, limit, finish);
            r == Reply(true, FinishedWithMark) ==> g.phase.Finished?
  {
    hide Go, NextKind, Enough;
  }

  /** What is in the output after one call from the start. */
  lemma Shows(p: LzmaDec, g: Progress, unread: seq<Byte>, status: Status, outSize: nat)
    requires p.Reached(g, unread) && p.Written() == p.dicPos <= outSize
    requires (status.NeedsMoreInput? && p.remainLen == 0) || (status.FinishedWithMark? && g.phase.Finished?)
             || p.dicPos == outSize
    ensures p.dicPos <= p.dic.Length
            && p.dic[..p.dicPos] == g.d.hist[..if |g.d.hist| < outSize then |g.d.hist| else outSize]
  {
    hide LzmaDec.Shape, Window, Pending;
    Ended(p);
    Shown(p, 0, 0);
    assert p.hist == g.d.hist;
  }

  /** What is not owed has been written. */
  lemma Ended(p: LzmaDec)
    requires p.Valid()
    ensures 0 <= p.Written() <= |p.hist| && p.dicPos <= p.dic.Length
    ensures p.remainLen == 0 || p.remainLen == SPEC_LEN ==> p.Written() == |p.hist|
  {
  }

  /** When decoding ends without more output, the next symbol is the end marker. */
  lemma OneMore(d: Dec, props: Props, z: seq<Byte>)
    requires AtRest(d, props)
    ensures var goal := Go(d, props, z, |d.hist| + 1);
            goal.phase.Finished? && |goal.d.hist| == |d.hist| ==>
                Enough(d, props, z) && DecodeSymbol(d, props, z).Ended?
  {
    hide SymbolEnd, DecodeSymbol;
    if Enough(d, props, z) {
      var v := DecodeSymbol(d, props, z);
      if v.Decoded? {
        GrowsBySymbol(d, props, z);
        SettledAtRest(v.d, props, z);
        GoGrows(Settled(v.d, z), props, z[SymbolEnd(d, props, z).pos..], |d.hist| + 1);
      }
    }
  }

  lemma MarkKind(d: Dec, props: Props, z: seq<Byte>)
    requires DecOk(d, props) && DecodeSymbol(d, props, z).Ended?
    ensures NextKind(d, props, z) == SymbolDecoder.DummyMatch
  {
    hide Real;
    EnvOfOk(d, props);
    HistoryMatters(S.AtIsMatch, EnvOf(d, props), d.rc, d.probs, z);
  }

  /** A call for all of a stream with an end mark, with the finish flag or without. */
  lemma MarkReply(d: Dec, props: Props, z: seq<Byte>, limit: nat, finish: bool)
    requires AtRest(d, props)
    requires var goal := Go(d, props, z, limit + 1); Sound(goal) && goal.phase.Finished? && |goal.d.hist| == limit
    ensures var (g, r) := Decode(d, props, z, limit, finish);
            && r.ok && g.d.hist == Go(d, props, z, limit + 1).d.hist && !r.status.NeedsMoreInput?
            && (finish ==> r.status.FinishedWithMark? || r.status.MaybeFinishedWithoutMark?)
  {
    hide Go, NextKind, Enough, DecodeSymbol;
    var g := Go(d, props, z, limit);
    GoLimit(d, props, z, limit, limit + 1);
    GoStarves(d, props, z, limit, limit + 1);
    if g.phase.Running? {
      GoGrows(g.d, props, g.rest, limit + 1);
      OneMore(g.d, props, g.rest);
      MarkKind(g.d, props, g.rest);
    }
  }

  /**
   Compresses any data with any valid choice of packets, and decodes the stream in
   one call with room for just that data: the data comes back, and with the finish
   flag the reply says that the stream is finished.
   */
  method CompressAndDecodeAtOnce(data: seq<Byte>, ps: List<Packet>, props: Props, logBits: nat, mark: bool,
                                 finish: bool)
    returns (dest: seq<Byte>, code: Code, status: Status)
    requires PropsOk(props) && (logBits == 11 || logBits == 13) && props.dicSize <= Encoder.DistLimit(logBits)
    requires Covers(CODER_START, data, 0, ps, props) && props.dicSize < WORD
    ensures dest == data && code == Ok
    ensures !mark ==> status == MaybeFinishedWithoutMark
    ensures mark && finish ==> status == FinishedWithMark || status == MaybeFinishedWithoutMark
  {
    hide AllEvents, Covers, Stream, Go, NextKind, Enough;
    var out := Encoder.Encode(data, ps, props, logBits, mark);
    ghost var d, limit := DecStart(props, []), if mark then |data| + 1 else |data|;
    OpenedAtRest(props, []);
    OpenedAtRest(props, out);
    HeaderSane([]);
    WholeStream(data, ps, props, mark, d, limit);
    assert AfterHeader(d, out) == Opened(props, out);
    if mark {
      MarkReply(Opened(props, out), props, out[5..], |data|, finish);
    }
    dest, code, status := LzmaDecode(out, |data|, props, finish);
  }
}
