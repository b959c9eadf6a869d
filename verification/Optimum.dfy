/**
 How the encoder turns its plan around: each entry of the plan says where the
 last packet before a position starts; the encoder needs the packets from the
 front.  The same entries are reused in place.
 */
module Optimum {
  const LITERAL := 0xFFFF_FFFF

  /**
   The last packet before a position goes back to `posPrev`.  With `prev1IsChar`
   a literal comes before it, and with `prev2` also a packet before that literal.
   */
  datatype Opt = Opt(posPrev: nat, backPrev: nat, prev1IsChar: bool, prev2: bool, posPrev2: nat, backPrev2: nat)

  /** A packet from `from` up to `to`, with its back value. */
  datatype Segment = Segment(from: nat, to: nat, back: nat)

  ghost predicate OptOk(o: Opt, i: nat)
  {
    && o.posPrev < i
    && (o.prev1IsChar ==> o.posPrev > 0)
    && (o.prev1IsChar && o.prev2 ==> o.posPrev2 < o.posPrev - 1)
  }

  /** Entries 1 to `cur` lead back to the start. */
  ghost predicate PlanOk(opt: seq<Opt>, cur: nat)
  {
    cur < |opt| && forall i | 1 <= i <= cur :: OptOk(opt[i], i)
  }

  /** The packets of the plan up to `cur`, from the front. */
  ghost function Path(opt: seq<Opt>, cur: nat): seq<Segment>
    requires PlanOk(opt, cur)
  {
    if cur == 0 then []
    else
      assert OptOk(opt[cur], cur);
      var o := opt[cur];
      if !o.prev1IsChar then Path(opt, o.posPrev) + [Segment(o.posPrev, cur, o.backPrev)]
      else if !o.prev2 then
        Path(opt, o.posPrev - 1) + [Segment(o.posPrev - 1, o.posPrev, LITERAL), Segment(o.posPrev, cur, o.backPrev)]
      else
        Path(opt, o.posPrev2) +
        [Segment(o.posPrev2, o.posPrev - 1, o.backPrev2), Segment(o.posPrev - 1, o.posPrev, LITERAL),
            Segment(o.posPrev, cur, o.backPrev)]
  }

  /** The segments run from `from` to `to` without gap, and none is empty. */
  ghost predicate Tile(path: seq<Segment>, from: nat, to: nat)
  {
    if path == [] then from == to
    else path[0].from == from < path[0].to && Tile(path[1..], path[0].to, to)
  }

  lemma {:induction false} TileSum(a: seq<Segment>, b: seq<Segment>, from: nat, mid: nat, to: nat)
    requires Tile(a, from, mid) && Tile(b, mid, to)
    ensures Tile(a + b, from, to)
  {
    if a == [] {
      assert a + b == b;
    } else {
      TileSum(a[1..], b, a[0].to, mid, to);
      assert (a + b)[1..] == a[1..] + b;
    }
  }

  /** The packets of a plan cover the data from the start to `cur`. */
  lemma {:induction false} PathTiles(opt: seq<Opt>, cur: nat)
    requires PlanOk(opt, cur)
    ensures Tile(Path(opt, cur), 0, cur)
  {
    if cur > 0 {
      var o := opt[cur];
      assert OptOk(o, cur);
      var last := Segment(o.posPrev, cur, o.backPrev);
      assert [last][1..] == [];
      if !o.prev1IsChar {
        PathTiles(opt, o.posPrev);
        TileSum(Path(opt, o.posPrev), [last], 0, o.posPrev, cur);
      } else {
        var lit := Segment(o.posPrev - 1, o.posPrev, LITERAL);
        assert [lit, last][1..] == [last];
        if !o.prev2 {
          PathTiles(opt, o.posPrev - 1);
          TileSum(Path(opt, o.posPrev - 1), [lit, last], 0, o.posPrev - 1, cur);
        } else {
          var first := Segment(o.posPrev2, o.posPrev - 1, o.backPrev2);
          assert [first, lit, last][1..] == [lit, last];
          assert Tile([lit, last], o.posPrev - 1, cur);
          PathTiles(opt, o.posPrev2);
          TileSum(Path(opt, o.posPrev2), [first, lit, last], 0, o.posPrev2, cur);
        }
      }
    }
  }

  /** A path depends on the entries up to its end only. */
  lemma {:induction false} PathFrame(a: seq<Opt>, b: seq<Opt>, cur: nat)
    requires PlanOk(a, cur) && cur < |b| && forall i | 0 < i <= cur :: a[i] == b[i]
    ensures PlanOk(b, cur) && Path(a, cur) == Path(b, cur)
  {
    if cur > 0 {
      var o := a[cur];
      assert OptOk(o, cur);
      if !o.prev1IsChar {
        PathFrame(a, b, o.posPrev);
      } else if !o.prev2 {
        PathFrame(a, b, o.posPrev - 1);
      } else {
        PathFrame(a, b, o.posPrev2);
      }
    }
  }

  // ------------------------------------------------------------ turned around

  /** Each entry from `cur` on says where its packet ends, up to `end`. */
  ghost predicate TurnedOk(opt: seq<Opt>, cur: nat, end: nat)
    decreases end - cur
  {
    end < |opt| && cur <= end && (cur < end ==> cur < opt[cur].posPrev <= end && TurnedOk(opt, opt[cur].posPrev, end))
  }

  ghost function Turned(opt: seq<Opt>, cur: nat, end: nat): seq<Segment>
    requires TurnedOk(opt, cur, end)
    decreases end - cur
  {
    if cur == end then []
    else [Segment(cur, opt[cur].posPrev, opt[cur].backPrev)] + Turned(opt, opt[cur].posPrev, end)
  }

  lemma {:induction false} TurnedFrame(a: seq<Opt>, b: seq<Opt>, cur: nat, end: nat)
    requires TurnedOk(a, cur, end) && |b| == |a| && forall i | cur <= i < |a| :: a[i] == b[i]
    ensures TurnedOk(b, cur, end) && Turned(a, cur, end) == Turned(b, cur, end)
    decreases end - cur
  {
    if cur < end {
      TurnedFrame(a, b, a[cur].posPrev, end);
    }
  }

  /** The entry of `cur` with the packet that was saved before it was overwritten. */
  ghost function Restored(opt: seq<Opt>, cur: nat, pos: nat, back: nat): seq<Opt>
    requires cur < |opt|
  {
    opt[cur := opt[cur].(posPrev := pos, backPrev := back)]
  }

  /** The entries for the literal and the packet before it, as Backward writes them. */
  ghost function Expanded(opt: seq<Opt>, cur: nat, pos: nat): seq<Opt>
    requires cur < |opt| && pos < |opt| && OptOk(opt[cur].(posPrev := pos), cur)
  {
    var o := opt[cur];
    if !o.prev1IsChar then opt
    else
      var a := opt[pos := opt[pos].(backPrev := LITERAL, prev1IsChar := false, posPrev := pos - 1)];
      if !o.prev2 then a
      else a[pos - 1 := a[pos - 1].(prev1IsChar := false, posPrev := o.posPrev2, backPrev := o.backPrev2)]
  }

  /** Expanding the entry before its last packet leaves the path as it was. */
  lemma ExpandedPath(opt: seq<Opt>, cur: nat, pos: nat, back: nat)
    requires 0 < cur < |opt| && PlanOk(Restored(opt, cur, pos, back), cur)
    ensures pos < cur && OptOk(opt[cur].(posPrev := pos), cur)
    ensures var e := Expanded(opt, cur, pos);
            PlanOk(e, pos) && Path(Restored(opt, cur, pos, back), cur) == Path(e, pos) + [Segment(pos, cur, back)]
    ensures var e := Expanded(opt, cur, pos);
            forall i | cur <= i < |opt| :: e[i] == opt[i]
  {
    hide Path;
    var r := Restored(opt, cur, pos, back);
    var o := r[cur];
    assert OptOk(o, cur);
    assert OptOk(opt[cur].(posPrev := pos), cur);
    var e := Expanded(opt, cur, pos);
    var last := Segment(pos, cur, back);
    assert PlanOk(r, pos) by { assert forall i | 1 <= i <= pos :: OptOk(r[i], i); }
    if !o.prev1IsChar {
      PlainEntry(r, cur);
      PathFrame(r, e, pos);
    } else if !o.prev2 {
      CharEntry(r, cur);
      PathFrame(r, e, pos - 1);
      LiteralEntry(e, pos);
      assert [Segment(pos - 1, pos, LITERAL), last] == [Segment(pos - 1, pos, LITERAL)] + [last];
    } else {
      PairEntry(r, cur);
      PathFrame(r, e, o.posPrev2);
      PlanReplaced(r, e, pos - 1);
      PlainEntry(e, pos - 1);
      LiteralEntry(e, pos);
      var x, y := Segment(o.posPrev2, pos - 1, o.backPrev2), Segment(pos - 1, pos, LITERAL);
      assert [x, y, last] == [x] + [y] + [last];
    }
  }

  lemma PlanReplaced(a: seq<Opt>, b: seq<Opt>, cur: nat)
    requires PlanOk(a, cur) && cur < |b| && OptOk(b[cur], cur) && forall i | 0 < i < cur :: a[i] == b[i]
    ensures PlanOk(b, cur)
  {
    forall i | 1 <= i <= cur
      ensures OptOk(b[i], i)
    {
      assert i < cur ==> a[i] == b[i];
    }
  }

  lemma PlainEntry(opt: seq<Opt>, cur: nat)
    requires 0 < cur && PlanOk(opt, cur) && !opt[cur].prev1IsChar
    ensures var o := opt[cur];
            o.posPrev < cur && PlanOk(opt, o.posPrev)
                && Path(opt, cur) == Path(opt, o.posPrev) + [Segment(o.posPrev, cur, o.backPrev)]
  {
    assert OptOk(opt[cur], cur);
  }

  lemma CharEntry(opt: seq<Opt>, cur: nat)
    requires 0 < cur && PlanOk(opt, cur) && opt[cur].prev1IsChar && !opt[cur].prev2
    ensures var o := opt[cur];
            && 0 < o.posPrev < cur && PlanOk(opt, o.posPrev - 1)
            && Path(opt, cur)
               == Path(opt, o.posPrev - 1) + [Segment(o.posPrev - 1, o.posPrev, LITERAL), Segment(o.posPrev, cur, o.backPrev)]
  {
    assert OptOk(opt[cur], cur);
  }

  lemma PairEntry(opt: seq<Opt>, cur: nat)
    requires 0 < cur && PlanOk(opt, cur) && opt[cur].prev1IsChar && opt[cur].prev2
    ensures var o := opt[cur];
            && o.posPrev2 < o.posPrev - 1 < cur - 1 && PlanOk(opt, o.posPrev2)
            && Path(opt, cur) == Path(opt, o.posPrev2) +
               [Segment(o.posPrev2, o.posPrev - 1, o.backPrev2), Segment(o.posPrev - 1, o.posPrev, LITERAL),
                   Segment(o.posPrev, cur, o.backPrev)]
  {
    assert OptOk(opt[cur], cur);
  }

  lemma LiteralEntry(opt: seq<Opt>, pos: nat)
    requires 0 < pos < |opt| && PlanOk(opt, pos - 1)
    requires opt[pos].posPrev == pos - 1 && opt[pos].backPrev == LITERAL && !opt[pos].prev1IsChar
    ensures PlanOk(opt, pos) && Path(opt, pos) == Path(opt, pos - 1) + [Segment(pos - 1, pos, LITERAL)]
  {
  }

  /** One round of the loop, on values. */
  lemma TurnStep(opt: seq<Opt>, cur: nat, pos: nat, back: nat, end: nat, goal: seq<Segment>)
    requires 0 < cur < |opt| && PlanOk(Restored(opt, cur, pos, back), cur) && TurnedOk(opt, cur, end)
    requires Path(Restored(opt, cur, pos, back), cur) + Turned(opt, cur, end) == goal
    ensures pos < cur && OptOk(opt[cur].(posPrev := pos), cur)
    ensures var e := Expanded(opt, cur, pos);
            var t := e[pos := e[pos].(backPrev := back, posPrev := cur)];
            && Restored(t, pos, e[pos].posPrev, e[pos].backPrev) == e
            && PlanOk(e, pos) && TurnedOk(t, pos, end) && Path(e, pos) + Turned(t, pos, end) == goal
  {
    ExpandedPath(opt, cur, pos, back);
    var e := Expanded(opt, cur, pos);
    var t := e[pos := e[pos].(backPrev := back, posPrev := cur)];
    assert forall i | cur <= i < |opt| :: t[i] == opt[i];
    TurnedFrame(opt, t, cur, end);
    assert Path(e, pos) + ([Segment(pos, cur, back)] + Turned(t, cur, end))
           == Path(e, pos) + [Segment(pos, cur, back)] + Turned(t, cur, end);
  }

  class Planner {
    const opt: array<Opt>
    var endIndex: nat
    var currentIndex: nat

    constructor (size: nat)
      ensures fresh(opt) && opt.Length == size && endIndex == currentIndex == 0
    {
      opt := new Opt[size](_ => Opt(0, 0, false, false, 0, 0));
      endIndex, currentIndex := 0, 0;
    }

    /** Packets that are left of the plan can be read off. */
    ghost predicate Valid()
      reads this, opt
    {
      TurnedOk(opt[..], currentIndex, endIndex)
    }

    ghost function Left(): seq<Segment>
      requires Valid()
      reads this, opt
    {
      Turned(opt[..], currentIndex, endIndex)
    }

    /** Backward: turns the plan around and returns its first packet; the others are left. */
    method Backward(end: nat) returns (len: nat, back: nat)
      requires 0 < end && PlanOk(opt[..], end)
      modifies this, opt
      ensures Valid() && Tile(old(Path(opt[..], end)), 0, end)
      ensures [Segment(0, len, back)] + Left() == old(Path(opt[..], end))
    {
      hide PlanOk, Path, Turned, TurnedOk, Restored, Expanded;
      ghost var goal := Path(opt[..], end);
      PathTiles(opt[..], end);
      PlanSize(opt[..], end);
      var cur, posMem, backMem := end, opt[end].posPrev, opt[end].backPrev;
      endIndex := end;
      TurnStarts(opt[..], end);
      while cur != 0
        invariant opt.Length == |old(opt[..])| && cur < opt.Length && endIndex == end < opt.Length
        invariant PlanOk(Restored(opt[..], cur, posMem, backMem), cur) && TurnedOk(opt[..], cur, end)
        invariant Path(Restored(opt[..], cur, posMem, backMem), cur) + Turned(opt[..], cur, end) == goal
        decreases cur
      {
        TurnStep(opt[..], cur, posMem, backMem, end, goal);
        ghost var e := Expanded(opt[..], cur, posMem);
        Expand(cur, posMem);
        assert opt[..] == e;
        var posPrev, backCur := posMem, backMem;
        backMem, posMem := opt[posPrev].backPrev, opt[posPrev].posPrev;
        opt[posPrev] := opt[posPrev].(backPrev := backCur, posPrev := cur);
        cur := posPrev;
        assert opt[..] == e[cur := e[cur].(backPrev := backCur, posPrev := opt[cur].posPrev)];
      }
      TurnEnds(opt[..], posMem, backMem, end, goal);
      back := opt[0].backPrev;
      currentIndex := opt[0].posPrev;
      len := currentIndex;
    }

    /** Writes out the literal, and the packet before it, that an entry stands for. */
    method Expand(cur: nat, pos: nat)
      requires cur < opt.Length && pos < opt.Length && OptOk(opt[cur].(posPrev := pos), cur)
      modifies opt
      ensures opt[..] == old(Expanded(opt[..], cur, pos))
    {
      var o := opt[cur];
      if o.prev1IsChar {
        opt[pos] := opt[pos].(backPrev := LITERAL, prev1IsChar := false);
        opt[pos] := opt[pos].(posPrev := pos - 1);
        if o.prev2 {
          opt[pos - 1] := opt[pos - 1].(prev1IsChar := false);
          opt[pos - 1] := opt[pos - 1].(posPrev := o.posPrev2);
          opt[pos - 1] := opt[pos - 1].(backPrev := o.backPrev2);
        }
      }
    }

    /** GetOptimum while packets of the last plan are left. */
    method Next() returns (len: nat, back: nat)
      requires Valid() && endIndex != currentIndex
      modifies this`currentIndex
      ensures Valid() && len > 0 && currentIndex == old(currentIndex) + len
      ensures [Segment(old(currentIndex), currentIndex, back)] + Left() == old(Left())
    {
      var o := opt[currentIndex];
      len := o.posPrev - currentIndex;
      back := o.backPrev;
      currentIndex := o.posPrev;
    }
  }

  lemma PlanSize(opt: seq<Opt>, end: nat)
    requires PlanOk(opt, end)
    ensures end < |opt|
  {
  }

  lemma TurnStarts(opt: seq<Opt>, end: nat)
    requires PlanOk(opt, end)
    ensures Restored(opt, end, opt[end].posPrev, opt[end].backPrev) == opt
    ensures TurnedOk(opt, end, end) && Path(opt, end) + Turned(opt, end, end) == Path(opt, end)
  {
  }

  lemma TurnEnds(opt: seq<Opt>, pos: nat, back: nat, end: nat, goal: seq<Segment>)
    requires 0 < end < |opt| && PlanOk(Restored(opt, 0, pos, back), 0) && TurnedOk(opt, 0, end)
    requires Path(Restored(opt, 0, pos, back), 0) + Turned(opt, 0, end) == goal
    ensures TurnedOk(opt, opt[0].posPrev, end)
    ensures [Segment(0, opt[0].posPrev, opt[0].backPrev)] + Turned(opt, opt[0].posPrev, end) == goal
  {
    assert Path(Restored(opt, 0, pos, back), 0) == [];
  }
}
