/**
 The event object: a set of bits and threads that wait for all or some of
 theirs.  In every run no waiting thread's condition holds.
 */
module EventObject {
  import opened WaitQueue

  /** Event bits, as the set of those that are one. */
  type Bits = set<nat>

  datatype Condition = Condition(bits: Bits, all: bool, clear: bool)

  predicate Satisfied(events: Bits, c: Condition)
  {
    if c.all then events * c.bits == c.bits else events * c.bits != {}
  }

  /** The bits a thread gets when its condition holds. */
  function Received(events: Bits, c: Condition): Bits
  {
    if c.all then c.bits else events * c.bits
  }

  /** With OR one wanted bit is enough, with AND all are needed; what a thread gets are its bits among those set. */
  lemma SatisfiedIs(events: Bits, c: Condition)
    ensures Satisfied(events, c) <==>
            if c.all then forall b | b in c.bits :: b in events else exists b :: b in c.bits && b in events
    ensures Satisfied(events, c) ==> forall b :: b in Received(events, c) <==> b in c.bits && b in events
  {
    if c.all {
      assert events * c.bits == c.bits <==> c.bits <= events;
    } else {
      assert forall b :: b in events * c.bits <==> b in c.bits && b in events;
    }
  }

  datatype Scan = Scan(events: Bits, waiting: seq<Waiter<Condition>>, woken: seq<(nat, Bits)>)

  /** One pass over the waiting threads: the satisfied ones leave and may clear their bits. */
  function Pass(events: Bits, queue: seq<Waiter<Condition>>): Scan
  {
    if queue == [] then Scan(events, [], [])
    else
      var w := queue[0];
      if Satisfied(events, w.info) then
        var got := Received(events, w.info);
        var rest := Pass(if w.info.clear then events - got else events, queue[1..]);
        rest.(woken := [(w.thread, got)] + rest.woken)
      else
        var rest := Pass(events, queue[1..]);
        rest.(waiting := [w] + rest.waiting)
  }

  /** Fewer bits satisfy fewer conditions. */
  lemma FewerBits(events: Bits, events': Bits, c: Condition)
    requires events' <= events && !Satisfied(events, c)
    ensures !Satisfied(events', c)
  {
    if c.all {
      assert events' * c.bits <= events * c.bits <= c.bits;
    } else {
      assert events' * c.bits <= events * c.bits;
    }
  }

  /** What a woken thread got: its bits among the ones set at its turn, cleared if it wants that. */
  ghost predicate Granted(events: Bits, after: Bits, queue: seq<Waiter<Condition>>, p: (nat, Bits))
  {
    exists w, e ::
      && w in queue && w.thread == p.0 && after <= e <= events && Satisfied(e, w.info)
      && p.1 == Received(e, w.info) && (w.info.clear ==> p.1 !! after)
  }

  /** A thread that has got bit `b` and cleared it. */
  ghost predicate Cleared(queue: seq<Waiter<Condition>>, woken: seq<(nat, Bits)>, b: nat)
  {
    exists w, p :: w in queue && w.info.clear && p in woken && p.0 == w.thread && b in p.1
  }

  /**
   One pass is enough: those passed over stay unsatisfied, because bits are only
   cleared; nobody is woken without cause, and no bit goes without a thread that
   has got it.
   */
  lemma {:induction false} PassSettles(events: Bits, queue: seq<Waiter<Condition>>)
    ensures var r := Pass(events, queue);
            && r.events <= events && |r.waiting| + |r.woken| == |queue|
            && (forall w | w in r.waiting :: w in queue && !Satisfied(r.events, w.info))
            && Fair(events, r.events, queue, r.woken)
    decreases |queue|
  {
    hide Satisfied, Received, Granted, Cleared;
    if queue != [] {
      var w, rest := queue[0], queue[1..];
      assert queue == [w] + rest;
      if Satisfied(events, w.info) {
        var events' := if w.info.clear then events - Received(events, w.info) else events;
        PassSettles(events', rest);
        var r := Pass(events', rest);
        WokenFirst(events, events', r.events, w, rest, r.woken);
      } else {
        PassSettles(events, rest);
        var r := Pass(events, rest);
        FewerBits(events, r.events, w.info);
        PassedOver(events, r.events, w, rest, r.woken);
      }
    }
  }

  ghost predicate Fair(events: Bits, after: Bits, queue: seq<Waiter<Condition>>, woken: seq<(nat, Bits)>)
  {
    && (forall p | p in woken :: Granted(events, after, queue, p))
    && (forall b | b in events && b !in after :: Cleared(queue, woken, b))
  }

  lemma WokenFirst(events: Bits, events': Bits, after: Bits, w: Waiter<Condition>, rest: seq<Waiter<Condition>>,
                   woken: seq<(nat, Bits)>)
    requires Satisfied(events, w.info) && after <= events' && Fair(events', after, rest, woken)
    requires events' == if w.info.clear then events - Received(events, w.info) else events
    ensures Fair(events, after, [w] + rest, [(w.thread, Received(events, w.info))] + woken)
  {
    hide Satisfied, Received;
    var queue, first := [w] + rest, (w.thread, Received(events, w.info));
    assert w in queue && after <= events <= events;
    assert Granted(events, after, queue, first);
    forall p | p in woken
      ensures Granted(events, after, queue, p)
    {
      var v, e :| v in rest && v.thread == p.0 && after <= e <= events' && Satisfied(e, v.info)
                  && p.1 == Received(e, v.info) && (v.info.clear ==> p.1 !! after);
      assert v in queue && e <= events;
    }
    forall b | b in events && b !in after
      ensures Cleared(queue, [first] + woken, b)
    {
      if b in events' {
        var v, p :| v in rest && v.info.clear && p in woken && p.0 == v.thread && b in p.1;
        assert v in queue && p in [first] + woken;
      } else {
        assert first in [first] + woken;
      }
    }
  }

  lemma PassedOver(events: Bits, after: Bits, w: Waiter<Condition>, rest: seq<Waiter<Condition>>,
                   woken: seq<(nat, Bits)>)
    requires Fair(events, after, rest, woken)
    ensures Fair(events, after, [w] + rest, woken)
  {
    hide Satisfied, Received;
    var queue := [w] + rest;
    forall p | p in woken
      ensures Granted(events, after, queue, p)
    {
      var v, e :| v in rest && v.thread == p.0 && after <= e <= events && Satisfied(e, v.info)
                  && p.1 == Received(e, v.info) && (v.info.clear ==> p.1 !! after);
      assert v in queue;
    }
    forall b | b in events && b !in after
      ensures Cleared(queue, woken, b)
    {
      var v, p :| v in rest && v.info.clear && p in woken && p.0 == v.thread && b in p.1;
      assert v in queue;
    }
  }

  /** Two lists that make up one, both in its order. */
  ghost predicate Merges(queue: seq<Waiter<Condition>>, waiting: seq<Waiter<Condition>>, woken: seq<(nat, Bits)>)
    decreases |queue|
  {
    if queue == [] then waiting == [] && woken == []
    else
      || (waiting != [] && waiting[0] == queue[0] && Merges(queue[1..], waiting[1..], woken))
      || (woken != [] && woken[0].0 == queue[0].thread && Merges(queue[1..], waiting, woken[1..]))
  }

  /** Everybody goes on waiting or is woken, in the order of the list. */
  lemma {:induction false} PassInOrder(events: Bits, queue: seq<Waiter<Condition>>)
    ensures Merges(queue, Pass(events, queue).waiting, Pass(events, queue).woken)
    decreases |queue|
  {
    hide Satisfied, Received;
    if queue != [] {
      var w, rest, r := queue[0], queue[1..], Pass(events, queue);
      if Satisfied(events, w.info) {
        PassInOrder(if w.info.clear then events - Received(events, w.info) else events, rest);
        assert r.woken[1..] == Pass(if w.info.clear then events - Received(events, w.info) else events, rest).woken;
      } else {
        PassInOrder(events, rest);
        assert r.waiting[1..] == Pass(events, rest).waiting;
      }
    }
  }

  /** The order of those that go on waiting does not change. */
  lemma {:induction false} PassKeepsOrder(events: Bits, queue: seq<Waiter<Condition>>)
    requires ByPriority(queue)
    ensures ByPriority(Pass(events, queue).waiting)
    decreases |queue|
  {
    if queue != [] {
      ByPriorityTail(queue);
      var w, rest := queue[0], queue[1..];
      if Satisfied(events, w.info) {
        PassKeepsOrder(if w.info.clear then events - Received(events, w.info) else events, rest);
      } else {
        PassKeepsOrder(events, rest);
        PassSettles(events, rest);
        var r := Pass(events, queue).waiting;
        assert r[1..] == Pass(events, rest).waiting;
        ByPriorityTail(r);
      }
    }
  }

  /** The result of a pass that has got to position `n`. */
  ghost function Onward(events: Bits, queue: seq<Waiter<Condition>>, n: nat, kept: seq<Waiter<Condition>>,
                        woken: seq<(nat, Bits)>): Scan
    requires n <= |queue|
  {
    var r := Pass(events, queue[n..]);
    Scan(r.events, kept + r.waiting, woken + r.woken)
  }

  lemma PassStarts(events: Bits, queue: seq<Waiter<Condition>>)
    ensures Onward(events, queue, 0, [], []) == Pass(events, queue)
  {
    hide Pass;
    var r := Pass(events, queue);
    assert queue[0..] == queue && [] + r.waiting == r.waiting && [] + r.woken == r.woken;
  }

  lemma PassEnds(events: Bits, queue: seq<Waiter<Condition>>, kept: seq<Waiter<Condition>>, woken: seq<(nat, Bits)>)
    ensures Onward(events, queue, |queue|, kept, woken) == Scan(events, kept, woken)
  {
    assert kept + [] == kept && woken + [] == woken;
  }

  lemma PassNext(events: Bits, queue: seq<Waiter<Condition>>, n: nat, kept: seq<Waiter<Condition>>,
                 woken: seq<(nat, Bits)>)
    requires n < |queue|
    ensures var w := queue[n];
            Onward(events, queue, n, kept, woken) ==
            if Satisfied(events, w.info) then
              Onward(if w.info.clear then events - Received(events, w.info) else events, queue, n + 1, kept,
                     woken + [(w.thread, Received(events, w.info))])
            else Onward(events, queue, n + 1, kept + [w], woken)
  {
    var w := queue[n];
    assert queue[n..][0] == w && queue[n..][1..] == queue[n + 1..];
    if Satisfied(events, w.info) {
      var got := Received(events, w.info);
      var r := Pass(if w.info.clear then events - got else events, queue[n + 1..]);
      assert woken + ([(w.thread, got)] + r.woken) == woken + [(w.thread, got)] + r.woken;
    } else {
      var r := Pass(events, queue[n + 1..]);
      assert kept + ([w] + r.waiting) == kept + [w] + r.waiting;
    }
  }

  /** Every woken thread finds the bits it got. */
  function Deliver(received: map<nat, Bits>, woken: seq<(nat, Bits)>): map<nat, Bits>
    decreases |woken|
  {
    if woken == [] then received else Deliver(received[woken[0].0 := woken[0].1], woken[1..])
  }

  lemma DeliverNext(received: map<nat, Bits>, events: Bits, queue: seq<Waiter<Condition>>, n: nat)
    requires n < |queue|
    ensures var w := queue[n];
            Deliver(received, Pass(events, queue[n..]).woken) ==
            if Satisfied(events, w.info) then
              Deliver(received[w.thread := Received(events, w.info)],
                      Pass(if w.info.clear then events - Received(events, w.info) else events, queue[n + 1..]).woken)
            else Deliver(received, Pass(events, queue[n + 1..]).woken)
  {
    var w := queue[n];
    assert queue[n..][0] == w && queue[n..][1..] == queue[n + 1..];
    if Satisfied(events, w.info) {
      var all := Pass(events, queue[n..]).woken;
      assert all[1..] == Pass(if w.info.clear then events - Received(events, w.info) else events, queue[n + 1..]).woken;
    }
  }

  lemma DeliverEnds(received: map<nat, Bits>, events: Bits)
    ensures Deliver(received, Pass(events, []).woken) == received
  {
  }

  datatype Outcome = Got(bits: Bits) | Empty | TimedOut | Waiting

  class Event {
    const order: Order
    var events: Bits
    var waiting: seq<Waiter<Condition>>
    var received: map<nat, Bits>

    /** Nobody waits for what is there. */
    ghost predicate Valid()
      reads this
    {
      && (forall w | w in waiting :: !Satisfied(events, w.info))
      && (order.Prio? ==> ByPriority(waiting))
    }

    constructor (order: Order)
      ensures Valid() && events == {} && waiting == [] && received == map[] && this.order == order
    {
      this.order := order;
      events, waiting, received := {}, [], map[];
    }

    /** rt_event_send. */
    method Send(bits: Bits) returns (ok: bool)
      requires Valid()
      modifies this
      ensures Valid() && ok == (bits != {})
      ensures if ok then
                var r := Pass(old(events) + bits, old(waiting));
                events == r.events && waiting == r.waiting && received == Deliver(old(received), r.woken)
              else events == old(events) && waiting == old(waiting) && received == old(received)
    {
      hide Pass, Satisfied, ByPriority;
      if bits == {} {
        return false;
      }
      PassSettles(events + bits, waiting);
      if order.Prio? {
        PassKeepsOrder(events + bits, waiting);
      }
      events := events + bits;
      WalkThrough(Pass(events, waiting));
      ok := true;
    }

    /** The loop of rt_event_send over the waiting threads. */
    method WalkThrough(ghost goal: Scan)
      requires goal == Pass(events, waiting)
      modifies this
      ensures events == goal.events && waiting == goal.waiting && received == Deliver(old(received), goal.woken)
    {
      hide Pass, Satisfied, Received, Deliver;
      ghost var queue := waiting;
      assert queue[0..] == queue;
      var n, kept := 0, [];
      ghost var woken := [];
      PassStarts(events, queue);
      while n < |waiting|
        invariant 0 <= n <= |waiting| && waiting == queue && Onward(events, queue, n, kept, woken) == goal
        invariant Deliver(received, Pass(events, queue[n..]).woken) == Deliver(old(received), goal.woken)
      {
        var w := waiting[n];
        PassNext(events, queue, n, kept, woken);
        DeliverNext(received, events, queue, n);
        if Satisfied(events, w.info) {
          var got := Received(events, w.info);
          if w.info.clear {
            events := events - got;
          }
          received := received[w.thread := got];
          woken := woken + [(w.thread, got)];
        } else {
          kept := kept + [w];
        }
        n := n + 1;
      }
      PassEnds(events, queue, kept, woken);
      assert queue[n..] == [];
      DeliverEnds(received, events);
      waiting := kept;
    }

    /** rt_event_recv up to the point where the thread has its bits, gives up or waits. */
    method Receive(thread: nat, priority: nat, c: Condition, wait: bool) returns (r: Outcome)
      requires Valid()
      modifies this`events, this`waiting
      ensures Valid()
      ensures if c.bits == {} then r == Empty && events == old(events) && waiting == old(waiting)
              else if Satisfied(old(events), c) then
                r == Got(old(events) * c.bits) && waiting == old(waiting)
                    && events == if c.clear then old(events) - c.bits else old(events)
              else if !wait then r == TimedOut && events == old(events) && waiting == old(waiting)
              else
                r == Waiting && events == old(events)
                    && waiting == Suspend(old(waiting), Waiter(thread, priority, c), order)
    {
      if c.bits == {} {
        return Empty;
      }
      if Satisfied(events, c) {
        r := Got(events * c.bits);
        if c.clear {
          forall w | w in waiting
            ensures !Satisfied(events - c.bits, w.info)
          {
            FewerBits(events, events - c.bits, w.info);
          }
          events := events - c.bits;
        }
      } else if !wait {
        r := TimedOut;
      } else {
        var w := Waiter(thread, priority, c);
        SuspendMembers(waiting, w, order);
        if order.Prio? {
          SuspendSorted(waiting, w);
        }
        waiting := SuspendLoop(waiting, w, order);
        r := Waiting;
      }
    }

    /** The timer of a waiting thread runs out: it leaves the list. */
    method Timeout(i: nat)
      requires Valid() && i < |waiting|
      modifies this`waiting
      ensures Valid() && waiting == old(waiting[..i] + waiting[i + 1..])
    {
      waiting := waiting[..i] + waiting[i + 1..];
    }

    /** rt_event_control with RT_IPC_CMD_RESET. */
    method Reset()
      requires Valid()
      modifies this`events, this`waiting
      ensures Valid() && events == {} && waiting == []
    {
      waiting, events := [], {};
    }
  }
}
