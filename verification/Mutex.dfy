/**
 The mutex with priority inheritance.  Every method is one atomic step of a
 thread on the mutex.  Threads do not change priority by other means.
 */
module Mutex {
  import opened WaitQueue

  datatype Owner = Nobody | Held(thread: nat)

  datatype Outcome = Taken | TimedOut | Waiting

  const NO_PRIORITY := 0xff

  type Queue = seq<Waiter<()>>

  predicate Waits(queue: Queue, t: nat)
  {
    exists i | 0 <= i < |queue| :: queue[i].thread == t
  }

  ghost function Threads(queue: Queue): set<nat>
  {
    set w | w in queue :: w.thread
  }

  /** Each waiting thread stands in the list once, with the priority that is its own. */
  ghost predicate Lined(queue: Queue, base: map<nat, nat>)
  {
    && (forall i | 0 <= i < |queue| :: queue[i].thread in base && queue[i].priority == base[queue[i].thread])
    && (forall i, j | 0 <= i < j < |queue| :: queue[i].thread != queue[j].thread)
  }

  lemma LinedTail(queue: Queue, base: map<nat, nat>)
    requires queue != []
    ensures Lined(queue, base) <==>
            Lined(queue[1..], base) && !Waits(queue[1..], queue[0].thread) &&
            queue[0].thread in base && queue[0].priority == base[queue[0].thread]
  {
    var rest := queue[1..];
    assert forall i | 0 <= i < |rest| :: rest[i] == queue[i + 1];
    if Lined(rest, base) && !Waits(rest, queue[0].thread) && queue[0].thread in base
        && queue[0].priority == base[queue[0].thread] {
      forall i | 0 <= i < |queue|
        ensures queue[i].thread in base && queue[i].priority == base[queue[i].thread]
      {
        assert i > 0 ==> queue[i] == rest[i - 1];
      }
      forall i, j | 0 <= i < j < |queue|
        ensures queue[i].thread != queue[j].thread
      {
        assert queue[j] == rest[j - 1];
        assert i > 0 ==> queue[i] == rest[i - 1];
      }
    }
  }

  lemma SuspendWaits(queue: Queue, w: Waiter<()>, order: Order, t: nat)
    ensures Waits(Suspend(queue, w, order), t) <==> Waits(queue, t) || w.thread == t
  {
    var r := Suspend(queue, w, order);
    SuspendMembers(queue, w, order);
    if Waits(r, t) {
      var i :| 0 <= i < |r| && r[i].thread == t;
      assert r[i] in r;
    }
    if Waits(queue, t) {
      var i :| 0 <= i < |queue| && queue[i].thread == t;
      assert queue[i] in queue && queue[i] in r;
    }
    if w.thread == t {
      assert w in r;
    }
  }

  lemma {:induction false} SuspendLined(queue: Queue, w: Waiter<()>, order: Order, base: map<nat, nat>)
    requires Lined(queue, base) && !Waits(queue, w.thread) && w.thread in base && w.priority == base[w.thread]
    ensures Lined(Suspend(queue, w, order), base)
  {
    var r := Suspend(queue, w, order);
    if order.Prio? && queue != [] {
      LinedTail(queue, base);
      if w.priority < queue[0].priority {
        assert r[1..] == queue;
      } else {
        var rest := queue[1..];
        assert forall i | 0 <= i < |rest| :: rest[i] == queue[i + 1];
        SuspendLined(rest, w, order, base);
        SuspendWaits(rest, w, order, queue[0].thread);
        assert r[0] == queue[0] && r[1..] == Suspend(rest, w, order);
      }
      LinedTail(r, base);
    }
  }

  class Mutex {
    const order: Order
    var value: nat
    var owner: Owner
    var hold: nat
    var original: nat
    var waiting: Queue
    var priority: map<nat, nat>

    /** The priority each thread has of its own. */
    ghost const base: map<nat, nat>
    /** The threads that have been waiting at some time since the owner got the mutex. */
    ghost var asked: set<nat>

    ghost predicate Valid()
      reads this
    {
      && priority.Keys == base.Keys
      && value == (if owner.Nobody? then 1 else 0)
      && (owner.Nobody? <==> hold == 0)
      && (owner.Nobody? ==> waiting == [] && original == NO_PRIORITY)
      && (owner.Held? ==> owner.thread in base && original == base[owner.thread] && !Waits(waiting, owner.thread))
      && Lined(waiting, base)
      && (order.Prio? ==> ByPriority(waiting))
      && (forall t | t in base && owner != Held(t) :: priority[t] == base[t])
      && asked <= base.Keys
      && (forall w | w in waiting :: w.thread in asked)
    }

    /** The owner runs at the most urgent of its own priority and those of the threads that came to wait. */
    ghost predicate Inherits()
      requires Valid()
      reads this
    {
      owner.Held? ==>
        && (forall t | t in asked + {owner.thread} :: priority[owner.thread] <= base[t])
        && (exists t | t in asked + {owner.thread} :: priority[owner.thread] == base[t])
    }

    constructor (order: Order, base: map<nat, nat>)
      ensures Valid() && Inherits() && owner == Nobody && priority == base && this.base == base && this.order == order
    {
      this.order := order;
      this.base := base;
      value, owner, hold, original, waiting, priority, asked := 1, Nobody, 0, NO_PRIORITY, [], base, {};
    }

    /** No waiting thread is more urgent than the owner. */
    lemma OwnerUrgent(w: Waiter<()>)
      requires Valid() && Inherits() && w in waiting
      ensures owner.Held? && priority[owner.thread] <= w.priority
    {
      var i :| 0 <= i < |waiting| && waiting[i] == w;
      assert waiting[i].thread in asked;
    }

    /** rt_mutex_take up to the point where the thread has the mutex, gives up or waits. */
    method Take(thread: nat, wait: bool) returns (r: Outcome)
      requires Valid() && thread in base && !Waits(waiting, thread)
      modifies this
      ensures Valid() && (old(Inherits()) ==> Inherits())
      ensures r == if old(owner) == Held(thread) || old(owner) == Nobody then Taken else if wait then Waiting else TimedOut
      ensures r.Taken? ==>
                owner == Held(thread) && hold == old(hold) + 1 && waiting == old(waiting) && priority == old(priority)
      ensures !r.Taken? ==> owner == old(owner) && hold == old(hold)
      ensures r.TimedOut? ==> waiting == old(waiting) && priority == old(priority)
      ensures r.Waiting? ==> waiting == Suspend(old(waiting), Waiter(thread, base[thread], ()), order)
      ensures asked == if r.Waiting? then old(asked) + {thread} else if old(owner) == Nobody then {} else old(asked)
      ensures r.Waiting? ==>
                var o := owner.thread;
                priority == old(priority)[o := if base[thread] < old(priority[o]) then base[thread]
                                               else old(priority[o])]
    {
      if owner == Held(thread) {
        hold := hold + 1;
        return Taken;
      }
      if value > 0 {
        value := value - 1;
        owner, original := Held(thread), priority[thread];
        hold := hold + 1;
        asked := {};
        assert old(Inherits()) ==> thread in asked + {owner.thread};
        return Taken;
      }
      if !wait {
        return TimedOut;
      }
      Wait(thread);
      r := Waiting;
    }

    /** The part of rt_mutex_take that lends the priority of the thread to the owner and suspends the thread. */
    method Wait(thread: nat)
      requires Valid() && owner.Held? && thread in base && !Waits(waiting, thread) && owner != Held(thread)
      modifies this`priority, this`waiting, this`asked
      ensures Valid() && (old(Inherits()) ==> Inherits())
      ensures waiting == Suspend(old(waiting), Waiter(thread, base[thread], ()), order)
              && asked == old(asked) + {thread}
      ensures var o := owner.thread;
              priority == old(priority)[o := if base[thread] < old(priority[o]) then base[thread] else old(priority[o])]
    {
      hide Suspend, ByPriority, Waits, Lined;
      var o := owner.thread;
      var w := Waiter(thread, priority[thread], ());
      SuspendMembers(waiting, w, order);
      SuspendWaits(waiting, w, order, o);
      SuspendLined(waiting, w, order, base);
      if order.Prio? {
        SuspendSorted(waiting, w);
      }
      assert priority[thread] == base[thread];
      if priority[thread] < priority[o] {
        priority := priority[o := priority[thread]];
      }
      waiting := SuspendLoop(waiting, w, order);
      asked := asked + {thread};
      assert priority[o] == base[thread] ==> thread in asked + {o};
      assert forall t | t in old(asked) + {o} :: t in asked + {o};
    }

    /** The timer of a waiting thread runs out: it leaves the list. */
    method Timeout(i: nat)
      requires Valid() && i < |waiting|
      modifies this`waiting
      ensures Valid() && (old(Inherits()) ==> Inherits())
      ensures waiting == old(waiting[..i] + waiting[i + 1..])
    {
      waiting := waiting[..i] + waiting[i + 1..];
    }

    /** rt_mutex_release. */
    method Release(thread: nat) returns (ok: bool)
      requires Valid() && thread in base
      modifies this
      ensures Valid() && ok == (old(owner) == Held(thread))
      ensures !ok || old(hold) > 1 ==> owner == old(owner) && waiting == old(waiting) && priority == old(priority)
      ensures !ok || old(hold) > 1 ==> asked == old(asked) && hold == if ok then old(hold) - 1 else old(hold)
      ensures !ok || old(hold) > 1 ==> (old(Inherits()) ==> Inherits())
      ensures ok && old(hold) == 1 ==> priority == base && asked == Threads(waiting)
      ensures ok && old(hold) == 1 && old(waiting) == [] ==> owner == Nobody && Inherits()
      ensures ok && old(hold) == 1 && old(waiting) != [] ==>
                && owner == Held(old(waiting[0].thread)) && hold == 1 && waiting == old(waiting[1..])
                && (Inherits() <==> forall w | w in old(waiting) :: old(waiting[0].priority) <= w.priority)
      ensures order.Prio? && old(Inherits()) ==> Inherits()
    {
      if owner != Held(thread) {
        return false;
      }
      ok := true;
      if hold > 1 {
        hold := hold - 1;
        return;
      }
      Surrender();
    }

    /** The outermost release. */
    method Surrender()
      requires Valid() && hold == 1
      modifies this
      ensures Valid() && priority == base && asked == Threads(waiting)
      ensures old(waiting) == [] ==> owner == Nobody && Inherits()
      ensures old(waiting) != [] ==>
                && owner == Held(old(waiting[0].thread)) && hold == 1 && waiting == old(waiting[1..])
                && (Inherits() <==> forall w | w in old(waiting) :: old(waiting[0].priority) <= w.priority)
      ensures order.Prio? ==> Inherits()
    {
      var o := owner.thread;
      hold := hold - 1;
      if original != priority[o] {
        priority := priority[o := original];
      }
      if waiting == [] {
        value := value + 1;
        owner, original := Nobody, NO_PRIORITY;
        asked := {};
      } else {
        HandOver();
      }
    }

    /** The first waiting thread becomes the owner. */
    method HandOver()
      requires waiting != [] && hold == 0 && value == 0 && priority == base
      requires Lined(waiting, base) && (order.Prio? ==> ByPriority(waiting))
      modifies this`owner, this`original, this`hold, this`waiting, this`asked
      ensures Valid() && owner == Held(old(waiting[0].thread)) && hold == 1 && waiting == old(waiting[1..])
              && asked == Threads(waiting)
      ensures Inherits() <==> forall w | w in old(waiting) :: old(waiting[0].priority) <= w.priority
      ensures order.Prio? ==> Inherits()
    {
      hide Waits, Lined, ByPriority;
      var first := waiting[0];
      LinedTail(waiting, base);
      if order.Prio? {
        ByPriorityTail(waiting);
      }
      owner, original := Held(first.thread), priority[first.thread];
      hold := hold + 1;
      waiting := waiting[1..];
      asked := Threads(waiting);
      LinedAt(waiting, base);
      assert old(waiting) == [first] + waiting;
      assert first.thread in asked + {first.thread};
    }
  }

  lemma LinedAt(queue: Queue, base: map<nat, nat>)
    requires Lined(queue, base)
    ensures forall w | w in queue :: w.thread in base && w.priority == base[w.thread]
  {
  }

  /** First come, first served: the mutex goes to a thread that is less urgent than one that still waits for it. */
  method LateUrgent() returns (m: Mutex)
    ensures m.Valid() && !m.Inherits() && m.owner.Held? && m.owner.thread in m.priority
            && m.priority[m.owner.thread] == 20
    ensures m.waiting == [Waiter(3, 5, ())]
  {
    m := new Mutex(Fifo, map[1 := 10, 2 := 20, 3 := 5]);
    var r := m.Take(1, true);
    r := m.Take(2, true);
    assert m.waiting == [Waiter(2, 20, ())];
    r := m.Take(3, true);
    assert m.waiting == [Waiter(2, 20, ()), Waiter(3, 5, ())];
    assert m.waiting[1] in m.waiting;
    var ok := m.Release(1);
  }
}
