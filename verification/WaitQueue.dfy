/** The list of threads that wait for an IPC object, in order of arrival or of priority. */
module WaitQueue {
  import opened Seqs

  datatype Order = Fifo | Prio

  datatype Waiter<T> = Waiter(thread: nat, priority: nat, info: T)

  /** Where rt_ipc_list_suspend puts a thread: at the end, or before the first less urgent one. */
  function Suspend<T>(queue: seq<Waiter<T>>, w: Waiter<T>, order: Order): (r: seq<Waiter<T>>)
    ensures |r| == |queue| + 1
  {
    if order.Fifo? then queue + [w]
    else if queue == [] then [w]
    else if w.priority < queue[0].priority then [w] + queue
    else [queue[0]] + Suspend(queue[1..], w, order)
  }

  ghost predicate ByPriority<T>(queue: seq<Waiter<T>>)
  {
    forall i, j | 0 <= i < j < |queue| :: queue[i].priority <= queue[j].priority
  }

  lemma {:induction false} SuspendMembers<T>(queue: seq<Waiter<T>>, w: Waiter<T>, order: Order)
    ensures (forall x | x in Suspend(queue, w, order) :: x in queue || x == w) && w in Suspend(queue, w, order)
    ensures forall x | x in queue :: x in Suspend(queue, w, order)
  {
    if order.Prio? && queue != [] && w.priority >= queue[0].priority {
      SuspendMembers(queue[1..], w, order);
      assert queue == [queue[0]] + queue[1..];
    }
  }

  lemma ByPriorityTail<T>(queue: seq<Waiter<T>>)
    requires queue != []
    ensures ByPriority(queue) <==> ByPriority(queue[1..]) && forall x | x in queue[1..] :: queue[0].priority <= x.priority
  {
    var rest := queue[1..];
    assert forall i | 0 <= i < |rest| :: rest[i] == queue[i + 1];
    if ByPriority(rest) && forall x | x in rest :: queue[0].priority <= x.priority {
      forall i, j | 0 <= i < j < |queue|
        ensures queue[i].priority <= queue[j].priority
      {
        assert queue[j] == rest[j - 1];
        if i > 0 {
          assert queue[i] == rest[i - 1];
        }
      }
    }
  }

  /** The most urgent waiter stays in front; equally urgent ones keep their order of arrival. */
  lemma {:induction false} SuspendSorted<T>(queue: seq<Waiter<T>>, w: Waiter<T>)
    requires ByPriority(queue)
    ensures ByPriority(Suspend(queue, w, Prio))
  {
    if queue != [] {
      ByPriorityTail(queue);
      var r := Suspend(queue, w, Prio);
      if w.priority < queue[0].priority {
        assert r[0] == w && r[1..] == queue;
        forall x | x in queue
          ensures w.priority <= x.priority
        {
          assert x == queue[0] || x in queue[1..];
        }
      } else {
        SuspendSorted(queue[1..], w);
        SuspendMembers(queue[1..], w, Prio);
        assert r[0] == queue[0] && r[1..] == Suspend(queue[1..], w, Prio);
      }
      ByPriorityTail(r);
    }
  }

  lemma {:induction false} SuspendAt<T>(queue: seq<Waiter<T>>, w: Waiter<T>, n: nat)
    requires n <= |queue| && (forall i | 0 <= i < n :: queue[i].priority <= w.priority)
    requires n < |queue| ==> w.priority < queue[n].priority
    ensures queue[..n] + [w] + queue[n..] == Suspend(queue, w, Prio)
    decreases n
  {
    if n > 0 {
      var rest := queue[1..];
      assert forall i | 0 <= i < |rest| :: rest[i] == queue[i + 1];
      SuspendAt(rest, w, n - 1);
      PutBehind(queue, w, n);
    }
  }

  /** `w` stands at place `k` of `r`, and the others as in `queue`. */
  ghost predicate JoinedAt<T>(queue: seq<Waiter<T>>, w: Waiter<T>, r: seq<Waiter<T>>, k: nat)
  {
    k <= |queue| && r == queue[..k] + [w] + queue[k..]
  }

  /**
   Nobody that waits changes its place: with Fifo the new thread is last, with
   Prio it is behind all that are as urgent and before the first that is less.
   */
  lemma {:induction false} SuspendPlace<T>(queue: seq<Waiter<T>>, w: Waiter<T>, order: Order) returns (k: nat)
    ensures JoinedAt(queue, w, Suspend(queue, w, order), k)
    ensures order.Fifo? ==> k == |queue|
    ensures order.Prio? ==> (forall i | 0 <= i < k :: queue[i].priority <= w.priority)
                            && (k < |queue| ==> w.priority < queue[k].priority)
  {
    if order.Fifo? || queue == [] {
      k := |queue|;
    } else if w.priority < queue[0].priority {
      k := 0;
    } else {
      var rest := queue[1..];
      assert forall i | 0 <= i < |rest| :: rest[i] == queue[i + 1];
      k := SuspendPlace(rest, w, order);
      PutBehind(queue, w, k + 1);
      k := k + 1;
    }
  }

  /** The loop of rt_ipc_list_suspend. */
  method SuspendLoop<T>(queue: seq<Waiter<T>>, w: Waiter<T>, order: Order) returns (r: seq<Waiter<T>>)
    ensures r == Suspend(queue, w, order)
  {
    if order.Fifo? {
      return queue + [w];
    }
    var n := 0;
    while n < |queue| && queue[n].priority <= w.priority
      invariant 0 <= n <= |queue| && forall i | 0 <= i < n :: queue[i].priority <= w.priority
    {
      n := n + 1;
    }
    SuspendAt(queue, w, n);
    r := queue[..n] + [w] + queue[n..];
  }
}
