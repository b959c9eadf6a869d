/**
 The message queue.  Sending and receiving each run as two critical sections
 with a copy in between; every method here is one atomic step of a thread, so a
 run of threads is any sequence of these methods.
 */
module MessageQueue {
  import opened Bytes
  import opened Seqs

  const NULL := 0

  /** Singly linked from `head`: the blocks of `s`, in order. */
  ghost predicate Chain(next: map<nat, nat>, head: nat, s: seq<nat>)
    decreases |s|
  {
    if s == [] then head == NULL
    else head == s[0] && head != NULL && head in next && Chain(next, next[head], s[1..])
  }

  lemma {:induction false} ChainFrame(next: map<nat, nat>, head: nat, s: seq<nat>, b: nat, v: nat)
    requires Chain(next, head, s) && b !in s
    ensures Chain(next[b := v], head, s)
    decreases s
  {
    if s != [] {
      ChainFrame(next, next[head], s[1..], b, v);
    }
  }

  lemma {:induction false} ChainAppend(next: map<nat, nat>, head: nat, s: seq<nat>, b: nat)
    requires Chain(next, head, s) && s != [] && Distinct(s) && b !in s && b in next && next[b] == NULL && b != NULL
    ensures Chain(next[s[|s| - 1] := b], head, s + [b])
    decreases s
  {
    var last := s[|s| - 1];
    if |s| == 1 {
      assert (s + [b])[1..] == [b] && [b][1..] == [];
    } else {
      DistinctTail(s);
      assert s[1..][|s| - 2] == last && s[0] != last;
      ChainAppend(next, next[head], s[1..], b);
      assert (s + [b])[1..] == s[1..] + [b];
    }
  }

  lemma ChainHead(next: map<nat, nat>, head: nat, s: seq<nat>)
    requires Chain(next, head, s)
    ensures s == [] <==> head == NULL
    ensures s != [] ==> head in next && head == s[0] && Chain(next, next[head], s[1..])
  {
  }

  /** What a thread holds between its two critical sections; `filled` once the message is copied in. */
  datatype Hold = Sending(block: nat, filled: bool) | Receiving(block: nat)

  /** Where a block is. */
  datatype Place = InFree | InQueue | HeldBy(thread: nat)

  /** Each block of the pool has exactly one place. */
  ghost predicate Placed(place: map<nat, Place>, queue: seq<nat>, free: seq<nat>, holds: map<nat, Hold>, maxMsgs: nat)
  {
    && (forall b :: b in place <==> 1 <= b <= maxMsgs)
    && (forall b :: b in queue <==> b in place && place[b] == InQueue)
    && (forall b :: b in free <==> b in place && place[b] == InFree)
    && (forall t | t in holds :: holds[t].block in place && place[holds[t].block] == HeldBy(t))
    && (forall b | b in place && place[b].HeldBy? :: place[b].thread in holds && holds[place[b].thread].block == b)
    && Distinct(queue) && Distinct(free)
  }

  lemma FreeToHold(place: map<nat, Place>, queue: seq<nat>, free: seq<nat>, holds: map<nat, Hold>, maxMsgs: nat, t: nat)
    requires Placed(place, queue, free, holds, maxMsgs) && t !in holds && free != []
    ensures Placed(place[free[0] := HeldBy(t)], queue, free[1..], holds[t := Sending(free[0], false)], maxMsgs)
  {
    TailMembers(free);
    DistinctTail(free);
    var b := free[0];
    assert b in free && place[b] == InFree && b !in queue;
  }

  lemma FrontToHold(place: map<nat, Place>, queue: seq<nat>, free: seq<nat>, holds: map<nat, Hold>, maxMsgs: nat,
                    t: nat)
    requires Placed(place, queue, free, holds, maxMsgs) && t !in holds && queue != []
    ensures Placed(place[queue[0] := HeldBy(t)], queue[1..], free, holds[t := Receiving(queue[0])], maxMsgs)
  {
    TailMembers(queue);
    DistinctTail(queue);
    var b := queue[0];
    assert b in queue && place[b] == InQueue && b !in free;
  }

  lemma HoldToFree(place: map<nat, Place>, queue: seq<nat>, free: seq<nat>, holds: map<nat, Hold>, maxMsgs: nat, t: nat)
    requires Placed(place, queue, free, holds, maxMsgs) && t in holds
    ensures Placed(place[holds[t].block := InFree], queue, [holds[t].block] + free, holds - {t}, maxMsgs)
  {
  }

  lemma HoldToQueue(place: map<nat, Place>, queue: seq<nat>, free: seq<nat>, holds: map<nat, Hold>, maxMsgs: nat,
                    t: nat)
    requires Placed(place, queue, free, holds, maxMsgs) && t in holds
    ensures Placed(place[holds[t].block := InQueue], queue + [holds[t].block], free, holds - {t}, maxMsgs)
    ensures Placed(place[holds[t].block := InQueue], [holds[t].block] + queue, free, holds - {t}, maxMsgs)
  {
  }

  /** The messages in the blocks of `queue`. */
  ghost function Messages(queue: seq<nat>, data: map<nat, seq<Byte>>): (r: seq<seq<Byte>>)
    ensures |r| == |queue|
  {
    if queue == [] then [] else [if queue[0] in data then data[queue[0]] else []] + Messages(queue[1..], data)
  }

  lemma {:induction false} MessagesFrame(queue: seq<nat>, data: map<nat, seq<Byte>>, b: nat, m: seq<Byte>)
    requires b !in queue
    ensures Messages(queue, data[b := m]) == Messages(queue, data)
  {
    if queue != [] {
      MessagesFrame(queue[1..], data, b, m);
    }
  }

  lemma {:induction false} MessagesAppend(queue: seq<nat>, data: map<nat, seq<Byte>>, b: nat)
    requires b in data
    ensures Messages(queue + [b], data) == Messages(queue, data) + [data[b]]
  {
    if queue != [] {
      assert (queue + [b])[1..] == queue[1..] + [b];
      MessagesAppend(queue[1..], data, b);
    }
  }

  /** Every block has a link and room for a message. */
  ghost predicate Stored(next: map<nat, nat>, data: map<nat, seq<Byte>>, n: nat, msgSize: nat)
  {
    forall b | 1 <= b <= n :: b in next && b in data && |data[b]| == msgSize
  }

  lemma StoredAt(next: map<nat, nat>, data: map<nat, seq<Byte>>, n: nat, msgSize: nat, b: nat, v: nat, m: seq<Byte>)
    requires Stored(next, data, n, msgSize) && 1 <= b <= n
    ensures b in next && b in data && |data[b]| == msgSize
    ensures Stored(next[b := v], data, n, msgSize)
    ensures |m| == msgSize ==> Stored(next, data[b := m], n, msgSize)
  {
  }

  /** The blocks up to `n` are all on the free list. */
  ghost predicate AllFree(next: map<nat, nat>, data: map<nat, seq<Byte>>, freeList: nat, free: seq<nat>,
                          place: map<nat, Place>, n: nat, msgSize: nat)
  {
    && Chain(next, freeList, free) && |free| == n && Distinct(free)
    && (forall b :: b in free <==> 1 <= b <= n) && (forall b :: b in place <==> 1 <= b <= n)
    && (forall b | b in place :: place[b] == InFree && b in next && b in data && |data[b]| == msgSize)
  }

  lemma NoneFree(msgSize: nat)
    ensures AllFree(map[], map[], NULL, [], map[], 0, msgSize)
  {
  }

  lemma AllPlaced(next: map<nat, nat>, data: map<nat, seq<Byte>>, freeList: nat, free: seq<nat>, place: map<nat, Place>,
                  n: nat, msgSize: nat)
    requires AllFree(next, data, freeList, free, place, n, msgSize)
    ensures Placed(place, [], free, map[], n) && Stored(next, data, n, msgSize) && Chain(next, freeList, free)
            && |free| == n
  {
  }

  lemma OneMoreFree(next: map<nat, nat>, data: map<nat, seq<Byte>>, freeList: nat, free: seq<nat>,
                    place: map<nat, Place>, n: nat, msgSize: nat)
    requires AllFree(next, data, freeList, free, place, n, msgSize)
    ensures AllFree(next[n + 1 := freeList], data[n + 1 := seq(msgSize, _ => 0)], n + 1, [n + 1] + free,
                    place[n + 1 := InFree], n + 1, msgSize)
  {
    LinkAtFront(next, freeList, free, n + 1);
    assert forall b :: b in [n + 1] + free <==> b == n + 1 || b in free;
  }

  /** The thread has a message in the block it holds. */
  predicate HasMessage(h: Hold)
  {
    h.Receiving? || h.filled
  }

  /** What a receiver has taken and what a sender has copied in stays in its block, whatever the other threads do. */
  ghost predicate Kept(holds: map<nat, Hold>, data: map<nat, seq<Byte>>, pending: map<nat, seq<Byte>>)
  {
    forall t | t in holds && HasMessage(holds[t]) ::
      t in pending && holds[t].block in data && data[holds[t].block] == pending[t]
  }

  lemma KeptByFill(place: map<nat, Place>, queue: seq<nat>, free: seq<nat>, holds: map<nat, Hold>, maxMsgs: nat,
                   data: map<nat, seq<Byte>>, pending: map<nat, seq<Byte>>, t: nat, m: seq<Byte>)
    requires Placed(place, queue, free, holds, maxMsgs) && Kept(holds, data, pending) && t in holds && holds[t].Sending?
    ensures Kept(holds[t := Sending(holds[t].block, true)], data[holds[t].block := m], pending[t := m])
    ensures Placed(place, queue, free, holds[t := Sending(holds[t].block, true)], maxMsgs)
  {
  }

  lemma KeptSteps(holds: map<nat, Hold>, data: map<nat, seq<Byte>>, pending: map<nat, seq<Byte>>, t: nat, b: nat)
    requires Kept(holds, data, pending)
    ensures Kept(holds - {t}, data, pending) && Kept(holds[t := Sending(b, false)], data, pending)
    ensures b in data ==> Kept(holds[t := Receiving(b)], data, pending[t := data[b]])
  {
  }

  /** A filled block is ready to be the last of the queue. */
  ghost predicate Ended(holds: map<nat, Hold>, next: map<nat, nat>)
  {
    forall t | t in holds && holds[t].Sending? && holds[t].filled ::
      holds[t].block in next && next[holds[t].block] == NULL
  }

  /** Only its holder changes the link of a held block. */
  lemma EndedSteps(place: map<nat, Place>, queue: seq<nat>, free: seq<nat>, holds: map<nat, Hold>, maxMsgs: nat,
                   next: map<nat, nat>, t: nat, b: nat, v: nat)
    requires Placed(place, queue, free, holds, maxMsgs) && Ended(holds, next)
    ensures Ended(holds - {t}, next) && Ended(holds[t := Sending(b, false)], next)
            && Ended(holds[t := Receiving(b)], next)
    ensures t in holds && b == holds[t].block ==> Ended(holds - {t}, next[b := v])
    ensures t in holds && b == holds[t].block && v == NULL ==> Ended(holds[t := Sending(b, true)], next[b := v])
    ensures b in queue ==> Ended(holds - {t}, next[b := v])
  {
  }

  /** A sender's block goes into the queue, at either end. */
  lemma SenderDone(place: map<nat, Place>, queue: seq<nat>, free: seq<nat>, holds: map<nat, Hold>, maxMsgs: nat,
                   data: map<nat, seq<Byte>>, pending: map<nat, seq<Byte>>, next: map<nat, nat>, t: nat,
                   queue': seq<nat>, b: nat, v: nat)
    requires Placed(place, queue, free, holds, maxMsgs) && Kept(holds, data, pending) && Ended(holds, next)
             && t in holds
    requires queue' == queue + [holds[t].block] || queue' == [holds[t].block] + queue
    requires b == holds[t].block || b in queue
    ensures Placed(place[holds[t].block := InQueue], queue', free, holds - {t}, maxMsgs)
    ensures Kept(holds - {t}, data, pending) && Ended(holds - {t}, next[b := v]) && Ended(holds - {t}, next)
  {
    hide Placed, Kept, Ended;
    HoldToQueue(place, queue, free, holds, maxMsgs, t);
    KeptSteps(holds, data, pending, t, 0);
    EndedSteps(place, queue, free, holds, maxMsgs, next, t, b, v);
  }

  /** Nothing is lost or doubled; without urgent messages the order is that of sending. */
  ghost predicate Accounted(queued: seq<seq<Byte>>, taken: seq<seq<Byte>>, waiting: seq<seq<Byte>>, urgentSeen: bool)
  {
    && multiset(queued) == multiset(taken) + multiset(waiting)
    && (!urgentSeen ==> queued == taken + waiting)
  }

  lemma AccountLast(queued: seq<seq<Byte>>, taken: seq<seq<Byte>>, waiting: seq<seq<Byte>>, urgentSeen: bool,
                    m: seq<Byte>)
    requires Accounted(queued, taken, waiting, urgentSeen)
    ensures Accounted(queued + [m], taken, waiting + [m], urgentSeen)
  {
    assert taken + waiting + [m] == taken + (waiting + [m]);
  }

  lemma AccountFirst(queued: seq<seq<Byte>>, taken: seq<seq<Byte>>, waiting: seq<seq<Byte>>, urgentSeen: bool,
                     m: seq<Byte>)
    requires Accounted(queued, taken, waiting, urgentSeen)
    ensures Accounted(queued + [m], taken, [m] + waiting, true)
  {
  }

  lemma AccountTake(queued: seq<seq<Byte>>, taken: seq<seq<Byte>>, waiting: seq<seq<Byte>>, urgentSeen: bool)
    requires Accounted(queued, taken, waiting, urgentSeen) && waiting != []
    ensures Accounted(queued, taken + [waiting[0]], waiting[1..], urgentSeen)
  {
    assert waiting == [waiting[0]] + waiting[1..];
    assert taken + waiting == taken + [waiting[0]] + waiting[1..];
  }

  /** Appending a block, in the way of the code: through the tail if there is one. */
  lemma LinkAtEnd(next: map<nat, nat>, head: nat, s: seq<nat>, b: nat)
    requires Chain(next, head, s) && Distinct(s) && b !in s && b in next && next[b] == NULL && b != NULL
    ensures if s == [] then Chain(next, b, [b]) else Chain(next[s[|s| - 1] := b], head, s + [b])
    ensures s == [] <==> head == NULL
  {
    ChainHead(next, head, s);
    if s == [] {
      assert [b][1..] == [];
    } else {
      ChainAppend(next, head, s, b);
    }
  }

  lemma LinkAtFront(next: map<nat, nat>, head: nat, s: seq<nat>, b: nat)
    requires Chain(next, head, s) && b !in s && b != NULL
    ensures Chain(next[b := head], b, [b] + s) && (s == [] <==> head == NULL)
  {
    ChainHead(next, head, s);
    ChainFrame(next, head, s, b, head);
    assert ([b] + s)[1..] == s;
  }

  lemma MessagesFront(queue: seq<nat>, data: map<nat, seq<Byte>>, b: nat)
    requires b in data
    ensures Messages([b] + queue, data) == [data[b]] + Messages(queue, data)
  {
    assert ([b] + queue)[1..] == queue;
  }

  lemma MessagesTake(queue: seq<nat>, data: map<nat, seq<Byte>>)
    requires queue != [] && queue[0] in data
    ensures Messages(queue, data)[0] == data[queue[0]] && Messages(queue[1..], data) == Messages(queue, data)[1..]
  {
  }

  lemma LastOfTail(s: seq<nat>)
    requires Distinct(s) && s != []
    ensures s[|s| - 1] == s[0] <==> |s| == 1
    ensures |s| > 1 ==> s[1..][|s| - 2] == s[|s| - 1]
  {
  }

  /** The links, head, tail and count agree with the queue and the free list. */
  ghost predicate LinkedUp(next: map<nat, nat>, data: map<nat, seq<Byte>>, head: nat, tail: nat, freeList: nat,
                           entry: nat, queue: seq<nat>, free: seq<nat>, maxMsgs: nat, msgSize: nat)
  {
    && Chain(next, head, queue) && Chain(next, freeList, free)
    && tail == (if queue == [] then NULL else queue[|queue| - 1])
    && entry == |queue|
    && Stored(next, data, maxMsgs, msgSize)
  }

  class Queue {
    const msgSize: nat
    const maxMsgs: nat
    var next: map<nat, nat>
    var data: map<nat, seq<Byte>>
    var head: nat
    var tail: nat
    var freeList: nat
    var entry: nat
    var holds: map<nat, Hold>
    ghost var queue: seq<nat>
    ghost var free: seq<nat>
    ghost var place: map<nat, Place>
    /** Messages in the order they were queued, and in the order they were taken. */
    ghost var queued: seq<seq<Byte>>
    ghost var taken: seq<seq<Byte>>
    ghost var urgentSeen: bool
    /** The message in the block of each thread that has taken or copied in one. */
    ghost var pending: map<nat, seq<Byte>>

    ghost predicate Linked()
      reads this
    {
      LinkedUp(next, data, head, tail, freeList, entry, queue, free, maxMsgs, msgSize)
    }

    /** The messages that wait, first to last. */
    ghost function Contents(): seq<seq<Byte>>
      reads this
    {
      Messages(queue, data)
    }

    ghost predicate Valid()
      reads this
    {
      && Placed(place, queue, free, holds, maxMsgs)
      && LinkedUp(next, data, head, tail, freeList, entry, queue, free, maxMsgs, msgSize)
      && Accounted(queued, taken, Messages(queue, data), urgentSeen) && Kept(holds, data, pending) && Ended(holds, next)
    }

    /** rt_mq_init: all blocks are free. */
    constructor (msgSize: nat, maxMsgs: nat)
      ensures Valid() && queue == [] && |free| == maxMsgs && holds == map[] && !urgentSeen && queued == []
              && taken == []
    {
      hide AllFree, Placed, Stored;
      this.msgSize, this.maxMsgs := msgSize, maxMsgs;
      data := map[];
      head, tail, entry, holds := NULL, NULL, 0, map[];
      queue, queued, taken, urgentSeen, pending := [], [], [], false, map[];
      next, freeList, free, place := map[], NULL, [], map[];
      new;
      var temp := 0;
      NoneFree(msgSize);
      while temp < maxMsgs
        invariant 0 <= temp <= maxMsgs && AllFree(next, data, freeList, free, place, temp, msgSize)
        modifies this`next, this`freeList, this`free, this`place, this`data
      {
        OneMoreFree(next, data, freeList, free, place, temp, msgSize);
        next := next[temp + 1 := freeList];
        data := data[temp + 1 := seq(msgSize, _ => 0)];
        freeList := temp + 1;
        free := [temp + 1] + free;
        place := place[temp + 1 := InFree];
        temp := temp + 1;
      }
      AllPlaced(next, data, freeList, free, place, maxMsgs, msgSize);
    }

    /** First section of send and urgent: a block off the free list, unless the pool is used up. */
    method TakeFree(t: nat) returns (ok: bool)
      requires Valid() && t !in holds
      modifies this`freeList, this`holds, this`free, this`place
      ensures Valid() && ok == old(free != [])
      ensures if ok then holds == old(holds)[t := Sending(old(free[0]), false)] && free == old(free[1..])
              else holds == old(holds) && free == old(free)
    {
      hide Placed, Messages, Accounted, Distinct, Stored, Chain, Kept, Ended;
      ChainHead(next, freeList, free);
      var msg := freeList;
      if msg == NULL {
        return false;
      }
      FreeToHold(place, queue, free, holds, maxMsgs, t);
      KeptSteps(holds, data, pending, t, msg);
      EndedSteps(place, queue, free, holds, maxMsgs, next, t, msg, NULL);
      freeList := next[msg];
      holds := holds[t := Sending(msg, false)];
      place := place[msg := HeldBy(t)];
      free := free[1..];
      ok := true;
    }

    lemma HeldApart(t: nat)
      requires Placed(place, queue, free, holds, maxMsgs) && t in holds
      ensures holds[t].block !in queue && holds[t].block !in free && 1 <= holds[t].block <= maxMsgs
    {
    }

    lemma PlacedDistinct()
      requires Placed(place, queue, free, holds, maxMsgs)
      ensures Distinct(queue) && Distinct(free)
      ensures queue != [] ==>
                1 <= queue[0] <= maxMsgs && 1 <= queue[|queue| - 1] <= maxMsgs && queue[|queue| - 1] !in free
    {
      assert queue != [] ==> queue[0] in queue && queue[|queue| - 1] in queue;
    }

    /** The copy into the block that the thread holds, outside of any critical section. */
    method Fill(t: nat, message: seq<Byte>)
      requires Valid() && t in holds && holds[t].Sending? && |message| <= msgSize
      modifies this`next, this`data, this`holds, this`pending
      ensures Valid() && Contents() == old(Contents()) && holds == old(holds)[t := Sending(old(holds[t].block), true)]
      ensures t in pending && message <= pending[t] && pending == old(pending)[t := pending[t]]
      ensures holds[t].block in old(data) && |old(data)[holds[t].block]| == msgSize
      ensures data == old(data)[holds[t].block := message + old(data)[holds[t].block][|message|..]]
    {
      hide Placed, Messages, Accounted, Distinct, Stored, Chain, Kept, Ended;
      var msg := holds[t].block;
      HeldApart(t);
      StoredAt(next, data, maxMsgs, msgSize, msg, NULL, []);
      ChainFrame(next, head, queue, msg, NULL);
      ChainFrame(next, freeList, free, msg, NULL);
      EndedSteps(place, queue, free, holds, maxMsgs, next, t, msg, NULL);
      next := next[msg := NULL];
      var content := message + data[msg][|message|..];
      MessagesFrame(queue, data, msg, content);
      KeptByFill(place, queue, free, holds, maxMsgs, data, pending, t, content);
      StoredAt(next, data, maxMsgs, msgSize, msg, NULL, content);
      data := data[msg := content];
      holds, pending := holds[t := Sending(msg, true)], pending[t := content];
    }

    /** The block `msg` becomes the last of the queue. */
    method Append(msg: nat)
      requires Linked() && Distinct(queue) && msg !in queue && msg !in free && 1 <= msg <= maxMsgs
      requires msg in next && next[msg] == NULL
      requires queue != [] ==> 1 <= queue[|queue| - 1] <= maxMsgs && queue[|queue| - 1] !in free
      modifies this`next, this`head, this`tail, this`entry, this`queue
      ensures Linked() && queue == old(queue) + [msg]
      ensures next == if old(queue) == [] then old(next) else old(next)[old(queue)[|old(queue)| - 1] := msg]
    {
      hide Chain, Distinct, Stored;
      LinkAtEnd(next, head, queue, msg);
      assert queue == [] ==> queue + [msg] == [msg];
      if tail != NULL {
        StoredAt(next, data, maxMsgs, msgSize, tail, msg, []);
        ChainFrame(next, freeList, free, tail, msg);
        next := next[tail := msg];
      }
      tail := msg;
      if head == NULL {
        head := msg;
      }
      entry := entry + 1;
      queue := queue + [msg];
    }

    /** The block `msg` becomes the first. */
    method Prepend(msg: nat)
      requires Linked() && msg !in queue && msg !in free && 1 <= msg <= maxMsgs
      requires queue != [] ==> queue[|queue| - 1] != NULL
      modifies this`next, this`head, this`tail, this`entry, this`queue
      ensures Linked() && queue == [msg] + old(queue) && next == old(next[msg := head])
    {
      hide Chain, Stored;
      StoredAt(next, data, maxMsgs, msgSize, msg, head, []);
      LinkAtFront(next, head, queue, msg);
      ChainFrame(next, freeList, free, msg, head);
      next := next[msg := head];
      head := msg;
      if tail == NULL {
        tail := msg;
      }
      entry := entry + 1;
      queue := [msg] + queue;
    }

    /** The first block leaves the queue. */
    method RemoveFirst() returns (msg: nat)
      requires Linked() && Distinct(queue) && queue != []
      modifies this`head, this`tail, this`entry, this`queue
      ensures Linked() && msg == old(queue[0]) && queue == old(queue[1..])
    {
      hide Chain, Distinct, Stored;
      ChainHead(next, head, queue);
      LastOfTail(queue);
      msg := head;
      head := next[msg];
      if tail == msg {
        tail := NULL;
      }
      entry := entry - 1;
      queue := queue[1..];
    }

    /** Second section of send: the block goes to the end of the queue. */
    method LinkLast(t: nat)
      requires Valid() && t in holds && holds[t].Sending? && holds[t].filled
      modifies this`next, this`head, this`tail, this`entry, this`holds, this`queue, this`place, this`queued
      ensures Valid() && holds == old(holds) - {t}
      ensures t in pending && Contents() == old(Contents()) + [pending[t]] && queued == old(queued) + [pending[t]]
    {
      hide Placed, Messages, Accounted, Distinct, Chain, Stored, Kept, Ended, LinkedUp;
      var msg := holds[t].block;
      HeldApart(t);
      PlacedDistinct();
      HasData(msg);
      SenderDone(place, queue, free, holds, maxMsgs, data, pending, next, t, queue + [msg],
                 if queue == [] then msg else queue[|queue| - 1], msg);
      AccountLast(queued, taken, Contents(), urgentSeen, data[msg]);
      MessagesAppend(queue, data, msg);
      FilledAt(t);
      PendingAt(t);
      Append(msg);
      queued, holds, place := queued + [data[msg]], holds - {t}, place[msg := InQueue];
    }

    lemma FilledAt(t: nat)
      requires Ended(holds, next) && t in holds && holds[t].Sending? && holds[t].filled
      ensures holds[t].block in next && next[holds[t].block] == NULL
    {
    }

    lemma PendingAt(t: nat)
      requires Kept(holds, data, pending) && t in holds && HasMessage(holds[t])
      ensures t in pending && holds[t].block in data && data[holds[t].block] == pending[t]
    {
    }

    lemma EntryIs()
      requires Linked()
      ensures entry == |queue|
    {
    }

    lemma HasData(b: nat)
      requires Linked() && 1 <= b <= maxMsgs
      ensures b in data && |data[b]| == msgSize
    {
    }

    /** Second section of urgent: the block goes to the front. */
    method LinkFirst(t: nat)
      requires Valid() && t in holds && holds[t].Sending? && holds[t].filled
      modifies this`next, this`head, this`tail, this`entry, this`holds, this`queue, this`place, this`queued,
               this`urgentSeen
      ensures Valid() && holds == old(holds) - {t} && urgentSeen
      ensures t in pending && Contents() == [pending[t]] + old(Contents()) && queued == old(queued) + [pending[t]]
    {
      hide Placed, Messages, Accounted, Distinct, Chain, Stored, Kept, Ended, LinkedUp;
      var msg := holds[t].block;
      HeldApart(t);
      PlacedDistinct();
      HasData(msg);
      SenderDone(place, queue, free, holds, maxMsgs, data, pending, next, t, [msg] + queue, msg, head);
      AccountFirst(queued, taken, Contents(), urgentSeen, data[msg]);
      MessagesFront(queue, data, msg);
      PendingAt(t);
      Prepend(msg);
      queued, urgentSeen, holds, place := queued + [data[msg]], true, holds - {t}, place[msg := InQueue];
    }

    /** First section of recv: the front block is taken; an empty queue is left alone. */
    method TakeFirst(t: nat) returns (ok: bool)
      requires Valid() && t !in holds
      modifies this`head, this`tail, this`entry, this`holds, this`queue, this`place, this`taken, this`pending
      ensures Valid() && ok == old(Contents() != [])
      ensures if ok then
                t in holds && holds == old(holds)[t := Receiving(holds[t].block)]
                && pending == old(pending)[t := old(Contents()[0])] && Contents() == old(Contents()[1..])
                && taken == old(taken) + [old(Contents()[0])]
              else holds == old(holds) && Contents() == old(Contents()) && pending == old(pending) && taken == old(taken)
    {
      hide Placed, Messages, Accounted, Distinct, Chain, Stored, Kept, Ended, LinkedUp;
      EntryIs();
      if entry == 0 {
        return false;
      }
      PlacedDistinct();
      HasData(queue[0]);
      FrontToHold(place, queue, free, holds, maxMsgs, t);
      KeptSteps(holds, data, pending, t, queue[0]);
      MessagesTake(queue, data);
      EndedSteps(place, queue, free, holds, maxMsgs, next, t, queue[0], NULL);
      AccountTake(queued, taken, Contents(), urgentSeen);
      var msg := RemoveFirst();
      holds, place := holds[t := Receiving(msg)], place[msg := HeldBy(t)];
      taken, pending := taken + [data[msg]], pending[t := data[msg]];
      ok := true;
    }

    /** Copy out and second section of recv: the block goes back to the free list. */
    method GiveBack(t: nat, size: nat) returns (message: seq<Byte>)
      requires Valid() && t in holds && holds[t].Receiving?
      modifies this`next, this`freeList, this`holds, this`free, this`place
      ensures Valid() && holds == old(holds) - {t} && free == [old(holds[t].block)] + old(free)
              && Contents() == old(Contents())
      ensures t in pending && |pending[t]| == msgSize
              && message == pending[t][..if size > msgSize then msgSize else size]
    {
      hide Placed, Messages, Accounted, Distinct, Stored, Chain, Kept, Ended;
      var msg := holds[t].block;
      HeldApart(t);
      StoredAt(next, data, maxMsgs, msgSize, msg, freeList, []);
      message := data[msg][..if size > msgSize then msgSize else size];
      HoldToFree(place, queue, free, holds, maxMsgs, t);
      KeptSteps(holds, data, pending, t, msg);
      PendingAt(t);
      EndedSteps(place, queue, free, holds, maxMsgs, next, t, msg, freeList);
      ChainFrame(next, head, queue, msg, freeList);
      LinkAtFront(next, freeList, free, msg);
      next := next[msg := freeList];
      freeList := msg;
      holds := holds - {t};
      place := place[msg := InFree];
      free := [msg] + free;
    }
  }
}
