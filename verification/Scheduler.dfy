/**
 The priority scheduler: ready lists, one for each priority, and a bitmap of one
 or two levels that finds the first non-empty list.  A bitmap is the set of its
 one bits.  Every method is one step of the kernel, but for rt_thread_resume,
 which is two steps with interrupts enabled in between.
 */
module Scheduler {
  import opened Seqs

  type Bits = set<nat>

  /** __rt_ffs minus one: the lowest bit that is set. */
  ghost predicate IsLeast(bits: Bits, i: nat)
  {
    i in bits && forall j | j in bits :: i <= j
  }

  lemma {:induction false} LeastExists(bits: Bits) returns (i: nat)
    requires bits != {}
    ensures IsLeast(bits, i)
    decreases |bits|
  {
    var x :| x in bits;
    if bits == {x} {
      i := x;
    } else {
      var rest := bits - {x};
      assert bits == rest + {x};
      var y := LeastExists(rest);
      i := if x < y then x else y;
    }
  }

  method LowestBit(bits: Bits) returns (i: nat)
    requires bits != {}
    ensures IsLeast(bits, i)
  {
    ghost var least := LeastExists(bits);
    i := 0;
    while i !in bits
      invariant i <= least && forall j | 0 <= j < i :: j !in bits
      decreases least - i
    {
      i := i + 1;
    }
  }

  datatype Stat = Init | Ready | Running | Suspend | Close

  datatype Thread = Thread(stat: Stat, priority: nat)

  predicate Able(t: Thread)
  {
    t.stat == Ready || t.stat == Running
  }

  type Lists = seq<seq<nat>>

  /** The bit of priority `p` in the second level: byte `p / 8`, bit `p % 8`. */
  predicate InTable(table: seq<Bits>, p: nat)
  {
    p / 8 < |table| && p % 8 in table[p / 8]
  }

  /** The bitmaps mark exactly the lists that are not empty. */
  ghost predicate Marked(wide: bool, group: Bits, table: seq<Bits>, ready: Lists)
  {
    if wide then
      && |ready| <= 8 * |table|
      && (forall n :: n in group <==> 0 <= n < |table| && table[n] != {})
      && (forall p | 0 <= p < |ready| :: ready[p] != [] <==> InTable(table, p))
      && (forall n, b | 0 <= n < |table| && b in table[n] :: b < 8 && 8 * n + b < |ready|)
    else
      forall p :: p in group <==> 0 <= p < |ready| && ready[p] != []
  }

  /** Thread `t` at the end of list `p`. */
  function Appended(ready: Lists, p: nat, t: nat): Lists
    requires p < |ready|
  {
    ready[p := ready[p] + [t]]
  }

  /** Thread `t` out of list `p`. */
  function Removed(ready: Lists, p: nat, t: nat): Lists
    requires p < |ready|
  {
    ready[p := Without(ready[p], t)]
  }

  /** A thread is in the list of its priority if and only if it is ready, and in no other list. */
  ghost predicate Listed(threads: map<nat, Thread>, ready: Lists)
  {
    && (forall p, t | 0 <= p < |ready| && t in ready[p] :: t in threads && threads[t] == Thread(Ready, p))
    && (forall t | t in threads && threads[t].stat == Ready ::
          threads[t].priority < |ready| && t in ready[threads[t].priority])
    && (forall p | 0 <= p < |ready| :: Distinct(ready[p]))
  }

  // ------------------------------------------------------------ bitmaps

  lemma PlaceOf(n: nat, b: nat)
    requires b < 8
    ensures (8 * n + b) / 8 == n && (8 * n + b) % 8 == b
  {
  }

  lemma InTableSet(table: seq<Bits>, p: nat, q: nat)
    requires p / 8 < |table|
    ensures InTable(table[p / 8 := table[p / 8] + {p % 8}], q) <==> InTable(table, q) || q == p
    ensures InTable(table[p / 8 := table[p / 8] - {p % 8}], q) <==> InTable(table, q) && q != p
  {
    assert p == 8 * (p / 8) + p % 8 && q == 8 * (q / 8) + q % 8;
  }

  lemma MarkedInsert(group: Bits, table: seq<Bits>, ready: Lists, p: nat, s: seq<nat>)
    requires Marked(true, group, table, ready) && p < |ready| && s != []
    ensures p / 8 < |table| && Marked(true, group + {p / 8}, table[p / 8 := table[p / 8] + {p % 8}], ready[p := s])
  {
    hide InTable;
    var ready', n := ready[p := s], p / 8;
    var table' := table[n := table[n] + {p % 8}];
    assert p % 8 in table'[n];
    forall q | 0 <= q < |ready'|
      ensures ready'[q] != [] <==> InTable(table', q)
    {
      InTableSet(table, p, q);
    }
  }

  lemma MarkedEmpty(group: Bits, table: seq<Bits>, ready: Lists, p: nat)
    requires Marked(true, group, table, ready) && p < |ready|
    ensures p / 8 < |table|
    ensures var table' := table[p / 8 := table[p / 8] - {p % 8}];
            Marked(true, if table'[p / 8] == {} then group - {p / 8} else group, table', ready[p := []])
  {
    hide InTable;
    var ready', n := ready[p := []], p / 8;
    var table' := table[n := table[n] - {p % 8}];
    assert table'[n] != {} ==> table[n] != {};
    forall q | 0 <= q < |ready'|
      ensures ready'[q] != [] <==> InTable(table', q)
    {
      InTableSet(table, p, q);
    }
  }

  /** The list of a priority changes, but stays empty or not empty. */
  lemma MarkedKept(wide: bool, group: Bits, table: seq<Bits>, ready: Lists, p: nat, s: seq<nat>)
    requires Marked(wide, group, table, ready) && p < |ready| && (s == [] <==> ready[p] == [])
    ensures Marked(wide, group, table, ready[p := s])
  {
    hide InTable;
  }

  lemma MarkedNarrow(group: Bits, table: seq<Bits>, ready: Lists, p: nat, s: seq<nat>)
    requires Marked(false, group, table, ready) && p < |ready|
    ensures Marked(false, if s == [] then group - {p} else group + {p}, table, ready[p := s])
  {
  }

  /** The first list that is not empty. */
  ghost predicate IsHighest(ready: Lists, p: nat)
  {
    p < |ready| && ready[p] != [] && forall q | 0 <= q < p :: ready[q] == []
  }

  lemma HighestNarrow(group: Bits, table: seq<Bits>, ready: Lists, p: nat)
    requires Marked(false, group, table, ready) && IsLeast(group, p)
    ensures IsHighest(ready, p)
  {
  }

  lemma HighestWide(group: Bits, table: seq<Bits>, ready: Lists, n: nat, b: nat)
    requires Marked(true, group, table, ready) && IsLeast(group, n) && n < |table| && IsLeast(table[n], b)
    ensures IsHighest(ready, 8 * n + b)
  {
    hide InTable;
    PlaceOf(n, b);
    TableBit(table, n, b, 8 * n + b);
    forall q | 0 <= q < 8 * n + b
      ensures ready[q] == []
    {
      NoEarlierBit(group, table, n, b, q);
    }
  }

  lemma TableBit(table: seq<Bits>, n: nat, b: nat, p: nat)
    requires n < |table| && b in table[n] && p / 8 == n && p % 8 == b
    ensures InTable(table, p)
  {
  }

  lemma NoEarlierBit(group: Bits, table: seq<Bits>, n: nat, b: nat, q: nat)
    requires (forall m :: m in group <==> 0 <= m < |table| && table[m] != {}) && n < |table|
    requires IsLeast(group, n) && IsLeast(table[n], b) && b < 8 && q < 8 * n + b
    ensures !InTable(table, q)
  {
    var m := q / 8;
    assert q == 8 * m + q % 8;
    assert m in group ==> n <= m;
    assert m < |table| && table[m] != {} ==> m in group;
  }

  // ------------------------------------------------------------ ready lists

  /** A thread joins the list of its priority; a thread that is in it already would be in it twice. */
  lemma ListedInsert(threads: map<nat, Thread>, ready: Lists, t: nat)
    requires t in threads && threads[t].priority < |ready|
    ensures var p := threads[t].priority;
            Listed(threads, ready) ==>
              (Listed(threads[t := Thread(Ready, p)], ready[p := ready[p] + [t]]) <==> threads[t].stat != Ready)
  {
    var p := threads[t].priority;
    var ready' := ready[p := ready[p] + [t]];
    if Listed(threads, ready) && threads[t].stat == Ready {
      var k :| 0 <= k < |ready[p]| && ready[p][k] == t;
      assert ready'[p][k] == ready'[p][|ready[p]|];
    }
  }

  /** A thread leaves the list of its priority, if it is in it, and is not ready any more. */
  lemma ListedRemove(threads: map<nat, Thread>, ready: Lists, t: nat, now: Thread)
    requires Listed(threads, ready) && t in threads && now.stat != Ready && threads[t].priority < |ready|
    ensures var p := threads[t].priority;
            Listed(threads[t := now], ready[p := Without(ready[p], t)])
  {
    var p := threads[t].priority;
    WithoutMembers(ready[p], t);
    WithoutDistinct(ready[p], t);
  }

  class Sched {
    const wide: bool
    const priorityMax: nat
    var threads: map<nat, Thread>
    var ready: Lists
    var group: Bits
    var table: seq<Bits>
    var current: nat
    var lockNest: nat

    /** The bitmaps fit the lists. */
    ghost predicate Shape()
      reads this
    {
      |ready| == priorityMax && Marked(wide, group, table, ready)
          && forall t | t in threads :: threads[t].priority < priorityMax
    }

    ghost predicate Lists()
      reads this
    {
      Shape() && Listed(threads, ready)
    }

    /** The current thread is in no list, and no other thread runs. */
    ghost predicate Valid()
      reads this
    {
      && Lists() && current in threads && threads[current].stat != Ready
      && (forall t | t in threads && threads[t].stat == Running :: t == current)
    }

    /** After the start of the scheduler: one thread runs, the others are not started. */
    constructor (wide: bool, priorityMax: nat, threads: map<nat, Thread>, first: nat)
      requires first in threads && threads[first].stat == Running
      requires forall t | t in threads :: threads[t].priority < priorityMax && (t != first ==> threads[t].stat == Init)
      ensures Valid() && current == first && this.threads == threads
    {
      this.wide, this.priorityMax, this.threads := wide, priorityMax, threads;
      ready := seq(priorityMax, _ => []);
      group, table := {}, seq((priorityMax + 7) / 8, _ => {});
      current, lockNest := first, 0;
    }

    /** rt_schedule_insert_thread: the lists stay right exactly if the thread is not in one of them yet. */
    method InsertThread(t: nat)
      requires Shape() && t in threads
      modifies this`threads, this`ready, this`group, this`table
      ensures Shape()
      ensures threads == old(threads)[t := Thread(if t == current then Running else Ready, old(threads[t].priority))]
      ensures ready == if t == current then old(ready) else Appended(old(ready), old(threads[t].priority), t)
      ensures old(Listed(threads, ready)) ==> (Listed(threads, ready) <==> old(threads[t].stat) != Ready)
    {
      hide Marked, Listed;
      var p := threads[t].priority;
      if t == current {
        ListedRunning(threads, ready, t);
        threads := threads[t := Thread(Running, p)];
        return;
      }
      ListedInsert(threads, ready, t);
      if wide {
        MarkedInsert(group, table, ready, p, ready[p] + [t]);
        table := table[p / 8 := table[p / 8] + {p % 8}];
        group := group + {p / 8};
      } else {
        MarkedNarrow(group, table, ready, p, ready[p] + [t]);
        group := group + {p};
      }
      threads := threads[t := Thread(Ready, p)];
      ready := ready[p := ready[p] + [t]];
    }

    /** rt_schedule_remove_thread, and the state `now` that the caller gives the thread. */
    method RemoveThread(t: nat, now: Thread)
      requires Lists() && t in threads && now.stat != Ready && now.priority < priorityMax
      modifies this`threads, this`ready, this`group, this`table
      ensures Lists() && threads == old(threads)[t := now]
      ensures ready == Removed(old(ready), old(threads[t].priority), t)
    {
      hide Marked, Listed, Without;
      var p := threads[t].priority;
      ListedRemove(threads, ready, t, now);
      var rest := Without(ready[p], t);
      WithoutMembers(ready[p], t);
      if rest != [] {
        MarkedKept(wide, group, table, ready, p, rest);
      } else if wide {
        MarkedEmpty(group, table, ready, p);
        table := table[p / 8 := table[p / 8] - {p % 8}];
        if table[p / 8] == {} {
          group := group - {p / 8};
        }
      } else {
        MarkedNarrow(group, table, ready, p, []);
        group := group - {p};
      }
      threads := threads[t := now];
      ready := ready[p := rest];
    }

    /** _get_highest_priority_thread. */
    method HighestPriorityThread() returns (t: nat, priority: nat)
      requires Lists() && group != {}
      ensures IsHighest(ready, priority) && t == ready[priority][0]
    {
      hide Listed;
      if wide {
        var number := LowestBit(group);
        var bit := LowestBit(table[number]);
        HighestWide(group, table, ready, number, bit);
        priority := 8 * number + bit;
      } else {
        priority := LowestBit(group);
        HighestNarrow(group, table, ready, priority);
      }
      t := ready[priority][0];
    }

    lemma GroupTells()
      requires Lists()
      ensures group == {} <==> forall p | 0 <= p < priorityMax :: ready[p] == []
    {
      hide Listed, InTable;
      if group != {} {
        var n := LeastExists(group);
        if wide {
          var b := LeastExists(table[n]);
          HighestWide(group, table, ready, n, b);
        } else {
          HighestNarrow(group, table, ready, n);
        }
      } else if wide {
        forall p | 0 <= p < priorityMax
          ensures ready[p] == []
        {
          NotInTable(group, table, p);
        }
      }
    }

    /** The head of the first list is ready, so it is not the current thread. */
    lemma HeadReady(h: nat)
      requires Valid() && IsHighest(ready, h)
      ensures h < priorityMax && ready[h] != [] && ready[h][0] in threads && threads[ready[h][0]] == Thread(Ready, h)
      ensures ready[h][0] != current && Distinct(ready[h])
      ensures forall p | 0 <= p < h :: ready[p] == []
    {
      assert ready[h][0] in ready[h];
    }

    /** A thread that is not ready is in no list. */
    lemma NotListed(t: nat)
      requires Lists() && t in threads && threads[t].stat != Ready
      ensures ready[threads[t].priority := Without(ready[threads[t].priority], t)] == ready
    {
      WithoutAbsent(ready[threads[t].priority], t);
    }

    /** The switch itself: the old thread may go to the end of its list, the new one leaves the front of its own. */
    method SwitchTo(to: nat, highest: nat, inserts: bool)
      requires Valid() && IsHighest(ready, highest) && to == ready[highest][0] && to != current
      requires inserts == (threads[current].stat == Running) && (inserts ==> threads[current].priority >= highest)
      modifies this`threads, this`ready, this`group, this`table, this`current
      ensures Valid() && Switched(old(threads), old(ready), old(current), highest, threads, ready, current)
      ensures threads[current] == Thread(Running, highest)
    {
      hide Marked, Listed, Without, Distinct;
      HeadReady(highest);
      var from := current;
      current := to;
      if inserts {
        InsertThread(from);
      }
      ListDistinct(highest);
      WithoutFirst(ready[highest]);
      RemoveThread(to, Thread(Running, threads[to].priority));
    }

    lemma ListDistinct(p: nat)
      requires Lists() && p < priorityMax
      ensures Distinct(ready[p])
    {
    }

    /** No ready thread is more urgent than the current one, which runs. */
    ghost predicate MostUrgent()
      reads this
      requires current in threads
    {
      threads[current].stat == Running && forall p | 0 <= p < |ready| && p < threads[current].priority :: ready[p] == []
    }

    /**
     rt_schedule.  Unless the scheduler is locked or nothing is ready, the most
     urgent thread runs afterwards; among equals the lists are rotated.
     */
    method Schedule()
      requires Valid()
      modifies this`threads, this`ready, this`group, this`table, this`current
      ensures Valid() && Scheduled(lockNest > 0, old(threads), old(ready), old(current), threads, ready, current)
      ensures lockNest == 0 && (exists p :: 0 <= p < priorityMax && old(ready)[p] != []) ==> MostUrgent()
      ensures AtMostSwitched(old(threads), old(current), threads, current)
    {
      hide Marked, Listed, Without, IsHighest;
      GroupTells();
      if lockNest == 0 {
        if group != {} {
          var to, highest := HighestPriorityThread();
          var inserts := false;
          if threads[current].stat == Running {
            if threads[current].priority < highest {
              to := current;
            } else {
              inserts := true;
            }
          }
          HeadReady(highest);
          if to != current {
            SwitchTo(to, highest, inserts);
          } else {
            NotListed(current);
            RemoveThread(current, threads[current]);
          }
        }
      }
    }

    // ---------------------------------------------------------- the steps of threads

    /** First part of rt_thread_resume: an error unless the thread is suspended; it leaves the list it waits in. */
    method ResumeBegin(t: nat) returns (ok: bool)
      requires Valid() && t in threads
      ensures ok == (threads[t].stat == Suspend)
    {
      ok := threads[t].stat == Suspend;
    }

    /**
     Second part of rt_thread_resume, later: the thread becomes ready.  All is well
     exactly if nobody else has made it ready in the meantime.
     */
    method ResumeEnd(t: nat)
      requires Valid() && t in threads
      modifies this`threads, this`ready, this`group, this`table
      ensures threads == old(threads)[t := Thread(if t == current then Running else Ready, old(threads[t].priority))]
      ensures ready == if t == current then old(ready) else Appended(old(ready), old(threads[t].priority), t)
      ensures Valid() <==> old(threads[t].stat) != Ready
    {
      hide Marked, Listed;
      InsertThread(t);
    }

    /** rt_thread_resume with nothing in between. */
    method Resume(t: nat) returns (ok: bool)
      requires Valid() && t in threads
      modifies this`threads, this`ready, this`group, this`table
      ensures Valid() && ok == (old(threads[t].stat) == Suspend)
      ensures if ok then
                && threads == old(threads)[t := Thread(if t == current then Running else Ready, old(threads[t].priority))]
                && ready == if t == current then old(ready) else Appended(old(ready), old(threads[t].priority), t)
              else threads == old(threads) && ready == old(ready)
    {
      hide Marked, Listed;
      ok := ResumeBegin(t);
      if ok {
        ResumeEnd(t);
      }
    }

    /** Two threads that resume the same one, step by step in turn: it is in its list twice. */
    method ResumeTwice(t: nat) returns (first: bool, second: bool)
      requires Valid() && t in threads && threads[t].stat == Suspend && t != current
      modifies this`threads, this`ready, this`group, this`table
      ensures first && second && !Valid()
    {
      hide Marked, Listed;
      first := ResumeBegin(t);
      second := ResumeBegin(t);
      ResumeEnd(t);
      ResumeEnd(t);
    }

    /** rt_thread_suspend: an error unless the thread is ready or running. */
    method SuspendThread(t: nat) returns (ok: bool)
      requires Valid() && t in threads
      modifies this`threads, this`ready, this`group, this`table
      ensures Valid() && ok == (old(threads[t].stat) == Ready || old(threads[t].stat) == Running)
      ensures threads == if ok then old(threads)[t := Thread(Suspend, old(threads[t].priority))] else old(threads)
      ensures ready == if ok then Removed(old(ready), old(threads[t].priority), t) else old(ready)
    {
      hide Marked, Listed, Without;
      if threads[t].stat != Ready && threads[t].stat != Running {
        return false;
      }
      RemoveThread(t, Thread(Suspend, threads[t].priority));
      ok := true;
    }

    /** rt_thread_control with RT_THREAD_CTRL_CHANGE_PRIORITY: a ready thread goes to the end of its new list. */
    method ChangePriority(t: nat, priority: nat)
      requires Valid() && t in threads && priority < priorityMax
      modifies this`threads, this`ready, this`group, this`table
      ensures Valid() && threads == old(threads)[t := old(threads[t]).(priority := priority)]
      ensures ready == if old(threads[t].stat) != Ready then old(ready)
                       else Appended(Removed(old(ready), old(threads[t].priority), t), priority, t)
    {
      hide Marked, Listed, Without;
      if threads[t].stat == Ready {
        RemoveThread(t, Thread(Suspend, priority));
        InsertThread(t);
      } else {
        NotReady(t, threads[t].(priority := priority));
        threads := threads[t := threads[t].(priority := priority)];
      }
    }

    lemma NotReady(t: nat, now: Thread)
      requires Lists() && t in threads && threads[t].stat != Ready && now.stat != Ready
      ensures Listed(threads[t := now], ready)
    {
    }

    /** rt_thread_startup of a thread that was only initialised: it is ready with its initial priority, then a schedule. */
    method Startup(t: nat, initPriority: nat)
      requires Valid() && t in threads && threads[t].stat == Init && initPriority < priorityMax && t != current
      modifies this`threads, this`ready, this`group, this`table, this`current
      ensures Valid() && (lockNest == 0 ==> MostUrgent())
      ensures threads.Keys == old(threads.Keys) && Able(threads[t]) && threads[t].priority == initPriority
      ensures AtMostSwitched(old(threads)[t := Thread(Ready, initPriority)], old(current), threads, current)
      ensures Scheduled(lockNest > 0, old(threads)[t := Thread(Ready, initPriority)],
                        Appended(old(ready), initPriority, t), old(current), threads, ready, current)
    {
      hide Marked, Listed, Scheduled;
      NotReady(t, Thread(Suspend, initPriority));
      threads := threads[t := Thread(Suspend, initPriority)];
      var ok := Resume(t);
      assert threads == old(threads)[t := Thread(Ready, initPriority)];
      SomeReady(t);
      Schedule();
    }

    /** rt_thread_timeout: a suspended thread waits no longer, be it still the current one or not. */
    method Timeout(t: nat)
      requires Valid() && t in threads && threads[t].stat == Suspend
      modifies this`threads, this`ready, this`group, this`table, this`current
      ensures Valid() && (lockNest == 0 ==> MostUrgent())
      ensures threads.Keys == old(threads.Keys) && Able(threads[t]) && threads[t].priority == old(threads[t].priority)
      ensures var stat := if t == old(current) then Running else Ready;
              var awake := old(threads)[t := Thread(stat, old(threads[t].priority))];
              && AtMostSwitched(awake, old(current), threads, current)
              && Scheduled(lockNest > 0, awake,
                           if t == old(current) then old(ready) else Appended(old(ready), old(threads[t].priority), t),
                           old(current), threads, ready, current)
    {
      hide Marked, Listed, Switched, IsHighest;
      InsertThread(t);
      if t != current {
        SomeReady(t);
      }
      Schedule();
    }

    /** rt_thread_exit: the current thread is closed and another one runs. */
    method Exit()
      requires Valid() && threads[current].stat == Running
      modifies this`threads, this`ready, this`group, this`table, this`current
      ensures Valid() && old(current) in threads
      ensures threads[old(current)] == Thread(Close, old(threads[current].priority))
      ensures lockNest == 0 && (exists p :: 0 <= p < priorityMax && old(ready)[p] != []) ==>
              MostUrgent() && current != old(current)
      ensures var closed := old(threads)[old(current) := Thread(Close, old(threads[current].priority))];
              && AtMostSwitched(closed, old(current), threads, current)
              && Scheduled(lockNest > 0, closed, old(ready), old(current), threads, ready, current)
    {
      hide Marked, Listed, IsHighest, Without;
      NotListed(current);
      RemoveThread(current, Thread(Close, threads[current].priority));
      Schedule();
    }

    /** rt_enter_critical. */
    method EnterCritical()
      requires Valid()
      modifies this`lockNest
      ensures Valid() && lockNest == old(lockNest) + 1
    {
      hide Marked, Listed;
      lockNest := lockNest + 1;
    }

    /** rt_exit_critical: the last one schedules, and so does one without a section. */
    method ExitCritical()
      requires Valid()
      modifies this`threads, this`ready, this`group, this`table, this`current, this`lockNest
      ensures Valid() && lockNest == if old(lockNest) == 0 then 0 else old(lockNest) - 1
      ensures lockNest == 0 && (exists p :: 0 <= p < priorityMax && old(ready)[p] != []) ==> MostUrgent()
      ensures Scheduled(lockNest > 0, old(threads), old(ready), old(current), threads, ready, current)
      ensures AtMostSwitched(old(threads), old(current), threads, current)
    {
      hide Marked, Listed, Switched, IsHighest;
      if lockNest > 0 {
        lockNest := lockNest - 1;
      }
      if lockNest == 0 {
        Schedule();
      }
    }

    /** A ready thread makes some list not empty. */
    lemma SomeReady(t: nat)
      requires Lists() && t in threads && threads[t].stat == Ready
      ensures threads[t].priority < priorityMax && ready[threads[t].priority] != []
    {
    }
  }

  /** What a schedule does when list `h` is the first that is not empty. */
  ghost predicate Switched(threads: map<nat, Thread>, ready: Lists, current: nat, h: nat, threads': map<nat, Thread>,
                           ready': Lists, current': nat)
    requires current in threads && h < |ready| && ready[h] != []
  {
    var running := threads[current].stat == Running;
    var q := threads[current].priority;
    if running && q < h then current' == current && ready' == ready && threads' == threads
    else
      && current' == ready[h][0]
      && var queued := if running && q < |ready| then ready[q := ready[q] + [current]] else ready;
         ready' == queued[h := queued[h][1..]]
         && threads' == (if running then threads[current := Thread(Ready, q)] else threads)[current' := Thread(Running, h)]
  }

  /** What rt_schedule does: nothing while it is locked or nothing is ready. */
  ghost predicate Scheduled(locked: bool, threads: map<nat, Thread>, ready: Lists, current: nat,
                            threads': map<nat, Thread>, ready': Lists, current': nat)
    requires current in threads
  {
    if locked || (forall p | 0 <= p < |ready| :: ready[p] == []) then
      current' == current && threads' == threads && ready' == ready
    else exists h :: IsHighest(ready, h) && Switched(threads, ready, current, h, threads', ready', current')
  }

  /** Nobody's priority changes, and only the two threads of a switch change their states, both of which can run. */
  ghost predicate AtMostSwitched(threads: map<nat, Thread>, current: nat, threads': map<nat, Thread>, current': nat)
  {
    && threads'.Keys == threads.Keys
    && forall t | t in threads ::
         && threads'[t].priority == threads[t].priority
         && (Able(threads'[t]) <==> Able(threads[t]))
         && (threads'[t].stat == threads[t].stat || (Able(threads[t]) && (t == current || t == current')))
  }

  lemma ListedRunning(threads: map<nat, Thread>, ready: Lists, t: nat)
    requires t in threads
    ensures Listed(threads, ready) ==>
            (Listed(threads[t := Thread(Running, threads[t].priority)], ready) <==> threads[t].stat != Ready)
  {
    if Listed(threads, ready) && threads[t].stat == Ready {
      var p, threads' := threads[t].priority, threads[t := Thread(Running, threads[t].priority)];
      assert p < |ready| && t in ready[p];
      assert threads'[t] != Thread(Ready, p);
    }
  }

  lemma NotInTable(group: Bits, table: seq<Bits>, p: nat)
    requires group == {} && forall n :: n in group <==> 0 <= n < |table| && table[n] != {}
    ensures !InTable(table, p)
  {
    var n := p / 8;
    assert n !in group;
  }
}
