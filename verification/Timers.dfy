/**
 The timer list of the kernel: a skip list keyed by 32-bit deadlines that wrap.
 A start takes three steps, between which ticks and other starts may come.  Over
 every run the list is the plain list sorted by deadline, and each timer fires
 at the tick that its deadline and its insertion fix.
 */
module Timers {
  import opened Seqs
  import opened TimerOrder
  import opened TimerRounds
  import opened Bytes

  const TICKS := 0x1_0000_0000
  const TICK_MAX := 0xFFFF_FFFF
  const HALF := TICK_MAX / 2
  const SKIP_LIST_MASK := 3

  type Tick = t: nat | t < TICKS

  datatype Timer = Timer(initTick: nat, periodic: bool, activated: bool, timeoutTick: nat)

  /** How far a start has come: out of the list, and then with a deadline of its own. */
  datatype Stage = Unlinked | Dated

  /** Timers fired in the order of their deadlines. */
  ghost predicate Ordered(log: seq<Fired>)
  {
    forall i, j | 0 <= i < j < |log| :: log[i].due <= log[j].due
  }

  /** Deadlines of the timers in `held` are the same. */
  ghost predicate SameDue(held: map<nat, Stage>, due: Due, due': Due)
  {
    forall x | x in held && x in due :: x in due' && due'[x] == due[x]
  }

  /** The settings of the timers are the same. */
  ghost predicate SameSetup(timers: map<nat, Timer>, timers': map<nat, Timer>)
  {
    && timers'.Keys == timers.Keys
    && forall x | x in timers :: timers'[x].initTick == timers[x].initTick && timers'[x].periodic == timers[x].periodic
  }

  ghost function Settings(timers: map<nat, Timer>): Setup
  {
    map x | x in timers :: Setting(timers[x].initTick, timers[x].periodic)
  }

  ghost function Active(timers: map<nat, Timer>): set<nat>
  {
    set x | x in timers && timers[x].activated
  }

  lemma SettingOf(timers: map<nat, Timer>, id: nat)
    requires id in timers
    ensures id in Settings(timers) && Settings(timers)[id] == Setting(timers[id].initTick, timers[id].periodic)
    ensures id in Active(timers) <==> timers[id].activated
  {
  }

  lemma SettingsOf(timers: map<nat, Timer>, id: nat)
    requires id in Settings(timers)
    ensures id in timers && Settings(timers)[id] == Setting(timers[id].initTick, timers[id].periodic)
  {
  }

  lemma ActiveSet(timers: map<nat, Timer>, id: nat, t: Timer)
    requires id in timers && t.initTick == timers[id].initTick && t.periodic == timers[id].periodic
    ensures Settings(timers[id := t]) == Settings(timers)
    ensures Active(timers[id := t]) == if t.activated then Active(timers) + {id} else Active(timers) - {id}
  {
  }

  // ------------------------------------------------------------ wrapping ticks

  ghost function Low(t: nat): nat
  {
    t % TICKS
  }

  /** Unsigned subtraction of ticks. */
  function TickDiff(a: nat, b: nat): int
  {
    if a >= b then a - b else a - b + TICKS
  }

  lemma LowAdd(t: nat, k: nat)
    requires k < TICKS
    ensures Low(t) < TICKS && Low(t + k) == if Low(t) + k < TICKS then Low(t) + k else Low(t) + k - TICKS
  {
    if Low(t) + k < TICKS {
      DivModUnique(t + k, TICKS, t / TICKS, t % TICKS + k);
    } else {
      DivModUnique(t + k, TICKS, t / TICKS + 1, t % TICKS + k - TICKS);
    }
  }

  /** The difference of wrapped ticks tells that of the real ones, if they are near each other. */
  lemma LowDiff(a: nat, b: nat)
    requires -TICKS < a - b < TICKS
    ensures TickDiff(Low(a), Low(b)) == if a >= b then a - b else a - b + TICKS
  {
    hide Low;
    if a >= b {
      LowAdd(b, a - b);
    } else {
      LowAdd(a, b - a);
    }
  }

  /** In how many rows above the bottom one a timer is hung: one for each pair of zero bits at the end of the counter. */
  function RowsAbove(counter: nat, rows: nat): (n: nat)
    ensures n <= rows
  {
    if rows == 0 || counter % (SKIP_LIST_MASK + 1) != 0 then 0
    else 1 + RowsAbove(counter / (SKIP_LIST_MASK + 1), rows - 1)
  }

  lemma RowsStep(counter: nat, rows: nat)
    ensures RowsAbove(counter, rows) == if rows > 0 && counter % (SKIP_LIST_MASK + 1) == 0 then
                                          1 + RowsAbove(counter / (SKIP_LIST_MASK + 1), rows - 1)
                                        else 0
  {
  }

  function IndexOf(row: seq<nat>, id: nat): (i: nat)
    requires id in row
    ensures i < |row| && row[i] == id
  {
    if row[0] == id then 0 else 1 + IndexOf(row[1..], id)
  }

  class TimerList {
    const levels: nat
    /** How many ticks a start may be held up between reading the tick and the insertion. */
    const slack: nat
    var rows: seq<seq<nat>>
    var timers: map<nat, Timer>
    var tick: nat
    var randomNr: Tick
    /** Starts in progress, and whether the tick interrupt is being served. */
    ghost var starting: map<nat, Stage>
    ghost var inTick: bool
    /** The number of ticks so far, deadlines and insertions, unwrapped; what has fired. */
    ghost var now: nat
    ghost var due: Due
    ghost var put: Due
    ghost var log: seq<Fired>

    constructor (levels: nat, slack: nat, timers: map<nat, Timer>)
      requires levels >= 1 && slack + 1 < HALF
      ensures Valid() && Bottom() == [] && this.timers == timers && this.slack == slack && log == []
              && starting == map[] && now == 0 && !inTick
    {
      this.levels, this.slack, this.timers := levels, slack, timers;
      rows := seq(levels, _ => []);
      tick, randomNr, now, due, put, log, starting, inTick := 0, 0, 0, map[], map[], [], map[], false;
    }

    ghost function Bottom(): seq<nat>
      reads this
    {
      if rows == [] then [] else rows[|rows| - 1]
    }

    /** The wrapped deadline is that of the timer, and less than half the range ahead. */
    ghost predicate DatedBy(id: nat)
      reads this
    {
      id in timers && id in due && timers[id].timeoutTick == Low(due[id]) && due[id] + slack + 1 <= now + HALF
    }

    /** A waiting timer is not overdue, unless it came into the list after the last tick was served. */
    ghost predicate Timely(id: nat)
      reads this
    {
      && id in due && id in put && put[id] <= now && put[id] <= due[id] + slack
      && if inTick then (due[id] >= now || put[id] + 1 == now) && (put[id] == now ==> due[id] > now)
         else due[id] > now || put[id] == now
    }

    /** A timer whose start is in progress is out of the list. */
    ghost predicate Held(id: nat)
      requires id in starting
      reads this
    {
      id in timers && id !in Bottom() && (starting[id].Dated? ==> DatedBy(id))
    }

    /** Each timer that fired did so at the one tick that was its own. */
    ghost predicate LogOk()
      reads this
    {
      forall i | 0 <= i < |log| :: log[i].due <= log[i].at <= now && log[i].at == FiringTick(log[i].due, log[i].put)
    }

    ghost predicate Valid()
      reads this
    {
      && |rows| == levels && levels >= 1 && slack + 1 < HALF && RowsOk(rows, due) && tick == Low(now)
      && (forall id | id in Bottom() :: DatedBy(id) && Timely(id))
      && (forall id | id in starting :: Held(id)) && LogOk()
    }

    /** What has fired is in order, and before all that still wait. */
    ghost predicate InOrder()
      reads this
    {
      && Ordered(log)
      && (forall i, x | 0 <= i < |log| && x in Bottom() && x in due :: log[i].due <= due[x])
    }

    /** Ticks of timers are so small that deadlines can be compared although they wrap. */
    ghost predicate PeriodsOk()
      reads this
    {
      forall x | x in timers ::
        timers[x].initTick + slack + 1 <= HALF && (timers[x].periodic ==> timers[x].initTick > 0)
    }

    /** The list without its rows and without wrapping. */
    ghost function Shown(): View
      reads this
    {
      View(Bottom(), Active(timers), due, put, log)
    }

    lemma ShownSound()
      requires Valid()
      ensures Sound(Shown(), Settings(timers))
    {
      hide RowsOk, Low, LogOk;
      forall x | x in Bottom()
        ensures x in due && x in put && x in timers
      {
        assert DatedBy(x) && Timely(x);
      }
    }

    /** With fewer timers waiting everything still holds. */
    twostate lemma Fewer(before: seq<nat>)
      requires old(Valid()) && before == old(Bottom()) && |rows| == levels && RowsOk(rows, due)
      requires forall x | x in Bottom() :: x in before
      requires unchanged(`timers, `tick, `now, `due, `put, `log, `starting, `inTick)
      ensures Valid() && (old(InOrder()) ==> InOrder())
    {
      hide RowsOk, Low;
      assert forall x | x in Bottom() :: old(DatedBy(x)) && old(Timely(x));
      forall x | x in starting
        ensures Held(x)
      {
        assert old(Held(x));
      }
    }

    /** _rt_timer_remove: out of every row. */
    method Remove(id: nat)
      requires Valid()
      modifies this`rows
      ensures Valid() && Bottom() == Without(old(Bottom()), id) && id !in Bottom() && (old(InOrder()) ==> InOrder())
    {
      hide Without, Filter, Low, LogOk, DatedBy, Timely, Held;
      ghost var rows0 := rows;
      var i := 0;
      while i < levels
        invariant 0 <= i <= levels && |rows| == levels
        invariant forall k | 0 <= k < levels :: rows[k] == if k < i then Without(rows0[k], id) else rows0[k]
      {
        rows := rows[i := Without(rows[i], id)];
        i := i + 1;
      }
      RemoveRows(rows0, rows, id, due);
      WithoutMembers(rows0[levels - 1], id);
      Fewer(old(Bottom()));
    }

    /** Behind which position of a row the walk for `id` ends, from position `start` on. */
    method WalkRow(row: seq<nat>, id: nat, start: nat) returns (pos: nat)
      requires Known(row, due) && id in due && id in timers && timers[id].timeoutTick == Low(due[id])
      requires forall x | x in row ::
                 x in timers && timers[x].timeoutTick == Low(due[x]) && -HALF <= due[x] - due[id] < HALF
      requires start <= |row| && forall i | 0 <= i < start :: due[row[i]] <= due[id]
      ensures Boundary(row, id, due, pos)
    {
      hide Low;
      pos := start;
      while pos < |row|
        invariant pos <= |row| && forall i | 0 <= i < pos :: due[row[i]] <= due[id]
      {
        var t := row[pos];
        LowDiff(due[t], due[id]);
        var diff := TickDiff(timers[t].timeoutTick, timers[id].timeoutTick);
        if diff != 0 && diff < HALF {
          break;
        }
        pos := pos + 1;
      }
    }

    /** The places of `id` in all rows, each found from the place in the row above. */
    method RowHeads(id: nat) returns (heads: seq<nat>)
      requires |rows| == levels && levels >= 1 && RowsOk(rows, due)
      requires id in due && id in timers && timers[id].timeoutTick == Low(due[id])
      requires forall x | x in Bottom() ::
                 x in due && x in timers && timers[x].timeoutTick == Low(due[x]) && -HALF <= due[x] - due[id] < HALF
      ensures |heads| == levels
      ensures forall i | 0 <= i < levels :: Known(rows[i], due) && Boundary(rows[i], id, due, heads[i])
    {
      hide Filter, Low;
      heads := [];
      var start: nat := 0;
      var lvl := 0;
      RowKnown(rows, due, 0);
      while lvl < levels
        invariant 0 <= lvl <= levels == |rows| && |heads| == lvl
        invariant forall i | 0 <= i < lvl :: Known(rows[i], due) && Boundary(rows[i], id, due, heads[i])
        invariant lvl < levels ==> start <= |rows[lvl]| && Known(rows[lvl], due)
                                   && forall i | 0 <= i < start :: due[rows[lvl][i]] <= due[id]
      {
        RowKnown(rows, due, lvl);
        var pos := WalkRow(rows[lvl], id, start);
        heads := heads + [pos];
        if lvl + 1 < levels {
          RowKnown(rows, due, lvl + 1);
          start := 0;
          if pos > 0 {
            var last := rows[lvl][pos - 1];
            assert last in Members(rows[lvl]);
            assert last in rows[lvl + 1];
            start := IndexOf(rows[lvl + 1], last) + 1;
          }
        }
        lvl := lvl + 1;
      }
    }

    /** Hangs `id` into the bottom row and, as the counter decides, into rows above. */
    method InsertInto(id: nat, heads: seq<nat>)
      requires |rows| == levels && levels >= 1 && RowsOk(rows, due) && id in due && |heads| == levels
      requires forall i | 0 <= i < levels :: Known(rows[i], due) && Boundary(rows[i], id, due, heads[i])
      modifies this`rows, this`randomNr
      ensures |rows| == levels && Known(old(Bottom()), due) && Bottom() == Insert(old(Bottom()), id, due)
      ensures old(id !in Bottom()) ==> RowsOk(rows, due)
      ensures randomNr == if old(randomNr) + 1 < TICKS then old(randomNr) + 1 else 0
      ensures Inserted(old(rows), rows, id, due, levels - 1 - RowsAbove(randomNr, levels - 1))
    {
      hide Insert, Filter, Sorted, Distinct, RowsOk, RowsAbove, Inserted, Boundary;
      ghost var rows0 := rows;
      NoneInserted(rows, id, due);
      randomNr := if randomNr + 1 < TICKS then randomNr + 1 else 0;
      var tst: nat := randomNr;
      var from: nat := levels - 1;
      OneMoreRow(rows0, rows, id, due, levels, heads[from]);
      rows := rows[from := rows[from][..heads[from]] + [id] + rows[from][heads[from]..]];
      while from > 0 && tst % (SKIP_LIST_MASK + 1) == 0
        invariant 0 <= from < levels && |rows| == levels && Inserted(rows0, rows, id, due, from)
        invariant RowsAbove(randomNr, levels - 1) == levels - 1 - from + RowsAbove(tst, from)
        modifies this`rows
      {
        RowsStep(tst, from);
        var above := from - 1;
        OneMoreRow(rows0, rows, id, due, from, heads[above]);
        rows := rows[above := rows[above][..heads[above]] + [id] + rows[above][heads[above]..]];
        from := above;
        tst := tst / (SKIP_LIST_MASK + 1);
      }
      RowsStep(tst, from);
      BottomInserted(rows0, rows, id, due, from);
      if id !in rows0[levels - 1] {
        InsertRows(rows0, rows, id, due, from);
      }
    }

    // ---------------------------------------------------------- rt_timer_start, in three steps

    /** First section of rt_timer_start: the timer leaves the list and is not active. */
    method Unlink(id: nat)
      requires Valid() && id in timers
      modifies this`rows, this`timers, this`starting
      ensures Valid() && Bottom() == Without(old(Bottom()), id)
      ensures starting == old(starting)[id := if id in old(starting) then old(starting)[id] else Unlinked]
      ensures timers == old(timers)[id := old(timers[id]).(activated := false)] && (old(InOrder()) ==> InOrder())
    {
      hide RowsOk, Low, Without;
      Remove(id);
      Deactivate(id);
      label Out:
      starting := starting[id := if id in starting then starting[id] else Unlinked];
      forall x | x in starting
        ensures Held(x)
      {
        assert x in old(starting) ==> old@Out(Held(x));
      }
      forall x | x in Bottom()
        ensures DatedBy(x) && Timely(x)
      {
        assert old@Out(DatedBy(x)) && old@Out(Timely(x));
      }
    }

    method Deactivate(id: nat)
      requires Valid() && id in timers
      modifies this`timers
      ensures Valid() && timers == old(timers)[id := old(timers[id]).(activated := false)]
              && (old(InOrder()) ==> InOrder())
    {
      hide RowsOk, Low;
      timers := timers[id := timers[id].(activated := false)];
      SameDates();
    }

    /** Flags of timers do not matter for the list. */
    twostate lemma SameDates()
      requires old(Valid()) && timers.Keys == old(timers.Keys)
      requires forall x | x in timers :: timers[x].timeoutTick == old(timers[x].timeoutTick)
      requires unchanged(`rows, `tick, `now, `due, `put, `log, `starting, `inTick)
      ensures Valid()
    {
      hide RowsOk, Low;
      forall x | x in Bottom()
        ensures DatedBy(x) && Timely(x)
      {
        assert old(DatedBy(x)) && old(Timely(x));
      }
      forall x | x in starting
        ensures Held(x)
      {
        assert old(Held(x));
      }
    }

    /** Between the sections, with interrupts enabled: the deadline is read off the clock. */
    method ReadTick(id: nat)
      requires Valid() && id in starting && id in timers && timers[id].initTick + slack + 1 <= HALF
      modifies this`timers, this`due, this`starting
      ensures id in timers && Valid() && starting == old(starting)[id := Dated]
              && due == old(due)[id := now + timers[id].initTick]
      ensures timers == old(timers)[id := old(timers[id]).(timeoutTick := timers[id].timeoutTick)]
              && (old(InOrder()) ==> InOrder())
    {
      hide Low, RowsOk;
      assert Held(id);
      var t := timers[id];
      LowAdd(now, t.initTick);
      var timeout := if tick + t.initTick < TICKS then tick + t.initTick else tick + t.initTick - TICKS;
      ForeignDue(rows, due, id, now + t.initTick);
      due := due[id := now + t.initTick];
      timers := timers[id := t.(timeoutTick := timeout)];
      starting := starting[id := Dated];
      forall x | x in Bottom()
        ensures DatedBy(x) && Timely(x)
      {
        assert old(DatedBy(x)) && old(Timely(x));
      }
      forall x | x in starting
        ensures Held(x)
      {
        assert x == id || old(Held(x));
      }
    }

    /** Into the rows, at its place. */
    method PutIn(id: nat)
      requires Valid() && (id in Bottom() || (id in starting && starting[id].Dated?)) && id in due
               && now <= due[id] + slack
      modifies this`rows, this`randomNr
      ensures |rows| == levels && Known(old(Bottom()), due) && Bottom() == Insert(old(Bottom()), id, due)
      ensures old(id !in Bottom()) ==> RowsOk(rows, due)
    {
      hide Insert, Filter, Low, RowsOk, LogOk;
      RowKnown(rows, due, levels - 1);
      assert (id in starting ==> Held(id)) && DatedBy(id);
      forall x | x in Bottom()
        ensures x in due && x in timers && timers[x].timeoutTick == Low(due[x]) && -HALF <= due[x] - due[id] < HALF
      {
        assert DatedBy(x) && Timely(x);
      }
      var heads := RowHeads(id);
      InsertInto(id, heads);
    }

    /**
     Second section of rt_timer_start: into the list.  The list is right exactly if
     the timer is not in it yet, as it is when another start of the same timer has
     got there first.  The order of firing is kept exactly if no timer with a later
     deadline has fired since the clock was read.
     */
    method Hang(id: nat)
      requires Valid() && (id in Bottom() || (id in starting && starting[id].Dated?))
      requires id in due && now <= due[id] + slack && (inTick ==> due[id] > now)
      modifies this`rows, this`randomNr, this`timers, this`put, this`starting
      ensures Valid() <==> old(id !in Bottom())
      ensures Known(old(Bottom()), due) && Bottom() == Insert(old(Bottom()), id, due)
              && starting == old(starting) - {id}
      ensures id in old(timers) && timers == old(timers)[id := old(timers[id]).(activated := true)]
              && put == old(put)[id := now]
      ensures InOrder() <==> old(InOrder()) && (log == [] || log[|log| - 1].due <= due[id])
    {
      hide Insert, Filter, Low, RowsOk, Known, Distinct;
      assert (id in starting ==> Held(id)) && DatedBy(id);
      PutIn(id);
      InsertMembers(old(Bottom()), id, due);
      put := put[id := now];
      timers := timers[id := timers[id].(activated := true)];
      starting := starting - {id};
      if id in old(Bottom()) {
        InsertAgain(old(Bottom()), id, due);
        Doubled();
      } else {
        forall x | x in Bottom()
          ensures DatedBy(x) && Timely(x)
        {
          assert x == id || (old(DatedBy(x)) && old(Timely(x)));
        }
        forall x | x in starting
          ensures Held(x)
        {
          assert old(Held(x));
        }
      }
      assert id in Bottom();
      OrderKept(log, old(Bottom()), Bottom(), due, id);
    }

    lemma Doubled()
      requires !Distinct(Bottom())
      ensures !Valid()
    {
    }

    lemma LastFired()
      requires Valid()
      ensures log != [] ==> log[|log| - 1].due <= now
    {
      hide RowsOk, Low;
    }

    lemma ShownStart(v: View, timers0: map<nat, Timer>, id: nat)
      requires Sound(v, Settings(timers0)) && id in timers0 && Active(timers) == v.active + {id}
      requires due == v.due[id := now + timers0[id].initTick] && put == v.put[id := now] && log == v.log
      requires Known(Without(v.waiting, id), due) && Bottom() == Insert(Without(v.waiting, id), id, due)
      ensures Shown() == Started(v, now, Settings(timers0), id)
    {
      hide Insert, Without;
    }

    /** rt_timer_start without anything in between. */
    method Start(id: nat)
      requires Valid() && id in timers && id !in starting && timers[id].initTick + slack + 1 <= HALF
               && (inTick ==> timers[id].initTick > 0)
      modifies this`rows, this`timers, this`due, this`put, this`randomNr, this`starting
      ensures id in timers && Valid() && due == old(due)[id := now + timers[id].initTick] && put == old(put)[id := now]
              && starting == old(starting)
      ensures timers == old(timers)[id := old(timers[id]).(timeoutTick := timers[id].timeoutTick, activated := true)]
      ensures Known(Without(old(Bottom()), id), due) && Bottom() == Insert(Without(old(Bottom()), id), id, due)
      ensures old(InOrder()) ==> InOrder()
      ensures Sound(old(Shown()), Settings(old(timers)))
              && Shown() == Started(old(Shown()), now, Settings(old(timers)), id)
    {
      hide Insert, Without, Filter, Low, RowsOk, InOrder, Known, Sound, Settings, Active, LogOk, DatedBy, Timely, Held,
           Started, Valid;
      ShownSound();
      LastFired();
      WithoutMembers(Bottom(), id);
      Unlink(id);
      ReadTick(id);
      Hang(id);
      assert starting == old(starting) && timers == old(timers)[id := timers[id]];
      ActiveSet(old(timers), id, timers[id]);
      SettingOf(old(timers), id);
      ShownStart(old(Shown()), old(timers), id);
    }

    /** rt_timer_stop: an error if the timer is not active. */
    method Stop(id: nat) returns (ok: bool)
      requires Valid() && id in timers
      modifies this`rows, this`timers
      ensures Valid() && ok == old(timers[id].activated) && (old(InOrder()) ==> InOrder())
      ensures if ok then
                Bottom() == Without(old(Bottom()), id) && timers == old(timers)[id := old(timers[id]).(activated := false)]
              else Bottom() == old(Bottom()) && timers == old(timers)
      ensures Sound(old(Shown()), Settings(old(timers)))
              && Shown() == Stopped(old(Shown()), Settings(old(timers)), id)
    {
      hide RowsOk, Low, LogOk, DatedBy, Timely, Held, InOrder, Sound, Settings, Active;
      ShownSound();
      SettingOf(timers, id);
      ActiveSet(timers, id, timers[id].(activated := false));
      if !timers[id].activated {
        return false;
      }
      Remove(id);
      Deactivate(id);
      ok := true;
    }

    // ---------------------------------------------------------- the tick interrupt

    /** One more tick. */
    method Tick()
      requires Valid() && !inTick
      modifies this`tick, this`now, this`inTick
      ensures Valid() && now == old(now) + 1 && inTick && (old(InOrder()) ==> InOrder())
    {
      hide RowsOk, Low;
      LowAdd(now, 1);
      tick := if tick + 1 < TICKS then tick + 1 else 0;
      now, inTick := now + 1, true;
      forall x | x in Bottom()
        ensures DatedBy(x) && Timely(x)
      {
        assert old(DatedBy(x)) && old(Timely(x));
      }
      forall x | x in starting
        ensures Held(x)
      {
        assert old(Held(x));
      }
    }

    /** What the first timer of the list tells about all. */
    lemma HeadLeast()
      requires Valid() && Bottom() != []
      ensures var id := Bottom()[0];
              && id in timers && id in due && id in put
              && (TickDiff(tick, timers[id].timeoutTick) < HALF <==> due[id] <= now)
              && (inTick && due[id] <= now ==> now == FiringTick(due[id], put[id]))
              && forall x | x in Bottom() :: x in due && due[id] <= due[x]
    {
      hide Filter, Low, LogOk;
      var id := Bottom()[0];
      assert DatedBy(id) && Timely(id);
      LowDiff(now, due[id]);
    }

    /** The first timer leaves the list if its time has come; its function is called next. */
    method TakeHead() returns (fired: bool, id: nat)
      requires Valid() && inTick
      modifies this`rows, this`log
      ensures Valid() && (old(InOrder()) ==> InOrder())
      ensures fired <==> old(Bottom()) != [] && old(Bottom()[0]) in due && due[old(Bottom()[0])] <= now
      ensures if fired then
                && id == old(Bottom()[0]) && id in timers && id in put && Bottom() == Without(old(Bottom()), id)
                && id !in starting && log == old(log) + [Fired(id, due[id], put[id], now)]
              else Bottom() == old(Bottom()) && log == old(log) && forall x | x in Bottom() :: x in due && due[x] > now
      ensures Sound(old(Shown()), Settings(timers))
              && if fired then Shown() == Taken(old(Shown()), now, Settings(timers)) else Shown() == old(Shown())
    {
      hide Without, Low, RowsOk, Sound, Settings;
      ShownSound();
      var bottom := rows[levels - 1];
      if bottom == [] {
        return false, 0;
      }
      id := bottom[0];
      HeadLeast();
      assert id in starting ==> Held(id);
      fired := TickDiff(tick, timers[id].timeoutTick) < HALF;
      if fired {
        WithoutMembers(bottom, id);
        Remove(id);
        label Out:
        log := log + [Fired(id, due[id], put[id], now)];
        assert forall x | x in Bottom() :: old@Out(DatedBy(x)) && old@Out(Timely(x));
        assert forall x | x in starting :: old@Out(Held(x));
      }
    }

    /** What a timer function may do: stop timers, and start those with a positive tick. */
    ghost predicate ActionOk(a: Action)
      reads this
    {
      a.id in timers && (a.DoStart? ==> a.id !in starting && timers[a.id].initTick > 0)
    }

    ghost function Overdue(): set<nat>
      reads this
    {
      set x | x in Bottom() && x in due && due[x] <= now
    }

    /** The function of a timer, as far as timers are concerned. */
    method Callback(actions: seq<Action>)
      requires Valid() && PeriodsOk() && inTick && forall a | a in actions :: ActionOk(a)
      modifies this`rows, this`timers, this`due, this`put, this`randomNr, this`starting
      ensures Valid() && PeriodsOk() && SameSetup(old(timers), timers) && starting == old(starting)
      ensures Overdue() <= old(Overdue()) && (old(InOrder()) ==> InOrder()) && SameDue(starting, old(due), due)
      ensures Sound(old(Shown()), Settings(old(timers))) && (forall a | a in actions :: a.id in Settings(old(timers)))
              && Shown() == ActedAll(old(Shown()), now, Settings(old(timers)), actions)
    {
      hide RowsOk, Low, LogOk, DatedBy, Timely, Held, InOrder, Insert, Without, Known, Sound, Shown, Acted, Overdue;
      ghost var setup, before := Settings(timers), Shown();
      ShownSound();
      forall a | a in actions
        ensures a.id in setup
      {
        assert ActionOk(a);
      }
      var i := 0;
      while i < |actions|
        invariant 0 <= i <= |actions| && Valid() && PeriodsOk() && SameSetup(old(timers), timers)
                  && starting == old(starting)
        invariant Overdue() <= old(Overdue()) && (old(InOrder()) ==> InOrder()) && SameDue(starting, old(due), due)
        invariant Settings(timers) == setup && Shown() == ActedAll(before, now, setup, actions[..i])
      {
        assert actions[i] in actions && old(ActionOk(actions[i]));
        assert actions[..i + 1][..i] == actions[..i];
        Act(actions[i]);
        i := i + 1;
      }
      assert actions[..i] == actions;
    }

    method Act(a: Action)
      requires Valid() && PeriodsOk() && inTick && ActionOk(a)
      modifies this`rows, this`timers, this`due, this`put, this`randomNr, this`starting
      ensures Valid() && PeriodsOk() && SameSetup(old(timers), timers) && starting == old(starting)
      ensures Overdue() <= old(Overdue()) && (old(InOrder()) ==> InOrder()) && SameDue(starting, old(due), due)
      ensures Settings(timers) == Settings(old(timers)) && a.id in Settings(timers)
              && Sound(old(Shown()), Settings(timers)) && Shown() == Acted(old(Shown()), now, Settings(timers), a)
    {
      hide RowsOk, Low, LogOk, DatedBy, Timely, Held, InOrder, Insert, Without, Known, Sound, Settings, Active, Shown,
           Started, Stopped;
      SettingOf(timers, a.id);
      WithoutMembers(Bottom(), a.id);
      match a {
        case DoStart(id) =>
          Restart(id);
        case DoStop(id) =>
          ActiveSet(timers, id, timers[id].(activated := false));
          var ok := Stop(id);
      }
    }

    /** After its function has run: a periodic timer that is still active starts again. */
    method Rearm(id: nat)
      requires Valid() && PeriodsOk() && inTick && id in timers && id !in starting
      modifies this`rows, this`timers, this`due, this`put, this`randomNr, this`starting
      ensures Valid() && PeriodsOk() && SameSetup(old(timers), timers) && starting == old(starting)
      ensures Overdue() <= old(Overdue()) && (old(InOrder()) ==> InOrder()) && SameDue(starting, old(due), due)
      ensures timers[id].activated == old(timers[id].periodic && timers[id].activated)
      ensures timers[id].activated ==> id in Bottom() && due == old(due)[id := now + timers[id].initTick]
      ensures !timers[id].activated ==> Bottom() == old(Bottom())
      ensures id in Bottom() && !timers[id].activated <==>
              old(id in Bottom()) && old(!timers[id].periodic || !timers[id].activated)
      ensures Settings(timers) == Settings(old(timers)) && id in Settings(timers)
              && Sound(old(Shown()), Settings(timers)) && Shown() == Rearmed(old(Shown()), now, Settings(timers), id)
    {
      hide RowsOk, Insert, Without, Low, LogOk, DatedBy, Timely, Held, InOrder, Known, Sound, Settings, Active;
      ShownSound();
      SettingOf(timers, id);
      ActiveSet(timers, id, timers[id].(activated := false));
      if timers[id].periodic && timers[id].activated {
        Deactivate(id);
        Restart(id);
      } else {
        Deactivate(id);
      }
    }

    /** A start in the tick interrupt makes nothing overdue. */
    method Restart(id: nat)
      requires Valid() && PeriodsOk() && inTick && id in timers && id !in starting && timers[id].initTick > 0
      modifies this`rows, this`timers, this`due, this`put, this`randomNr, this`starting
      ensures Valid() && PeriodsOk() && SameSetup(old(timers), timers) && starting == old(starting)
      ensures Overdue() <= old(Overdue()) && (old(InOrder()) ==> InOrder()) && SameDue(starting, old(due), due)
      ensures id in Bottom() && timers[id].activated && due == old(due)[id := now + timers[id].initTick]
      ensures Settings(timers) == Settings(old(timers)) && id in Settings(timers)
              && Sound(old(Shown()), Settings(timers)) && Shown() == Started(old(Shown()), now, Settings(timers), id)
    {
      hide RowsOk, Insert, Without, Low, LogOk, DatedBy, Timely, Held, InOrder, Known, Sound, Settings, Active, Started,
           Shown;
      SettingOf(timers, id);
      ghost var rest := Without(Bottom(), id);
      WithoutMembers(Bottom(), id);
      Start(id);
      InsertMembers(rest, id, due);
      assert forall x | x in Overdue() :: x != id && x in rest && due[x] == old(due[x]);
      ActiveSet(old(timers), id, timers[id]);
    }

    /** One round of rt_timer_check: the first timer, if it is due, and its function. */
    method ServeOne(actions: seq<Action>) returns (more: bool)
      requires Valid() && PeriodsOk() && inTick && forall a | a in actions :: ActionOk(a)
      modifies this`rows, this`timers, this`due, this`put, this`randomNr, this`starting, this`log
      ensures Valid() && PeriodsOk() && SameSetup(old(timers), timers) && starting == old(starting)
              && (old(InOrder()) ==> InOrder())
      ensures SameDue(starting, old(due), due)
      ensures if more then
                && Overdue() < old(Overdue()) && log != [] && log == old(log) + [log[|log| - 1]]
                && log[|log| - 1].at == now
                && IsFirst(log[|log| - 1], old(Bottom()), old(due))
              else
                log == old(log) && Bottom() == old(Bottom()) && due == old(due)
                    && forall x | x in Bottom() :: x in due && due[x] > now
      ensures Settings(timers) == Settings(old(timers)) && Sound(old(Shown()), Settings(timers))
              && forall a | a in actions :: a.id in Settings(timers)
      ensures if more then
                HeadDue(old(Shown()), now) && Shown() == Round(old(Shown()), now, Settings(timers), actions)
              else Shown() == old(Shown())
    {
      hide Valid, Insert, Without, InOrder, Sound, Taken, ActedAll, Rearmed;
      ghost var overdue, bottom := Overdue(), Bottom();
      var id;
      more, id := TakeHead();
      if more {
        WithoutMembers(bottom, id);
        assert id in overdue && Overdue() <= overdue - {id};
        Callback(actions);
        Rearm(id);
      }
    }

    /**
     rt_timer_check, whatever the functions of the timers do: it comes to an end,
     nothing is overdue then, and what fired did so at this tick.
     */
    method Check(script: nat -> seq<Action>)
      requires Valid() && PeriodsOk() && inTick && forall n, a | a in script(n) :: ActionOk(a)
      modifies this`rows, this`timers, this`due, this`put, this`randomNr, this`starting, this`log, this`inTick
      ensures Valid() && PeriodsOk() && !inTick && SameSetup(old(timers), timers) && starting == old(starting)
              && (old(InOrder()) ==> InOrder())
      ensures SameDue(starting, old(due), due) && forall x | x in Bottom() :: x in due && due[x] > now
      ensures old(log) <= log && forall i | |old(log)| <= i < |log| :: log[i].at == now
      ensures old(Overdue()) != {} ==> |log| > |old(log)| && IsFirst(log[|old(log)|], old(Bottom()), old(due))
      ensures Settings(timers) == Settings(old(timers))
              && Sound(old(Shown()), Settings(timers)) && Names(script, Settings(timers))
              && AfterRounds(old(Shown()), now, Settings(timers), script, |log| - |old(log)|, Shown())
      ensures EachServed(old(Shown()), Shown(), now, Settings(timers), script)
    {
      hide Valid, InOrder, Sound, Round, AfterRounds, Settings, Names, Active, EachServed, Quiet;
      ghost var setup, before := Settings(timers), Shown();
      ShownSound();
      ScriptNames(script);
      NoRounds(before, now, setup, script, before);
      var more, n := true, 0;
      ghost var rounds := 0;
      while more
        invariant Valid() && PeriodsOk() && inTick && SameSetup(old(timers), timers) && starting == old(starting)
                  && (old(InOrder()) ==> InOrder())
        invariant SameDue(starting, old(due), due) && (!more ==> forall x | x in Bottom() :: x in due && due[x] > now)
        invariant Settings(timers) == setup && n == rounds + if more then 0 else 1
        invariant AfterRounds(before, now, setup, script, rounds, Shown())
        decreases more, Overdue()
      {
        forall a | a in script(n)
          ensures ActionOk(a)
        {
          assert old(ActionOk(a));
        }
        ghost var shown := Shown();
        more := ServeOne(script(n));
        if more {
          OneMoreRound(before, now, setup, script, rounds, shown);
          rounds := rounds + 1;
        }
        n := n + 1;
      }
      RoundsLog(before, now, setup, script, rounds, Shown());
      Served();
      QuietServed(before, Shown(), now, old(timers), script, rounds);
    }

    /** Between ticks every timer that waits is ahead. */
    lemma WaitsAhead(x: nat)
      requires Valid() && !inTick
      ensures Ahead(Shown(), now, x)
    {
      hide RowsOk, Low, LogOk, Active;
      if x in Bottom() {
        assert DatedBy(x) && Timely(x);
      }
    }

    /** Any number of ticks, with what the timer functions do in each. */
    method Run(scripts: nat -> Script, ticks: nat)
      requires Valid() && PeriodsOk() && !inTick && forall k, n, a | a in scripts(k)(n) :: ActionOk(a)
      modifies this
      ensures Valid() && PeriodsOk() && !inTick && now == old(now) + ticks && (old(InOrder()) ==> InOrder())
      ensures Settings(timers) == Settings(old(timers))
      ensures forall x | x in Settings(timers) && (forall k :: Quiet(scripts(k), x)) ::
                OnTime(old(Shown()), Shown(), now, Settings(timers), x)
    {
      hide Valid, InOrder, OnTime, Ahead, Settings, Names, Active, EachServed, Quiet, Sound, AfterRounds;
      ghost var setup, before := Settings(timers), Shown();
      var k := 0;
      forall x | x in setup
        ensures OnTime(before, Shown(), now, setup, x)
      {
        SettingsOf(timers, x);
        WaitsAhead(x);
        OnTimeStart(before, now, setup, x);
      }
      while k < ticks
        invariant 0 <= k <= ticks && now == old(now) + k && (old(InOrder()) ==> InOrder())
        invariant Valid() && PeriodsOk() && !inTick && starting == old(starting) && SameSetup(old(timers), timers)
        invariant Settings(timers) == setup
        invariant forall x | x in setup && (forall k :: Quiet(scripts(k), x)) ::
                    OnTime(before, Shown(), now, setup, x)
      {
        forall n, a | a in scripts(k)(n)
          ensures ActionOk(a)
        {
          assert old(ActionOk(a));
        }
        OneTick(scripts(k), before);
        k := k + 1;
      }
    }

    method OneTick(script: Script, ghost v: View)
      requires Valid() && PeriodsOk() && !inTick && forall n, a | a in script(n) :: ActionOk(a)
      modifies this
      ensures Valid() && PeriodsOk() && !inTick && now == old(now) + 1 && (old(InOrder()) ==> InOrder())
      ensures starting == old(starting) && SameSetup(old(timers), timers) && Settings(timers) == Settings(old(timers))
      ensures forall x | x in Settings(timers) && Quiet(script, x)
                         && OnTime(v, old(Shown()), old(now), Settings(timers), x) ::
                OnTime(v, Shown(), now, Settings(timers), x)
    {
      hide Valid, InOrder, OnTime, Ahead, Settings, Names, Active, Sound, AfterRounds, Quiet, ServedAs;
      ghost var setup := Settings(timers);
      forall x
        ensures Ahead(Shown(), now, x)
      {
        WaitsAhead(x);
      }
      Tick();
      forall n, a | a in script(n)
        ensures ActionOk(a)
      {
        assert old(ActionOk(a));
      }
      Check(script);
      forall x | x in setup && Quiet(script, x) && OnTime(v, old(Shown()), old(now), setup, x)
        ensures OnTime(v, Shown(), now, setup, x)
      {
        OnTimeNext(v, old(Shown()), Shown(), old(now), setup, x);
      }
    }

    lemma ScriptNames(script: Script)
      requires forall n, a | a in script(n) :: ActionOk(a)
      ensures Names(script, Settings(timers))
    {
      forall n, a | a in script(n)
        ensures a.id in Settings(timers)
      {
        assert ActionOk(a);
      }
    }

    /** Every timer has been served: the interrupt ends. */
    ghost method Served()
      requires Valid() && inTick && forall x | x in Bottom() :: x in due && due[x] > now
      modifies this`inTick
      ensures Valid() && !inTick && (old(InOrder()) ==> InOrder())
    {
      hide RowsOk, Low;
      inTick := false;
      forall x | x in Bottom()
        ensures DatedBy(x) && Timely(x)
      {
        assert old(DatedBy(x)) && old(Timely(x));
      }
      forall x | x in starting
        ensures Held(x)
      {
        assert old(Held(x));
      }
    }
  }

  lemma QuietServed(before: View, after: View, now: nat, timers: map<nat, Timer>, script: Script, n: nat)
    requires Sound(before, Settings(timers)) && Names(script, Settings(timers))
    requires AfterRounds(before, now, Settings(timers), script, n, after)
    requires forall x | x in timers && timers[x].periodic :: timers[x].initTick > 0
    requires forall x | x in after.waiting :: x in after.due && after.due[x] > now
    ensures EachServed(before, after, now, Settings(timers), script)
  {
    hide AfterRounds, Names, FiredOnce, Again, NotFired, SameFor;
    forall x | x in timers && Quiet(script, x)
      ensures ServedAs(before, after, now, Settings(timers), x)
    {
      AllServed(before, now, Settings(timers), script, n, after, x);
    }
  }

  /** When a timer that joins the list keeps the order of firing. */
  lemma OrderKept(log: seq<Fired>, before: seq<nat>, after: seq<nat>, due: Due, id: nat)
    requires id in due && forall x :: x in after <==> x in before || x == id
    ensures (Ordered(log) && forall i, x | 0 <= i < |log| && x in after && x in due :: log[i].due <= due[x])
            <==> (Ordered(log) && (forall i, x | 0 <= i < |log| && x in before && x in due :: log[i].due <= due[x])
                  && (log == [] || log[|log| - 1].due <= due[id]))
  {
    if Ordered(log) && (log == [] || log[|log| - 1].due <= due[id]) {
      forall i | 0 <= i < |log|
        ensures log[i].due <= due[id]
      {
        assert i < |log| - 1 ==> log[i].due <= log[|log| - 1].due;
      }
    }
  }

  /** Two starts of one timer, step by step in turn: it is in the list twice. */
  method StartTwice() returns (list: TimerList)
    ensures !list.Valid() && list.Bottom() == [0, 0]
  {
    hide RowsOk, Low, TimerList.LogOk, TimerList.Timely, TimerList.Held, TimerList.DatedBy, TimerList.InOrder;
    list := BothDated();
    list.Hang(0);
    assert list.Bottom() == [0];
    list.Hang(0);
  }

  method BothDated() returns (list: TimerList)
    ensures fresh(list) && list.Valid() && list.Bottom() == [] && !list.inTick && list.now == 0
    ensures 0 in list.starting && list.starting[0] == Dated && 0 in list.due && list.due[0] == 5
  {
    hide RowsOk, Low, TimerList.LogOk, TimerList.Timely, TimerList.Held, TimerList.DatedBy, TimerList.InOrder;
    list := new TimerList(1, 1, map[0 := Timer(5, false, false, 0)]);
    list.Unlink(0);
    list.Unlink(0);
    list.ReadTick(0);
    list.ReadTick(0);
  }

  /**
   A one-shot timer that its function starts again: it is in the list, but it
   counts as not active and cannot be stopped.
   */
  method Stranded() returns (list: TimerList, ok: bool)
    ensures list.Valid() && 0 in list.Bottom() && 0 in list.timers && !list.timers[0].activated && !ok
  {
    hide RowsOk, Low, Without, Insert, TimerList.LogOk, TimerList.Timely, TimerList.Held, TimerList.DatedBy,
         TimerList.InOrder,
         TimerList.Shown, Started, Stopped, Rearmed, Taken, Sound, Settings, Active, EachServed, AfterRounds, Names;
    list := new TimerList(1, 1, map[0 := Timer(1, false, false, 0)]);
    list.Start(0);
    InsertMembers(Without([], 0), 0, list.due);
    list.Tick();
    var fired, id := list.TakeHead();
    ghost var rest := list.Bottom();
    list.Start(id);
    InsertMembers(Without(rest, id), id, list.due);
    list.Rearm(id);
    ok := list.Stop(id);
  }

  /**
   A start that is held up: the clock is read for one timer, then another one is
   started and fires, and only then the first goes into the list.  It fires behind
   the other one although its deadline is earlier.
   */
  method LateStart() returns (list: TimerList)
    ensures list.Valid() && !Ordered(list.log)
  {
    hide RowsOk, Low, Without, Insert,
         TimerList.Shown, Started, Stopped, Rearmed, Taken, Sound, Settings, Active, EachServed, AfterRounds, Names;
    var late, other := 0, 1;
    list := HeldUp(late, other);
    ghost var first := list.log[0];
    ghost var rest := list.Bottom();
    list.Hang(late);
    InsertEarliest(rest, late, list.due);
    list.Tick();
    assert late in list.Overdue();
    list.Check(_ => []);
    assert first == list.log[0];
  }

  /** Up to the point where the start goes on. */
  method HeldUp(late: nat, other: nat) returns (list: TimerList)
    requires late != other
    ensures fresh(list) && list.Valid() && list.PeriodsOk() && !list.inTick && list.now == 1 && list.slack == 1
    ensures late in list.starting && list.starting[late] == Dated && late in list.due && list.due[late] == 0
    ensures list.log != [] && list.log[0].due == 1 && forall x | x in list.Bottom() :: x in list.due && list.due[x] > 1
  {
    hide RowsOk, Low, Without, Insert,
         TimerList.Shown, Started, Stopped, Rearmed, Taken, Sound, Settings, Active, EachServed, AfterRounds, Names;
    list := BothStarted(late, other);
    list.Tick();
    assert other in list.Overdue();
    list.Check(_ => []);
  }

  method BothStarted(late: nat, other: nat) returns (list: TimerList)
    requires late != other
    ensures fresh(list) && list.Valid() && list.PeriodsOk() && !list.inTick && list.now == 0 && list.slack == 1
            && list.log == []
    ensures late in list.starting && list.starting[late] == Dated && late in list.due && list.due[late] == 0
    ensures list.Bottom() == [other] && other in list.due && list.due[other] == 1
  {
    hide RowsOk, Low,
         TimerList.Shown, Started, Stopped, Rearmed, Taken, Sound, Settings, Active, EachServed, AfterRounds, Names;
    list := new TimerList(1, 1, map[late := Timer(0, false, false, 0), other := Timer(1, false, false, 0)]);
    list.Unlink(late);
    list.ReadTick(late);
    assert list.Bottom() == [];
    list.Start(other);
    assert list.Bottom() == [other];
  }

  /** A timer that is due before all others comes first. */
  lemma InsertEarliest(row: seq<nat>, id: nat, due: Due)
    requires Known(row, due) && id in due && forall x | x in row :: due[x] > due[id]
    ensures Insert(row, id, due) == [id] + row
  {
    if row != [] {
      assert row[0] in row;
    }
  }
}
