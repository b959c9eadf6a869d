/**
 The work of the tick interrupt on the plain list of waiting timers, and what it
 makes of each of them, whatever the functions of the timers do.
 */
module TimerRounds {
  import opened Seqs
  import opened TimerOrder

  /** A timer that fired: its deadline, when it was put into the list, and when it fired. */
  datatype Fired = Fired(id: nat, due: nat, put: nat, at: nat)

  /** The first tick that is not before the deadline and comes after the insertion. */
  function FiringTick(due: nat, put: nat): nat
  {
    if due > put then due else put + 1
  }

  /** What a timer function does to timers. */
  datatype Action = DoStart(id: nat) | DoStop(id: nat)

  /** What a timer keeps all the time. */
  datatype Setting = Setting(initTick: nat, periodic: bool)

  type Setup = map<nat, Setting>

  type Script = nat -> seq<Action>

  /** Which timers wait, in order, and which are active; deadlines and insertions; what has fired. */
  datatype View = View(waiting: seq<nat>, active: set<nat>, due: Due, put: Due, log: seq<Fired>)

  ghost predicate Sound(v: View, timers: Setup)
  {
    Known(v.waiting, v.due) && Known(v.waiting, v.put) && forall x | x in v.waiting :: x in timers
  }

  // ------------------------------------------------------------ one step

  ghost function Started(v: View, now: nat, timers: Setup, id: nat): (r: View)
    requires Sound(v, timers) && id in timers
    ensures Sound(r, timers) && forall x :: x in r.waiting <==> x in v.waiting || x == id
  {
    var due, rest := v.due[id := now + timers[id].initTick], Without(v.waiting, id);
    WithoutMembers(v.waiting, id);
    InsertMembers(rest, id, due);
    View(Insert(rest, id, due), v.active + {id}, due, v.put[id := now], v.log)
  }

  ghost function Stopped(v: View, timers: Setup, id: nat): (r: View)
    requires Sound(v, timers)
    ensures Sound(r, timers)
  {
    WithoutMembers(v.waiting, id);
    if id in v.active then v.(waiting := Without(v.waiting, id), active := v.active - {id}) else v
  }

  ghost function Acted(v: View, now: nat, timers: Setup, a: Action): (r: View)
    requires Sound(v, timers) && a.id in timers
    ensures Sound(r, timers)
  {
    match a
    case DoStart(id) => Started(v, now, timers, id)
    case DoStop(id) => Stopped(v, timers, id)
  }

  ghost function ActedAll(v: View, now: nat, timers: Setup, actions: seq<Action>): (r: View)
    requires Sound(v, timers) && forall a | a in actions :: a.id in timers
    ensures Sound(r, timers)
  {
    if actions == [] then v
    else Acted(ActedAll(v, now, timers, actions[..|actions| - 1]), now, timers, actions[|actions| - 1])
  }

  /** The first timer fires. */
  ghost function Taken(v: View, now: nat, timers: Setup): (r: View)
    requires Sound(v, timers) && v.waiting != []
    ensures Sound(r, timers)
  {
    var id := v.waiting[0];
    WithoutMembers(v.waiting, id);
    v.(waiting := Without(v.waiting, id), log := v.log + [Fired(id, v.due[id], v.put[id], now)])
  }

  /** After its function has run: a periodic timer that is still active starts again, any other is not active. */
  ghost function Rearmed(v: View, now: nat, timers: Setup, id: nat): (r: View)
    requires Sound(v, timers) && id in timers
    ensures Sound(r, timers)
  {
    var w := v.(active := v.active - {id});
    if timers[id].periodic && id in v.active then Started(w, now, timers, id) else w
  }

  /** One round of rt_timer_check for a timer whose function does `actions`. */
  ghost function Round(v: View, now: nat, timers: Setup, actions: seq<Action>): (r: View)
    requires Sound(v, timers) && v.waiting != [] && forall a | a in actions :: a.id in timers
    ensures Sound(r, timers)
  {
    Rearmed(ActedAll(Taken(v, now, timers), now, timers, actions), now, timers, v.waiting[0])
  }

  ghost predicate IsFirst(f: Fired, row: seq<nat>, due: Due)
  {
    row != [] && f.id == row[0] && f.id in due && f.due == due[f.id]
  }

  ghost predicate HeadDue(v: View, now: nat)
  {
    v.waiting != [] && v.waiting[0] in v.due && v.due[v.waiting[0]] <= now
  }

  /** The functions name timers that there are. */
  ghost predicate Names(script: Script, timers: Setup)
  {
    forall k, a | a in script(k) :: a.id in timers
  }

  /** `w` comes from `v` by `n` rounds, in each of which the first timer was due. */
  ghost predicate AfterRounds(v: View, now: nat, timers: Setup, script: Script, n: nat, w: View)
    requires Sound(v, timers) && Names(script, timers)
    ensures AfterRounds(v, now, timers, script, n, w) ==> Sound(w, timers)
  {
    if n == 0 then w == v
    else
      exists u ::
        && AfterRounds(v, now, timers, script, n - 1, u) && HeadDue(u, now)
        && w == Round(u, now, timers, script(n - 1))
  }

  lemma NoRounds(v: View, now: nat, timers: Setup, script: Script, w: View)
    requires Sound(v, timers) && Names(script, timers)
    ensures AfterRounds(v, now, timers, script, 0, w) <==> w == v
  {
  }

  lemma OneMoreRound(v: View, now: nat, timers: Setup, script: Script, n: nat, u: View)
    requires Sound(v, timers) && Names(script, timers) && AfterRounds(v, now, timers, script, n, u)
             && HeadDue(u, now)
    ensures AfterRounds(v, now, timers, script, n + 1, Round(u, now, timers, script(n)))
  {
  }

  // ------------------------------------------------------------ timers that no function names

  ghost predicate Quiet(script: Script, x: nat)
  {
    forall n, a | a in script(n) :: a.id != x
  }

  lemma NotNamed(script: Script, n: nat, x: nat)
    requires Quiet(script, x)
    ensures forall a | a in script(n) :: a.id != x
  {
  }

  /** Nothing has happened to `x`. */
  ghost predicate SameFor(v: View, w: View, x: nat)
  {
    && (x in w.waiting <==> x in v.waiting) && (x in w.active <==> x in v.active)
    && (x in w.due <==> x in v.due) && (x in v.due ==> w.due[x] == v.due[x])
    && (x in w.put <==> x in v.put) && (x in v.put ==> w.put[x] == v.put[x])
  }

  /** `x` has fired once since `v`, by the deadline it had then. */
  ghost predicate FiredOnce(v: View, w: View, now: nat, x: nat)
  {
    && v.log <= w.log && x in v.waiting && x in v.due && x in v.put && v.due[x] <= now
    && (exists i :: |v.log| <= i < |w.log| && w.log[i] == Fired(x, v.due[x], v.put[x], now))
    && forall i, j | |v.log| <= i < j < |w.log| :: w.log[i].id != x || w.log[j].id != x
  }

  ghost predicate NotFired(v: View, w: View, x: nat)
  {
    v.log <= w.log && forall i | |v.log| <= i < |w.log| :: w.log[i].id != x
  }

  /** A periodic timer that was active is in the list again, one period on; any other is out of it and not active. */
  ghost predicate Again(v: View, w: View, now: nat, timers: Setup, x: nat)
    requires x in timers
  {
    if timers[x].periodic && x in v.active then
      && x in w.waiting && x in w.active && x in w.due && w.due[x] == now + timers[x].initTick
      && x in w.put && w.put[x] == now
    else x !in w.waiting && x !in w.active
  }

  ghost predicate Settled(v: View, w: View, now: nat, timers: Setup, x: nat)
    requires x in timers
  {
    (NotFired(v, w, x) && SameFor(v, w, x)) || (FiredOnce(v, w, now, x) && Again(v, w, now, timers, x))
  }

  /** A timer that was due has fired and is settled; to any other nothing has happened. */
  ghost predicate ServedAs(v: View, w: View, now: nat, timers: Setup, x: nat)
    requires x in timers
  {
    if x in v.waiting && x in v.due && v.due[x] <= now then FiredOnce(v, w, now, x) && Again(v, w, now, timers, x)
    else NotFired(v, w, x) && SameFor(v, w, x)
  }

  ghost predicate EachServed(v: View, w: View, now: nat, timers: Setup, script: Script)
  {
    forall x | x in timers && Quiet(script, x) :: ServedAs(v, w, now, timers, x)
  }

  lemma QuietStart(v: View, now: nat, timers: Setup, id: nat, x: nat)
    requires Sound(v, timers) && id in timers && x != id
    ensures SameFor(v, Started(v, now, timers, id), x)
  {
  }

  lemma {:induction false} QuietActions(v: View, now: nat, timers: Setup, actions: seq<Action>, x: nat)
    requires Sound(v, timers) && forall a | a in actions :: a.id in timers && a.id != x
    ensures SameFor(v, ActedAll(v, now, timers, actions), x) && ActedAll(v, now, timers, actions).log == v.log
  {
    hide Without, Insert;
    if actions != [] {
      var front, a := actions[..|actions| - 1], actions[|actions| - 1];
      QuietActions(v, now, timers, front, x);
      var u := ActedAll(v, now, timers, front);
      WithoutMembers(u.waiting, a.id);
      if a.DoStart? {
        QuietStart(u, now, timers, a.id, x);
      }
    }
  }

  /** A round leaves alone all but the timer that fires. */
  lemma QuietRound(v: View, now: nat, timers: Setup, actions: seq<Action>, x: nat)
    requires Sound(v, timers) && v.waiting != [] && forall a | a in actions :: a.id in timers && a.id != x
    requires x in timers
    ensures var w, id := Round(v, now, timers, actions), v.waiting[0];
            && w.log == v.log + [Fired(id, v.due[id], v.put[id], now)]
            && if x == id then Again(v, w, now, timers, x) else SameFor(v, w, x)
  {
    hide Without, Insert;
    var id, u := v.waiting[0], Taken(v, now, timers);
    WithoutMembers(v.waiting, id);
    QuietActions(u, now, timers, actions, x);
    var t := ActedAll(u, now, timers, actions);
    if x != id {
      QuietStart(t, now, timers, id, x);
    }
  }

  lemma LastRound(v: View, now: nat, timers: Setup, script: Script, n: nat, w: View) returns (u: View)
    requires Sound(v, timers) && Names(script, timers) && n > 0 && AfterRounds(v, now, timers, script, n, w)
    ensures AfterRounds(v, now, timers, script, n - 1, u) && Sound(u, timers) && HeadDue(u, now)
    ensures (forall a | a in script(n - 1) :: a.id in timers)
    ensures w == Round(u, now, timers, script(n - 1))
  {
    hide Round;
    u :| AfterRounds(v, now, timers, script, n - 1, u) && HeadDue(u, now) && w == Round(u, now, timers, script(n - 1));
  }

  lemma {:induction false} LogKept(v: View, now: nat, timers: Setup, actions: seq<Action>)
    requires Sound(v, timers) && forall a | a in actions :: a.id in timers
    ensures ActedAll(v, now, timers, actions).log == v.log
  {
    if actions != [] {
      LogKept(v, now, timers, actions[..|actions| - 1]);
    }
  }

  lemma RoundLog(v: View, now: nat, timers: Setup, actions: seq<Action>)
    requires Sound(v, timers) && v.waiting != [] && forall a | a in actions :: a.id in timers
    ensures Round(v, now, timers, actions).log
            == v.log + [Fired(v.waiting[0], v.due[v.waiting[0]], v.put[v.waiting[0]], now)]
  {
    LogKept(Taken(v, now, timers), now, timers, actions);
  }

  /** Each round fires one timer, now, and the first round the first timer. */
  lemma {:induction false} RoundsLog(v: View, now: nat, timers: Setup, script: Script, n: nat, w: View)
    requires Sound(v, timers) && Names(script, timers) && AfterRounds(v, now, timers, script, n, w)
    ensures LogGrew(v, w, now, n)
    decreases n
  {
    hide Round, AfterRounds, Names;
    if n == 0 {
      NoRounds(v, now, timers, script, w);
    } else {
      var u := LastRound(v, now, timers, script, n, w);
      RoundsLog(v, now, timers, script, n - 1, u);
      RoundLog(u, now, timers, script(n - 1));
      LogGrowsOn(v, u, w, now, n, u.put[u.waiting[0]]);
    }
  }

  ghost predicate LogGrew(v: View, w: View, now: nat, n: nat)
  {
    && v.log <= w.log && |w.log| == |v.log| + n && (forall i | |v.log| <= i < |w.log| :: w.log[i].at == now)
    && if n == 0 then w == v else HeadDue(v, now) && IsFirst(w.log[|v.log|], v.waiting, v.due)
  }

  lemma LogGrowsOn(v: View, u: View, w: View, now: nat, n: nat, put: nat)
    requires n > 0 && LogGrew(v, u, now, n - 1) && HeadDue(u, now)
    requires w.log == u.log + [Fired(u.waiting[0], u.due[u.waiting[0]], put, now)]
    ensures LogGrew(v, w, now, n)
  {
  }

  /** Over any number of rounds a timer that is not named is left alone, or has fired once and is settled. */
  lemma {:induction false} QuietRounds(v: View, now: nat, timers: Setup, script: Script, n: nat, w: View, x: nat)
    requires Sound(v, timers) && Names(script, timers)
    requires AfterRounds(v, now, timers, script, n, w) && x in timers && Quiet(script, x)
    requires timers[x].periodic ==> timers[x].initTick > 0
    ensures Settled(v, w, now, timers, x)
    decreases n
  {
    hide Round, AfterRounds, Names, Again, Quiet, FiredOnce;
    if n == 0 {
      NoRounds(v, now, timers, script, w);
    } else {
      var u := LastRound(v, now, timers, script, n, w);
      QuietRounds(v, now, timers, script, n - 1, u, x);
      NotNamed(script, n - 1, x);
      QuietRound(u, now, timers, script(n - 1), x);
      SettledNext(v, u, w, now, timers, x);
    }
  }

  lemma SettledNext(v: View, u: View, w: View, now: nat, timers: Setup, x: nat)
    requires Sound(u, timers) && HeadDue(u, now) && x in timers && (timers[x].periodic ==> timers[x].initTick > 0)
    requires var id := u.waiting[0];
             && w.log == u.log + [Fired(id, u.due[id], u.put[id], now)]
             && if x == id then Again(u, w, now, timers, x) else SameFor(u, w, x)
    requires Settled(v, u, now, timers, x)
    ensures Settled(v, w, now, timers, x)
  {
    var id := u.waiting[0];
    assert w.log[|u.log|].id == id;
    if x == id {
      assert NotFired(v, u, x);
    } else if FiredOnce(v, u, now, x) {
      var i :| |v.log| <= i < |u.log| && u.log[i] == Fired(x, v.due[x], v.put[x], now);
      assert w.log[i] == u.log[i];
    }
  }

  /** When nothing is due any more, exactly the timers that were due have fired. */
  lemma AllServed(v: View, now: nat, timers: Setup, script: Script, n: nat, w: View, x: nat)
    requires Sound(v, timers) && Names(script, timers)
    requires AfterRounds(v, now, timers, script, n, w) && x in timers && Quiet(script, x)
    requires timers[x].periodic ==> timers[x].initTick > 0
    requires forall y | y in w.waiting :: y in w.due && w.due[y] > now
    ensures ServedAs(v, w, now, timers, x)
  {
    hide AfterRounds;
    QuietRounds(v, now, timers, script, n, w, x);
  }

  // ------------------------------------------------------------ over many ticks

  /** The ticks at which `x` has fired. */
  ghost function Firings(log: seq<Fired>, x: nat): seq<nat>
  {
    if log == [] then []
    else
      var last := log[|log| - 1];
      Firings(log[..|log| - 1], x) + if last.id == x then [last.at] else []
  }

  /** Every `period` ticks from `first` on, up to now. */
  ghost function Beats(first: nat, period: nat, now: nat): seq<nat>
    requires period > 0
    decreases now - first
  {
    if now < first then [] else [first] + Beats(first + period, period, now)
  }

  ghost function NextBeat(first: nat, period: nat, now: nat): (next: nat)
    requires period > 0
    ensures next > now
    decreases now - first
  {
    if now < first then first else NextBeat(first + period, period, now)
  }

  lemma {:induction false} BeatsGoOn(first: nat, period: nat, now: nat)
    requires period > 0
    ensures var next := NextBeat(first, period, now);
            && Beats(first, period, now + 1) == Beats(first, period, now) + (if next == now + 1 then [now + 1] else [])
            && NextBeat(first, period, now + 1) == if next == now + 1 then next + period else next
    decreases now - first
  {
    if first <= now {
      BeatsGoOn(first + period, period, now);
      assert Beats(first, period, now + 1) == [first] + Beats(first + period, period, now + 1);
    } else {
      assert Beats(first, period, now) == [];
      if first == now + 1 {
        assert Beats(first + period, period, now + 1) == [];
      }
    }
  }

  lemma {:induction false} FiringsSame(log: seq<Fired>, log': seq<Fired>, x: nat)
    requires log <= log' && forall i | |log| <= i < |log'| :: log'[i].id != x
    ensures Firings(log', x) == Firings(log, x)
    decreases |log'|
  {
    if log' != log {
      FiringsSame(log, log'[..|log'| - 1], x);
    } else {
      assert log'[..|log|] == log;
    }
  }

  lemma {:induction false} FiringsOnce(log: seq<Fired>, log': seq<Fired>, x: nat, i: nat)
    requires log <= log' && |log| <= i < |log'| && log'[i].id == x
    requires forall j, k | |log| <= j < k < |log'| :: log'[j].id != x || log'[k].id != x
    ensures Firings(log', x) == Firings(log, x) + [log'[i].at]
  {
    FiringsSame(log'[..i + 1], log', x);
    assert log'[..i + 1][..i] == log'[..i];
    FiringsSame(log, log'[..i], x);
  }

  /**
   What a run up to `now` makes of a timer: one that waits fires at the first tick
   that its deadline and its insertion allow; if it is periodic and active, then
   also every period after that, and if not, it is out of the list and not active.
   */
  ghost predicate OnTime(v: View, w: View, now: nat, timers: Setup, x: nat)
    requires x in timers
  {
    if x !in v.waiting || x !in v.due || x !in v.put then Firings(w.log, x) == Firings(v.log, x) && SameFor(v, w, x)
    else
      var first, period := FiringTick(v.due[x], v.put[x]), timers[x].initTick;
      if timers[x].periodic && x in v.active then
        && period > 0 && Firings(w.log, x) == Firings(v.log, x) + Beats(first, period, now)
        && x in w.waiting && x in w.active && x in w.due && x in w.put
        && FiringTick(w.due[x], w.put[x]) == NextBeat(first, period, now)
      else if now < first then Firings(w.log, x) == Firings(v.log, x) && SameFor(v, w, x)
      else Firings(w.log, x) == Firings(v.log, x) + [first] && x !in w.waiting && x !in w.active
  }

  /** When the last tick was served all that waits is ahead, but for what came in late. */
  ghost predicate Ahead(v: View, now: nat, x: nat)
  {
    x in v.waiting ==> x in v.due && x in v.put && v.put[x] <= now && (v.due[x] > now || v.put[x] == now)
  }

  lemma OnTimeStart(v: View, now: nat, timers: Setup, x: nat)
    requires x in timers && Ahead(v, now, x) && (timers[x].periodic ==> timers[x].initTick > 0)
    ensures OnTime(v, v, now, timers, x)
  {
  }

  lemma OnTimeNext(v: View, u: View, w: View, now: nat, timers: Setup, x: nat)
    requires x in timers && OnTime(v, u, now, timers, x) && Ahead(u, now, x) && ServedAs(u, w, now + 1, timers, x)
    ensures OnTime(v, w, now + 1, timers, x)
  {
    hide Firings, Beats, NextBeat;
    if x in u.waiting && u.due[x] <= now + 1 {
      FiredNow(u, w, now + 1, x);
    } else {
      FiringsSame(u.log, w.log, x);
    }
    if x in v.waiting && x in v.due && x in v.put && timers[x].periodic && x in v.active {
      BeatsGoOn(FiringTick(v.due[x], v.put[x]), timers[x].initTick, now);
    }
  }

  lemma FiredNow(v: View, w: View, now: nat, x: nat)
    requires FiredOnce(v, w, now, x)
    ensures Firings(w.log, x) == Firings(v.log, x) + [now]
  {
    var i :| |v.log| <= i < |w.log| && w.log[i] == Fired(x, v.due[x], v.put[x], now);
    FiringsOnce(v.log, w.log, x, i);
  }
}
