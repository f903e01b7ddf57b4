/**
 When a timer fires, seen from outside: over any run in which nobody touches its slot, a
 timer fires at exactly the times its own record announces, whatever else fires, whatever
 the callbacks do, and however the ticks are batched.
 */
module TimerRuns {
  import opened Options
  import opened Timers

  predicate Touches(call: Call, i: nat) {
    match call
    case Activate(j, _, _) => i == j
    case Deactivate(j) => i == j
    case Unregister(j) => i == j
    case _ => false
  }

  // ---------- runs that leave slot i alone ----------

  predicate MovesLeave<W>(c: Core<W>, moves: seq<Move<W>>, result: int, i: nat)
    requires Shaped(c)
    decreases |moves|
  {
    moves == [] ||
    (var (c', result') := MakeMove(c, moves[0], result);
     !Touches(moves[0](c.world, ViewOf(c, result)).1, i) && MovesLeave(c', moves[1..], result', i))
  }

  predicate CallBackLeaves<W>(h: Handler<W>, c: Core<W>, j: nat, i: nat)
    requires Shaped(c) && j < MAX_TIMERS && c.timers[j].funct.Some?
  {
    MovesLeave(c.(triggered := j, log := c.log + [Firing(j, c.now)]),
               h(c.timers[j].funct.value, c.timers[j].thisPtr, c.world), 0, i)
  }

  predicate DeliverLeaves<W>(h: Handler<W>, c: Core<W>, due: seq<bool>, j: nat, i: nat)
    requires Shaped(c) && |due| == MAX_TIMERS && j <= MAX_TIMERS
    decreases MAX_TIMERS - j
  {
    if j == MAX_TIMERS then true
    else if due[j] && c.timers[j].funct.Some? then
      CallBackLeaves(h, c, j, i) && DeliverLeaves(h, CallBack(h, c, j), due, j + 1, i)
    else DeliverLeaves(h, c, due, j + 1, i)
  }

  predicate TicksLeave<W>(h: Handler<W>, c: Core<W>, n: nat, i: nat)
    requires Shaped(c)
    decreases n
  {
    n == 0 ||
    (var c1 := c.(now := c.now + 1);
     DeliverLeaves(h, Rearm(c1), DueSlots(c1.timers, c1.numTimers, c1.now), 0, i) && TicksLeave(h, Tick(h, c), n - 1, i))
  }

  predicate StepsLeave<W>(h: Handler<W>, c: Core<W>, steps: seq<Step<W>>, i: nat)
    requires Shaped(c)
    decreases |steps|
  {
    steps == [] ||
    match steps[0]
    case Calls(moves) => MovesLeave(c, moves, 0, i) && StepsLeave(h, RunMoves(c, moves, 0), steps[1..], i)
    case Elapse(n) => TicksLeave(h, c, n(c.world), i) && StepsLeave(h, TickN(h, c, n(c.world)), steps[1..], i)
  }

  // ---------- what slot i shows ----------

  /** The times at which slot i has fired. */
  function FiringsOf(log: seq<Firing>, i: nat): seq<nat> {
    if log == [] then [] else
      var last := log[|log| - 1];
      FiringsOf(log[..|log| - 1], i) + (if last.slot == i then [last.time] else [])
  }

  /** A registered timer with a callback. */
  predicate Installed<W>(c: Core<W>, i: nat, t: Timer)
    requires Shaped(c)
  {
    && 0 < i < c.numTimers
    && c.timers[i] == t.(param := c.timers[i].param)
    && t.inUse && t.funct.Some?
  }

  /** The times up to and including `until` at which the timer, left alone, goes off. */
  function FireTimes(t: Timer, until: nat): (r: seq<nat>)
    requires t.active ==> 0 < t.period
    decreases t.active, until - t.timeToFire
  {
    if t.active && t.timeToFire <= until then [t.timeToFire] + FireTimes(Rearmed(t), until) else []
  }

  function After(t: Timer, until: nat): (r: Timer)
    requires t.active ==> 0 < t.period
    decreases t.active, until - t.timeToFire
  {
    if t.active && t.timeToFire <= until then After(Rearmed(t), until) else t
  }

  /** A timer whose next due time, if it has one, is still to come. */
  predicate Pending(t: Timer, now: nat) {
    t.active ==> now < t.timeToFire && 0 < t.period
  }

  // ---------- slot i over moves, deliveries, ticks and runs ----------

  lemma {:induction false} MovesKeep<W>(c: Core<W>, moves: seq<Move<W>>, result: int, i: nat, t: Timer)
    requires Shaped(c) && Installed(c, i, t) && MovesLeave(c, moves, result, i)
    ensures Installed(RunMoves(c, moves, result), i, t)
    decreases |moves|
  {
    if moves != [] {
      var (c', result') := MakeMove(c, moves[0], result);
      MovesKeep(c', moves[1..], result', i, t);
    }
  }

  lemma CallBackKeeps<W>(h: Handler<W>, c: Core<W>, j: nat, i: nat, t: Timer)
    requires Shaped(c) && Installed(c, i, t) && j < MAX_TIMERS && c.timers[j].funct.Some? && CallBackLeaves(h, c, j, i)
    ensures Installed(CallBack(h, c, j), i, t)
    ensures FiringsOf(CallBack(h, c, j).log, i) == FiringsOf(c.log, i) + (if i == j then [c.now] else [])
  {
    hide RunMoves, MovesLeave;
    var c1 := c.(triggered := j, log := c.log + [Firing(j, c.now)]);
    MovesKeep(c1, h(c.timers[j].funct.value, c.timers[j].thisPtr, c.world), 0, i, t);
    assert c1.log[..|c.log|] == c.log;
  }

  lemma {:induction false} DeliverKeeps<W>(h: Handler<W>, c: Core<W>, due: seq<bool>, j: nat, i: nat, t: Timer)
    requires Shaped(c) && Installed(c, i, t) && |due| == MAX_TIMERS && j <= MAX_TIMERS && DeliverLeaves(h, c, due, j, i)
    ensures Installed(Deliver(h, c, due, j), i, t)
    ensures FiringsOf(Deliver(h, c, due, j).log, i) == FiringsOf(c.log, i) + (if j <= i && due[i] then [c.now] else [])
    decreases MAX_TIMERS - j
  {
    hide CallBack, CallBackLeaves, FiringsOf;
    if j < MAX_TIMERS {
      if due[j] && c.timers[j].funct.Some? {
        CallBackKeeps(h, c, j, i, t);
        DeliverKeeps(h, CallBack(h, c, j), due, j + 1, i, t);
      } else {
        DeliverKeeps(h, c, due, j + 1, i, t);
      }
    }
  }

  lemma TickKeeps<W>(h: Handler<W>, c: Core<W>, i: nat, t: Timer)
    requires Shaped(c) && Installed(c, i, t) && Pending(t, c.now) && TicksLeave(h, c, 1, i)
    ensures var c' := Tick(h, c); var t' := Advanced(t, c.now + 1);
            && Installed(c', i, t') && Pending(t', c'.now)
            && FiringsOf(c'.log, i) == FiringsOf(c.log, i) + (if IsDue(t, c'.now) then [c'.now] else [])
  {
    hide Deliver, DeliverLeaves, FiringsOf;
    var c1 := c.(now := c.now + 1);
    DeliverKeeps(h, Rearm(c1), DueSlots(c1.timers, c1.numTimers, c1.now), 0, i, Advanced(t, c1.now));
  }

  /** Over n ticks slot i fires at exactly the times its record announces. */
  lemma {:induction false} TicksKeep<W>(h: Handler<W>, c: Core<W>, n: nat, i: nat, t: Timer)
    requires Shaped(c) && Installed(c, i, t) && Pending(t, c.now) && TicksLeave(h, c, n, i)
    ensures var c' := TickN(h, c, n); var t' := After(t, c'.now);
            && Installed(c', i, t') && Pending(t', c'.now)
            && FiringsOf(c'.log, i) == FiringsOf(c.log, i) + FireTimes(t, c'.now)
    decreases n
  {
    hide Tick, DeliverLeaves, FiringsOf, Rearm;
    if n > 0 {
      TickKeeps(h, c, i, t);
      TicksKeep(h, Tick(h, c), n - 1, i, Advanced(t, c.now + 1));
    }
  }

  lemma {:induction false} FireTimesSplit(t: Timer, mid: nat, until: nat)
    requires t.active ==> 0 < t.period
    requires mid <= until
    ensures After(t, mid).active ==> 0 < After(t, mid).period
    ensures FireTimes(t, until) == FireTimes(t, mid) + FireTimes(After(t, mid), until)
    ensures After(t, until) == After(After(t, mid), until)
    decreases t.active, mid - t.timeToFire
  {
    if t.active && t.timeToFire <= mid {
      FireTimesSplit(Rearmed(t), mid, until);
    }
  }

  /**
   Over any run that leaves slot i alone it fires at exactly the times its record announces
   and at no others, up to the time the run ends.
   */
  lemma {:induction false} FiresAsAnnounced<W>(h: Handler<W>, c: Core<W>, steps: seq<Step<W>>, i: nat, t: Timer)
    requires Shaped(c) && Installed(c, i, t) && Pending(t, c.now) && StepsLeave(h, c, steps, i)
    ensures var c' := RunSteps(h, c, steps);
            && Installed(c', i, After(t, c'.now))
            && FiringsOf(c'.log, i) == FiringsOf(c.log, i) + FireTimes(t, c'.now)
    decreases |steps|
  {
    hide TickN, TicksLeave, RunMoves, MovesLeave, FiringsOf;
    if steps != [] {
      match steps[0] {
        case Calls(moves) =>
          MovesKeep(c, moves, 0, i, t);
          FiresAsAnnounced(h, RunMoves(c, moves, 0), steps[1..], i, t);
        case Elapse(n) =>
          var mid := TickN(h, c, n(c.world));
          TicksKeep(h, c, n(c.world), i, t);
          FiresAsAnnounced(h, mid, steps[1..], i, After(t, mid.now));
          FireTimesSplit(t, mid.now, RunSteps(h, c, steps).now);
      }
    }
  }

  // ---------- continuous and one-shot timers ----------

  /** d, d+p, d+2p, ..., n terms. */
  function Progression(d: nat, p: nat, n: nat): (r: seq<nat>)
    ensures |r| == n
    ensures forall k :: 0 <= k < n ==> r[k] == d + k * p
  {
    if n == 0 then [] else Progression(d, p, n - 1) + [d + (n - 1) * p]
  }

  lemma {:induction false} ProgressionHead(d: nat, p: nat, n: nat)
    requires n > 0
    ensures Progression(d, p, n) == [d] + Progression(d + p, p, n - 1)
  {
    if n > 1 {
      ProgressionHead(d, p, n - 1);
      assert (n - 1) * p == p + (n - 2) * p;
    }
  }

  lemma {:induction false} ContinuousTimes(t: Timer, until: nat, n: nat)
    requires t.active && t.continuous && 0 < t.period
    requires (n - 1) * t.period <= until - t.timeToFire < n * t.period
    ensures FireTimes(t, until) == Progression(t.timeToFire, t.period, n)
    decreases n
  {
    if n > 0 {
      var t' := Rearmed(t);
      assert (n - 1) * t.period >= 0 && (n - 2) * t.period == (n - 1) * t.period - t.period;
      ContinuousTimes(t', until, n - 1);
      ProgressionHead(t.timeToFire, t.period, n);
    } else {
      assert until < t.timeToFire;
    }
  }

  /** The number of whole periods in a span of time. */
  function Periods(span: nat, p: nat): (n: nat)
    requires 0 < p
    ensures n * p <= span < n * p + p
  {
    span / p
  }

  lemma ContinuousTimesSince(t: Timer, t0: nat, until: nat)
    requires t.active && t.continuous && 0 < t.period && t.timeToFire == t0 + t.period && t0 <= until
    ensures FireTimes(t, until) == Progression(t0 + t.period, t.period, Periods(until - t0, t.period))
  {
    var p := t.period;
    var n: int := Periods(until - t0, p);
    assert (n - 1) * p == n * p - p;
    ContinuousTimes(t, until, n);
  }

  /**
   A continuous timer armed at time t0 with period p, and left alone by the run, has by the
   end of the run fired floor((end - t0) / p) times, at t0+p, t0+2p, ...: it does not drift.
   A period of 0 ticks acts as 1.
   */
  lemma ContinuousDoesNotDrift<W>(h: Handler<W>, c: Core<W>, steps: seq<Step<W>>, i: nat, ticks: Ticks)
    requires Shaped(c) && 0 < i < c.numTimers && c.timers[i].inUse && c.timers[i].funct.Some?
    requires StepsLeave(h, Apply(c, Activate(i, ticks, true)).0, steps, i)
    ensures var p := if ticks == 0 then 1 else ticks; var c' := RunSteps(h, Apply(c, Activate(i, ticks, true)).0, steps);
            FiringsOf(c'.log, i) == FiringsOf(c.log, i) + Progression(c.now + p, p, Periods(c'.now - c.now, p))
  {
    hide RunSteps, StepsLeave, FiringsOf;
    var a := Apply(c, Activate(i, ticks, true)).0;
    var end := RunSteps(h, a, steps).now;
    FiresAsAnnounced(h, a, steps, i, a.timers[i]);
    ContinuousTimesSince(a.timers[i], c.now, end);
  }

  /** A one-shot timer fires once, `ticks` after it was armed, if the run gets that far; 0 ticks act as 1. */
  lemma OneShotFiresOnce<W>(h: Handler<W>, c: Core<W>, steps: seq<Step<W>>, i: nat, ticks: Ticks)
    requires Shaped(c) && 0 < i < c.numTimers && c.timers[i].inUse && c.timers[i].funct.Some?
    requires StepsLeave(h, Apply(c, Activate(i, ticks, false)).0, steps, i)
    ensures var d := c.now + if ticks == 0 then 1 else ticks; var c' := RunSteps(h, Apply(c, Activate(i, ticks, false)).0, steps);
            FiringsOf(c'.log, i) == FiringsOf(c.log, i) + (if d <= c'.now then [d] else [])
  {
    hide RunSteps, StepsLeave, FiringsOf;
    var a := Apply(c, Activate(i, ticks, false)).0;
    FiresAsAnnounced(h, a, steps, i, a.timers[i]);
  }

  /** A timer that is off and left alone never fires. */
  lemma InactiveStaysSilent<W>(h: Handler<W>, c: Core<W>, steps: seq<Step<W>>, i: nat)
    requires Shaped(c) && 0 < i < c.numTimers && c.timers[i].inUse && c.timers[i].funct.Some?
    requires StepsLeave(h, Apply(c, Deactivate(i)).0, steps, i)
    ensures FiringsOf(RunSteps(h, Apply(c, Deactivate(i)).0, steps).log, i) == FiringsOf(c.log, i)
  {
    hide RunSteps, StepsLeave, FiringsOf;
    var a := Apply(c, Deactivate(i)).0;
    FiresAsAnnounced(h, a, steps, i, a.timers[i]);
  }

  /**
   A timer registered with a callback, and left alone, fires like one that is activated at that
   moment if it is registered active, and never if not.
   */
  lemma RegisteredTimerFires<W>(h: Handler<W>, c: Core<W>, steps: seq<Step<W>>,
                                funct: nat, thisPtr: nat, ticks: Ticks, continuous: bool, active: bool)
    requires Shaped(c) && c.numTimers < 64
    requires var (a, id) := Apply(c, Register(Some(funct), thisPtr, ticks, continuous, active));
             0 <= id && StepsLeave(h, a, steps, id)
    ensures var (a, id) := Apply(c, Register(Some(funct), thisPtr, ticks, continuous, active));
            var p := if ticks == 0 then 1 else ticks; var c' := RunSteps(h, a, steps);
            FiringsOf(c'.log, id) == FiringsOf(c.log, id)
              + (if !active then []
                 else if continuous then Progression(c.now + p, p, Periods(c'.now - c.now, p))
                 else if c.now + p <= c'.now then [c.now + p] else [])
  {
    hide RunSteps, StepsLeave, FiringsOf;
    var (a, id) := Apply(c, Register(Some(funct), thisPtr, ticks, continuous, active));
    FiresAsAnnounced(h, a, steps, id, a.timers[id]);
    if active && continuous {
      ContinuousTimesSince(a.timers[id], c.now, RunSteps(h, a, steps).now);
    }
  }

  // ---------- slots and what callbacks see ----------

  /** Registration takes the lowest free slot, and fails exactly when the bound has reached 64, free slots or not. */
  lemma RegistrationTakesLowestFreeSlot<W>(c: Core<W>, call: Call)
    requires Shaped(c) && call.Register?
    ensures var (c', id) := Apply(c, call);
            && (id == -1 <==> c.numTimers >= 64)
            && (id == -1 ==> c' == c)
            && (id != -1 ==>
                  && 1 <= id <= c.numTimers && (id < c.numTimers ==> !c.timers[id].inUse) && c'.timers[id].inUse
                  && (forall j :: 1 <= j < id ==> c.timers[j].inUse)
                  && (forall j :: 0 <= j < 64 && j != id ==> c'.timers[j] == c.timers[j]))
  {}

  /**
   The slot of an unregistered timer goes to the next registration if no lower one is free,
   unless the bound stays at 64: it moves down only when the last slot is freed.
   */
  lemma FreedSlotIsReused<W>(c: Core<W>, i: nat, call: Call)
    requires Shaped(c) && 0 < i < c.numTimers && forall j :: 1 <= j < i ==> c.timers[j].inUse
    requires call.Register?
    ensures var (a, freed) := Apply(c, Unregister(i));
            if c.timers[i].active then a == c && freed == 0
            else freed == 1 && Apply(a, call).1 == if c.numTimers == 64 && i != 63 then -1 else i
  {
    if !c.timers[i].active {
      var a := Apply(c, Unregister(i)).0;
      RegistrationTakesLowestFreeSlot(a, call);
      assert !a.timers[i].inUse && forall j :: 1 <= j < i ==> a.timers[j].inUse;
    }
  }

  /** A move sees the clock, the triggered slot, its parameter and the result of the move before it. */
  lemma MovesSee<W>(c: Core<W>, first: Move<W>, second: Move<W>)
    requires Shaped(c)
    ensures var (world, call) := first(c.world, View(c.now, c.triggered, c.timers[c.triggered].param, 0));
            var (a, result) := Apply(c.(world := world), call);
            var (world', call') := second(world, View(c.now, c.triggered, a.timers[c.triggered].param, result));
            RunMoves(c, [first, second], 0) == Apply(a.(world := world'), call').0
  {
    hide Apply;
    assert [first, second][1..] == [second];
    var (a, result) := MakeMove(c, first, 0);
    OneMove(a, second, result);
  }

  lemma OneMove<W>(c: Core<W>, move: Move<W>, result: int)
    requires Shaped(c)
    ensures RunMoves(c, [move], result) == MakeMove(c, move, result).0
  {
    hide Apply;
    assert [move][1..] == [];
  }

  /** A callback is the slot's own, and finds the time, its slot and the parameter that was set for it. */
  lemma ParameterReachesCallback<W>(h: Handler<W>, c: Core<W>, i: nat, param: nat, move: Move<W>)
    requires Shaped(c) && i < 64 && c.timers[i].funct.Some?
    requires h(c.timers[i].funct.value, c.timers[i].thisPtr, c.world) == [move]
    ensures var a := Apply(c, SetParam(i, param)).0;
            var (world, call) := move(c.world, View(c.now, i, param, 0));
            CallBack(h, a, i)
              == Apply(a.(triggered := i, log := c.log + [Firing(i, c.now)], world := world), call).0.(triggered := 0)
  {
    hide RunMoves;
    var a := Apply(c, SetParam(i, param)).0;
    OneMove(a.(triggered := i, log := c.log + [Firing(i, c.now)]), move, 0);
  }

  /**
   An event moves the due times of continuous timers that are due and turns off one-shot ones;
   nothing else in the table changes.
   */
  lemma RearmingKeepsTheRest<W>(c: Core<W>, i: nat)
    requires Shaped(c) && i < 64
    ensures var t, t' := c.timers[i], Rearm(c).timers[i];
            var due := i < c.numTimers && t.active && t.timeToFire == c.now;
            && t'.inUse == t.inUse && t'.period == t.period && t'.continuous == t.continuous
            && t'.funct == t.funct && t'.thisPtr == t.thisPtr && t'.param == t.param
            && t'.active == (t.active && (due ==> t.continuous))
            && t'.timeToFire == if due && t.continuous then c.now + t.period else t.timeToFire
  {}

  // ---------- the order of the trace ----------

  /** Earlier firings come first, and firings of one tick come in slot order, each slot once. */
  predicate Ordered(log: seq<Firing>) {
    forall a, b :: 0 <= a < b < |log| ==> log[a].time < log[b].time || (log[a].time == log[b].time && log[a].slot < log[b].slot)
  }

  /** All entries are from before this time, or of it and from slots below i. */
  predicate UpTo(log: seq<Firing>, now: nat, i: nat) {
    forall a :: 0 <= a < |log| ==> log[a].time < now || (log[a].time == now && log[a].slot < i)
  }

  lemma {:induction false} DeliveryIsOrdered<W>(h: Handler<W>, c: Core<W>, due: seq<bool>, i: nat)
    requires Shaped(c) && |due| == MAX_TIMERS && i <= MAX_TIMERS
    requires Ordered(c.log) && UpTo(c.log, c.now, i)
    ensures Ordered(Deliver(h, c, due, i).log) && UpTo(Deliver(h, c, due, i).log, c.now, MAX_TIMERS)
    decreases MAX_TIMERS - i
  {
    hide RunMoves;
    if i < MAX_TIMERS {
      if due[i] && c.timers[i].funct.Some? {
        DeliveryIsOrdered(h, CallBack(h, c, i), due, i + 1);
      } else {
        DeliveryIsOrdered(h, c, due, i + 1);
      }
    }
  }

  lemma {:induction false} TicksAreOrdered<W>(h: Handler<W>, c: Core<W>, n: nat)
    requires Shaped(c) && Ordered(c.log) && UpTo(c.log, c.now, MAX_TIMERS)
    ensures var c' := TickN(h, c, n); Ordered(c'.log) && UpTo(c'.log, c'.now, MAX_TIMERS)
    decreases n
  {
    hide Deliver;
    if n > 0 {
      var c1 := c.(now := c.now + 1);
      DeliveryIsOrdered(h, Rearm(c1), DueSlots(c1.timers, c1.numTimers, c1.now), 0);
      TicksAreOrdered(h, Tick(h, c), n - 1);
    }
  }

  /** Over any run the trace is ordered by time and, within a tick, by slot. */
  lemma {:induction false} TraceIsOrdered<W>(h: Handler<W>, c: Core<W>, steps: seq<Step<W>>)
    requires Shaped(c) && Ordered(c.log) && UpTo(c.log, c.now, MAX_TIMERS)
    ensures var c' := RunSteps(h, c, steps); Ordered(c'.log) && UpTo(c'.log, c'.now, MAX_TIMERS)
    decreases |steps|
  {
    hide RunMoves, TickN, Ordered, UpTo;
    if steps != [] {
      match steps[0] {
        case Calls(moves) => TraceIsOrdered(h, RunMoves(c, moves, 0), steps[1..]);
        case Elapse(n) =>
          TicksAreOrdered(h, c, n(c.world));
          TraceIsOrdered(h, TickN(h, c, n(c.world)), steps[1..]);
      }
    }
  }
}
