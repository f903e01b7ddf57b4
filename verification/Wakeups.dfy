/**
 The scheduler with a wake-up time: it looks at the table only when the clock reaches
 `wake`, and `wake` moves earlier when a timer is armed to fire before it. `base` is the
 time of the last wake-up. Every function here promises that it keeps the invariant and
 that, wake-up aside, it does what the naive scheduler does.
 */
module Wakeups {
  import opened Options
  import opened Timers

  datatype Waker<W> = Waker(core: Core<W>, base: nat, wake: nat)

  /** The null timer runs, with a period that fits in 32 bits. */
  ghost predicate NullTimerInPlace(t: Timer, now: nat) {
    && t.active && t.continuous && 0 < t.period <= NULL_INTERVAL
    && t.timeToFire <= now + NULL_INTERVAL
  }

  /** No active timer is due before `wake`; slots past the bound are never looked at. */
  ghost predicate NothingDueBefore(timers: seq<Timer>, numTimers: nat, wake: nat)
    requires numTimers <= |timers|
  {
    forall i :: 0 <= i < numTimers && timers[i].active ==> wake <= timers[i].timeToFire
  }

  /** Adding a period to a due time fits in 64 bits and moves it. */
  ghost predicate PeriodsFit(timers: seq<Timer>) {
    forall i :: 0 <= i < |timers| ==> timers[i].period < TWO63 && (timers[i].active ==> 0 < timers[i].period)
  }

  /** Holds whenever the clock is at or before the wake-up time. */
  ghost predicate Sound<W>(w: Waker<W>) {
    && Shaped(w.core)
    && w.base <= w.core.now <= w.wake <= w.base + NULL_INTERVAL
    && NullTimerInPlace(w.core.timers[0], w.core.now)
    && NothingDueBefore(w.core.timers, w.core.numTimers, w.wake)
    && PeriodsFit(w.core.timers)
  }

  /** Holds between events. */
  ghost predicate Inv<W>(w: Waker<W>) {
    Sound(w) && w.core.now < w.wake
  }

  /** When the call arms a timer, the time at which it will fire. */
  ghost function ArmedFor<W>(c: Core<W>, call: Call): Option<nat>
    requires Shaped(c)
  {
    match call
    case Register(_, _, t, _, active) =>
      if active && c.numTimers < MAX_TIMERS then Some(c.now + Clamp(t)) else None
    case Activate(i, t, _) =>
      if Accepted(call) then Some(c.now + Clamp(t)) else None
    case _ => None
  }

  ghost function Sooner(wake: nat, due: Option<nat>): nat {
    if due.Some? && due.value < wake then due.value else wake
  }

  ghost function WApply<W>(w: Waker<W>, call: Call): (r: (Waker<W>, int))
    requires Inv(w)
    ensures Inv(r.0) && (r.0.core, r.1) == Apply(w.core, call)
  {
    var (c, result) := Apply(w.core, call);
    (w.(core := c, wake := Sooner(w.wake, ArmedFor(w.core, call))), result)
  }

  ghost function WMove<W>(w: Waker<W>, move: Move<W>, result: int): (r: (Waker<W>, int))
    requires Inv(w)
    ensures Inv(r.0) && (r.0.core, r.1) == MakeMove(w.core, move, result)
  {
    var (world, call) := move(w.core.world, ViewOf(w.core, result));
    WApply(w.(core := w.core.(world := world)), call)
  }

  ghost function WRunMoves<W>(w: Waker<W>, moves: seq<Move<W>>, result: int): (r: Waker<W>)
    requires Inv(w)
    ensures Inv(r) && r.core == RunMoves(w.core, moves, result)
    decreases |moves|
  {
    if moves == [] then w else
      var (w', result') := WMove(w, moves[0], result);
      WRunMoves(w', moves[1..], result')
  }

  ghost function WCallBack<W>(h: Handler<W>, w: Waker<W>, i: nat): (r: Waker<W>)
    requires Inv(w) && i < MAX_TIMERS && w.core.timers[i].funct.Some?
    ensures Inv(r) && r.core == CallBack(h, w.core, i)
  {
    var c := w.core;
    var c1 := c.(triggered := i, log := c.log + [Firing(i, c.now)]);
    var w1 := WRunMoves(w.(core := c1), h(c.timers[i].funct.value, c.timers[i].thisPtr, c.world), 0);
    w1.(core := w1.core.(triggered := 0))
  }

  ghost function WDeliver<W>(h: Handler<W>, w: Waker<W>, due: seq<bool>, i: nat): (r: Waker<W>)
    requires Inv(w) && |due| == MAX_TIMERS && i <= MAX_TIMERS
    ensures Inv(r) && r.core == Deliver(h, w.core, due, i)
    decreases MAX_TIMERS - i
  {
    if i == MAX_TIMERS then w
    else if due[i] && w.core.timers[i].funct.Some? then WDeliver(h, WCallBack(h, w, i), due, i + 1)
    else WDeliver(h, w, due, i + 1)
  }

  /** The least due time among the active timers below n, or the largest 64-bit number. */
  ghost function MinDue(timers: seq<Timer>, n: nat): (m: nat)
    requires n <= |timers|
    ensures forall i :: 0 <= i < n && timers[i].active ==> m <= timers[i].timeToFire
    ensures m == TWO64 - 1 || exists i :: 0 <= i < n && timers[i].active && timers[i].timeToFire == m
  {
    if n == 0 then TWO64 - 1 else
      var m := MinDue(timers, n - 1);
      if timers[n - 1].active && timers[n - 1].timeToFire < m then timers[n - 1].timeToFire else m
  }

  /** Rearm the due timers and sleep until the next one. */
  ghost function WRearm<W>(w: Waker<W>): (r: Waker<W>)
    requires Sound(w) && w.core.now == w.wake
    requires w.core.now < TWO63
    ensures Inv(r) && r.core == Rearm(w.core)
  {
    var c := Rearm(w.core);
    RearmKeepsTable(w);
    Waker(c, c.now, MinDue(c.timers, c.numTimers))
  }

  lemma RearmKeepsTable<W>(w: Waker<W>)
    requires Sound(w) && w.core.now == w.wake
    requires w.core.now < TWO63
    ensures var c := Rearm(w.core);
            && NullTimerInPlace(c.timers[0], c.now)
            && PeriodsFit(c.timers)
            && (forall i :: 0 <= i < c.numTimers && c.timers[i].active ==> c.now < c.timers[i].timeToFire)
  {}

  /**
   The distance to the next due time is never 0 and always fits in 32 bits, because the null
   timer is due within 0xffffffff ticks and every due timer has just been rearmed.
   */
  lemma NarrowingIsExact<W>(w: Waker<W>)
    requires Sound(w) && w.core.now == w.wake
    requires w.core.now < TWO63
    ensures var c := Rearm(w.core); var next := MinDue(c.timers, c.numTimers);
            && 0 < next - c.now <= NULL_INTERVAL
            && U32(next - c.now) == next - c.now
            && WRearm(w) == Waker(c, c.now, next)
  {
    hide U32, PeriodsFit, MinDue;
    assert Inv(WRearm(w));
  }

  /** At this event the distance to the next due time is positive and survives the narrowing to 32 bits. */
  ghost predicate NarrowsExactly<W>(c: Core<W>)
    requires Shaped(c)
  {
    var next := MinDue(Rearm(c).timers, c.numTimers);
    0 < next - c.now && U32(next - c.now) == next - c.now
  }

  /** For any table, whatever its slot 0 holds: narrowing is exact if and only if some timer is due within 32 bits. */
  lemma NarrowsExactlyIff<W>(c: Core<W>)
    requires Shaped(c) && c.now < TWO63
    requires NothingDueBefore(c.timers, c.numTimers, c.now) && PeriodsFit(c.timers)
    ensures var rearmed := Rearm(c).timers;
            NarrowsExactly(c) <==> exists i :: 0 <= i < c.numTimers && rearmed[i].active && rearmed[i].timeToFire <= c.now + NULL_INTERVAL
  {
    var rearmed := Rearm(c).timers;
    var next := MinDue(rearmed, c.numTimers);
    assert forall i :: 0 <= i < c.numTimers && rearmed[i].active ==> c.now < rearmed[i].timeToFire;
    assert 0 < next - c.now;
    assert NarrowsExactly(c) <==> next <= c.now + NULL_INTERVAL;
  }

  /**
   What the null timer must be. When it is the only timer, narrowing is never exact once it is
   off, and at the event where it fires narrowing is exact if and only if it is continuous with
   a period of at most 0xffffffff.
   */
  lemma NullTimerAlone<W>(c: Core<W>)
    requires Shaped(c) && c.now < TWO63 && c.numTimers == 1
    requires NothingDueBefore(c.timers, c.numTimers, c.now) && PeriodsFit(c.timers)
    ensures !c.timers[0].active ==> !NarrowsExactly(c)
    ensures IsDue(c.timers[0], c.now) ==>
              (NarrowsExactly(c) <==> c.timers[0].continuous && c.timers[0].period <= NULL_INTERVAL)
  {
    hide NarrowsExactly;
    NarrowsExactlyIff(c);
    assert Rearm(c).timers[0] == Advanced(c.timers[0], c.now);
  }

  /**
   An input on which it fails: on a freshly initialised system, turning slot 0 off or giving
   it the period 0x1_ffff_ffff makes the first event narrow a positive distance to 0.
   */
  lemma NullTimerIsNeeded<W>(w: Waker<W>)
    requires Inv(w) && w.core.numTimers == 1 && w.core.now == 0 && w.wake == NULL_INTERVAL
    ensures NarrowsToNothing(DeactivateTimer(w.core, 0).(now := w.wake))
    ensures NarrowsToNothing(ActivateTimer(w.core, 0, 0x1_ffff_ffff, true).(now := w.wake))
  {
    var off := DeactivateTimer(w.core, 0).(now := w.wake);
    var slow := ActivateTimer(w.core, 0, 0x1_ffff_ffff, true).(now := w.wake);
    assert MinDue(Rearm(off).timers, 0) == MinDue(Rearm(slow).timers, 0) == TWO64 - 1;
  }

  ghost predicate NarrowsToNothing<W>(c: Core<W>)
    requires Shaped(c)
  {
    var next := MinDue(Rearm(c).timers, c.numTimers);
    c.now < next && U32(next - c.now) == 0
  }

  ghost function WEvent<W>(h: Handler<W>, w: Waker<W>): (r: Waker<W>)
    requires Sound(w) && w.core.now == w.wake
    requires w.core.now < TWO63
    ensures Inv(r) && r.core == Fire(h, w.core)
  {
    WDeliver(h, WRearm(w), DueSlots(w.core.timers, w.core.numTimers, w.core.now), 0)
  }

  /** One tick: the clock advances, and the table is looked at only at the wake-up time. */
  ghost function WTick<W>(h: Handler<W>, w: Waker<W>): (r: Waker<W>)
    requires Inv(w) && w.core.now + 1 < TWO63
    ensures Inv(r) && r.core == Tick(h, w.core)
  {
    var w1 := w.(core := w.core.(now := w.core.now + 1));
    if w1.core.now == w.wake then WEvent(h, w1) else
      FireWithNothingDue(h, w1.core);
      w1
  }

  /** A tick at which no timer is due changes nothing but the clock. */
  lemma FireWithNothingDue<W>(h: Handler<W>, c: Core<W>)
    requires Shaped(c)
    requires forall i :: 0 <= i < c.numTimers ==> !IsDue(c.timers[i], c.now)
    ensures Fire(h, c) == c
  {
    assert Rearm(c).timers == c.timers;
    DeliverNothing(h, c, DueSlots(c.timers, c.numTimers, c.now), 0);
  }

  lemma {:induction false} DeliverNothing<W>(h: Handler<W>, c: Core<W>, due: seq<bool>, i: nat)
    requires Shaped(c) && |due| == MAX_TIMERS && i <= MAX_TIMERS
    requires forall j :: 0 <= j < |due| ==> !due[j]
    ensures Deliver(h, c, due, i) == c
    decreases MAX_TIMERS - i
  {
    if i < MAX_TIMERS {
      DeliverNothing(h, c, due, i + 1);
    }
  }

  ghost function WTickN<W>(h: Handler<W>, w: Waker<W>, n: nat): (r: Waker<W>)
    requires Inv(w) && w.core.now + n < TWO63
    ensures Inv(r) && r.core == TickN(h, w.core, n)
    decreases n
  {
    if n == 0 then w else WTickN(h, WTick(h, w), n - 1)
  }

  /** A whole run. The clock stays below 2^63 because it ends there and never goes back. */
  ghost function WRunSteps<W>(h: Handler<W>, w: Waker<W>, steps: seq<Step<W>>): (r: Waker<W>)
    requires Inv(w) && RunSteps(h, w.core, steps).now < TWO63
    ensures Inv(r) && r.core == RunSteps(h, w.core, steps)
    decreases |steps|
  {
    if steps == [] then w else
      match steps[0]
      case Calls(moves) => WRunSteps(h, WRunMoves(w, moves, 0), steps[1..])
      case Elapse(n) => WRunSteps(h, WTickN(h, w, n(w.core.world)), steps[1..])
  }

  lemma {:induction false} RunStepsAppend<W>(h: Handler<W>, c: Core<W>, a: seq<Step<W>>, b: seq<Step<W>>)
    requires Shaped(c)
    ensures RunSteps(h, c, a + b) == RunSteps(h, RunSteps(h, c, a), b)
    decreases |a|
  {
    hide RunMoves, TickN;
    if a == [] {
      assert a + b == b;
    } else {
      assert (a + b)[0] == a[0] && (a + b)[1..] == a[1..] + b;
      match a[0] {
        case Calls(moves) => RunStepsAppend(h, RunMoves(c, moves, 0), a[1..], b);
        case Elapse(n) => RunStepsAppend(h, TickN(h, c, n(c.world)), a[1..], b);
      }
    }
  }

  /** Runs compose. */
  lemma {:induction false} WRunStepsAppend<W>(h: Handler<W>, w: Waker<W>, a: seq<Step<W>>, b: seq<Step<W>>)
    requires Inv(w) && RunSteps(h, w.core, a + b).now < TWO63
    ensures RunSteps(h, w.core, a).now <= RunSteps(h, w.core, a + b).now
    ensures RunSteps(h, WRunSteps(h, w, a).core, b).now < TWO63
    ensures WRunSteps(h, w, a + b) == WRunSteps(h, WRunSteps(h, w, a), b)
    decreases |a|
  {
    hide RunMoves, TickN, WRunMoves, WTickN, NothingDueBefore, PeriodsFit, NullTimerInPlace;
    RunStepsAppend(h, w.core, a, b);
    if a == [] {
      assert a + b == b;
    } else {
      assert (a + b)[0] == a[0] && (a + b)[1..] == a[1..] + b;
      match a[0] {
        case Calls(moves) => WRunStepsAppend(h, WRunMoves(w, moves, 0), a[1..], b);
        case Elapse(n) => WRunStepsAppend(h, WTickN(h, w, n(w.core.world)), a[1..], b);
      }
    }
  }

  lemma CallsRun<W>(h: Handler<W>, w: Waker<W>, moves: seq<Move<W>>)
    requires Inv(w) && w.core.now < TWO63
    ensures RunSteps(h, w.core, [Calls(moves)]) == RunMoves(w.core, moves, 0)
    ensures WRunSteps(h, w, [Calls(moves)]) == WRunMoves(w, moves, 0)
  {
    hide RunMoves, WRunMoves, NothingDueBefore, PeriodsFit, NullTimerInPlace;
  }

  lemma ElapseRuns<W>(h: Handler<W>, w: Waker<W>, n: W -> Bit32u)
    requires Inv(w) && w.core.now + n(w.core.world) < TWO63
    ensures RunSteps(h, w.core, [Elapse(n)]) == TickN(h, w.core, n(w.core.world))
    ensures WRunSteps(h, w, [Elapse(n)]) == WTickN(h, w, n(w.core.world))
  {
    hide TickN, WTickN, NothingDueBefore, PeriodsFit, NullTimerInPlace;
  }

  // ---------- batches of ticks ----------

  lemma {:induction false} TickNAdds<W>(h: Handler<W>, w: Waker<W>, a: nat, b: nat)
    requires Inv(w) && w.core.now + a + b < TWO63
    ensures WTickN(h, WTickN(h, w, a), b) == WTickN(h, w, a + b)
    decreases a
  {
    hide WTick, Tick;
    if a > 0 {
      TickNAdds(h, WTick(h, w), a - 1, b);
    }
  }

  /** Ticks that stop short of the wake-up time only move the clock. */
  lemma {:induction false} QuietTicks<W>(h: Handler<W>, w: Waker<W>, n: nat)
    requires Inv(w) && w.core.now + n < w.wake
    requires w.core.now + n < TWO63
    ensures WTickN(h, w, n) == w.(core := w.core.(now := w.core.now + n))
    decreases n
  {
    hide WEvent, Fire;
    if n > 0 {
      QuietTicks(h, WTick(h, w), n - 1);
    }
  }

  /** Ticks that reach the wake-up time are one jump to it followed by one event. */
  lemma JumpToWake<W>(h: Handler<W>, w: Waker<W>, n: nat)
    requires Inv(w) && w.core.now + n < TWO63
    requires w.wake <= w.core.now + n
    ensures WTickN(h, w, n)
         == WTickN(h, WEvent(h, w.(core := w.core.(now := w.wake))), w.core.now + n - w.wake)
  {
    hide WEvent, Fire;
    var k := w.wake - w.core.now;
    TickNAdds(h, w, k - 1, n - k + 1);
    QuietTicks(h, w, k - 1);
  }

  lemma {:induction false} DeliverSkips<W>(h: Handler<W>, w: Waker<W>, due: seq<bool>, i: nat, j: nat)
    requires Inv(w) && |due| == MAX_TIMERS && i <= j <= MAX_TIMERS
    requires forall k :: i <= k < j ==> !due[k]
    ensures WDeliver(h, w, due, i) == WDeliver(h, w, due, j)
    ensures WDeliver(h, w, due, MAX_TIMERS) == w
    decreases j - i
  {
    if i < j {
      DeliverSkips(h, w, due, i + 1, j);
    }
  }

  lemma {:induction false} MinDueOfPrefix(a: seq<Timer>, b: seq<Timer>, n: nat)
    requires n <= |a| == |b|
    requires forall i :: 0 <= i < n ==> a[i] == b[i]
    ensures MinDue(a, n) == MinDue(b, n)
  {
    if n > 0 {
      MinDueOfPrefix(a, b, n - 1);
    }
  }

  lemma MinDueExtends(a: seq<Timer>, b: seq<Timer>, n: nat)
    requires n < |a| == |b|
    requires forall i :: 0 <= i < n ==> a[i] == b[i]
    ensures MinDue(a, n + 1) == var m := MinDue(b, n); if a[n].active && a[n].timeToFire < m then a[n].timeToFire else m
  {
    MinDueOfPrefix(a, b, n);
  }
}
