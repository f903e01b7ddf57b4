/**
 The PC system object with its hot 32-bit countdown. `State()` reads the countdown fields
 as a clock, the time of the last wake-up and the time of the next one; each method is
 proved to be the matching step of the wake-up scheduler on that state.
 */
module PcSystems {
  import opened Options
  import opened Timers
  import opened Wakeups

  /** What registering does to the wake-up scheduler, spelled out. */
  lemma RegisterInstalls<W>(w: Waker<W>, funct: Option<nat>, thisPtr: nat, ticks: Ticks, continuous: bool, active: bool)
    requires Inv(w)
    ensures var c := w.core; var r := WApply(w, Register(funct, thisPtr, ticks, continuous, active));
            if c.numTimers >= MAX_TIMERS then r == (w, -1) else
              var i := FirstFree(c.timers, 1, c.numTimers);
              var t := Timer(true, Clamp(ticks), c.now + Clamp(ticks), active, continuous, funct, thisPtr, 0);
              r == (w.(core := c.(timers := c.timers[i := t], numTimers := if i == c.numTimers then i + 1 else c.numTimers),
                       wake := if active && c.now + Clamp(ticks) < w.wake then c.now + Clamp(ticks) else w.wake),
                    i)
  {
    hide NothingDueBefore, PeriodsFit, NullTimerInPlace, FirstFree;
  }

  class PcSystem<W> {
    const handler: Handler<W>
    var world: W

    var timer: array<Timer>
    var numTimers: nat
    var triggeredTimer: nat
    var currCountdown: Bit32u
    var currCountdownPeriod: Bit32u
    var ticksTotal: nat

    ghost var log: seq<Firing>

    ghost predicate InRange()
      reads this
    {
      && timer.Length == MAX_TIMERS
      && currCountdown <= currCountdownPeriod
      && ticksTotal + (currCountdownPeriod - currCountdown) < TWO63
    }

    ghost function State(): Waker<W>
      reads this, timer
      requires InRange()
    {
      var now := ticksTotal + (currCountdownPeriod - currCountdown);
      Waker(Core(now, timer[..], numTimers, triggeredTimer, world, log), ticksTotal, ticksTotal + currCountdownPeriod)
    }

    ghost predicate Valid()
      reads this, timer
    {
      InRange() && Inv(State())
    }

    /** The constructor followed by `initialize`; static storage starts out zero. */
    constructor (handler: Handler<W>, world: W)
      ensures Valid() && fresh(timer)
      ensures this.handler == handler && this.world == world && log == []
      ensures State().core.now == 0 && numTimers == 1
      ensures timer.Length == 64 && currCountdown == currCountdownPeriod == 0xffff_ffff && ticksTotal == 0
      ensures timer[0] == Timer(true, 0xffff_ffff, 0xffff_ffff, true, true, None, 0, 0)
      ensures forall i :: 1 <= i < 64 ==> !timer[i].inUse && !timer[i].active
    {
      this.handler := handler;
      this.world := world;
      var off := Timer(false, 0, 0, false, false, None, 0, 0);
      timer := new Timer[MAX_TIMERS](_ => off);
      numTimers := 1;
      triggeredTimer := 0;
      ticksTotal := 0;
      currCountdown := NULL_INTERVAL;
      currCountdownPeriod := NULL_INTERVAL;
      log := [];
      new;
      timer[0] := off.(inUse := true, period := NULL_INTERVAL, timeToFire := NULL_INTERVAL, active := true, continuous := true);
    }

    /**
     Between events the countdown is positive and at most its period, no active timer is due
     before the period ends, and the null timer is due within 0xffffffff ticks.
     */
    lemma CountdownIsSound()
      requires Valid()
      ensures 0 < currCountdown <= currCountdownPeriod <= NULL_INTERVAL
      ensures forall i :: 0 <= i < numTimers && timer[i].active ==> ticksTotal + currCountdownPeriod <= timer[i].timeToFire
      ensures timer[0].active && timer[0].timeToFire <= TimeTicks() + NULL_INTERVAL
    {
      hide PeriodsFit;
      forall i | 0 <= i < numTimers && timer[i].active
        ensures ticksTotal + currCountdownPeriod <= timer[i].timeToFire
      {
        assert timer[i] == timer[..][i];
      }
    }

    function TimeTicks(): (now: nat)
      requires Valid()
      reads this, timer
      ensures now == State().core.now
    {
      U64(ticksTotal + U32(currCountdownPeriod - currCountdown))
    }

    method FindFreeSlot() returns (i: nat)
      requires timer.Length == MAX_TIMERS && 1 <= numTimers <= MAX_TIMERS
      ensures i == FirstFree(timer[..], 1, numTimers)
    {
      i := 1;
      while i < numTimers && timer[i].inUse
        invariant 1 <= i <= numTimers
        invariant FirstFree(timer[..], 1, numTimers) == FirstFree(timer[..], i, numTimers)
      {
        i := i + 1;
      }
    }

    method RegisterTimerTicks(funct: Option<nat>, thisPtr: nat, ticks: Ticks, continuous: bool, active: bool) returns (id: int)
      requires Valid()
      modifies this`numTimers, this`currCountdown, this`currCountdownPeriod, timer
      ensures InRange() && (State(), id) == WApply(old(State()), Register(funct, thisPtr, ticks, continuous, active))
      ensures Valid() && TimeTicks() == old(TimeTicks())
      ensures id == -1 <==> old(numTimers) >= 64
      ensures id != -1 ==> var p := if ticks == 0 then 1 else ticks;
                           && 1 <= id <= old(numTimers) && numTimers == (if id == old(numTimers) then id + 1 else old(numTimers))
                           && timer[..] == old(timer[..])[id := Timer(true, p, TimeTicks() + p, active, continuous, funct, thisPtr, 0)]
    {
      hide NothingDueBefore, PeriodsFit, NullTimerInPlace, U32, U64, FirstFree, WApply;
      RegisterInstalls(State(), funct, thisPtr, ticks, continuous, active);
      var ticks' := ticks;
      if ticks' < 1 {
        ticks' := 1;
      }
      var i := FindFreeSlot();
      if numTimers >= MAX_TIMERS {
        return -1;
      }
      timer[i] := Timer(true, ticks', U64(TimeTicks() + ticks'), active, continuous, funct, thisPtr, 0);
      if active {
        Skew(ticks');
      }
      if i == numTimers {
        numTimers := numTimers + 1;
      }
      id := i;
      assert timer[..] == old(timer[..])[i := timer[i]];
    }

    /** Shorten the countdown, and the period with it, when `ticks` come up first. */
    method Skew(ticks: Ticks)
      requires 0 < ticks && 0 < currCountdown <= currCountdownPeriod
      modifies this`currCountdown, this`currCountdownPeriod
      ensures 0 < currCountdown <= currCountdownPeriod
      ensures currCountdownPeriod - currCountdown == old(currCountdownPeriod - currCountdown)
      ensures currCountdown == if ticks < old(currCountdown) then ticks else old(currCountdown)
    {
      if ticks < currCountdown {
        currCountdownPeriod := U32(currCountdownPeriod - U32(currCountdown - U32(ticks)));
        currCountdown := U32(ticks);
      }
    }

    method ActivateTimerTicks(i: nat, ticks: Ticks, continuous: bool)
      requires Valid() && i < MAX_TIMERS && (i == 0 ==> continuous && ticks <= NULL_INTERVAL)
      modifies this`currCountdown, this`currCountdownPeriod, timer
      ensures InRange() && State() == WApply(old(State()), Activate(i, ticks, continuous)).0
      ensures Valid() && TimeTicks() == old(TimeTicks())
      ensures var p := if ticks == 0 then 1 else ticks;
              timer[..] == old(timer[..])[i :=
                old(timer[i]).(period := p, timeToFire := TimeTicks() + p, active := true, continuous := continuous)]
    {
      hide NothingDueBefore, PeriodsFit, NullTimerInPlace, U32, U64, FirstFree;
      var ticks' := ticks;
      if ticks' < 1 {
        ticks' := 1;
      }
      timer[i] := timer[i].(
        period := ticks',
        timeToFire := U64(TimeTicks() + ticks'),
        active := true,
        continuous := continuous);
      Skew(ticks');
    }

    method DeactivateTimer(i: nat)
      requires Valid() && 0 < i < MAX_TIMERS
      modifies timer
      ensures Valid()
      ensures State() == WApply(old(State()), Deactivate(i)).0
      ensures timer[..] == old(timer[..])[i := old(timer[i]).(active := false)]
    {
      timer[i] := timer[i].(active := false);
    }

    method UnregisterTimer(i: nat) returns (ok: bool)
      requires Valid() && i < MAX_TIMERS
      modifies this`numTimers, timer
      ensures Valid()
      ensures (State(), if ok then 1 else 0) == WApply(old(State()), Unregister(i))
      ensures ok == !old(timer[i].active)
      ensures ok ==>
                && timer[..] == old(timer[..])[i :=
                     Timer(false, 0x7fff_ffff_ffff_ffff, 0x7fff_ffff_ffff_ffff, false, false, None, 0, old(timer[i].param))]
                && numTimers == if i == old(numTimers) - 1 then i else old(numTimers)
    {
      if timer[i].active {
        return false;
      }
      timer[i] := timer[i].(inUse := false, period := MAX64S, timeToFire := MAX64S, continuous := false, funct := None, thisPtr := 0);
      if i == numTimers - 1 {
        numTimers := numTimers - 1;
      }
      return true;
    }

    method SetTimerParam(i: nat, param: nat)
      requires Valid() && i < MAX_TIMERS
      modifies timer
      ensures Valid()
      ensures State() == WApply(old(State()), SetParam(i, param)).0
      ensures timer[..] == old(timer[..])[i := old(timer[i]).(param := param)]
    {
      timer[i] := timer[i].(param := param);
    }

    method Perform(call: Call) returns (result: int)
      requires Valid()
      modifies this, timer
      ensures Valid() && timer == old(timer)
      ensures (State(), result) == WApply(old(State()), call)
    {
      result := 0;
      match call {
        case Nop =>
        case Register(f, p, t, cont, act) => result := RegisterTimerTicks(f, p, t, cont, act);
        case Activate(i, t, cont) =>
          if i < MAX_TIMERS && (i == 0 ==> cont && t <= NULL_INTERVAL) {
            ActivateTimerTicks(i, t, cont);
          }
        case Deactivate(i) => if 0 < i < MAX_TIMERS { DeactivateTimer(i); }
        case Unregister(i) =>
          if i < MAX_TIMERS {
            var ok := UnregisterTimer(i);
            result := if ok then 1 else 0;
          }
        case SetParam(i, p) => if i < MAX_TIMERS { SetTimerParam(i, p); }
      }
    }

    /** One move of a device: look, think, call. */
    method Make(move: Move<W>, result: int) returns (result': int)
      requires Valid()
      modifies this, timer
      ensures Valid() && timer == old(timer)
      ensures (State(), result') == WMove(old(State()), move, result)
    {
      hide Apply;
      var (world', call) := move(world, View(TimeTicks(), triggeredTimer, timer[triggeredTimer].param, result));
      world := world';
      result' := Perform(call);
    }

    /** Device code calling the timer interface, inside a callback or outside. */
    method Execute(moves: seq<Move<W>>)
      requires Valid()
      modifies this, timer
      ensures Valid() && timer == old(timer)
      ensures State() == WRunMoves(old(State()), moves, 0)
    {
      hide WMove;
      var result, k := 0, 0;
      while k < |moves|
        invariant k <= |moves| && timer == old(timer)
        invariant Valid()
        invariant WRunMoves(State(), moves[k..], result) == WRunMoves(old(State()), moves, 0)
      {
        assert moves[k..][1..] == moves[k + 1..];
        result := Make(moves[k], result);
        k := k + 1;
      }
    }

    // ---------- delivery ----------

    /** Holds when the countdown has just reached zero. */
    ghost predicate AtWake()
      reads this, timer
    {
      InRange() && currCountdown == 0 && Sound(State())
    }

    /** The first pass at one slot. */
    method VisitSlot(i: nat, min: nat) returns (fires: bool, min': nat)
      requires i < timer.Length && ticksTotal < TWO63 && timer[i].period < TWO63
      modifies timer
      ensures timer[..] == old(timer[..])[i := Advanced(old(timer[i]), ticksTotal)]
      ensures fires == IsDue(old(timer[i]), ticksTotal)
      ensures min' == if timer[i].active && timer[i].timeToFire < min then timer[i].timeToFire else min
    {
      fires, min' := false, min;
      if timer[i].active {
        if ticksTotal == timer[i].timeToFire {
          fires := true;
          if !timer[i].continuous {
            timer[i] := timer[i].(active := false);
          } else {
            timer[i] := timer[i].(timeToFire := U64(timer[i].timeToFire + timer[i].period));
            if timer[i].timeToFire < min {
              min' := timer[i].timeToFire;
            }
          }
        } else if timer[i].timeToFire < min {
          min' := timer[i].timeToFire;
        }
      }
    }

    /** First pass of the event: note which slots fire, rearm them, find the next due time. */
    method RearmDue() returns (triggered: array<bool>, first: nat, last: nat, minTimeToFire: nat)
      requires timer.Length == MAX_TIMERS && 1 <= numTimers <= MAX_TIMERS
      requires ticksTotal < TWO63 && PeriodsFit(timer[..])
      modifies timer
      ensures fresh(triggered)
      ensures last < MAX_TIMERS && first <= MAX_TIMERS && triggered.Length == MAX_TIMERS
      ensures forall j :: 0 <= j < MAX_TIMERS && DueSlots(old(timer[..]), numTimers, ticksTotal)[j] ==> first <= j <= last
      ensures forall j :: first <= j <= last ==> triggered[j] == DueSlots(old(timer[..]), numTimers, ticksTotal)[j]
      ensures timer[..] == RearmedTable(old(timer[..]), numTimers, ticksTotal)
      ensures minTimeToFire == MinDue(timer[..], numTimers)
    {
      hide IsDue, Advanced, Rearmed, MinDue;
      ghost var before := timer[..];
      triggered := new bool[MAX_TIMERS];
      first, last, minTimeToFire := numTimers, 0, TWO64 - 1;
      for i := 0 to numTimers
        invariant timer[..] == RearmedTable(before, i, ticksTotal)
        invariant forall j :: 0 <= j < i ==> triggered[j] == IsDue(before[j], ticksTotal)
        invariant forall j :: 0 <= j < i && triggered[j] ==> first <= j <= last
        invariant first <= numTimers && last < numTimers && (first == numTimers || last < i) && (first == numTimers ==> last == 0)
        invariant minTimeToFire == MinDue(timer[..], i)
      {
        ghost var table := timer[..];
        triggered[i], minTimeToFire := VisitSlot(i, minTimeToFire);
        assert timer[..] == RearmedTable(before, i + 1, ticksTotal);
        MinDueExtends(timer[..], table, i);
        if triggered[i] {
          if i < first {
            first := i;
          }
          last := i;
        }
      }
    }

    /** The callback of one triggered slot. */
    method CallSlot(i: nat)
      requires Valid() && i < MAX_TIMERS && timer[i].funct.Some?
      modifies this, timer
      ensures Valid() && timer == old(timer)
      ensures State() == WCallBack(handler, old(State()), i)
    {
      hide WRunMoves, RunMoves;
      triggeredTimer := i;
      log := log + [Firing(i, ticksTotal + (currCountdownPeriod - currCountdown))];
      Execute(handler(timer[i].funct.value, timer[i].thisPtr, world));
      triggeredTimer := 0;
    }

    method DeliverSlot(i: nat, fires: bool, ghost due: seq<bool>)
      requires Valid() && i < |due| == MAX_TIMERS && due[i] == fires
      modifies this, timer
      ensures Valid() && timer == old(timer)
      ensures WDeliver(handler, State(), due, i + 1) == WDeliver(handler, old(State()), due, i)
    {
      hide WCallBack, CallBack, Deliver;
      if fires && timer[i].funct.Some? {
        CallSlot(i);
      }
    }

    /** The second pass: the callbacks of the triggered slots, lowest slot first. */
    method DeliverTriggered(triggered: array<bool>, first: nat, last: nat, ghost due: seq<bool>)
      requires Valid() && triggered.Length == |due| == MAX_TIMERS
      requires first <= MAX_TIMERS && last < MAX_TIMERS
      requires forall j :: 0 <= j < MAX_TIMERS && due[j] ==> first <= j <= last
      requires forall j :: first <= j <= last ==> triggered[j] == due[j]
      modifies this, timer
      ensures Valid() && timer == old(timer)
      ensures State() == WDeliver(handler, old(State()), due, 0)
    {
      hide WDeliver, Deliver;
      DeliverSkips(handler, State(), due, 0, first);
      var i := first;
      while i <= last
        invariant first <= i <= MAX_TIMERS
        invariant Valid() && timer == old(timer)
        invariant forall j :: first <= j <= last ==> triggered[j] == due[j]
        invariant WDeliver(handler, State(), due, i) == WDeliver(handler, old(State()), due, 0)
      {
        DeliverSlot(i, triggered[i], due);
        i := i + 1;
      }
      DeliverSkips(handler, State(), due, i, MAX_TIMERS);
    }

    method CountdownEvent()
      requires AtWake()
      modifies this, timer
      ensures Valid() && timer == old(timer)
      ensures State() == WEvent(handler, old(State()))
    {
      hide WDeliver, Deliver, WRearm, U32, MinDue, PeriodsFit, NothingDueBefore, NullTimerInPlace;
      ghost var w := State();
      NarrowingIsExact(w);
      ticksTotal := U64(ticksTotal + currCountdownPeriod);
      var triggered, first, last, minTimeToFire := RearmDue();
      currCountdownPeriod := U32(minTimeToFire - ticksTotal);
      currCountdown := currCountdownPeriod;
      assert State() == WRearm(w);
      DeliverTriggered(triggered, first, last, DueSlots(w.core.timers, w.core.numTimers, w.core.now));
    }

    // ---------- time ----------

    method Tick1()
      requires Valid() && State().core.now + 1 < TWO63
      modifies this, timer
      ensures Valid() && timer == old(timer)
      ensures State() == WTick(handler, old(State()))
      ensures State().core == Tick(handler, old(State()).core)
      ensures TimeTicks() == old(TimeTicks()) + 1
    {
      hide WEvent, Fire;
      currCountdown := U32(currCountdown - 1);
      if currCountdown == 0 {
        CountdownEvent();
      }
    }

    method TickN(n: Bit32u)
      requires Valid() && State().core.now + n < TWO63
      modifies this, timer
      ensures Valid() && timer == old(timer)
      ensures State() == WTickN(handler, old(State()), n)
      ensures State().core == Timers.TickN(handler, old(State()).core, n)
      ensures TimeTicks() == old(TimeTicks()) + n
    {
      hide WEvent, Fire, WTick, Tick, WTickN, Timers.TickN;
      var left: nat := n;
      while left >= currCountdown
        invariant Valid() && timer == old(timer) && left <= n
        invariant State().core.now + left == old(State()).core.now + n
        invariant WTickN(handler, State(), left) == WTickN(handler, old(State()), n)
        decreases left
      {
        JumpToWake(handler, State(), left);
        left := left - currCountdown;
        currCountdown := 0;
        CountdownEvent();
      }
      QuietTicks(handler, State(), left);
      currCountdown := currCountdown - left;
    }

    /**
     A whole run of device calls and elapsed ticks leaves the table, the clock, the device
     world and the trace of firings that the naive scheduler leaves.
     */
    method Run(steps: seq<Step<W>>)
      requires Valid() && RunSteps(handler, State().core, steps).now < TWO63
      modifies this, timer
      ensures Valid() && timer == old(timer)
      ensures State() == WRunSteps(handler, old(State()), steps)
      ensures State().core == RunSteps(handler, old(State()).core, steps)
    {
      if steps != [] {
        match steps[0] {
          case Calls(moves) => Execute(moves);
          case Elapse(n) => TickN(n(world));
        }
        Run(steps[1..]);
      }
    }
  }
}
