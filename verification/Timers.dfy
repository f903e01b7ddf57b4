/**
 The timer table of the PC system and the naive scheduler over it: every tick adds one to
 the clock and fires each active timer that is due now, in slot order. There is no
 countdown, no wake-up time and no bounded integer here.

 A callback is a list of moves. Each move looks at the device world and at what the timer
 interface shows it (clock, triggered slot, result of the previous call), updates the
 world and makes one call. Branching in a callback is a move that chooses its call, or `Nop`.
 */
module Timers {

  import opened Options

  const MAX_TIMERS: nat := 64
  const NULL_INTERVAL: nat := 0xffff_ffff
  const TWO32: nat := 0x1_0000_0000
  const TWO63: nat := 0x8000_0000_0000_0000
  const TWO64: nat := 0x1_0000_0000_0000_0000
  const MAX64S: nat := TWO63 - 1

  /** Tick counts that callers may ask for. */
  type Ticks = t: nat | t < TWO63

  type Bit32u = x: nat | x < TWO32

  /** Conversion of a wider value to Bit32u. */
  function U32(x: int): (r: Bit32u)
    ensures 0 <= x < TWO32 ==> r == x
  {
    x % TWO32
  }

  /** Conversion to Bit64u. */
  function U64(x: int): (r: nat)
    ensures r < TWO64
    ensures 0 <= x < TWO64 ==> r == x
  {
    x % TWO64
  }

  datatype Timer = Timer(
    inUse: bool, period: nat, timeToFire: nat, active: bool, continuous: bool,
    funct: Option<nat>, thisPtr: nat, param: nat)

  /** What one callback invocation leaves in the trace. */
  datatype Firing = Firing(slot: nat, time: nat)

  datatype Call =
    | Nop
    | Register(funct: Option<nat>, thisPtr: nat, ticks: Ticks, continuous: bool, active: bool)
    | Activate(i: nat, ticks: Ticks, continuous: bool)
    | Deactivate(i: nat)
    | Unregister(i: nat)
    | SetParam(i: nat, param: nat)

  datatype View = View(now: nat, triggered: nat, param: nat, result: int)

  type Move<!W> = (W, View) -> (W, Call)

  /** The body of the callback function `funct` for the given `this` pointer and world. */
  type Handler<!W> = (nat, nat, W) -> seq<Move<W>>

  /** One step of a run: calls made outside any callback, or ticks passed to `tickn`. */
  datatype Step<!W> = Calls(moves: seq<Move<W>>) | Elapse(n: W -> Bit32u)

  datatype Core<W> = Core(
    now: nat, timers: seq<Timer>, numTimers: nat, triggered: nat, world: W, log: seq<Firing>)

  /** The table has its 64 slots, and the bound on the slots in use is within it. */
  ghost predicate Shaped<W>(c: Core<W>) {
    && |c.timers| == MAX_TIMERS
    && 1 <= c.numTimers <= MAX_TIMERS
    && c.triggered < MAX_TIMERS
  }

  // ---------- the timer interface ----------

  function Clamp(ticks: nat): nat {
    if ticks < 1 then 1 else ticks
  }

  /** The first free slot in [i, n), or n. */
  function FirstFree(timers: seq<Timer>, i: nat, n: nat): (r: nat)
    requires i <= n <= |timers|
    ensures i <= r <= n
    ensures r < n ==> !timers[r].inUse
    ensures forall j :: i <= j < r ==> timers[j].inUse
    decreases n - i
  {
    if i == n || !timers[i].inUse then i else FirstFree(timers, i + 1, n)
  }

  function RegisterTimer<W>(c: Core<W>, funct: Option<nat>, thisPtr: nat, ticks: Ticks, continuous: bool, active: bool)
    : (r: (Core<W>, int))
    requires Shaped(c)
    ensures Shaped(r.0)
  {
    if c.numTimers >= MAX_TIMERS then
      (c, -1 as int)
    else
      var i := FirstFree(c.timers, 1, c.numTimers);
      var t := Timer(true, Clamp(ticks), c.now + Clamp(ticks), active, continuous, funct, thisPtr, 0);
      (c.(timers := c.timers[i := t], numTimers := if i == c.numTimers then i + 1 else c.numTimers), i)
  }

  function ActivateTimer<W>(c: Core<W>, i: nat, ticks: Ticks, continuous: bool): (r: Core<W>)
    requires Shaped(c) && i < MAX_TIMERS
    ensures Shaped(r)
  {
    var t := c.timers[i].(period := Clamp(ticks), timeToFire := c.now + Clamp(ticks), active := true, continuous := continuous);
    c.(timers := c.timers[i := t])
  }

  function DeactivateTimer<W>(c: Core<W>, i: nat): (r: Core<W>)
    requires Shaped(c) && i < MAX_TIMERS
    ensures Shaped(r)
  {
    c.(timers := c.timers[i := c.timers[i].(active := false)])
  }

  function UnregisterTimer<W>(c: Core<W>, i: nat): (r: (Core<W>, bool))
    requires Shaped(c) && 0 < i < MAX_TIMERS
    ensures Shaped(r.0)
  {
    if c.timers[i].active then
      (c, false)
    else
      var t := c.timers[i].(inUse := false, period := MAX64S, timeToFire := MAX64S, continuous := false, funct := None, thisPtr := 0);
      (c.(timers := c.timers[i := t], numTimers := if i == c.numTimers - 1 then i else c.numTimers), true)
  }

  function SetTimerParam<W>(c: Core<W>, i: nat, param: nat): (r: Core<W>)
    requires Shaped(c) && i < MAX_TIMERS
    ensures Shaped(r)
  {
    c.(timers := c.timers[i := c.timers[i].(param := param)])
  }

  /**
   The calls that name a slot of the table and keep the null timer in slot 0 running: it may
   be given another period, but not one beyond 32 bits, and not be made to stop.
   */
  predicate Accepted(call: Call) {
    match call
    case Nop => true
    case Register(_, _, _, _, _) => true
    case Activate(i, ticks, continuous) => i < MAX_TIMERS && (i == 0 ==> continuous && ticks <= NULL_INTERVAL)
    case Deactivate(i) => 0 < i < MAX_TIMERS
    case Unregister(i) => 0 < i < MAX_TIMERS
    case SetParam(i, _) => i < MAX_TIMERS
  }

  /** The effect of one call and the value it returns (0 for calls that return nothing). */
  function Apply<W>(c: Core<W>, call: Call): (r: (Core<W>, int))
    requires Shaped(c)
    ensures Shaped(r.0) && r.0.now == c.now && r.0.log == c.log && r.0.world == c.world && r.0.triggered == c.triggered
  {
    if !Accepted(call) then (c, 0) else
    match call
    case Nop => (c, 0)
    case Register(f, p, t, cont, act) => RegisterTimer(c, f, p, t, cont, act)
    case Activate(i, t, cont) => (ActivateTimer(c, i, t, cont), 0)
    case Deactivate(i) => (DeactivateTimer(c, i), 0)
    case Unregister(i) => var (c', ok) := UnregisterTimer(c, i); (c', if ok then 1 else 0)
    case SetParam(i, p) => (SetTimerParam(c, i, p), 0)
  }

  function ViewOf<W>(c: Core<W>, result: int): View
    requires Shaped(c)
  {
    View(c.now, c.triggered, c.timers[c.triggered].param, result)
  }

  function MakeMove<W>(c: Core<W>, move: Move<W>, result: int): (r: (Core<W>, int))
    requires Shaped(c)
    ensures Shaped(r.0) && r.0.now == c.now && r.0.log == c.log && r.0.triggered == c.triggered
  {
    var (w, call) := move(c.world, ViewOf(c, result));
    Apply(c.(world := w), call)
  }

  function RunMoves<W>(c: Core<W>, moves: seq<Move<W>>, result: int): (r: Core<W>)
    requires Shaped(c)
    ensures Shaped(r) && r.now == c.now && r.log == c.log && r.triggered == c.triggered
    decreases |moves|
  {
    if moves == [] then c else
      var (c', result') := MakeMove(c, moves[0], result);
      RunMoves(c', moves[1..], result')
  }

  // ---------- firing ----------

  predicate IsDue(t: Timer, now: nat) {
    t.active && t.timeToFire == now
  }

  /** A timer that has just fired: a one-shot timer is off, a continuous one is due a period later. */
  function Rearmed(t: Timer): Timer {
    if t.continuous then t.(timeToFire := t.timeToFire + t.period) else t.(active := false)
  }

  function Advanced(t: Timer, now: nat): Timer {
    if IsDue(t, now) then Rearmed(t) else t
  }

  /** Which of the first n slots are due now. */
  function DueSlots(timers: seq<Timer>, n: nat, now: nat): (due: seq<bool>)
    requires n <= |timers|
    ensures |due| == |timers|
  {
    seq(|timers|, i requires 0 <= i < |timers| => i < n && IsDue(timers[i], now))
  }

  /** The table with every due slot rearmed; this happens before any callback runs. */
  function RearmedTable(timers: seq<Timer>, n: nat, now: nat): (r: seq<Timer>)
    requires n <= |timers|
    ensures |r| == |timers|
  {
    seq(|timers|, i requires 0 <= i < |timers| => if i < n then Advanced(timers[i], now) else timers[i])
  }

  function Rearm<W>(c: Core<W>): (r: Core<W>)
    requires Shaped(c)
    ensures Shaped(r)
  {
    c.(timers := RearmedTable(c.timers, c.numTimers, c.now))
  }

  function CallBack<W>(h: Handler<W>, c: Core<W>, i: nat): (r: Core<W>)
    requires Shaped(c) && i < MAX_TIMERS && c.timers[i].funct.Some?
    ensures Shaped(r) && r.now == c.now
  {
    var c1 := c.(triggered := i, log := c.log + [Firing(i, c.now)]);
    RunMoves(c1, h(c.timers[i].funct.value, c.timers[i].thisPtr, c.world), 0).(triggered := 0)
  }

  /** The callbacks of the slots `due` from slot i on, lowest slot first. */
  function Deliver<W>(h: Handler<W>, c: Core<W>, due: seq<bool>, i: nat): (r: Core<W>)
    requires Shaped(c) && |due| == MAX_TIMERS && i <= MAX_TIMERS
    ensures Shaped(r) && r.now == c.now
    decreases MAX_TIMERS - i
  {
    if i == MAX_TIMERS then c
    else if due[i] && c.timers[i].funct.Some? then Deliver(h, CallBack(h, c, i), due, i + 1)
    else Deliver(h, c, due, i + 1)
  }

  function Fire<W>(h: Handler<W>, c: Core<W>): (r: Core<W>)
    requires Shaped(c)
    ensures Shaped(r) && r.now == c.now
  {
    Deliver(h, Rearm(c), DueSlots(c.timers, c.numTimers, c.now), 0)
  }

  /** One tick of the naive scheduler. */
  function Tick<W>(h: Handler<W>, c: Core<W>): (r: Core<W>)
    requires Shaped(c)
    ensures Shaped(r) && r.now == c.now + 1
  {
    Fire(h, c.(now := c.now + 1))
  }

  function TickN<W>(h: Handler<W>, c: Core<W>, n: nat): (r: Core<W>)
    requires Shaped(c)
    ensures Shaped(r) && r.now == c.now + n
    decreases n
  {
    if n == 0 then c else TickN(h, Tick(h, c), n - 1)
  }

  function RunSteps<W>(h: Handler<W>, c: Core<W>, steps: seq<Step<W>>): (r: Core<W>)
    requires Shaped(c)
    ensures Shaped(r) && r.now >= c.now
    decreases |steps|
  {
    if steps == [] then c else
      match steps[0]
      case Calls(moves) => RunSteps(h, RunMoves(c, moves, 0), steps[1..])
      case Elapse(n) => RunSteps(h, TickN(h, c, n(c.world)), steps[1..])
  }
}
