/**
 The round-robin loop of a multiprocessor simulation: each pass runs one trace on one
 processor, adds its instruction count to a 32-bit account, and after the last processor
 of a round pays the quotient by the number of processors into the timers.
 */
module SmpLoops {
  import opened Timers
  import opened Wakeups
  import opened PcSystems

  /** What is owed, whose turn it is, and the ticks passed to `tickn` so far. */
  datatype Account = Account(executed: nat, processor: nat, paid: nat)

  /** A halted processor reports no instructions and is charged the quantum. */
  function Charge(n: Bit32u, quantum: Bit32u): Bit32u {
    if n == 0 then quantum else n
  }

  function Pass(a: Account, n: Bit32u, cpus: nat): (b: Account)
    requires cpus > 0
    ensures a.paid <= b.paid
  {
    var executed := U32(a.executed + n);
    if a.processor + 1 == cpus then
      Account(executed % cpus, 0, a.paid + executed / cpus)
    else
      Account(executed, a.processor + 1, a.paid)
  }

  function Passes(a: Account, counts: seq<Bit32u>, cpus: nat): Account
    requires cpus > 0
  {
    if counts == [] then a else Pass(Passes(a, counts[..|counts| - 1], cpus), counts[|counts| - 1], cpus)
  }

  function Sum(counts: seq<Bit32u>): nat {
    if counts == [] then 0 else Sum(counts[..|counts| - 1]) + counts[|counts| - 1]
  }

  /** No addition to the account reached 2^32. */
  predicate NeverWraps(a: Account, counts: seq<Bit32u>, cpus: nat)
    requires cpus > 0
  {
    counts == [] ||
    (NeverWraps(a, counts[..|counts| - 1], cpus)
     && Passes(a, counts[..|counts| - 1], cpus).executed + counts[|counts| - 1] < TWO32)
  }

  const START := Account(0, 0, 0)

  lemma DivMod(x: nat, d: nat)
    requires d > 0
    ensures d * (x / d) + x % d == x && 0 <= x % d < d && 0 <= x / d <= x
  {
    AtLeast(d, x / d);
  }

  lemma AtLeast(d: nat, x: nat)
    requires d > 0
    ensures x <= d * x
  {}

  lemma Cancel(d: nat, x: nat, y: nat)
    requires d * x < d * y
    ensures x < y
  {}

  /** How many additions to the account reached 2^32. */
  function Wraps(counts: seq<Bit32u>, cpus: nat): nat
    requires cpus > 0
  {
    if counts == [] then 0 else
      var init, n := counts[..|counts| - 1], counts[|counts| - 1];
      Wraps(init, cpus) + if Passes(START, init, cpus).executed + n < TWO32 then 0 else 1
  }

  lemma {:induction false} FitsInWord(counts: seq<Bit32u>, cpus: nat)
    requires cpus > 0
    ensures Passes(START, counts, cpus).executed < TWO32
  {
    if counts != [] {
      var a, n := Passes(START, counts[..|counts| - 1], cpus), counts[|counts| - 1];
      DivMod(U32(a.executed + n), cpus);
    }
  }

  /** Where every instruction goes: into ticks, into the account, or 2^32 at a time into a wrap. */
  lemma {:induction false} Accounting(counts: seq<Bit32u>, cpus: nat)
    requires cpus > 0
    ensures var a := Passes(START, counts, cpus);
            Sum(counts) == cpus * a.paid + a.executed + TWO32 * Wraps(counts, cpus)
  {
    if counts != [] {
      var init, n := counts[..|counts| - 1], counts[|counts| - 1];
      Accounting(init, cpus);
      FitsInWord(init, cpus);
      PassPays(Passes(START, init, cpus), n, cpus);
    }
  }

  lemma {:induction false} NoWraps(counts: seq<Bit32u>, cpus: nat)
    requires cpus > 0
    ensures Wraps(counts, cpus) == 0 <==> NeverWraps(START, counts, cpus)
  {
    if counts != [] {
      NoWraps(counts[..|counts| - 1], cpus);
    }
  }

  /** So instructions are lost exactly when an addition wraps; none are ever made up. */
  lemma Conservation(counts: seq<Bit32u>, cpus: nat)
    requires cpus > 0
    ensures var a := Passes(START, counts, cpus);
            && cpus * a.paid + a.executed <= Sum(counts)
            && a.paid <= Sum(counts)
            && (cpus * a.paid + a.executed == Sum(counts) <==> NeverWraps(START, counts, cpus))
  {
    hide Passes, NeverWraps, Sum, Wraps;
    Accounting(counts, cpus);
    NoWraps(counts, cpus);
    AtLeast(cpus, Passes(START, counts, cpus).paid);
  }

  lemma PassPays(a: Account, n: Bit32u, cpus: nat)
    requires cpus > 0
    ensures var b := Pass(a, n, cpus);
            cpus * b.paid + b.executed == cpus * a.paid + U32(a.executed + n)
  {
    var executed := U32(a.executed + n);
    DivMod(executed, cpus);
    assert cpus * (a.paid + executed / cpus) == cpus * a.paid + cpus * (executed / cpus);
  }

  /**
   Trace k runs on processor k mod `cpus`: once per round each. At a round boundary less
   than one tick is owed.
   */
  lemma {:induction false} Turns(counts: seq<Bit32u>, cpus: nat)
    requires cpus > 0
    ensures var a := Passes(START, counts, cpus);
            && a.processor == |counts| % cpus
            && (a.processor == 0 ==> a.executed < cpus)
  {
    if counts != [] {
      Turns(counts[..|counts| - 1], cpus);
      NextTurn(|counts| - 1, cpus);
    }
  }

  lemma NextTurn(k: nat, cpus: nat)
    requires cpus > 0
    ensures (k + 1) % cpus == if k % cpus + 1 == cpus then 0 else k % cpus + 1
  {
    DivMod(k, cpus);
    DivMod(k + 1, cpus);
    var q, q' := k / cpus, (k + 1) / cpus;
    Cancel(cpus, q, q' + 1);
    Cancel(cpus, q', q + 2);
    assert cpus * (q + 1) == cpus * q + cpus;
  }

  lemma RoomForOneMore(processor: nat, cpus: nat, most: nat)
    requires processor < cpus
    ensures (processor + 1) * most == processor * most + most <= cpus * most
  {}

  /** Counts that cannot wrap: a whole round of the largest count, with the carry, fits in 32 bits. */
  lemma {:induction false} SmallCountsNeverWrap(counts: seq<Bit32u>, cpus: nat, most: nat)
    requires cpus > 0 && cpus + cpus * most <= TWO32
    requires forall k :: 0 <= k < |counts| ==> counts[k] <= most
    ensures NeverWraps(START, counts, cpus)
    ensures var a := Passes(START, counts, cpus); a.processor < cpus && a.executed < cpus + a.processor * most
  {
    if counts != [] {
      var init, n := counts[..|counts| - 1], counts[|counts| - 1];
      SmallCountsNeverWrap(init, cpus, most);
      var a := Passes(START, init, cpus);
      RoomForOneMore(a.processor, cpus, most);
      DivMod(a.executed + n, cpus);
    }
  }

  /**
   Trace k fits its round: the carry into the round and the counts of the round up to it
   stay below 2^32. At the start of the round the carry is what is left of all counts so far.
   */
  predicate RoundFits(counts: seq<Bit32u>, k: nat, cpus: nat)
    requires cpus > 0 && k < |counts|
  {
    var start := RoundStart(k, cpus);
    Sum(counts[..start]) % cpus + (Sum(counts[..k + 1]) - Sum(counts[..start])) < TWO32
  }

  /** The first trace of the round that trace k belongs to. */
  function RoundStart(k: nat, cpus: nat): (start: nat)
    requires cpus > 0
    ensures start <= k
  {
    k - k % cpus
  }

  lemma Remainder(d: nat, q: nat, r: nat)
    requires r < d
    ensures (d * q + r) % d == r
  {
    DivMod(d * q + r, d);
    var x := (d * q + r) / d;
    Cancel(d, q, x + 1);
    Cancel(d, x, q + 1);
  }

  lemma RoundStartMoves(n: nat, cpus: nat)
    requires cpus > 0
    ensures RoundStart(n + 1, cpus) == if (n + 1) % cpus == 0 then n + 1 else RoundStart(n, cpus)
  {
    NextTurn(n, cpus);
  }

  /** While nothing has wrapped, the account is the carry into the round and the counts since. */
  lemma {:induction false} AccountOnCounts(counts: seq<Bit32u>, cpus: nat)
    requires cpus > 0 && NeverWraps(START, counts, cpus)
    ensures var start := RoundStart(|counts|, cpus);
            Passes(START, counts, cpus).executed == Sum(counts[..start]) % cpus + (Sum(counts) - Sum(counts[..start]))
  {
    hide Pass, NeverWraps, Passes, RoundStart, Sum;
    if counts == [] || |counts| % cpus == 0 {
      AccountAtBoundary(counts, cpus);
    } else {
      var init := counts[..|counts| - 1];
      NoWrapYet(counts, cpus);
      AccountOnCounts(init, cpus);
      RoundStartMoves(|init|, cpus);
      var start := RoundStart(|counts|, cpus);
      assert init[..start] == counts[..start];
      WithinRound(counts, cpus);
    }
  }

  lemma AccountAtBoundary(counts: seq<Bit32u>, cpus: nat)
    requires cpus > 0 && NeverWraps(START, counts, cpus) && |counts| % cpus == 0
    ensures RoundStart(|counts|, cpus) == |counts| && counts[..|counts|] == counts
    ensures Passes(START, counts, cpus).executed == Sum(counts) % cpus
  {
    hide Pass, NeverWraps, Passes, Sum;
    Turns(counts, cpus);
    Conservation(counts, cpus);
    var a := Passes(START, counts, cpus);
    Remainder(cpus, a.paid, a.executed);
  }

  lemma NoWrapYet(counts: seq<Bit32u>, cpus: nat)
    requires cpus > 0 && counts != [] && NeverWraps(START, counts, cpus)
    ensures NeverWraps(START, counts[..|counts| - 1], cpus)
  {}

  lemma WithinRound(counts: seq<Bit32u>, cpus: nat)
    requires cpus > 0 && counts != [] && NeverWraps(START, counts, cpus) && |counts| % cpus != 0
    ensures Passes(START, counts, cpus).executed == Passes(START, counts[..|counts| - 1], cpus).executed + counts[|counts| - 1]
    ensures Sum(counts) == Sum(counts[..|counts| - 1]) + counts[|counts| - 1]
  {
    Turns(counts, cpus);
  }

  /** Nothing wraps if and only if every trace fits its round. */
  lemma {:induction false} NeverWrapsIffRoundsFit(counts: seq<Bit32u>, cpus: nat)
    requires cpus > 0
    ensures NeverWraps(START, counts, cpus) <==> forall k :: 0 <= k < |counts| ==> RoundFits(counts, k, cpus)
  {
    if counts != [] {
      var init, n := counts[..|counts| - 1], |counts| - 1;
      NeverWrapsIffRoundsFit(init, cpus);
      forall k | 0 <= k < n
        ensures RoundFits(init, k, cpus) <==> RoundFits(counts, k, cpus)
      {
        assert init[..k + 1] == counts[..k + 1] && init[..RoundStart(k, cpus)] == counts[..RoundStart(k, cpus)];
      }
      if NeverWraps(START, init, cpus) {
        AccountOnCounts(init, cpus);
        assert counts[..n + 1] == counts && init[..RoundStart(n, cpus)] == counts[..RoundStart(n, cpus)];
        assert RoundFits(counts, n, cpus) <==> Passes(START, init, cpus).executed + counts[n] < TWO32;
      }
      hide RoundFits;
    }
  }

  /** So the counts alone say when instructions are lost. */
  lemma ConservationOnCounts(counts: seq<Bit32u>, cpus: nat)
    requires cpus > 0
    ensures var a := Passes(START, counts, cpus);
            cpus * a.paid + a.executed == Sum(counts) <==> forall k :: 0 <= k < |counts| ==> RoundFits(counts, k, cpus)
  {
    hide RoundFits, NeverWraps, Passes, Sum;
    Conservation(counts, cpus);
    NeverWrapsIffRoundsFit(counts, cpus);
  }

  /**
   Two processors that each report 2^31 instructions lose all of them. Such counts are in
   reach of one trace, since every iteration of a repeated string instruction counts.
   */
  lemma WrappingLosesInstructions()
    ensures var counts: seq<Bit32u> := [0x8000_0000, 0x8000_0000];
            Sum(counts) == TWO32 && Passes(START, counts, 2) == START
  {
    TwoCounts(0x8000_0000, 0x8000_0000, 2);
    assert Pass(START, 0x8000_0000, 2) == Account(0x8000_0000, 1, 0);
    hide Sum, Passes;
  }

  lemma TwoCounts(m: Bit32u, n: Bit32u, cpus: nat)
    requires cpus > 0
    ensures Sum([m, n]) == m + n && Passes(START, [m, n], cpus) == Pass(Pass(START, m, cpus), n, cpus)
  {
    hide Pass;
    var counts: seq<Bit32u> := [m, n];
    assert counts[..1][..0] == [] && counts[..1][0] == m;
    assert Sum(counts[..1]) == m && Passes(START, counts[..1], cpus) == Pass(START, m, cpus);
  }

  // ---------- the loop ----------

  /** What a processor does in one pass: its devices' calls to the timers, and the instructions it reports. */
  datatype Trace<!W> = Trace(moves: seq<Move<W>>, n: Bit32u)

  function Charges<W>(traces: seq<Trace<W>>, quantum: Bit32u): (counts: seq<Bit32u>)
    ensures |counts| == |traces|
    ensures forall k :: 0 <= k < |counts| ==> counts[k] == Charge(traces[k].n, quantum)
  {
    seq(|traces|, k requires 0 <= k < |traces| => Charge(traces[k].n, quantum))
  }

  /** The ticks of the round that ends with n more instructions. */
  function Payment(a: Account, n: Bit32u, cpus: nat): Bit32u
    requires cpus > 0
  {
    DivMod(U32(a.executed + n), cpus);
    U32(a.executed + n) / cpus
  }

  /** A pass as steps of the PC system: the calls of the trace, and the ticks if it ends a round. */
  function PassSteps<W>(a: Account, moves: seq<Move<W>>, n: Bit32u, cpus: nat): seq<Step<W>>
    requires cpus > 0
  {
    var pay := Payment(a, n, cpus);
    [Calls(moves)] + if a.processor + 1 == cpus then [Elapse((w: W) => pay)] else []
  }

  function StepsOf<W>(traces: seq<Trace<W>>, quantum: Bit32u, cpus: nat): seq<Step<W>>
    requires cpus > 0
  {
    if traces == [] then [] else
      var init, last := traces[..|traces| - 1], traces[|traces| - 1];
      StepsOf(init, quantum, cpus)
      + PassSteps(Passes(START, Charges(init, quantum), cpus), last.moves, Charge(last.n, quantum), cpus)
  }

  lemma PassTicks<W>(h: Handler<W>, c: Core<W>, a: Account, moves: seq<Move<W>>, n: Bit32u, cpus: nat)
    requires cpus > 0 && Shaped(c)
    ensures RunSteps(h, c, PassSteps(a, moves, n, cpus)).now == c.now + (Pass(a, n, cpus).paid - a.paid)
  {
    hide RunMoves, Timers.TickN, U32;
    var steps := PassSteps(a, moves, n, cpus);
    var c1 := RunMoves(c, moves, 0);
    if a.processor + 1 == cpus {
      assert steps[1..] == [steps[1]] && steps[1..][1..] == [];
      assert steps[1].n(c1.world) == Payment(a, n, cpus);
      assert RunSteps(h, c1, [steps[1]]) == Timers.TickN(h, c1, Payment(a, n, cpus)) by { hide PassSteps; }
    } else {
      assert steps[1..] == [];
    }
  }

  /** What the processors report, before halted ones are charged. */
  function Reported<W>(traces: seq<Trace<W>>): (counts: seq<Bit32u>)
    ensures |counts| == |traces| && forall k :: 0 <= k < |traces| ==> counts[k] == traces[k].n
  {
    seq(|traces|, k requires 0 <= k < |traces| => traces[k].n)
  }

  /** How many traces report nothing: their processors are halted. */
  function Halts<W>(traces: seq<Trace<W>>): nat {
    if traces == [] then 0 else Halts(traces[..|traces| - 1]) + if traces[|traces| - 1].n == 0 then 1 else 0
  }

  /** A halted processor is charged the quantum, every other what it reports. */
  lemma {:induction false} HaltedPayTheQuantum<W>(traces: seq<Trace<W>>, quantum: Bit32u)
    ensures Sum(Charges(traces, quantum)) == Sum(Reported(traces)) + quantum * Halts(traces)
  {
    if traces != [] {
      var init := traces[..|traces| - 1];
      HaltedPayTheQuantum(init, quantum);
      assert Charges(traces, quantum)[..|init|] == Charges(init, quantum);
      assert Reported(traces)[..|init|] == Reported(init);
      OneMoreHalt(quantum, Halts(init));
    }
  }

  lemma OneMoreHalt(quantum: nat, halts: nat)
    ensures quantum * (halts + 1) == quantum * halts + quantum
  {}

  /** The calls of the traces of a round, one processor after the other. */
  function CallsOf<W>(round: seq<Trace<W>>): (steps: seq<Step<W>>)
    ensures |steps| == |round| && forall k :: 0 <= k < |round| ==> steps[k] == Calls(round[k].moves)
  {
    seq(|round|, k requires 0 <= k < |round| => Calls(round[k].moves))
  }

  lemma OneMoreCall<W>(traces: seq<Trace<W>>, start: nat, m: nat)
    requires start + m < |traces|
    ensures CallsOf(traces[start..start + m + 1]) == CallsOf(traces[start..start + m]) + [Calls(traces[start + m].moves)]
  {}

  lemma {:induction false} BeginningOfRound<W>(traces: seq<Trace<W>>, start: nat, m: nat, quantum: Bit32u, cpus: nat)
    requires cpus > 0 && start % cpus == 0 && m < cpus && start + m <= |traces|
    ensures StepsOf(traces[..start + m], quantum, cpus)
         == StepsOf(traces[..start], quantum, cpus) + CallsOf(traces[start..start + m])
    ensures var a := Passes(START, Charges(traces[..start + m], quantum), cpus);
            a.processor == m && a.paid == Passes(START, Charges(traces[..start], quantum), cpus).paid
    decreases m
  {
    hide Pass, PassSteps, Passes, StepsOf, Charges, CallsOf;
    if m == 0 {
      Turns(Charges(traces[..start], quantum), cpus);
      assert CallsOf(traces[start..start]) == [];
    } else {
      var k := start + m - 1;
      BeginningOfRound(traces, start, m - 1, quantum, cpus);
      ChargesOneMore(traces, k, quantum, cpus);
      OneMoreCall(traces, start, m - 1);
      OnePassOn(Passes(START, Charges(traces[..k], quantum), cpus), Charge(traces[k].n, quantum), traces[k].moves, cpus);
    }
  }

  lemma OnePassOn<W>(a: Account, n: Bit32u, moves: seq<Move<W>>, cpus: nat)
    requires cpus > 0 && a.processor + 1 < cpus
    ensures PassSteps(a, moves, n, cpus) == [Calls(moves)]
    ensures Pass(a, n, cpus).processor == a.processor + 1 && Pass(a, n, cpus).paid == a.paid
  {}

  lemma LastPass<W>(a: Account, n: Bit32u, moves: seq<Move<W>>, cpus: nat) returns (ticks: Step<W>)
    requires cpus > 0 && a.processor + 1 == cpus
    ensures ticks.Elapse? && PassSteps(a, moves, n, cpus) == [Calls(moves), ticks]
    ensures forall w: W :: ticks.n(w) == Pass(a, n, cpus).paid - a.paid
  {
    ticks := PassSteps(a, moves, n, cpus)[1];
  }

  /**
   A round is the calls of its traces, one processor after the other, and then the ticks: all
   traces of a round see the clock of its start.
   */
  lemma RoundIsCallsThenTicks<W>(traces: seq<Trace<W>>, start: nat, quantum: Bit32u, cpus: nat) returns (ticks: Step<W>)
    requires cpus > 0 && start % cpus == 0 && start + cpus <= |traces|
    ensures ticks.Elapse?
    ensures StepsOf(traces[..start + cpus], quantum, cpus)
         == StepsOf(traces[..start], quantum, cpus) + CallsOf(traces[start..start + cpus]) + [ticks]
    ensures forall w: W :: ticks.n(w) == Passes(START, Charges(traces[..start + cpus], quantum), cpus).paid
                                         - Passes(START, Charges(traces[..start], quantum), cpus).paid
  {
    hide Pass, PassSteps, Passes, StepsOf, Charges, CallsOf;
    var k := start + cpus - 1;
    BeginningOfRound(traces, start, cpus - 1, quantum, cpus);
    ChargesOneMore(traces, k, quantum, cpus);
    OneMoreCall(traces, start, cpus - 1);
    ticks := LastPass(Passes(START, Charges(traces[..k], quantum), cpus), Charge(traces[k].n, quantum), traces[k].moves, cpus);
  }

  /** What a pass does to the timers. */
  lemma PassRuns<W>(h: Handler<W>, w: Waker<W>, a: Account, moves: seq<Move<W>>, n: Bit32u, cpus: nat)
    requires cpus > 0 && Inv(w) && w.core.now + (Pass(a, n, cpus).paid - a.paid) < TWO63
    ensures RunSteps(h, w.core, PassSteps(a, moves, n, cpus)).now == w.core.now + (Pass(a, n, cpus).paid - a.paid)
    ensures var w1 := WRunMoves(w, moves, 0);
            WRunSteps(h, w, PassSteps(a, moves, n, cpus))
              == if a.processor + 1 == cpus then WTickN(h, w1, Payment(a, n, cpus)) else w1
  {
    hide WRunMoves, RunMoves, WTickN, Timers.TickN, NothingDueBefore, PeriodsFit, NullTimerInPlace, U32, RunSteps, WRunSteps;
    PassTicks(h, w.core, a, moves, n, cpus);
    CallsRun(h, w, moves);
    var steps := PassSteps(a, moves, n, cpus);
    if a.processor + 1 == cpus {
      assert steps == [Calls(moves)] + [steps[1]] && steps[1] == Elapse(steps[1].n);
      WRunStepsAppend(h, w, [Calls(moves)], [steps[1]]);
      assert steps[1].n(WRunMoves(w, moves, 0).core.world) == Payment(a, n, cpus);
      ElapseRuns(h, WRunMoves(w, moves, 0), steps[1].n);
    } else {
      assert steps == [Calls(moves)];
    }
  }

  /** A run of the loop takes as many ticks as it has paid for. */
  lemma {:induction false} StepsTakePaidTicks<W>(h: Handler<W>, c: Core<W>, traces: seq<Trace<W>>, quantum: Bit32u, cpus: nat)
    requires cpus > 0 && Shaped(c)
    ensures RunSteps(h, c, StepsOf(traces, quantum, cpus)).now == c.now + Passes(START, Charges(traces, quantum), cpus).paid
  {
    hide PassSteps, Pass, RunSteps;
    if traces == [] {
      NoSteps(h, c);
    } else {
      var init, last := traces[..|traces| - 1], traces[|traces| - 1];
      StepsTakePaidTicks(h, c, init, quantum, cpus);
      ChargesOneMore(traces, |init|, quantum, cpus);
      assert traces[..|traces|] == traces;
      hide Passes, StepsOf, Charges;
      var a := Passes(START, Charges(init, quantum), cpus);
      RunStepsAppend(h, c, StepsOf(init, quantum, cpus), PassSteps(a, last.moves, Charge(last.n, quantum), cpus));
      PassTicks(h, RunSteps(h, c, StepsOf(init, quantum, cpus)), a, last.moves, Charge(last.n, quantum), cpus);
    }
  }

  lemma NoSteps<W>(h: Handler<W>, c: Core<W>)
    requires Shaped(c)
    ensures RunSteps(h, c, []) == c
  {}

  lemma ChargesOneMore<W>(traces: seq<Trace<W>>, k: nat, quantum: Bit32u, cpus: nat)
    requires cpus > 0 && k < |traces|
    ensures Passes(START, Charges(traces[..k + 1], quantum), cpus)
         == Pass(Passes(START, Charges(traces[..k], quantum), cpus), Charge(traces[k].n, quantum), cpus)
    ensures StepsOf(traces[..k + 1], quantum, cpus)
         == StepsOf(traces[..k], quantum, cpus)
            + PassSteps(Passes(START, Charges(traces[..k], quantum), cpus), traces[k].moves, Charge(traces[k].n, quantum), cpus)
  {
    hide PassSteps, Pass;
    assert traces[..k + 1][..k] == traces[..k];
    assert Charges(traces[..k + 1], quantum)[..k] == Charges(traces[..k], quantum);
  }

  /** The steps so far and one more pass. */
  lemma StepsOneMore<W>(h: Handler<W>, w: Waker<W>, traces: seq<Trace<W>>, k: nat, quantum: Bit32u, cpus: nat)
    requires cpus > 0 && Inv(w) && k < |traces|
    requires w.core.now + Passes(START, Charges(traces[..k + 1], quantum), cpus).paid < TWO63
    ensures RunSteps(h, w.core, StepsOf(traces[..k], quantum, cpus)).now < TWO63
    ensures RunSteps(h, w.core, StepsOf(traces[..k + 1], quantum, cpus)).now < TWO63
    ensures var a, n := Passes(START, Charges(traces[..k], quantum), cpus), Charge(traces[k].n, quantum);
            var w1 := WRunMoves(WRunSteps(h, w, StepsOf(traces[..k], quantum, cpus)), traces[k].moves, 0);
            && w1.core.now == w.core.now + a.paid
            && (a.processor + 1 == cpus ==> w1.core.now + Payment(a, n, cpus) < TWO63)
            && WRunSteps(h, w, StepsOf(traces[..k + 1], quantum, cpus))
                 == if a.processor + 1 == cpus then WTickN(h, w1, Payment(a, n, cpus)) else w1
  {
    hide PassSteps, Passes, RunSteps, StepsOf, Charges, U32, NothingDueBefore, PeriodsFit, NullTimerInPlace;
    ChargesOneMore(traces, k, quantum, cpus);
    StepsTakePaidTicks(h, w.core, traces[..k], quantum, cpus);
    StepsTakePaidTicks(h, w.core, traces[..k + 1], quantum, cpus);
    var a := Passes(START, Charges(traces[..k], quantum), cpus);
    var steps := StepsOf(traces[..k], quantum, cpus);
    WRunStepsAppend(h, w, steps, PassSteps(a, traces[k].moves, Charge(traces[k].n, quantum), cpus));
    PassRuns(h, WRunSteps(h, w, steps), a, traces[k].moves, Charge(traces[k].n, quantum), cpus);
  }

  /**
   The loop itself, driving the timers. The devices of a trace call the timers while it runs;
   the ticks of a round pass after its last trace. The pass that follows a long jump out of
   `cpu_run_trace` charges that processor like any other pass.
   */
  method Simulate<W>(pc: PcSystem<W>, cpus: nat, quantum: Bit32u, traces: seq<Trace<W>>)
    returns (executed: nat, processor: nat, ghost paid: nat)
    requires pc.Valid() && 1 < cpus
    requires pc.State().core.now + Sum(Charges(traces, quantum)) < TWO63
    modifies pc, pc.timer
    ensures pc.Valid()
    ensures Account(executed, processor, paid) == Passes(START, Charges(traces, quantum), cpus)
    ensures RunSteps(pc.handler, old(pc.State()).core, StepsOf(traces, quantum, cpus)).now == old(pc.State()).core.now + paid < TWO63
    ensures pc.State() == WRunSteps(pc.handler, old(pc.State()), StepsOf(traces, quantum, cpus))
    ensures pc.State().core == RunSteps(pc.handler, old(pc.State()).core, StepsOf(traces, quantum, cpus))
    ensures Sum(Charges(traces, quantum)) == cpus * paid + executed + TWO32 * Wraps(Charges(traces, quantum), cpus)
    ensures cpus * paid + executed == Sum(Charges(traces, quantum)) <==>
            forall k :: 0 <= k < |traces| ==> RoundFits(Charges(traces, quantum), k, cpus)
    ensures processor == |traces| % cpus && (processor == 0 ==> executed < cpus)
  {
    hide RoundFits, Passes, Wraps, Charges, StepsOf, Sum, U32, Inv, WRunSteps, RunSteps, WRunMoves, WTickN, Timers.TickN, Payment;
    ghost var w, counts := pc.State(), Charges(traces, quantum);
    executed, processor, paid := 0, 0, 0;
    StartOfLoop(pc.handler, w, traces, quantum, cpus);
    for k := 0 to |traces|
      invariant pc.Valid() && pc.timer == old(pc.timer)
      invariant Account(executed, processor, paid) == Passes(START, Charges(traces[..k], quantum), cpus)
      invariant RunSteps(pc.handler, w.core, StepsOf(traces[..k], quantum, cpus)).now < TWO63
      invariant pc.State() == WRunSteps(pc.handler, w, StepsOf(traces[..k], quantum, cpus))
    {
      ChargesOneMore(traces, k, quantum, cpus);
      PaidIsBounded(traces, k + 1, quantum, cpus);
      StepsOneMore(pc.handler, w, traces, k, quantum, cpus);
      PaymentByHand(executed, processor, paid, Charge(traces[k].n, quantum), cpus);
      pc.Execute(traces[k].moves);
      var n := traces[k].n;
      if n == 0 {
        n := quantum;
      }
      executed := U32(executed + n);
      processor := processor + 1;
      if processor == cpus {
        processor := 0;
        paid := paid + executed / cpus;
        pc.TickN(executed / cpus);
        executed := executed % cpus;
      }
    }
    assert traces[..|traces|] == traces;
    PaidIsBounded(traces, |traces|, quantum, cpus);
    StepsTakePaidTicks(pc.handler, w.core, traces, quantum, cpus);
    Accounting(counts, cpus);
    ConservationOnCounts(counts, cpus);
    Turns(counts, cpus);
  }

  lemma StartOfLoop<W>(h: Handler<W>, w: Waker<W>, traces: seq<Trace<W>>, quantum: Bit32u, cpus: nat)
    requires cpus > 0 && Inv(w) && w.core.now < TWO63
    ensures Passes(START, Charges(traces[..0], quantum), cpus) == START
    ensures RunSteps(h, w.core, StepsOf(traces[..0], quantum, cpus)).now < TWO63
    ensures WRunSteps(h, w, StepsOf(traces[..0], quantum, cpus)) == w
  {}

  lemma PaymentByHand(executed: nat, processor: nat, paid: nat, n: Bit32u, cpus: nat)
    requires cpus > 0
    ensures Payment(Account(executed, processor, paid), n, cpus) == U32(executed + n) / cpus
  {}

  lemma PassesOneMore(counts: seq<Bit32u>, k: nat, cpus: nat)
    requires cpus > 0 && k < |counts|
    ensures Passes(START, counts[..k + 1], cpus) == Pass(Passes(START, counts[..k], cpus), counts[k], cpus)
  {
    assert counts[..k + 1][..k] == counts[..k];
  }

  lemma {:induction false} PrefixPaysLess(counts: seq<Bit32u>, k: nat, cpus: nat)
    requires cpus > 0 && k <= |counts|
    ensures Passes(START, counts[..k], cpus).paid <= Sum(counts)
    decreases |counts| - k
  {
    if k == |counts| {
      assert counts[..k] == counts;
      Conservation(counts, cpus);
    } else {
      PrefixPaysLess(counts, k + 1, cpus);
      PassesOneMore(counts, k, cpus);
    }
  }

  lemma PaidIsBounded<W>(traces: seq<Trace<W>>, k: nat, quantum: Bit32u, cpus: nat)
    requires cpus > 0 && k <= |traces|
    ensures Passes(START, Charges(traces[..k], quantum), cpus).paid <= Sum(Charges(traces, quantum))
  {
    assert Charges(traces[..k], quantum) == Charges(traces, quantum)[..k];
    PrefixPaysLess(Charges(traces, quantum), k, cpus);
  }
}
