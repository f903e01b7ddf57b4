# Verified models of the emulator's cores and of the tutorial kernel

This project models, in Dafny, the parts of the repository whose correctness rests on an
argument rather than on a glance at the code, and proves what those parts promise:

| core | files |
|---|---|
| the Bochs timer scheduler, its microsecond clock and the multiprocessor loop that feeds it | `Timers.dfy`, `Wakeups.dfy`, `PcSystem.dfy`, `TimerRuns.dfy`, `SmpLoop.dfy`, `UsecClock.dfy` |
| the intrusive queues and the list that readers walk while it grows | `TailQueue.dfy`, `SimpleQueue.dfy`, `RcuList.dfy` |
| the tutorial kernel's frame bitmap, paging, forks and text screen | `FrameBitmap.dfy`, `AddressSpaces.dfy`, `Paging.dfy`, `Terminal.dfy` |
| the table-driven CRC-32 | `Crc32.dfy` |
| the BIOS checksum fixer and the debugger's symbol indexes | `BiosSums.dfy`, `SymbolIndex.dfy` |

`Common.dfy` holds an option type and the sequence operations that the queues are measured
against. `dafny verify dfyconfig.toml` verifies the whole project. Below, `README.md` with line
numbers is the repository's own, which holds the tutorial.

## How the models are built

**Timers.** Three machines, each proved against the one before it. `Timers` is the naive
scheduler: every tick adds one to an unbounded clock and fires what is due now, in slot
order. `Wakeups` looks at the table only at a wake-up time that arming a timer may move
forward. `PcSystems.PcSystem` is the class of the source, with its 32-bit countdown and
period and its wrapping arithmetic written out. Its methods are proved to be the steps of
the second machine, whose functions promise to be the steps of the first; so a whole run
of the class leaves the table, the clock and the trace of firings of the naive scheduler.
A callback is a list of moves. Each move sees the device world, the clock, the triggered
slot with its parameter and the result of the previous call, and makes one call of the
timer interface; callbacks may register, activate, deactivate and unregister any slot,
including slots that are waiting for delivery in the same event. `bochs/config.h:64` sets
`BX_TIMER_DEBUG` to 0, so the calls are not checked: the model carries out any call that
names a slot of the table, except those that turn off the null timer in slot 0, make it
one-shot or give it a period beyond 32 bits. The source asks its callers to leave that timer
alone (`bochs/pc_system.cc:47-49`), and `Wakeups.NullTimerAlone` shows why: with no other
timer, the distance to the next event is narrowed wrongly at every event once the null timer
is off, and at the event where it fires if it is one-shot or its period exceeds 32 bits.

**Queues.** A queue is a chain of cells in the heap. The address of a forward pointer is
modelled by the cell that holds it, and heads and entries of a tail queue are one class,
as their two-field layout has it, so that reading an entry as a head is just a field access.
Each operation is proved against an operation on the sequence of elements.

**RCU list.** A writer performs the stores of an insertion one at a time; any number of
readers step in between, under every schedule. The order of the stores is a parameter, so
that the theorem can say which orders are safe.

**Paging.** `AddressSpaces` is the promise: a list of spaces that are copied at a fork, with
the kernel's tables shared. `Pagings.Kernel` is the code: a bitmap, frames, page tables and
directories. Every run of the code is proved to act on the spaces as promised, and isolation
is proved about every run of the promise.

**Screen.** A roll of rows that never scrolls; the screen is a window on it.

**CRC.** The serial shift register is the definition; the byte loop over the table is
proved equal to it, and the algebra (linear, injective) is proved about the register.

**BIOS image.** The five copies of the scan, get, set and calculate functions differ in
their constants only and are one set of methods with a parameter for the kind.

**Symbols.** An ordered set is a sorted sequence into which equivalent elements are
inserted once. The list of all symbols added is what the two sets are measured against.

Where the code and its words differ, the model follows the code:

- `bochs/bios/biossums.c:334-351` looks for headers at 16-byte boundaries, but the first
  boundary looked at is 16: a header at the start of the image is never found.
- `bochs/bx_debug/symbols.cc:170-186` finds nothing for an address at or above the highest
  symbol, although that symbol lies below it.

What turned out false is stated with its exact condition: the multiprocessor loop loses no
instruction if and only if no 32-bit addition to its account wraps
(`SmpLoops.Conservation`, on the counts alone `SmpLoops.ConservationOnCounts`, with an input
`SmpLoops.WrappingLosesInstructions`); a second run of the checksum fixer can stop at its own
output even when all regions are disjoint, and completes without a change if and only if the
output balances and no extension field of a PCMP header is set (`BiosSums.Bios.RunTwice`, with
an input `BiosSums.ClashingImageStopsSecondRun`); an address lookup succeeds
if and only if there are symbols on both sides of the address
(`SymbolIndexes.Context.AddressLookup`); readers of the list are safe if and only if an
element is linked before it is published
(`RcuLists.LinkBeforePublishIsNecessaryAndSufficient`); the 32-bit countdown is right at an event
if and only if some timer is due within 32 bits, which a stopped or slowed null timer can break
(`Wakeups.NarrowsExactlyIff`, with an input `Wakeups.NullTimerIsNeeded`); a freed timer slot is
handed out again if and only if the bound on the slots is below 64 afterwards
(`TimerRuns.FreedSlotIsReused`); bursts are always detected up to 32
bits and not beyond (`Crc32s.BurstsAreDetected`, `Crc32s.WiderBurstsMayBeMissed`).

## Model

| member | source | states |
|---|---|---|
| `PcSystems.PcSystem.Run` | bochs/pc_system.cc:261-385 | for every sequence of device calls and elapsed ticks, with callbacks that call back into the timer interface, the table, the clock, the device world and the trace of (slot, time) firings are those of the naive scheduler that fires due timers tick by tick in slot order |
| `PcSystems.PcSystem.constructor` | bochs/pc_system.cc:41-76 | after construction and initialisation the clock is at 0, only the null timer is there, nothing has fired and the countdown invariant holds; the table has 64 slots, the countdown and the null timer's period are 0xffffffff |
| `PcSystems.PcSystem.CountdownIsSound` | bochs/pc_system.h:66-69 | between events the countdown is positive and at most its period, the period fits in 32 bits, no active timer is due before the period ends, and the null timer is active and due within 0xffffffff ticks |
| `PcSystems.PcSystem.TimeTicks` | bochs/pc_system.h:130-133 | the clock computed from the 32-bit countdown is the true tick count, without loss |
| `PcSystems.PcSystem.FindFreeSlot` | bochs/pc_system.cc:275-278 | the search gives the lowest free slot from 1 on, or the bound when there is none |
| `PcSystems.PcSystem.RegisterTimerTicks` | bochs/pc_system.cc:261-319 | registering does to the table and the wake-up time what the reference scheduler does, returns the slot or -1 when the bound has reached 64, and keeps the current time and the countdown invariant; the new record waits the ticks asked for, at least one, with the callback, pointer and flags given and parameter 0 |
| `PcSystems.PcSystem.Skew` | bochs/pc_system.cc:302-307 | shortening the countdown leaves the ticks already elapsed, and so the current time, unchanged; the countdown becomes the lesser of itself and the request and stays positive |
| `PcSystems.PcSystem.ActivateTimerTicks` | bochs/pc_system.cc:473-505 | (re)activating any slot, registered or not, and the null timer's with a continuous period of at most 0xffffffff, does to the table and the wake-up time what the reference scheduler does and keeps the current time and the countdown invariant; the slot then waits the ticks asked for, at least one |
| `PcSystems.PcSystem.DeactivateTimer` | bochs/pc_system.cc:562-572 | deactivating any slot but the null timer's only turns the slot off; the wake-up left behind stays and the countdown invariant holds |
| `PcSystems.PcSystem.UnregisterTimer` | bochs/pc_system.cc:574-602 | unregistering fails on an active timer, the null timer included; otherwise the slot, in use or not, is freed and the bound shrinks only if it was the last |
| `PcSystems.PcSystem.SetTimerParam` | bochs/pc_system.cc:604-611 | only the slot's parameter changes, whatever the slot |
| `PcSystems.PcSystem.VisitSlot` | bochs/pc_system.cc:338-367 | a due slot is noted and rearmed (off if one-shot, one period later if continuous), any other slot is untouched, and the running minimum takes in the slot's new due time |
| `PcSystems.PcSystem.RearmDue` | bochs/pc_system.cc:323-368 | the first pass rearms exactly the due slots before any callback runs, notes exactly them, brackets them between first and last, and finds the least due time of the rearmed table |
| `PcSystems.PcSystem.CallSlot` | bochs/pc_system.cc:380-382 | a callback runs with its own slot as the triggered one, leaves one entry in the trace, and the triggered slot reads 0 afterwards |
| `PcSystems.PcSystem.DeliverTriggered` | bochs/pc_system.cc:376-384 | the scan between first and last delivers the same callbacks, in the same order, as a scan over all 64 slots, whatever the callbacks do to the table |
| `PcSystems.PcSystem.CountdownEvent` | bochs/pc_system.cc:321-385 | when the countdown reaches zero, one event does what the reference scheduler does at its wake-up time and leaves a sound positive countdown |
| `PcSystems.PcSystem.Tick1` | bochs/pc_system.h:106-110 | one tick is one tick of the naive scheduler; the clock advances by 1 whatever fires |
| `PcSystems.PcSystem.TickN` | bochs/pc_system.h:111-121 | the loop terminates; tickn(n) leaves the state and the trace of n single ticks, and the clock advances by exactly n whatever fires on the way |
| `Wakeups.WApply` | bochs/pc_system.cc:301-309 | a call keeps the wake-up invariant and acts on the table as in the naive scheduler, which knows no wake-up |
| `Wakeups.WRearm` | bochs/pc_system.cc:338-374 | after rearming, sleeping until the least due time is sound, and the table is that of the naive scheduler |
| `Wakeups.NarrowingIsExact` | bochs/pc_system.cc:370-374 | the distance to the next due time is never 0 and narrowing it to 32 bits loses nothing |
| `Wakeups.NarrowsExactlyIff` | bochs/pc_system.cc:370-374 | for any table with nothing overdue, whatever slot 0 holds, narrowing the distance at an event is exact and positive if and only if some active timer is due within 0xffffffff ticks |
| `Wakeups.NullTimerAlone` | bochs/pc_system.cc:47-49 | with the null timer as the only one, narrowing is never exact once it is off, and at the event where it fires it is exact if and only if the timer is continuous with a period of at most 0xffffffff |
| `Wakeups.NullTimerIsNeeded` | bochs/pc_system.cc:47-49 | on a freshly initialised system, turning slot 0 off or giving it the period 0x1_ffff_ffff makes the first event narrow a positive distance to 0 |
| `Wakeups.WDeliver` | bochs/pc_system.cc:376-384 | delivery keeps the wake-up invariant across callbacks that rearm timers and calls what the naive scheduler calls |
| `Wakeups.WEvent` | bochs/pc_system.cc:321-385 | an event at the wake-up time is the naive firing of what is due then |
| `Wakeups.WTick` | bochs/pc_system.h:106-110 | a tick that looks at the table only at the wake-up time is a tick of the naive scheduler |
| `Wakeups.FireWithNothingDue` | bochs/pc_system.cc:336-384 | a wake-up at which nothing is due, such as one left by a deactivated timer, changes nothing and fires nothing |
| `Wakeups.WRunSteps` | bochs/pc_system.cc:321-385 | over whole runs the scheduler with wake-ups keeps its invariant and equals the naive scheduler |
| `Wakeups.WRunStepsAppend` | bochs/pc_system.cc:321-385 | runs compose: a run in two parts ends in the state of the whole run |
| `Wakeups.TickNAdds` | bochs/pc_system.h:111-121 | tickn(a) followed by tickn(b) is tickn(a + b) |
| `Wakeups.QuietTicks` | bochs/pc_system.h:118-120 | ticks that stop short of the wake-up only move the clock |
| `Wakeups.JumpToWake` | bochs/pc_system.h:112-117 | ticks that reach the wake-up are one jump to it, one event, and the remaining ticks |
| `TimerRuns.FiresAsAnnounced` | bochs/pc_system.cc:321-385 | over any run that leaves a slot alone it fires at exactly the times its record announces and at no others, whatever the other slots and callbacks do and however the ticks are batched |
| `TimerRuns.TicksKeep` | bochs/pc_system.cc:336-384 | the same over n ticks: firings of the slot, its record and its pending due time |
| `TimerRuns.ContinuousDoesNotDrift` | bochs/pc_system.cc:353-358 | a continuous timer activated at t0 with p ticks (0 acting as 1) and left alone has fired floor((T - t0) / p) times by time T, at t0 + p, t0 + 2p and so on |
| `TimerRuns.OneShotFiresOnce` | bochs/pc_system.cc:350-352 | a one-shot timer activated at t0 with p ticks (0 acting as 1) and left alone fires once, at t0 + p, or not at all if the run ends before |
| `TimerRuns.InactiveStaysSilent` | bochs/pc_system.cc:562-572 | a deactivated timer left alone never fires |
| `TimerRuns.RegisteredTimerFires` | bochs/pc_system.cc:267-309 | a timer registered active fires at the same times as one activated at that moment; one registered inactive never fires |
| `TimerRuns.RegistrationTakesLowestFreeSlot` | bochs/pc_system.cc:275-318 | registration takes the lowest free slot, touches no other, and fails exactly when the bound has reached 64 |
| `TimerRuns.FreedSlotIsReused` | bochs/pc_system.cc:588-602 | a freed slot with no free one below goes to the next registration, unless the bound stays at 64, where registration fails although a slot is free |
| `TimerRuns.MovesSee` | bochs/pc_system.h:100-105 | what a callback sees: the clock, its own slot, that slot's parameter, and the result of its previous call |
| `TimerRuns.ParameterReachesCallback` | bochs/pc_system.cc:604-611 | the callback that runs is the slot's own with its own pointer, and it finds the parameter that was set |
| `TimerRuns.RearmingKeepsTheRest` | bochs/pc_system.cc:336-367 | an event changes due times of due continuous timers, turns off due one-shot ones, and nothing else in the table |
| `TimerRuns.TraceIsOrdered` | bochs/pc_system.cc:376-384 | over any run the trace of firings is ordered by time and within a tick by slot, each slot at most once a tick |
| `UsecClocks.SequentialClock.TimeUsecSequential` | bochs/pc_system.cc:445-459 | with a clock that does not go back, each result is one more than the larger of the previous result and the current time |
| `UsecClocks.SequentialClock.Run` | bochs/pc_system.cc:445-459 | a run of calls returns exactly those results |
| `UsecClocks.ResultsIncrease` | bochs/pc_system.cc:445-459 | results are strictly increasing over a run |
| `UsecClocks.ResultIsLargestDebt` | bochs/pc_system.cc:445-459 | every result is the largest claim of any earlier call: its time plus the number of calls since, so the results are no further ahead of real time than the calls demand |
| `SmpLoops.Simulate` | bochs/main.cc:1066-1097 | with traces whose devices call the timer interface while they run, the loop leaves the timers, the device world and the trace of firings as the naive scheduler does for those calls interleaved with the ticks of each round; the clock advances by the ticks paid; the instructions counted are the ticks paid times N, plus what is owed, plus 2^32 for each wrap, and none is lost if and only if every trace fits its round; trace k ran on processor k mod N, with less than one tick owed at a round boundary |
| `SmpLoops.Accounting` | bochs/main.cc:1083-1091 | the instructions counted are N times the ticks paid, plus what is owed, plus 2^32 for every addition that wrapped |
| `SmpLoops.Conservation` | bochs/main.cc:1083-1091 | N times the ticks paid plus what is owed never exceeds the instructions counted, and equals them if and only if no addition to the 32-bit account wrapped |
| `SmpLoops.NeverWrapsIffRoundsFit` | bochs/main.cc:1083-1091 | no addition wraps if and only if, for every trace, the carry into its round (all earlier counts mod N) plus the counts of the round up to it is below 2^32 |
| `SmpLoops.ConservationOnCounts` | bochs/main.cc:1083-1091 | so the counts alone decide whether an instruction is lost |
| `SmpLoops.StepsTakePaidTicks` | bochs/main.cc:1087-1091 | the timers see exactly the ticks paid, whatever the traces call |
| `SmpLoops.Turns` | bochs/main.cc:1087-1091 | processors take turns, once per round each, and 0 <= executed < N at every round boundary |
| `SmpLoops.RoundIsCallsThenTicks` | bochs/main.cc:1075-1091 | a round is the calls of its N traces, one processor after the other, followed by the ticks it pays: all traces of a round see the clock of its start |
| `SmpLoops.HaltedPayTheQuantum` | bochs/main.cc:1083-1085 | the instructions charged are those reported plus one quantum for every trace of a halted processor |
| `SmpLoops.SmallCountsNeverWrap` | bochs/main.cc:1083-1091 | no addition wraps when a round of the largest count, with the carry, fits in 32 bits |
| `SmpLoops.WrappingLosesInstructions` | bochs/main.cc:1085-1091 | two processors that report 2^31 instructions each lose all of them; one trace can report so many because every iteration of a repeated string instruction counts (bochs/cpu/cpu.cc:330) |
| `TailQueues.StepBack` | bochs/qemu-queue.h:409-412 | reading a backward pointer as a head and taking its last element yields the predecessor, or null for the first element, or the last element for the head itself |
| `TailQueues.SplicedIsChained` | bochs/qemu-queue.h:344-376 | the four pointer patterns left by the insertions are well-linked queues with the element at its place |
| `TailQueues.UnlinkedIsChained` | bochs/qemu-queue.h:378-385 | the pointers left by a removal are a well-linked queue without the element |
| `TailQueues.TailQueue.constructor` | bochs/qemu-queue.h:339-342 | an initialised queue is empty and well linked |
| `TailQueues.TailQueue.InsertHead` | bochs/qemu-queue.h:344-352 | the element comes first, the rest keeps its order |
| `TailQueues.TailQueue.InsertTail` | bochs/qemu-queue.h:354-359 | the element comes last, the rest keeps its order |
| `TailQueues.TailQueue.InsertAfter` | bochs/qemu-queue.h:361-369 | the element comes right after the given one, also when that is the last |
| `TailQueues.TailQueue.InsertBefore` | bochs/qemu-queue.h:371-376 | the element comes right before the given one, without access to the head |
| `TailQueues.TailQueue.Remove` | bochs/qemu-queue.h:378-385 | exactly the given element leaves the queue, at any position; its own pointers are left alone |
| `TailQueues.TailQueue.First` | bochs/qemu-queue.h:406-406 | the first element, or null for an empty queue |
| `TailQueues.TailQueue.Next` | bochs/qemu-queue.h:407-407 | the successor, or null for the last element |
| `TailQueues.TailQueue.Last` | bochs/qemu-queue.h:409-410 | the last element, or null for an empty queue |
| `TailQueues.TailQueue.Prev` | bochs/qemu-queue.h:411-412 | the predecessor, or null for the first element |
| `TailQueues.TailQueue.Foreach` | bochs/qemu-queue.h:387-390 | the walk visits the elements in order, once each, and stops |
| `TailQueues.TailQueue.ForeachReverse` | bochs/qemu-queue.h:397-400 | the walk visits exactly the reversed sequence and stops |
| `TailQueues.TailQueue.RemoveWhere` | bochs/qemu-queue.h:392-395 | the safe walk with a body that removes some elements visits every element and leaves exactly the others, in order |
| `SimpleQueues.JoinedIsLinked` | bochs/qemu-queue.h:294-300 | the cells of two disjoint queues, the first made to run on into the second, are one queue |
| `SimpleQueues.SimpleQueue.constructor` | bochs/qemu-queue.h:243-246 | an initialised queue is empty, with a correct tail pointer |
| `SimpleQueues.SimpleQueue.Init` | bochs/qemu-queue.h:243-246 | initialising again empties the queue, whatever its pointers were |
| `SimpleQueues.SimpleQueue.IsEmpty` | bochs/qemu-queue.h:311-311 | the head pointer is null exactly when there are no elements |
| `SimpleQueues.SimpleQueue.InsertHead` | bochs/qemu-queue.h:248-252 | the element comes first and the tail pointer stays correct, also in an empty queue |
| `SimpleQueues.SimpleQueue.InsertTail` | bochs/qemu-queue.h:254-258 | the element comes last, whatever operations came before |
| `SimpleQueues.SimpleQueue.InsertAfter` | bochs/qemu-queue.h:260-264 | the element comes right after the given one and the tail pointer stays correct |
| `SimpleQueues.SimpleQueue.RemoveHead` | bochs/qemu-queue.h:266-269 | exactly the first element leaves the queue |
| `SimpleQueues.SimpleQueue.Remove` | bochs/qemu-queue.h:271-282 | exactly the given member leaves the queue, be it first, middle or last, and the tail pointer stays correct |
| `SimpleQueues.SimpleQueue.Concat` | bochs/qemu-queue.h:294-300 | for disjoint queues the first becomes the concatenation and the second empty, both usable afterwards |
| `SimpleQueues.SimpleQueue.Last` | bochs/qemu-queue.h:302-306 | the last element, or null for an empty queue |
| `SimpleQueues.SimpleQueue.Foreach` | bochs/qemu-queue.h:284-287 | the walk visits the elements in order, once each, and stops |
| `RcuLists.ReaderVisitsTheListItFound` | bochs/qemu-queue.h:129-150 | under every interleaving of readers with the single stores of any number of insertions, a reader that finishes has visited exactly the list as it stood in memory when the reader read the head, in order, once each |
| `RcuLists.StaysOnTrack` | bochs/qemu-queue.h:129-150 | in every reachable state the memory holds the published list and every reader has visited a prefix of the list it found and can reach the rest |
| `RcuLists.SnapshotIsTheListRead` | bochs/qemu-queue.h:147-150 | the list a reader is measured against is the one at the step where it read the head |
| `RcuLists.ReaderNeverWaits` | bochs/qemu-queue.h:147-150 | each turn of a reader is progress: n turns are n nodes, and the walk is over after as many turns as the list is long plus one, whatever the writer does |
| `RcuLists.StaysBacked` | bochs/qemu-queue.h:129-138 | between insertions the backward pointers mirror the list; during one only the first may be ahead of the head |
| `RcuLists.LinkBeforePublishIsNecessaryAndSufficient` | bochs/qemu-queue.h:130-136 | of all orders of the stores, readers see whole lists under every schedule if and only if the element's link is stored before the head |
| `RcuLists.ShortWalk` | bochs/qemu-queue.h:130-136 | for every other order a schedule exists in which a reader finishes after the first of two nodes |
| `FrameBitmaps.SettingOneBit` | README.md:1873-1883 | setting a bit of a word sets that bit and no other |
| `FrameBitmaps.BitFromLowEnd` | README.md:1874-1882 | frames count from the low end of a word |
| `FrameBitmaps.FullWord` | README.md:1909-1921 | a word in which the inner scan finds no clear bit is 0xFFFFFFFF, so the scan of a word that is not full always returns |
| `FrameBitmaps.FrameBitmap.SetFrame` | README.md:1877-1883 | exactly the frame of the address becomes used |
| `FrameBitmaps.FrameBitmap.TestFrame` | README.md:1895-1901 | the test is true exactly for used frames |
| `FrameBitmaps.FrameBitmap.FirstFrame` | README.md:1904-1922 | the least free frame is returned, and none only if every frame is used |
| `AddressSpaces.Isolation` | README.md:3545-3547 | over any run of forks, stores and mappings that does not go through a directory, every page of that directory's own tables keeps its contents |
| `AddressSpaces.NonInterference` | README.md:3545-3547 | for every directory and every run, what is the directory's own at the end (its tables, its links, the pages of tables it does not link) is what it would be if only the steps through it had taken place |
| `AddressSpaces.ForkIsASnapshot` | README.md:3545-3545 | the child shows the parent's pages of the moment of the fork, whatever the parent and others do after it |
| `AddressSpaces.SharedTablesAgree` | README.md:3547-3547 | after any run, directories that link the same kernel table see the same pages in it |
| `AddressSpaces.StoreIsSeen` | README.md:3545-3547 | after a store the page holds the word stored and is otherwise as before |
| `AddressSpaces.StaysCoherent` | README.md:3595-3603 | the kernel's tables stay shared and consistent over every run |
| `Pagings.Kernel.constructor` | README.md:1978-1985 | an empty kernel directory with frame 0 claimed is a well-formed start |
| `Pagings.Kernel.SpacesAreCoherent` | README.md:3598-3603 | in every state of the kernel, tables linked from the kernel directory show the same pages in every directory |
| `Pagings.OneMappingPerFrame` | README.md:1929-1949 | a frame is mapped at one place only: two mappings of it are the same page of the same, shared table |
| `Pagings.StoreRefines` | README.md:3545-3547 | a store into a mapped frame changes that page in the spaces that share its table and nothing in any other |
| `Pagings.Kernel.AllocFrame` | README.md:1929-1949 | a page without a frame gets one that nothing used, with the flags asked for; a page that has one keeps it; the panic comes only when every frame is in use; the frame is the lowest free one |
| `Pagings.Kernel.CopyPagePhysical` | README.md:3671-3701 | the target frame becomes equal to the source frame, all 1024 words, and no other frame changes |
| `Pagings.Kernel.CloneEntry` | README.md:3635-3657 | a mapped entry gets a fresh frame with identical contents, the original's rw, accessed and dirty flags, and present and user set; an empty one stays blank; frames in use before keep their contents, and so do frames still free |
| `Pagings.Kernel.CloneTable` | README.md:3624-3663 | a new table with every entry so copied, the original and all other tables unchanged |
| `Pagings.Kernel.CloneSlot` | README.md:3583-3610 | an empty slot stays empty, a kernel table is linked with its physical entry, any other table is copied |
| `Pagings.Kernel.ForkRefines` | README.md:3561-3617 | tables cloned slot by slot make the child's space equal to the parent's and leave all other spaces as they were |
| `Pagings.Kernel.CloneDirectory` | README.md:3561-3617 | a fork adds a copy of the parent's space and changes no other, or fails only when every frame is in use; existing directories and tables are unchanged; the child links the kernel's tables, and every entry of the others is a copy that is present, for users, and writable, accessed and dirty like the original |
| `Pagings.Kernel.Translate` | README.md:1850-1856 | the physical entries lead the hardware to the same frame as the virtual pointers lead the kernel |
| `Pagings.Kernel.ReadWord` | README.md:3545-3547 | a load through a directory reads the page of its space |
| `Pagings.Kernel.WriteWord` | README.md:3545-3547 | a store through a directory changes one word of one page, in exactly the spaces that share the table |
| `Pagings.Kernel.StoreAndLoad` | README.md:3545-3547 | a load after a store finds the word stored if the page is mapped, and nothing otherwise |
| `Pagings.Kernel.PhysicalEntriesCarryFlags` | README.md:2031-2033 | every physical entry leads to the table of its slot and is present, writable and for users; empty slots have entry 0 |
| `Pagings.Kernel.MakeTable` | README.md:2028-2034 | a table made on demand is empty and belongs to that directory alone |
| `Pagings.Kernel.MapPage` | README.md:2018-2040 | mapping a page through get_page and alloc_frame adds it to that directory (and to those that share the table), changes no page that was mapped, and does nothing if the page has a frame; a new page shows what a frame held that nothing used; a new entry is present with the permissions asked for, neither accessed nor dirty, an old one is unchanged, and so are all other entries of all tables |
| `Pagings.Kernel.PageIndex` | README.md:2020-2026 | the slot and the entry for an address are those of the page that holds it: 4 MB a slot, 4 KB an entry |
| `Pagings.Kernel.MapAddress` | README.md:2018-2040 | mapping by address maps the page that holds it |
| `Pagings.Kernel.Run` | README.md:3561-3617 | every run of forks, stores and mappings, up to the panic for want of a frame, acts on the spaces as promised, step by step; frames that stay free keep their contents, and every newly mapped page shows what some frame held that was free at the start, never another directory's data |
| `Pagings.Kernel.RunBeside` | README.md:3545-3547 | isolation in the kernel itself: after any run a directory's own is what the operations through it alone would leave, with new pages that show only what free frames held at the start; if there were none, every load through it from a table of its own finds what it found before |
| `Pagings.Kernel.ForkAndRun` | README.md:3545-3545 | after a fork and any run not through the child, loads through the child find the parent's pages of the moment of the fork |
| `Terminals.Monitor.Clear` | README.md:775-791 | the screen is blank, the cursor at the origin, and the screen shows a fresh roll; all 2000 cells are 0x0f20 |
| `Terminals.Monitor.Scroll` | README.md:662-689 | below the last row the screen moves up by one row with a blank one at the bottom and the cursor in it; otherwise nothing changes |
| `Terminals.Monitor.Store` | README.md:737-742 | the cell under the cursor, inside the screen, has the character in its low byte and 0x0f in its high byte; no other cell changes |
| `Terminals.Monitor.Place` | README.md:711-750 | before scrolling: which cell changes and where the cursor goes, for every character |
| `Terminals.Monitor.Put` | README.md:697-756 | the screen shows the last rows of a terminal that never scrolls; in numbers, a printable character lands at the old cursor with 0x0f as high byte, newline goes to column 0 of the next row, tab to the next multiple of 8, backspace one left, return to column 0, other characters do nothing, and below row 24 the cells move up by a row of 80 |
| `Terminals.Monitor.Write` | README.md:797-805 | the same for a string up to its terminating zero |
| `Terminals.HistoryStays` | README.md:697-756 | rows above the cursor's row never change again, so what has scrolled off was final |
| `Terminals.TextFlows` | README.md:737-750 | the n-th of a run of printable characters on a fresh terminal is at row n / 80, column n mod 80, as the low byte of a cell with high byte 0x0f |
| `Terminals.ControlCharacters` | README.md:711-735 | control characters keep every cell: they move the cursor, into a new blank row if need be |
| `Crc32s.ShiftIsLinear` | bochs/crc.cc:47-48 | the table's shift step is linear over xor |
| `Crc32s.ShiftIsInjective` | bochs/crc.cc:47-48 | only the zero register shifts to zero |
| `Crc32s.SerialIsLinear` | bochs/crc.cc:61-64 | two runs of the register differ by the run of the difference of their bits |
| `Crc32s.SerialOfWord` | bochs/crc.cc:61-64 | shifting up to 32 bits into the register is shifting the register xored with those bits as a word |
| `Crc32s.ByteStepIsSerial` | bochs/crc.cc:62-63 | one step of the byte loop, with its table entry, is eight steps of the serial register, most significant bit first |
| `Crc32s.BurstsAreDetected` | bochs/crc.cc:53-65 | two different messages of one length whose differing bits lie within 32 consecutive bits have different CRCs |
| `Crc32s.WiderBurstsMayBeMissed` | bochs/crc.cc:53-65 | two messages that differ within 33 bits and have the same CRC: 32 is the most |
| `Crc32s.PrefixIsNoticed` | bochs/crc.cc:61-64 | bytes in front of a message change its CRC if and only if they take the register away from its preset |
| `Crc32s.LeadingZeroIsNoticed` | bochs/crc.cc:61-64 | a zero byte in front of a message always changes its CRC, which is what the preset is for |
| `Crc32s.ShortMessages` | bochs/crc.cc:53-65 | the CRC of no bytes is 0, of the byte 0 it is 0xb1f7404b, of the byte 1 it is 0xb5365dfc |
| `Crc32s.ResidueIsConstant` | bochs/crc.cc:53-65 | the CRC of a message followed by its own big-endian CRC is 0x38fb2284 for every message |
| `Crc32s.PackBigEndian` | bochs/crc.cc:61-64 | the bits of a word's four bytes, most significant first, are the bits of the word |
| `Crc32s.Crc32.Entry` | bochs/crc.cc:47-48 | the inner loop computes eight shifts of the index in the top byte |
| `Crc32s.Crc32.InitCrc32` | bochs/crc.cc:41-51 | all 256 entries are complete after one build |
| `Crc32s.Crc32.Turn` | bochs/crc.cc:62-63 | one turn of the loop with the array access is eight serial steps |
| `Crc32s.Crc32.Crc` | bochs/crc.cc:53-65 | for every buffer the result is the serial CRC-32, preset to ones and complemented; over any sequence of calls the table is built exactly once and every call reads the complete table |
| `BiosSums.Bios.GetOffset` | bochs/bios/biossums.c:334-351 | for any offset, the next header of the kind behind the 16-byte boundary it is rounded up to, or -1 exactly when there is none |
| `BiosSums.SignatureInNumbers` | bochs/bios/biossums.c:338-350 | headers are the four signature bytes at the 16-byte boundaries from 16 to 65520 |
| `BiosSums.ChecksInNumbers` | bochs/bios/biossums.c:422-445 | the bounds and fields that each kind's checks demand, in numbers |
| `BiosSums.Bios.CalcValue` | bochs/bios/biossums.c:422-445 | a value exactly when all checks pass, and with it in the checksum's place the region sums to 0 mod 256 |
| `BiosSums.Bios.SumRegion` | bochs/bios/biossums.c:323-328 | the byte-wide sum of a region without its checksum byte |
| `BiosSums.Bios.Checked` | bochs/bios/biossums.c:354-358 | the bound checked before the byte is read never refuses a header that the others accept |
| `BiosSums.Bios.FixKind` | bochs/bios/biossums.c:130-150 | a header found exactly once gets the balancing byte, none or several leave the image alone, and a failed check stops before anything is written |
| `BiosSums.Bios.FixImage` | bochs/bios/biossums.c:288-311 | only the last byte changes and the whole image sums to 0 mod 256 |
| `BiosSums.Bios.Run` | bochs/bios/biossums.c:130-255 | a completed run goes through the kinds in order and leaves the whole image summing to 0 mod 256; a run stops only at a header that fails its checks |
| `BiosSums.RegionsBalance` | bochs/bios/biossums.c:130-255 | at the end a header found exactly once still has the checksum it needs, unless the checksum of a kind dealt with later lies in its region |
| `BiosSums.RegionsSumToZero` | bochs/bios/biossums.c:130-255 | then its region sums to 0 mod 256 if it reaches its own checksum byte |
| `BiosSums.Pci32InNumbers` | bochs/bios/biossums.c:130-150 | after a completed run on an image with _32_ at exactly one boundary off: the bytes off to off + 16 * (byte 9) with the checksum at off + 10 sum to 0 mod 256 unless a later kind's checksum is inside, only that byte may have been written for it, and nothing if the signature is at no boundary or several |
| `BiosSums.MpInNumbers` | bochs/bios/biossums.c:153-173 | the same for _MP_: length 16 * (byte 8), checksum at 10 |
| `BiosSums.PcmpInNumbers` | bochs/bios/biossums.c:176-196 | the same for PCMP: length little-endian at 4, checksum at 7 |
| `BiosSums.PirInNumbers` | bochs/bios/biossums.c:199-219 | the same for $PIR: length little-endian at 6, checksum at 31 |
| `BiosSums.PnpInNumbers` | bochs/bios/biossums.c:222-242 | the same for $PnP: length byte 5, checksum at 8 |
| `BiosSums.ImageInNumbers` | bochs/bios/biossums.c:244-255 | after the five kinds the last of the 65536 bytes alone is written, and they sum to 0 mod 256 |
| `BiosSums.WriteKeepsHeaders` | bochs/bios/biossums.c:361-365 | writing a checksum neither creates nor destroys a signature at a 16-byte boundary, of any kind |
| `BiosSums.WriteKeepsLengths` | bochs/bios/biossums.c:361-365 | writing a checksum changes no header's region length |
| `BiosSums.HeadersStay` | bochs/bios/biossums.c:130-242 | over the whole run the headers and their region lengths stay as they were |
| `BiosSums.BytesStay` | bochs/bios/biossums.c:130-242 | bytes that are no later kind's checksum stay as the kind left them |
| `BiosSums.OwnByteStays` | bochs/bios/biossums.c:130-255 | no two kinds write the same byte, so a checksum stays as its own kind left it |
| `BiosSums.ChangesNothingIffBalanced` | bochs/bios/biossums.c:130-255 | a completed run changes nothing if and only if every header found once balances and the whole image sums to 0 mod 256 |
| `BiosSums.CompletedIsBalanced` | bochs/bios/biossums.c:130-255 | a completed run leaves every header found once balanced if no region holds the checksum of a kind dealt with later |
| `BiosSums.SecondRunPasses` | bochs/bios/biossums.c:314-445 | on the output of a completed run every check passes again, those of PCMP headers if and only if their extension fields are clear |
| `BiosSums.ExtensionsStayClear` | bochs/bios/biossums.c:432-436 | they are clear if no later kind's checksum falls into them |
| `BiosSums.ClashingImagePasses` | bochs/bios/biossums.c:130-255 | an image with disjoint regions on which a first run fails no check |
| `BiosSums.ClashingImageStopsSecondRun` | bochs/bios/biossums.c:432-436 | that run writes 197 into an extension field of the PCMP header, and a second run stops there |
| `BiosSums.Bios.RunTwice` | bochs/bios/biossums.c:130-255 | the program run on its own output completes and changes nothing if and only if the output balances and no extension field is set; if no region holds a later kind's checksum the image never changes |
| `SymbolIndexes.InsertKeepsIndex` | bochs/bx_debug/symbols.cc:201-205 | inserting keeps the set sorted and holding exactly the first symbol of every class of equal keys |
| `SymbolIndexes.OrdersAreStrictWeak` | bochs/bx_debug/symbols.cc:104-118 | both comparisons are strict weak orders, as the ordered sets demand |
| `SymbolIndexes.FirstDifferenceDecides` | bochs/bx_debug/symbols.cc:112-118 | of two names the one with the smaller byte where they first differ comes first |
| `SymbolIndexes.PrefixComesFirst` | bochs/bx_debug/symbols.cc:112-118 | a name comes after its proper prefixes |
| `SymbolIndexes.FirstsOnly` | bochs/bx_debug/symbols.cc:201-205 | the sets speak of the first symbol added at each address and under each name |
| `SymbolIndexes.Context.AddSymbol` | bochs/bx_debug/symbols.cc:201-205 | both indexes stay in agreement with the list of all symbols added |
| `SymbolIndexes.Context.AddressLookup` | bochs/bx_debug/symbols.cc:170-186 | a lookup succeeds exactly when some symbol is at or below the address and some symbol is above it, and then returns the first symbol added at the greatest address not above |
| `SymbolIndexes.Context.NameLookup` | bochs/bx_debug/symbols.cc:188-199 | a lookup returns the first symbol added under the name, and nothing exactly when there is none |
| `SymbolIndexes.PrefixesAreConsecutive` | bochs/bx_debug/symbols.cc:381-386 | a name between a prefix and a name that has it has it too |
| `SymbolIndexes.MatchesAreARange` | bochs/bx_debug/symbols.cc:381-386 | the names that have a prefix are exactly a range that starts at the prefix's lower bound |
| `SymbolIndexes.NamesInSet` | bochs/bx_debug/symbols.cc:112-118 | the set by name holds exactly the first symbol added under each name |
| `SymbolIndexes.Context.WalkPrefix` | bochs/bx_debug/symbols.cc:380-392 | the walk lists exactly the first symbols added under the names that begin with the prefix, in increasing name order |

## Left out

- PcSystems.PcSystem.TickN: ticks asked for are below 2^63 and the clock stays below 2^63, as the 64-bit table needs; a callback that itself calls `tickn` is not modelled, nor `getNumCpuTicksLeftNextEvent`.
- PcSystems.PcSystem.Run: the number of moves of a callback is fixed when it starts (later ones may do nothing); calls that stop or slow the null timer, or name a slot past the table's 64, do nothing.
- PcSystems.PcSystem.ActivateTimerTicks: not for slot 0 as a one-shot timer or with a period beyond 0xffffffff, nor for slots past the table's 64, where the source writes outside it.
- PcSystems.PcSystem.DeactivateTimer: not for slot 0, nor for slots past the table.
- PcSystems.PcSystem.UnregisterTimer: not for slots past the table.
- PcSystems.PcSystem.SetTimerParam: not for slots past the table.
- PcSystems.PcSystem.constructor: the null timer's callback, which only prints, is the absent callback and leaves no trace; the 32-character timer names are left out.
- TimerRuns.FiresAsAnnounced: speaks of timers with a callback; a slot without one goes off unseen.
- UsecClocks.SequentialClock.TimeUsecSequential: the current time is a parameter that does not go back; the division of ticks by `m_ips` in floating point is left out, as in `register_timer` and `activate_timer`.
- SmpLoops.Simulate: what a trace calls and reports is a parameter, with its number of calls fixed; the pass after a long jump out of a trace charges that processor like any other pass, and the request to stop is the end of the list.
- RcuLists.ReaderVisitsTheListItFound: each store is one atomic step and steps are seen in program order, since the barriers are commented out in the source; a weaker memory is not modelled.
- TailQueues.TailQueue.Remove: the position of an element is a ghost argument; `QLIST_REMOVE`, `QSLIST_*` and the other `QLIST_*` macros would only add easy members.
- SimpleQueues.SimpleQueue.Last: the offset arithmetic from the tail pointer back to its entry is the cell itself.
- FrameBitmaps.FrameBitmap.FirstFrame: the number of frames is a multiple of 32, as 16 MB has it; falling off the end is `None`.
- Pagings.Kernel.constructor: the identity map of the boot is a run of mappings through the kernel directory; that the frames it gets are those of the same number is not claimed, and page 0 with its frame 0 counts as unmapped.
- Pagings.Kernel.AllocFrame: `free_frame` is left out (it hands a frame number to a function that takes an address).
- Pagings.Kernel.CloneTable: directories and tables are numbered in the order of their allocation instead of lying in mapped memory, and clearing a new table clears that table only.
- Pagings.Kernel.RunBeside: speaks of runs without the panic; which free frame a newly mapped page gets, and so what it shows at first, depends on what others have allocated.
- Pagings.Kernel.WriteWord: the present bit decides, the write and user bits do not; CR0, CR3 and the TLB are left out.
- Terminals.Monitor.Put: `char` is signed, as on the target; the port writes of `move_cursor` are left out.
- Crc32s.Crc32.Crc: the buffer is a sequence of bytes that holds at least `len` of them.
- BiosSums.Bios.Run: reading and writing the file, printing, and the `-pad` mode that changes nothing are left out; a failed check ends the run without writing the file back.
- SymbolIndexes.Context.AddressLookup: stepping back from the first element of the set, which the library leaves undefined, counts as finding nothing.
- SymbolIndexes.Context.WalkPrefix: names compare byte by byte, as `strcoll` does in the C locale; quotes are trimmed by the caller; the table of contexts, file parsing and printing are left out.
- Saving and restoring timers, reset, A20 and the rest of the PC system: no arithmetic or order to get wrong.
- The tutorial's heap: its text does not do what it says (a merged hole's footer is not rewritten, rounding keeps one bit), so there is nothing to prove of it.
- Interrupts, descriptor tables, stack switching and the other assembly of the tutorial: hardware effects.
- Configuration, plugins, logging, threads, `ltdl.c`, breakpoints and the disassembler: input, output and foreign calls.
