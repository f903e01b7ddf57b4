/**
 Insertion at the head of a doubly linked list while readers walk it. The writer performs
 its stores one at a time in program order; between any two of them any reader may take
 a step. `list` records what has been published, newest first, and a reader records it
 when it reads the head: neither record is ever read by the steps themselves.
 */
module RcuLists {
  import opened Options

  /** The stores of one insertion. */
  datatype Op = SetPrev | SetNext | PatchPrev | Publish

  /** QLIST_INSERT_HEAD_RCU */
  const INSERT: seq<Op> := [SetPrev, SetNext, PatchPrev, Publish]

  /** A backward pointer: the address of the head's pointer or of a node's forward pointer. */
  datatype Place = InHead | InNode(node: nat)

  datatype Writer = Idle | Inserting(elm: nat, pc: nat)

  datatype Reader =
    | Waiting
    | Reading(v: Option<nat>, visited: seq<nat>, snapshot: seq<nat>)
    | Finished(visited: seq<nat>, snapshot: seq<nat>)

  datatype State = State(
    first: Option<nat>, next: map<nat, Option<nat>>, prev: map<nat, Place>,
    writer: Writer, readers: seq<Reader>, list: seq<nat>)

  datatype Action = Begin(elm: nat) | Store | Read(reader: nat)

  /** The forward pointer of a node; storage that was never written reads as an end of list. */
  function NextOf(next: map<nat, Option<nat>>, node: nat): Option<nat> {
    if node in next then next[node] else None
  }

  function Perform(s: State, elm: nat, op: Op): State {
    match op
    case SetPrev => s.(prev := s.prev[elm := InHead])
    case SetNext => s.(next := s.next[elm := s.first])
    case PatchPrev => if s.first.Some? then s.(prev := s.prev[s.first.value := InNode(elm)]) else s
    case Publish => s.(first := Some(elm), list := [elm] + s.list)
  }

  /** One step of QLIST_FOREACH: read the head, or visit a node and read its forward pointer. */
  function Advance(s: State, r: Reader): Reader {
    match r
    case Waiting => Reading(s.first, [], s.list)
    case Reading(v, visited, snapshot) =>
      if v.None? then Finished(visited, snapshot)
      else Reading(NextOf(s.next, v.value), visited + [v.value], snapshot)
    case Finished(_, _) => r
  }

  /** The step of the scheduled party; a party that cannot move leaves the state alone. */
  function Step(program: seq<Op>, s: State, a: Action): State {
    match a
    case Begin(elm) =>
      if s.writer.Idle? && elm !in s.list then s.(writer := Inserting(elm, 0)) else s
    case Store =>
      if s.writer.Idle? then s
      else if s.writer.pc < |program| then
        Perform(s, s.writer.elm, program[s.writer.pc]).(writer := Inserting(s.writer.elm, s.writer.pc + 1))
      else s.(writer := Idle)
    case Read(i) =>
      if i < |s.readers| then s.(readers := s.readers[i := Advance(s, s.readers[i])]) else s
  }

  function Execute(program: seq<Op>, s: State, schedule: seq<Action>): State {
    if schedule == [] then s else
      Step(program, Execute(program, s, schedule[..|schedule| - 1]), schedule[|schedule| - 1])
  }

  function Start(readers: nat): State {
    State(None, map[], map[], Idle, seq(readers, _ => Waiting), [])
  }

  // ---------- readers ----------

  /** The forward pointers lead from `from` along exactly the nodes of `path` to the end. */
  predicate Leads(next: map<nat, Option<nat>>, from: Option<nat>, path: seq<nat>)
    decreases |path|
  {
    if path == [] then from.None?
    else from == Some(path[0]) && Leads(next, NextOf(next, path[0]), path[1..])
  }

  /** The program links the element at position q and publishes it at position p, and does each only there. */
  predicate Stores(program: seq<Op>, q: nat, p: nat) {
    && q < |program| && p < |program|
    && (forall k :: 0 <= k < |program| ==> (program[k] == SetNext <==> k == q) && (program[k] == Publish <==> k == p))
  }

  predicate ReaderOnTrack(s: State, r: Reader) {
    match r
    case Waiting => true
    case Reading(v, visited, snapshot) =>
      && |visited| <= |snapshot| && visited == snapshot[..|visited|]
      && Leads(s.next, v, snapshot[|visited|..])
      && (forall n :: n in snapshot ==> n in s.list)
      && Distinct(snapshot)
    case Finished(visited, snapshot) => visited == snapshot && Distinct(snapshot)
  }

  predicate Distinct(s: seq<nat>) {
    forall i, j :: 0 <= i < j < |s| ==> s[i] != s[j]
  }

  predicate WriterOnTrack(program: seq<Op>, s: State) {
    s.writer.Inserting? ==>
      var done := program[..if s.writer.pc <= |program| then s.writer.pc else |program|];
      && s.writer.pc <= |program|
      && (Publish in done <==> s.writer.elm in s.list)
      && (Publish !in done && SetNext in done ==> NextOf(s.next, s.writer.elm) == s.first)
  }

  predicate OnTrack(program: seq<Op>, s: State) {
    && Leads(s.next, s.first, s.list)
    && Distinct(s.list)
    && WriterOnTrack(program, s)
    && (forall i :: 0 <= i < |s.readers| ==> ReaderOnTrack(s, s.readers[i]))
  }

  lemma {:induction false} LeadsIgnoresStrangers(next: map<nat, Option<nat>>, next': map<nat, Option<nat>>, from: Option<nat>, path: seq<nat>)
    requires Leads(next, from, path)
    requires forall n :: n in path ==> NextOf(next', n) == NextOf(next, n)
    ensures Leads(next', from, path)
    decreases |path|
  {
    if path != [] {
      LeadsIgnoresStrangers(next, next', NextOf(next, path[0]), path[1..]);
    }
  }

  lemma DoneSoFar(program: seq<Op>, q: nat, p: nat, pc: nat)
    requires Stores(program, q, p) && pc <= |program|
    ensures Publish in program[..pc] <==> p < pc
    ensures SetNext in program[..pc] <==> q < pc
  {
    if p < pc {
      assert program[..pc][p] == Publish;
    }
    if q < pc {
      assert program[..pc][q] == SetNext;
    }
  }

  lemma StoreKeepsReader(s: State, s': State, r: Reader)
    requires ReaderOnTrack(s, r)
    requires forall n :: n in s.list ==> n in s'.list && NextOf(s'.next, n) == NextOf(s.next, n)
    ensures ReaderOnTrack(s', r)
  {
    if r.Reading? {
      LeadsIgnoresStrangers(s.next, s'.next, r.v, r.snapshot[|r.visited|..]);
    }
  }

  lemma StoreKeepsTrack(program: seq<Op>, q: nat, p: nat, s: State)
    requires Stores(program, q, p) && q < p && OnTrack(program, s)
    requires s.writer.Inserting? && s.writer.pc < |program|
    ensures OnTrack(program, Step(program, s, Store))
  {
    hide ReaderOnTrack;
    var elm, pc := s.writer.elm, s.writer.pc;
    var s' := Step(program, s, Store);
    DoneSoFar(program, q, p, pc);
    DoneSoFar(program, q, p, pc + 1);
    LeadsIgnoresStrangers(s.next, s'.next, s.first, s.list);
    if pc == p {
      assert s'.list[1..] == s.list;
    }
    forall i | 0 <= i < |s'.readers|
      ensures ReaderOnTrack(s', s'.readers[i])
    {
      StoreKeepsReader(s, s', s.readers[i]);
    }
  }

  lemma ReadKeepsTrack(program: seq<Op>, s: State, i: nat)
    requires OnTrack(program, s) && i < |s.readers|
    ensures OnTrack(program, Step(program, s, Read(i)))
  {
    var r := s.readers[i];
    assert ReaderOnTrack(s, r);
    if r.Reading? && r.v.Some? {
      var rest := r.snapshot[|r.visited|..];
      assert rest[1..] == r.snapshot[|r.visited| + 1..];
    }
    if r.Waiting? {
      assert s.list[0..] == s.list;
    }
    assert ReaderOnTrack(s, Advance(s, r));
  }

  /**
   In every reachable state the list in memory is the published one, and every reader has
   seen a prefix of its snapshot.
   */
  lemma {:induction false} StaysOnTrack(program: seq<Op>, q: nat, p: nat, readers: nat, schedule: seq<Action>)
    requires Stores(program, q, p) && q < p
    ensures OnTrack(program, Execute(program, Start(readers), schedule))
  {
    hide ReaderOnTrack;
    if schedule != [] {
      var init, a := schedule[..|schedule| - 1], schedule[|schedule| - 1];
      StaysOnTrack(program, q, p, readers, init);
      var s := Execute(program, Start(readers), init);
      match a {
        case Begin(_) => BeginKeepsTrack(program, s, a.elm);
        case Store =>
          if s.writer.Inserting? && s.writer.pc < |program| {
            StoreKeepsTrack(program, q, p, s);
          } else {
            StopKeepsTrack(program, s);
          }
        case Read(i) =>
          if i < |s.readers| {
            ReadKeepsTrack(program, s, i);
          }
      }
    } else {
      StartIsOnTrack(program, readers);
    }
  }

  lemma StartIsOnTrack(program: seq<Op>, readers: nat)
    ensures OnTrack(program, Start(readers))
  {}

  lemma BeginKeepsTrack(program: seq<Op>, s: State, elm: nat)
    requires OnTrack(program, s)
    ensures OnTrack(program, Step(program, s, Begin(elm)))
  {}

  lemma StopKeepsTrack(program: seq<Op>, s: State)
    requires OnTrack(program, s) && (s.writer.Idle? || s.writer.pc >= |program|)
    ensures OnTrack(program, Step(program, s, Store))
  {}

  /** Reader i takes its snapshot at step k of the schedule. */
  predicate StartsAt(program: seq<Op>, readers: nat, schedule: seq<Action>, i: nat, k: nat) {
    && k < |schedule| && schedule[k] == Read(i) && i < readers
    && var s := Execute(program, Start(readers), schedule[..k]);
       && |s.readers| == readers && s.readers[i].Waiting?
  }

  lemma {:induction false} ReadersStay(program: seq<Op>, readers: nat, schedule: seq<Action>)
    ensures |Execute(program, Start(readers), schedule).readers| == readers
  {
    if schedule != [] {
      ReadersStay(program, readers, schedule[..|schedule| - 1]);
    }
  }

  lemma SnapshotIsTakenOnce(program: seq<Op>, s: State, a: Action, i: nat)
    requires i < |s.readers|
    ensures |Step(program, s, a).readers| == |s.readers|
    ensures var r, r' := s.readers[i], Step(program, s, a).readers[i];
            if r.Waiting? then (if a == Read(i) then !r'.Waiting? && r'.snapshot == s.list else r'.Waiting?)
            else !r'.Waiting? && r'.snapshot == r.snapshot
  {}

  /** A reader's snapshot is the list as it stood when the reader read the head. */
  lemma {:induction false} SnapshotIsTheListRead(program: seq<Op>, readers: nat, schedule: seq<Action>, i: nat) returns (k: nat)
    requires i < |Execute(program, Start(readers), schedule).readers|
    requires !Execute(program, Start(readers), schedule).readers[i].Waiting?
    ensures StartsAt(program, readers, schedule, i, k)
    ensures Execute(program, Start(readers), schedule).readers[i].snapshot == Execute(program, Start(readers), schedule[..k]).list
  {
    var init, a := schedule[..|schedule| - 1], schedule[|schedule| - 1];
    ReadersStay(program, readers, init);
    ReadersStay(program, readers, schedule);
    hide Step;
    var s := Execute(program, Start(readers), init);
    SnapshotIsTakenOnce(program, s, a, i);
    if s.readers[i].Waiting? {
      k := |init|;
    } else {
      k := SnapshotIsTheListRead(program, readers, init, i);
      assert init[..k] == schedule[..k];
    }
  }

  /**
   Linearizability of insertion for forward readers: under every schedule, a reader that
   has finished has visited exactly the list as it stood when the reader read the head.
   */
  lemma ReaderVisitsTheListItFound(readers: nat, schedule: seq<Action>, i: nat) returns (k: nat)
    requires i < |Execute(INSERT, Start(readers), schedule).readers|
    requires Execute(INSERT, Start(readers), schedule).readers[i].Finished?
    ensures StartsAt(INSERT, readers, schedule, i, k)
    ensures var found := Execute(INSERT, Start(readers), schedule[..k]);
            && Leads(found.next, found.first, found.list) && Distinct(found.list)
            && Execute(INSERT, Start(readers), schedule).readers[i].visited == found.list
  {
    ReadersStay(INSERT, readers, schedule);
    StaysOnTrack(INSERT, 1, 3, readers, schedule);
    k := SnapshotIsTheListRead(INSERT, readers, schedule, i);
    StaysOnTrack(INSERT, 1, 3, readers, schedule[..k]);
  }

  // ---------- progress ----------

  /** How often reader i is scheduled. */
  function Turns(schedule: seq<Action>, i: nat): nat {
    if schedule == [] then 0 else
      Turns(schedule[..|schedule| - 1], i) + (if schedule[|schedule| - 1] == Read(i) then 1 else 0)
  }

  /** Readers never wait for the writer: n turns are n steps of the walk. */
  lemma {:induction false} ReaderNeverWaits(s: State, schedule: seq<Action>, i: nat)
    requires OnTrack(INSERT, s) && i < |s.readers| && s.readers[i].Reading?
    ensures OnTrack(INSERT, Execute(INSERT, s, schedule)) && i < |Execute(INSERT, s, schedule).readers|
    ensures var r, r' := s.readers[i], Execute(INSERT, s, schedule).readers[i];
            && !r'.Waiting? && r'.snapshot == r.snapshot
            && (if |r.visited| + Turns(schedule, i) <= |r.snapshot|
                then r'.Reading? && |r'.visited| == |r.visited| + Turns(schedule, i)
                else r'.Finished?)
  {
    hide OnTrack;
    if schedule != [] {
      var init, a := schedule[..|schedule| - 1], schedule[|schedule| - 1];
      ReaderNeverWaits(s, init, i);
      OneStep(Execute(INSERT, s, init), a, i);
    } else {
      ReaderInRange(s, i);
    }
  }

  lemma ReaderInRange(s: State, i: nat)
    requires OnTrack(INSERT, s) && i < |s.readers| && s.readers[i].Reading?
    ensures |s.readers[i].visited| <= |s.readers[i].snapshot|
  {
    assert ReaderOnTrack(s, s.readers[i]);
  }

  lemma OneStep(s: State, a: Action, i: nat)
    requires OnTrack(INSERT, s) && i < |s.readers| && !s.readers[i].Waiting?
    ensures var s' := Step(INSERT, s, a);
            && OnTrack(INSERT, s') && i < |s'.readers|
            && (var r, r' := s.readers[i], s'.readers[i];
                if a != Read(i) || r.Finished? then r' == r
                else if |r.visited| < |r.snapshot| then r'.Reading? && |r'.visited| == |r.visited| + 1 && r'.snapshot == r.snapshot
                else r'.Finished? && r'.snapshot == r.snapshot)
  {
    assert ReaderOnTrack(s, s.readers[i]);
    match a {
      case Begin(elm) => BeginKeepsTrack(INSERT, s, elm);
      case Store =>
        if s.writer.Inserting? && s.writer.pc < |INSERT| {
          StoreKeepsTrack(INSERT, 1, 3, s);
        } else {
          StopKeepsTrack(INSERT, s);
        }
      case Read(j) =>
        if j < |s.readers| {
          ReadKeepsTrack(INSERT, s, j);
        }
    }
  }

  // ---------- backward pointers ----------

  /** The backward pointers of the list; the first one is briefly ahead of the head. */
  predicate Backed(s: State) {
    var early := s.writer.Inserting? && s.writer.pc == 3;
    && (s.list != [] ==> s.list[0] in s.prev && s.prev[s.list[0]] == if early then InNode(s.writer.elm) else InHead)
    && (forall k :: 1 <= k < |s.list| ==> s.list[k] in s.prev && s.prev[s.list[k]] == InNode(s.list[k - 1]))
    && (s.writer.Inserting? && 1 <= s.writer.pc <= 3 ==> s.writer.elm in s.prev && s.prev[s.writer.elm] == InHead)
    && (s.writer.Inserting? && s.writer.pc <= 3 ==> s.writer.elm !in s.list)
  }

  /** Whenever no insertion is under way the list is doubly linked, whatever the readers did meanwhile. */
  lemma {:induction false} StaysBacked(readers: nat, schedule: seq<Action>)
    ensures Backed(Execute(INSERT, Start(readers), schedule))
  {
    if schedule != [] {
      var init, a := schedule[..|schedule| - 1], schedule[|schedule| - 1];
      StaysBacked(readers, init);
      StaysOnTrack(INSERT, 1, 3, readers, init);
      StepKeepsBacked(Execute(INSERT, Start(readers), init), a);
    }
  }

  lemma StepKeepsBacked(s: State, a: Action)
    requires OnTrack(INSERT, s) && Backed(s)
    ensures Backed(Step(INSERT, s, a))
  {
    hide ReaderOnTrack;
  }

  // ---------- the order of the stores matters ----------

  lemma {:induction false} StoresSoFar(program: seq<Op>, q: nat, p: nat, s: State, n: nat)
    requires Stores(program, q, p) && n <= |program|
    requires s.writer.Inserting? && s.writer.pc == 0
    ensures var s' := Execute(program, s, seq(n, _ => Store));
            && s'.writer == Inserting(s.writer.elm, n) && s'.readers == s.readers
            && s'.first == (if p < n then Some(s.writer.elm) else s.first)
            && s'.list == (if p < n then [s.writer.elm] + s.list else s.list)
            && (n <= q ==> s'.next == s.next)
            && s'.next.Keys <= s.next.Keys + {s.writer.elm}
  {
    var stores := seq(n, _ => Store);
    if n > 0 {
      assert stores[..n - 1] == seq(n - 1, _ => Store);
      StoresSoFar(program, q, p, s, n - 1);
    }
  }

  lemma {:induction false} ExecuteConcat(program: seq<Op>, s: State, a: seq<Action>, b: seq<Action>)
    ensures Execute(program, s, a + b) == Execute(program, Execute(program, s, a), b)
  {
    if b == [] {
      assert a + b == a;
    } else {
      assert (a + b)[..|a + b| - 1] == a + b[..|b| - 1];
      ExecuteConcat(program, s, a, b[..|b| - 1]);
    }
  }

  lemma ExecuteOne(program: seq<Op>, s: State, a: Action)
    ensures Execute(program, s, [a]) == Step(program, s, a)
  {
    assert [a][..0] == [];
  }

  /** Node 1 inserted by the whole program, then node 2 by its first n stores. */
  lemma SecondInsertion(program: seq<Op>, q: nat, p: nat) returns (schedule: seq<Action>)
    requires Stores(program, q, p) && p < q
    ensures var s := Execute(program, Start(1), schedule);
            && s.readers == [Waiting] && s.first == Some(2) && s.list == [2, 1] && NextOf(s.next, 2).None?
  {
    hide Step;
    var s0 := Start(1);
    var first := [Begin(1)] + seq(|program|, _ => Store) + [Store];
    var s1 := InsertWhole(program, q, p, s0, first);
    var second := [Begin(2)] + seq(p + 1, _ => Store);
    ExecuteConcat(program, s0, first, second);
    ExecuteConcat(program, s1, [Begin(2)], seq(p + 1, _ => Store));
    ExecuteOne(program, s1, Begin(2));
    BeginSets(program, s1, 2);
    StoresSoFar(program, q, p, Step(program, s1, Begin(2)), p + 1);
    schedule := first + second;
  }

  lemma BeginSets(program: seq<Op>, s: State, elm: nat)
    requires s.writer.Idle? && elm !in s.list
    ensures Step(program, s, Begin(elm)) == s.(writer := Inserting(elm, 0))
  {}

  lemma InsertWhole(program: seq<Op>, q: nat, p: nat, s0: State, schedule: seq<Action>) returns (s1: State)
    requires Stores(program, q, p) && s0 == Start(1)
    requires schedule == [Begin(1)] + seq(|program|, _ => Store) + [Store]
    ensures s1 == Execute(program, s0, schedule)
    ensures s1.writer.Idle? && s1.readers == [Waiting] && s1.list == [1] && s1.next.Keys <= {1}
  {
    hide Step;
    var stores := seq(|program|, _ => Store);
    ExecuteConcat(program, s0, [Begin(1)] + stores, [Store]);
    ExecuteConcat(program, s0, [Begin(1)], stores);
    ExecuteOne(program, s0, Begin(1));
    BeginSets(program, s0, 1);
    StoresSoFar(program, q, p, Step(program, s0, Begin(1)), |program|);
    var s := Execute(program, s0, [Begin(1)] + stores);
    ExecuteOne(program, s, Store);
    StopSets(program, s);
    s1 := Execute(program, s0, schedule);
  }

  lemma StopSets(program: seq<Op>, s: State)
    requires s.writer.Inserting? && s.writer.pc >= |program|
    ensures Step(program, s, Store) == s.(writer := Idle)
  {}

  /** Every reader that finishes, under any schedule, has visited the list it found. */
  ghost predicate ReadersSeeWholeLists(program: seq<Op>) {
    forall readers: nat, schedule: seq<Action>, i: nat ::
      i < |Execute(program, Start(readers), schedule).readers| && Execute(program, Start(readers), schedule).readers[i].Finished? ==>
        Execute(program, Start(readers), schedule).readers[i].visited == Execute(program, Start(readers), schedule).readers[i].snapshot
  }

  /**
   Of all ways to order the stores of an insertion, readers are safe under exactly those
   that link the element before they publish it.
   */
  lemma LinkBeforePublishIsNecessaryAndSufficient(program: seq<Op>, q: nat, p: nat)
    requires Stores(program, q, p) && program[q] != program[p]
    ensures ReadersSeeWholeLists(program) <==> q < p
  {
    if q < p {
      forall readers: nat, schedule: seq<Action>, i: nat
        | i < |Execute(program, Start(readers), schedule).readers| && Execute(program, Start(readers), schedule).readers[i].Finished?
        ensures Execute(program, Start(readers), schedule).readers[i].visited == Execute(program, Start(readers), schedule).readers[i].snapshot
      {
        StaysOnTrack(program, q, p, readers, schedule);
        assert ReaderOnTrack(Execute(program, Start(readers), schedule), Execute(program, Start(readers), schedule).readers[i]);
      }
    } else {
      var schedule := ShortWalk(program, q, p);
      var r := Execute(program, Start(1), schedule).readers[0];
      assert |r.visited| != |r.snapshot|;
    }
  }

  /** A reader that comes between the two stores sees the new node and nothing behind it. */
  lemma ShortWalk(program: seq<Op>, q: nat, p: nat) returns (schedule: seq<Action>)
    requires Stores(program, q, p) && p < q
    ensures Execute(program, Start(1), schedule).readers == [Finished([2], [2, 1])]
  {
    var before := SecondInsertion(program, q, p);
    var s := Execute(program, Start(1), before);
    var read := [Read(0)];
    schedule := before + read + read + read;
    ExecuteConcat(program, Start(1), before + read + read, read);
    ExecuteConcat(program, Start(1), before + read, read);
    ExecuteConcat(program, Start(1), before, read);
    ExecuteOne(program, s, Read(0));
    var s1 := Step(program, s, Read(0));
    assert s1.readers == [Reading(Some(2), [], [2, 1])];
    ExecuteOne(program, s1, Read(0));
    var s2 := Step(program, s1, Read(0));
    var none: seq<nat> := [];
    assert none + [2] == [2];
    assert s2.readers == [Reading(None, [2], [2, 1])];
    ExecuteOne(program, s2, Read(0));
  }
}
