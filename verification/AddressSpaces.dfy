/**
 What address spaces promise: each directory is a space of its own whose pages are copied
 at a fork, except that the tables of the kernel directory (space 0) are shared. There are
 no frames, no page tables and no allocator here.
 */
module AddressSpaces {

  /** The 1024 words of a page. */
  type Contents = seq<bv32>

  /** Which of the 1024 tables exist, which of them are the kernel's own, and the pages mapped. */
  datatype Space = Space(present: set<nat>, linked: set<nat>, pages: map<(nat, nat), Contents>)

  datatype Step =
    | Forked(d: nat)
    | Wrote(d: nat, i: nat, j: nat, o: nat, v: bv32)
    | Mapped(d: nat, i: nat, j: nat, found: Contents)

  predicate Shares(a: seq<Space>, d: nat, e: nat, i: nat)
    requires d < |a| && e < |a|
  {
    e == d || (i in a[d].linked && i in a[e].linked)
  }

  /** Page (i, j) as seen through directory d becomes `page`, wherever that table is shared. */
  function SetPage(a: seq<Space>, d: nat, i: nat, j: nat, page: Contents): (r: seq<Space>)
    requires d < |a|
    ensures |r| == |a|
  {
    seq(|a|, e requires 0 <= e < |a| =>
      if Shares(a, d, e, i) then a[e].(pages := a[e].pages[(i, j) := page]) else a[e])
  }

  /** Directory d with a new table in slot i; the kernel's own tables are the ones that later forks link. */
  function WithTable(x: Space, d: nat, i: nat): Space {
    x.(present := x.present + {i}, linked := if d == 0 then x.linked + {i} else x.linked)
  }

  function After(a: seq<Space>, s: Step): (r: seq<Space>)
    ensures |r| >= |a|
  {
    match s
    case Forked(d) => if d < |a| then a + [a[d]] else a
    case Wrote(d, i, j, o, v) =>
      if d < |a| && (i, j) in a[d].pages && o < |a[d].pages[(i, j)]| then
        SetPage(a, d, i, j, a[d].pages[(i, j)][o := v])
      else a
    case Mapped(d, i, j, found) =>
      if d < |a| && (i, j) !in a[d].pages then
        SetPage(if i in a[d].present then a else a[d := WithTable(a[d], d, i)], d, i, j, found)
      else a
  }

  function AfterAll(a: seq<Space>, steps: seq<Step>): (r: seq<Space>)
    ensures |r| >= |a|
  {
    if steps == [] then a else After(AfterAll(a, steps[..|steps| - 1]), steps[|steps| - 1])
  }

  // ---------- what a process can rely on ----------

  predicate Through(s: Step, d: nat) {
    match s
    case Forked(_) => false
    case Wrote(e, _, _, _, _) => e == d
    case Mapped(e, _, _, _) => e == d
  }

  /** Space x shows the pages of its linked tables as the kernel's space does. */
  ghost predicate Agrees(x: Space, kernel: Space) {
    && x.linked <= kernel.linked
    && x.linked <= x.present
    && (forall i, j :: (i, j) in x.pages ==> i in x.present)
    && (forall i, j :: i in x.linked ==> ((i, j) in x.pages <==> (i, j) in kernel.pages))
    && (forall i, j :: i in x.linked && (i, j) in x.pages ==> x.pages[(i, j)] == kernel.pages[(i, j)])
  }

  /** Shared tables show the same pages everywhere; the kernel's own tables are all linked. */
  ghost predicate Coherent(a: seq<Space>) {
    && a != []
    && a[0].linked == a[0].present
    && (forall d :: 0 <= d < |a| ==> Agrees(a[d], a[0]))
  }

  lemma {:induction false} StaysCoherent(a: seq<Space>, steps: seq<Step>)
    requires Coherent(a)
    ensures Coherent(AfterAll(a, steps))
  {
    if steps != [] {
      StaysCoherent(a, steps[..|steps| - 1]);
      StepKeepsCoherent(AfterAll(a, steps[..|steps| - 1]), steps[|steps| - 1]);
    }
  }

  lemma StepKeepsCoherent(a: seq<Space>, s: Step)
    requires Coherent(a)
    ensures Coherent(After(a, s))
  {
    var b := After(a, s);
    forall d | 0 <= d < |b|
      ensures Agrees(b[d], b[0])
    {
      assert Agrees(a[0], a[0]);
      assert d < |a| ==> Agrees(a[d], a[0]);
    }
  }

  /** Spaces that link the same table see the same pages in it, after any run. */
  lemma SharedTablesAgree(a: seq<Space>, steps: seq<Step>, d: nat, e: nat, i: nat, j: nat)
    requires Coherent(a)
    requires d < |AfterAll(a, steps)| && e < |AfterAll(a, steps)|
    requires i in AfterAll(a, steps)[d].linked && i in AfterAll(a, steps)[e].linked
    ensures var x, y := AfterAll(a, steps)[d], AfterAll(a, steps)[e];
            && ((i, j) in x.pages <==> (i, j) in y.pages)
            && ((i, j) in x.pages ==> x.pages[(i, j)] == y.pages[(i, j)])
  {
    StaysCoherent(a, steps);
    var b := AfterAll(a, steps);
    assert Agrees(b[d], b[0]) && Agrees(b[e], b[0]);
  }

  /** A step through another directory leaves the pages of a space's own tables alone. */
  lemma StepElsewhere(a: seq<Space>, s: Step, d: nat, i: nat, j: nat)
    requires d < |a| && !Through(s, d) && i !in a[d].linked
    ensures After(a, s)[d].linked == a[d].linked && After(a, s)[d].present == a[d].present
    ensures (i, j) in After(a, s)[d].pages <==> (i, j) in a[d].pages
    ensures (i, j) in a[d].pages ==> After(a, s)[d].pages[(i, j)] == a[d].pages[(i, j)]
  {}

  /**
   Isolation: over any run in which nobody acts through directory d, every page of d's own
   tables keeps its contents.
   */
  lemma {:induction false} Isolation(a: seq<Space>, steps: seq<Step>, d: nat, i: nat, j: nat)
    requires d < |a| && i !in a[d].linked
    requires forall k :: 0 <= k < |steps| ==> !Through(steps[k], d)
    ensures AfterAll(a, steps)[d].linked == a[d].linked
    ensures (i, j) in AfterAll(a, steps)[d].pages <==> (i, j) in a[d].pages
    ensures (i, j) in a[d].pages ==> AfterAll(a, steps)[d].pages[(i, j)] == a[d].pages[(i, j)]
  {
    if steps != [] {
      var init := steps[..|steps| - 1];
      Isolation(a, init, d, i, j);
      StepElsewhere(AfterAll(a, init), steps[|steps| - 1], d, i, j);
    }
  }

  /** A forked space still shows the parent's pages of the moment of the fork, whatever others do after it. */
  lemma ForkIsASnapshot(a: seq<Space>, parent: nat, steps: seq<Step>, i: nat, j: nat)
    requires parent < |a| && i !in a[parent].linked
    requires forall k :: 0 <= k < |steps| ==> !Through(steps[k], |a|)
    ensures var child := AfterAll(After(a, Forked(parent)), steps)[|a|];
            && ((i, j) in child.pages <==> (i, j) in a[parent].pages)
            && ((i, j) in a[parent].pages ==> child.pages[(i, j)] == a[parent].pages[(i, j)])
  {
    Isolation(After(a, Forked(parent)), steps, |a|, i, j);
  }

  /** After a store the page holds the word stored, and is otherwise as before. */
  lemma StoreIsSeen(a: seq<Space>, d: nat, i: nat, j: nat, o: nat, v: bv32)
    requires d < |a| && (i, j) in a[d].pages && o < |a[d].pages[(i, j)]|
    ensures var page, page' := a[d].pages[(i, j)], After(a, Wrote(d, i, j, o, v))[d].pages[(i, j)];
            && |page'| == |page| && page'[o] == v
            && forall k :: 0 <= k < |page| && k != o ==> page'[k] == page[k]
  {}

  // ---------- what a process can notice ----------

  /** What is a directory's own: which tables it has and links, and the pages of the tables it does not link. */
  datatype Own = Own(present: set<nat>, linked: set<nat>, pages: map<(nat, nat), Contents>)

  function OwnOf(x: Space): Own {
    Own(x.present, x.linked, map p | p in x.pages && p.0 !in x.linked :: x.pages[p])
  }

  /** The steps that go through directory d, in order. */
  function Only(steps: seq<Step>, d: nat): (r: seq<Step>) {
    if steps == [] then [] else
      Only(steps[..|steps| - 1], d) + if Through(steps[|steps| - 1], d) then [steps[|steps| - 1]] else []
  }

  /** A step through another directory leaves what is d's own alone. */
  lemma OthersLeaveOwn(a: seq<Space>, s: Step, d: nat)
    requires Coherent(a) && d < |a| && !Through(s, d)
    ensures OwnOf(After(a, s)[d]) == OwnOf(a[d])
  {
    var x, y := a[d], After(a, s)[d];
    assert x.linked == y.linked && x.present == y.present;
    forall p: (nat, nat) | p.0 !in x.linked
      ensures p in x.pages <==> p in y.pages
      ensures p in x.pages ==> y.pages[p] == x.pages[p]
    {
      StepElsewhere(a, s, d, p.0, p.1);
    }
    hide OwnOf, After;
    EqualOwn(x, y);
  }

  /** What a step through directory d does to d's own space. */
  function Acted(x: Space, s: Step, d: nat): Space
    requires Through(s, d)
  {
    match s
    case Wrote(_, i, j, o, v) =>
      if (i, j) in x.pages && o < |x.pages[(i, j)]| then x.(pages := x.pages[(i, j) := x.pages[(i, j)][o := v]]) else x
    case Mapped(_, i, j, found) =>
      if (i, j) in x.pages then x else
        var y := if i in x.present then x else WithTable(x, d, i);
        y.(pages := y.pages[(i, j) := found])
  }

  lemma AfterThrough(a: seq<Space>, s: Step, d: nat)
    requires d < |a| && Through(s, d)
    ensures After(a, s)[d] == Acted(a[d], s, d)
  {}

  /** It depends, as far as d's own goes, on d's own only. */
  lemma OwnStep(x: Space, y: Space, s: Step, d: nat)
    requires OwnOf(x) == OwnOf(y) && Through(s, d)
    requires x.linked <= x.present && forall i, j :: (i, j) in x.pages || (i, j) in y.pages ==> i in x.present
    ensures OwnOf(Acted(x, s, d)) == OwnOf(Acted(y, s, d))
  {
    SameOwnPages(x, y);
    hide OwnOf;
    EqualOwn(Acted(x, s, d), Acted(y, s, d));
  }

  lemma EqualOwn(x: Space, y: Space)
    requires x.present == y.present && x.linked == y.linked
    requires forall p: (nat, nat) :: p.0 !in x.linked ==> (p in x.pages <==> p in y.pages)
    requires forall p: (nat, nat) :: p.0 !in x.linked && p in x.pages ==> x.pages[p] == y.pages[p]
    ensures OwnOf(x) == OwnOf(y)
  {
    assert OwnOf(x).pages == OwnOf(y).pages;
  }

  lemma SameOwnPages(x: Space, y: Space)
    requires OwnOf(x) == OwnOf(y)
    ensures x.present == y.present && x.linked == y.linked
    ensures forall p: (nat, nat) :: p.0 !in x.linked ==> (p in x.pages <==> p in y.pages)
    ensures forall p: (nat, nat) :: p.0 !in x.linked && p in x.pages ==> x.pages[p] == y.pages[p]
  {
    forall p: (nat, nat) | p.0 !in x.linked
      ensures p in x.pages <==> p in y.pages
      ensures p in x.pages ==> x.pages[p] == y.pages[p]
    {
      assert p in OwnOf(x).pages <==> p in OwnOf(y).pages;
    }
  }

  /**
   Non-interference: what is a directory's own at the end of a run is what it would be if
   nobody but the directory itself had acted.
   */
  lemma {:induction false} NonInterference(a: seq<Space>, steps: seq<Step>, d: nat)
    requires Coherent(a) && d < |a|
    ensures OwnOf(AfterAll(a, steps)[d]) == OwnOf(AfterAll(a, Only(steps, d))[d])
  {
    if steps != [] {
      var init, s := steps[..|steps| - 1], steps[|steps| - 1];
      NonInterference(a, init, d);
      StaysCoherent(a, init);
      StaysCoherent(a, Only(init, d));
      var b, c := AfterAll(a, init), AfterAll(a, Only(init, d));
      assert Agrees(b[d], b[0]) && Agrees(c[d], c[0]);
      hide After, Coherent, Through;
      if Through(s, d) {
        var only := Only(steps, d);
        assert only[..|only| - 1] == Only(init, d) && only[|only| - 1] == s;
        AfterThrough(b, s, d);
        AfterThrough(c, s, d);
        OwnStep(b[d], c[d], s, d);
      } else {
        assert Only(steps, d) == Only(init, d);
        OthersLeaveOwn(b, s, d);
      }
    }
  }
}
