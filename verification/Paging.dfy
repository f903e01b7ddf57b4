/**
 Page directories, page tables and frames. Directories and tables are kept by number, in
 the order in which the kernel allocates them; number 0 of the directories is the kernel
 directory and number 0 of the tables is the null pointer. A table's number is also its
 physical page number. Physical memory is an array of frames.
 */
module Pagings {
  import opened Options
  import opened FrameBitmaps
  import opened AddressSpaces

  const ENTRIES: nat := 1024

  datatype Page = Page(present: bool, rw: bool, user: bool, accessed: bool, dirty: bool, frame: nat)

  const BLANK: Page := Page(false, false, false, false, false, 0)

  datatype Directory = Directory(tables: seq<nat>, physical: seq<nat>)

  type Tables = map<nat, seq<Page>>

  type Frames = set<nat>

  type Memory = seq<Contents>

  /** For frames, the table entry that maps them; for tables, the directory slot that holds them. */
  type Places = map<nat, (nat, nat)>

  /** The entry for a table at this physical page: present, writable, user. */
  function PhysicalEntry(t: nat): nat {
    t * 0x1000 + 7
  }

  /** The frame behind page (i, j) of a directory, or 0. */
  function FrameAt(tables: Tables, dir: Directory, i: nat, j: nat): nat {
    if i < |dir.tables| && dir.tables[i] in tables && j < |tables[dir.tables[i]]| then tables[dir.tables[i]][j].frame else 0
  }

  // ---------- well-formed paging structures ----------

  /** Every frame a table maps is in use, and is mapped by that entry of that table alone. */
  ghost predicate TableOk(t: nat, pages: seq<Page>, used: Frames, owner: Places) {
    && |pages| == ENTRIES
    && (forall j :: 0 <= j < ENTRIES && pages[j].frame == 0 ==> pages[j] == BLANK)
    && (forall j :: 0 <= j < ENTRIES && pages[j].frame != 0 ==>
          pages[j].present && pages[j].frame in used && pages[j].frame in owner && owner[pages[j].frame] == (t, j))
  }

  /**
   Slot i of directory d holds table t and physical entry p: it is empty, or leads to a
   table of its own, or to the kernel directory's table for that slot.
   */
  ghost predicate SlotFor(tables: Tables, kernels: nat, home: Places, d: nat, i: nat, t: nat, p: nat) {
    if t == 0 then p == 0
    else
      && t in tables && p == PhysicalEntry(t)
      && t in home && home[t].1 == i && (home[t].0 == d || (home[t].0 == 0 && kernels == t))
  }

  ghost predicate SlotOk(tables: Tables, dirs: seq<Directory>, home: Places, d: nat, i: nat)
    requires d < |dirs| && |dirs[d].tables| == |dirs[d].physical| == ENTRIES && i < ENTRIES && |dirs[0].tables| == ENTRIES
  {
    SlotFor(tables, dirs[0].tables[i], home, d, i, dirs[d].tables[i], dirs[d].physical[i])
  }

  ghost predicate DirectoriesShaped(dirs: seq<Directory>) {
    && dirs != []
    && (forall d :: 0 <= d < |dirs| ==> |dirs[d].tables| == |dirs[d].physical| == ENTRIES)
  }

  ghost predicate WellFormed(tables: Tables, dirs: seq<Directory>, used: Frames, owner: Places, home: Places)
    ensures WellFormed(tables, dirs, used, owner, home) ==> DirectoriesShaped(dirs)
  {
    && 0 !in tables
    && DirectoriesShaped(dirs)
    && (forall t :: t in tables ==> TableOk(t, tables[t], used, owner))
    && (forall d, i :: 0 <= d < |dirs| && 0 <= i < ENTRIES ==> SlotOk(tables, dirs, home, d, i))
  }

  // ---------- the spaces they stand for ----------

  ghost function SpaceOf(tables: Tables, kernel: Directory, dir: Directory, memory: Memory): Space
    requires |dir.tables| == |kernel.tables| == ENTRIES
  {
    Space((set i | 0 <= i < ENTRIES && dir.tables[i] != 0),
          (set i | 0 <= i < ENTRIES && dir.tables[i] != 0 && dir.tables[i] == kernel.tables[i]),
          PagesOf(tables, dir, memory))
  }

  ghost function PagesOf(tables: Tables, dir: Directory, memory: Memory): (r: map<(nat, nat), Contents>)
    ensures forall p :: p in r <==> p.0 < ENTRIES && p.1 < ENTRIES && 0 != FrameAt(tables, dir, p.0, p.1) < |memory|
    ensures forall p :: p in r ==> r[p] == memory[FrameAt(tables, dir, p.0, p.1)]
  {
    map i, j | 0 <= i < ENTRIES && 0 <= j < ENTRIES && 0 != FrameAt(tables, dir, i, j) < |memory| ::
      (i, j) := memory[FrameAt(tables, dir, i, j)]
  }

  /** Page (k, l) looks the same: unmapped in both, or mapped with the same contents. */
  ghost predicate Alike(tables: Tables, tables': Tables, dir: Directory, dir': Directory, m: Memory, m': Memory,
                        k: nat, l: nat) {
    var f, g := FrameAt(tables, dir, k, l), FrameAt(tables', dir', k, l);
    (0 != f < |m| <==> 0 != g < |m'|) && (0 != f < |m| ==> m'[g] == m[f])
  }

  lemma SamePages(tables: Tables, tables': Tables, dir: Directory, dir': Directory, m: Memory, m': Memory)
    requires forall k, l :: 0 <= k < ENTRIES && 0 <= l < ENTRIES ==> Alike(tables, tables', dir, dir', m, m', k, l)
    ensures PagesOf(tables', dir', m') == PagesOf(tables, dir, m)
  {
    hide FrameAt, PagesOf;
    var x, y := PagesOf(tables, dir, m), PagesOf(tables', dir', m');
    forall p: (nat, nat)
      ensures p in x <==> p in y
      ensures p in x && p in y ==> x[p] == y[p]
    {
      assert p.0 < ENTRIES && p.1 < ENTRIES ==> Alike(tables, tables', dir, dir', m, m', p.0, p.1);
    }
  }

  lemma OneMorePage(tables: Tables, tables': Tables, dir: Directory, memory: Memory, i: nat, j: nat, f: nat)
    requires i < ENTRIES && j < ENTRIES && 0 < f < |memory|
    requires forall k, l :: 0 <= k < ENTRIES && 0 <= l < ENTRIES ==>
               FrameAt(tables', dir, k, l) == if k == i && l == j then f else FrameAt(tables, dir, k, l)
    ensures PagesOf(tables', dir, memory) == PagesOf(tables, dir, memory)[(i, j) := memory[f]]
  {
    hide FrameAt, PagesOf;
  }

  ghost function SpacesOf(tables: Tables, dirs: seq<Directory>, memory: Memory): (a: seq<Space>)
    requires DirectoriesShaped(dirs)
    ensures |a| == |dirs|
  {
    seq(|dirs|, d requires 0 <= d < |dirs| => SpaceOf(tables, dirs[0], dirs[d], memory))
  }

  lemma PageOf(tables: Tables, dirs: seq<Directory>, memory: Memory, d: nat, i: nat, j: nat)
    requires DirectoriesShaped(dirs) && d < |dirs| && i < ENTRIES && j < ENTRIES
    ensures var f, x := FrameAt(tables, dirs[d], i, j), SpacesOf(tables, dirs, memory)[d];
            && ((i, j) in x.pages <==> 0 != f < |memory|)
            && (0 != f < |memory| ==> x.pages[(i, j)] == memory[f])
  {}

  /** A frame is mapped at one place: two directories that map it share the table it is in. */
  lemma OneMappingPerFrame(tables: Tables, dirs: seq<Directory>, used: Frames, owner: Places, home: Places,
                           d: nat, i: nat, j: nat, e: nat, i': nat, j': nat)
    requires WellFormed(tables, dirs, used, owner, home)
    requires d < |dirs| && e < |dirs| && i < ENTRIES && i' < ENTRIES && j < ENTRIES && j' < ENTRIES
    requires FrameAt(tables, dirs[d], i, j) != 0
    ensures FrameAt(tables, dirs[e], i', j') == FrameAt(tables, dirs[d], i, j) <==>
            i' == i && j' == j && dirs[e].tables[i] == dirs[d].tables[i]
    ensures dirs[e].tables[i] == dirs[d].tables[i] <==>
            e == d || (dirs[e].tables[i] == dirs[d].tables[i] == dirs[0].tables[i])
  {
    assert SlotOk(tables, dirs, home, d, i) && SlotOk(tables, dirs, home, e, i') && SlotOk(tables, dirs, home, e, i);
  }

  /** A store into a mapped frame is a store into that page of every space that shares it, and of no other. */
  lemma StoreRefines(tables: Tables, dirs: seq<Directory>, used: Frames, owner: Places, home: Places,
                     memory: Memory, d: nat, i: nat, j: nat, page: Contents)
    requires WellFormed(tables, dirs, used, owner, home)
    requires d < |dirs| && i < ENTRIES && j < ENTRIES && 0 != FrameAt(tables, dirs[d], i, j) < |memory|
    ensures SpacesOf(tables, dirs, memory[FrameAt(tables, dirs[d], i, j) := page])
         == SetPage(SpacesOf(tables, dirs, memory), d, i, j, page)
  {
    var f := FrameAt(tables, dirs[d], i, j);
    var a := SpacesOf(tables, dirs, memory);
    forall e | 0 <= e < |dirs|
      ensures SpaceOf(tables, dirs[0], dirs[e], memory[f := page]) == SetPage(a, d, i, j, page)[e]
    {
      forall i', j' | 0 <= i' < ENTRIES && 0 <= j' < ENTRIES
        ensures FrameAt(tables, dirs[e], i', j') == f <==> i' == i && j' == j && Shares(a, d, e, i)
      {
        OneMappingPerFrame(tables, dirs, used, owner, home, d, i, j, e, i', j');
        assert SlotOk(tables, dirs, home, d, i);
      }
      StoreInOneSpace(tables, dirs[0], dirs[e], memory, f, i, j, page, Shares(a, d, e, i));
    }
  }

  lemma StoreInOneSpace(tables: Tables, kernel: Directory, dir: Directory, memory: Memory, f: nat, i: nat, j: nat,
                        page: Contents, hit: bool)
    requires |dir.tables| == |kernel.tables| == ENTRIES && f < |memory| && i < ENTRIES && j < ENTRIES && f != 0
    requires forall i', j' :: 0 <= i' < ENTRIES && 0 <= j' < ENTRIES ==>
               (FrameAt(tables, dir, i', j') == f <==> i' == i && j' == j && hit)
    ensures var x := SpaceOf(tables, kernel, dir, memory);
            SpaceOf(tables, kernel, dir, memory[f := page]) == if hit then x.(pages := x.pages[(i, j) := page]) else x
  {
    hide FrameAt, PagesOf;
    var x, y := SpaceOf(tables, kernel, dir, memory), SpaceOf(tables, kernel, dir, memory[f := page]);
    if hit {
      assert y.pages == x.pages[(i, j) := page];
    } else {
      assert y.pages == x.pages;
    }
  }

  // ---------- the kernel ----------

  /** An index into a directory, a table or a page. */
  type Index = i: nat | i < ENTRIES

  /** What processes and the kernel ask for. */
  datatype Operation =
    | Fork(d: nat)
    | Write(d: nat, i: Index, j: Index, o: Index, v: bv32)
    | Map(d: nat, i: Index, j: Index, isKernel: bool, isWriteable: bool)

  /** The step on spaces that an operation takes; only the old contents of a newly mapped frame are not up to it. */
  predicate Does(op: Operation, s: Step) {
    match op
    case Fork(d) => s == Forked(d)
    case Write(d, i, j, o, v) => s == Wrote(d, i, j, o, v)
    case Map(d, i, j, _, _) => s.Mapped? && s.d == d && s.i == i && s.j == j
  }

  /** The operation loads its directory and stores or maps through it; a fork only reads. */
  predicate Acts(op: Operation, d: nat) {
    match op
    case Fork(_) => false
    case Write(e, _, _, _, _) => e == d
    case Map(e, _, _, _, _) => e == d
  }

  /** No operation of the run acts through directory d. */
  predicate Beside(ops: seq<Operation>, d: nat) {
    forall k :: 0 <= k < |ops| ==> !Acts(ops[k], d)
  }

  lemma ActsThrough(op: Operation, s: Step, d: nat)
    requires Does(op, s)
    ensures Through(s, d) <==> Acts(op, d)
  {}

  class Kernel {
    const bitmap: FrameBitmap
    const memory: array<Contents>
    var tables: Tables
    var dirs: seq<Directory>
    var brk: nat

    /** For a mapped frame, its one table entry. */
    ghost var owner: Places
    /** For a linked table, the directory and slot it was made for. */
    ghost var home: Places

    ghost function UsedFrames(): Frames
      requires bitmap.Valid()
      reads bitmap, bitmap.frames
    {
      set f | 0 <= f < bitmap.nframes && bitmap.Used(f)
    }

    ghost predicate MemoryOk()
      reads this, bitmap, bitmap.frames, memory
    {
      && bitmap.Valid() && bitmap.nframes == memory.Length && 0 < memory.Length <= 0x10_0000
      && bitmap.Used(0)
      && (forall f :: 0 <= f < memory.Length ==> |memory[f]| == ENTRIES)
    }

    ghost predicate Valid()
      reads this, bitmap, bitmap.frames, memory
    {
      && MemoryOk()
      && 0 < brk && (forall t :: t in tables ==> t < brk)
      && WellFormed(tables, dirs, UsedFrames(), owner, home)
    }

    ghost function Spaces(): seq<Space>
      requires DirectoriesShaped(dirs)
      reads this, memory
    {
      SpacesOf(tables, dirs, memory[..])
    }

    /** Every frame is in use. */
    ghost predicate Full()
      requires bitmap.Valid()
      reads bitmap, bitmap.frames
    {
      forall f :: 0 <= f < bitmap.nframes ==> bitmap.Used(f)
    }

    /** Paging at boot: an empty kernel directory over memory of which only frame 0 is claimed. */
    constructor (memory: array<Contents>)
      requires 0 < memory.Length <= 0x10_0000 && memory.Length % 32 == 0
      requires forall f :: 0 <= f < memory.Length ==> |memory[f]| == ENTRIES
      ensures Valid() && this.memory == memory && fresh(bitmap) && fresh(bitmap.frames)
      ensures Spaces() == [Space({}, {}, map[])]
    {
      var bits := new FrameBitmap(memory.Length / 32);
      bits.SetFrame(0);
      bitmap := bits;
      this.memory := memory;
      tables := map[];
      dirs := [Directory(seq(ENTRIES, _ => 0), seq(ENTRIES, _ => 0))];
      brk := 1;
      owner := map[];
      home := map[];
      new;
      NoTablesNoPages(dirs[0], memory[..]);
    }

    static lemma NoTablesNoPages(dir: Directory, memory: Memory)
      requires dir.tables == dir.physical == seq(ENTRIES, _ => 0)
      ensures SpacesOf(map[], [dir], memory) == [Space({}, {}, map[])]
    {
      var x := SpaceOf(map[], dir, dir, memory);
      assert x.present == {};
      assert x.linked == {};
      assert x.pages == map[];
      assert SpacesOf(map[], [dir], memory) == [x];
    }

    /** In every state of the kernel, shared tables show the same pages in every space. */
    lemma SpacesAreCoherent()
      requires Valid()
      ensures Coherent(Spaces())
    {
      hide PagesOf, TableOk;
      var a := Spaces();
      forall d | 0 <= d < |a|
        ensures Agrees(a[d], a[0])
      {
        SpaceAgrees(tables, dirs, UsedFrames(), owner, home, memory[..], d);
      }
    }

    static lemma SpaceAgrees(tables: Tables, dirs: seq<Directory>, used: Frames, owner: Places, home: Places,
                             memory: Memory, d: nat)
      requires WellFormed(tables, dirs, used, owner, home) && d < |dirs|
      ensures Agrees(SpaceOf(tables, dirs[0], dirs[d], memory), SpaceOf(tables, dirs[0], dirs[0], memory))
    {
      hide TableOk, SlotOk;
    }

    /** A page gets a frame that nothing uses yet; `false` is the panic for want of one. */
    method AllocFrame(page: Page, isKernel: bool, isWriteable: bool) returns (ok: bool, page': Page)
      requires MemoryOk()
      modifies bitmap.frames
      ensures MemoryOk()
      ensures page.frame != 0 ==> ok && page' == page && UsedFrames() == old(UsedFrames())
      ensures page.frame == 0 && ok ==>
                && page' == page.(present := true, rw := isWriteable, user := !isKernel, frame := page'.frame)
                && page'.frame !in old(UsedFrames()) && 0 < page'.frame < memory.Length
                && UsedFrames() == old(UsedFrames()) + {page'.frame}
                && (forall f :: 0 <= f < page'.frame ==> f in old(UsedFrames()))
      ensures !ok ==> UsedFrames() == old(UsedFrames()) && Full()
    {
      if page.frame != 0 {
        return true, page;
      }
      var idx := bitmap.FirstFrame();
      if idx.None? {
        return false, page;
      }
      bitmap.SetFrame(idx.value * 0x1000);
      return true, page.(present := true, rw := isWriteable, user := !isKernel, frame := idx.value);
    }

    /** 1024 words from one frame to another. */
    method CopyPagePhysical(src: nat, dst: nat)
      requires src / 0x1000 < memory.Length && dst / 0x1000 < memory.Length
      requires forall f :: 0 <= f < memory.Length ==> |memory[f]| == ENTRIES
      modifies memory
      ensures memory[..] == old(memory[..])[dst / 0x1000 := old(memory[src / 0x1000])]
    {
      var from, to := src / 0x1000, dst / 0x1000;
      for w := 0 to ENTRIES
        invariant |memory[to]| == ENTRIES
        invariant memory[..] == old(memory[..])[to := memory[to]]
        invariant memory[to][..w] == old(memory[from])[..w]
        invariant from == to ==> memory[to] == old(memory[to])
      {
        memory[to] := memory[to][w := memory[from][w]];
      }
      assert memory[to] == old(memory[from]) by {
        assert memory[to] == memory[to][..ENTRIES] && old(memory[from]) == old(memory[from])[..ENTRIES];
      }
    }

    // ---------- cloning ----------

    /** Entry j of a table has been copied into a frame of its own. */
    static ghost predicate EntryCloned(p: Page, q: Page, used: Frames, used': Frames, memory: Memory, memory': Memory) {
      if p.frame == 0 then q == BLANK
      else
        && q.frame !in used && q.frame in used' && 0 < q.frame < |memory'| && p.frame < |memory|
        && memory'[q.frame] == memory[p.frame]
        && q.present && q.user && q.rw == p.rw && q.accessed == p.accessed && q.dirty == p.dirty
    }

    static ghost predicate TableCloned(p: seq<Page>, q: seq<Page>, used: Frames, used': Frames, memory: Memory,
                                       memory': Memory) {
      |p| == |q| == ENTRIES && forall j :: 0 <= j < ENTRIES ==> EntryCloned(p[j], q[j], used, used', memory, memory')
    }

    /** Frames that are still free hold what they held before. */
    static ghost predicate FreeKept(used': Frames, memory: Memory, memory': Memory) {
      |memory| == |memory'| && forall f: nat :: f < |memory| && f !in used' ==> memory'[f] == memory[f]
    }

    /** What was in use before still is, with the same contents, and what is still free is untouched. */
    static ghost predicate Extends(used: Frames, used': Frames, memory: Memory, memory': Memory) {
      used <= used' && FreeKept(used', memory, memory') && forall f :: f in used && f < |memory| ==> memory'[f] == memory[f]
    }

    /** One entry: a new frame, the flags, and the data. */
    method CloneEntry(p: Page) returns (ok: bool, q: Page)
      requires MemoryOk() && p.frame in UsedFrames()
      modifies bitmap.frames, memory
      ensures MemoryOk() && Extends(old(UsedFrames()), UsedFrames(), old(memory[..]), memory[..])
      ensures ok ==> EntryCloned(p, q, old(UsedFrames()), UsedFrames(), old(memory[..]), memory[..])
      ensures UsedFrames() == old(UsedFrames()) + (if ok && p.frame != 0 then {q.frame} else {})
      ensures !ok ==> Full()
    {
      hide Extends;
      ghost var used, m := UsedFrames(), memory[..];
      ExtendsItself(used, m);
      q := BLANK;
      if p.frame == 0 {
        return true, q;
      }
      ok, q := AllocFrame(q, false, false);
      if !ok {
        return;
      }
      if p.present {
        q := q.(present := true);
      }
      if p.rw {
        q := q.(rw := true);
      }
      if p.user {
        q := q.(user := true);
      }
      if p.accessed {
        q := q.(accessed := true);
      }
      if p.dirty {
        q := q.(dirty := true);
      }
      CopyPagePhysical(p.frame * 0x1000, q.frame * 0x1000);
      NewFrameExtends(used, m, q.frame, m[p.frame]);
    }

    static lemma NewFrameExtends(used: Frames, m: Memory, f: nat, page: Contents)
      requires f < |m| && f !in used
      ensures Extends(used, used + {f}, m, m[f := page])
    {}

    static lemma ExtendsTransitively(used: Frames, used': Frames, used'': Frames, m: Memory, m': Memory, m'': Memory)
      requires Extends(used, used', m, m') && Extends(used', used'', m', m'')
      ensures Extends(used, used'', m, m'')
    {}

    /** Entries copied so far, over one more copy. */
    static lemma ClonedSoFar(src: seq<Page>, pages: seq<Page>, q: Page, j: nat,
                             used: Frames, used': Frames, used'': Frames, m: Memory, m': Memory, m'': Memory)
      requires |src| == |pages| == ENTRIES && j < ENTRIES
      requires forall k :: 0 <= k < j ==> EntryCloned(src[k], pages[k], used, used', m, m')
      requires Extends(used, used', m, m') && Extends(used', used'', m', m'')
      requires EntryCloned(src[j], q, used', used'', m', m'') && (src[j].frame != 0 ==> src[j].frame in used)
      ensures forall k :: 0 <= k <= j ==> EntryCloned(src[k], pages[j := q][k], used, used'', m, m'')
    {}

    /** A table under construction, over one more entry. */
    static lemma TableGrows(t: nat, pages: seq<Page>, j: nat, p: Page, q: Page, used: Frames, used': Frames, owner: Places)
      requires TableOk(t, pages, used, owner) && j < ENTRIES
      requires if p.frame == 0 then q == BLANK && used' == used else q.present && q.frame != 0 && q.frame !in used && used' == used + {q.frame}
      ensures TableOk(t, pages[j := q], used', if p.frame == 0 then owner else owner[q.frame := (t, j)])
    {}

    /** The rest of the structures does not notice a new frame in use. */
    static lemma OthersUnmoved(tables: Tables, dirs: seq<Directory>, used: Frames, owner: Places, home: Places,
                               f: nat, at: (nat, nat))
      requires WellFormed(tables, dirs, used, owner, home) && f !in used
      ensures WellFormed(tables, dirs, used + {f}, owner[f := at], home)
    {
      forall t | t in tables
        ensures TableOk(t, tables[t], used + {f}, owner[f := at])
      {
        assert TableOk(t, tables[t], used, owner);
      }
      forall d, i | 0 <= d < |dirs| && 0 <= i < ENTRIES
        ensures SlotOk(tables, dirs, home, d, i)
      {}
    }

    /** The body of the copying loop. */
    method CloneInto(src: nat, t: nat, j: nat, pages: seq<Page>) returns (ok: bool, q: Page)
      requires Valid() && src in tables && j < ENTRIES && TableOk(t, pages, UsedFrames(), owner)
      modifies this`owner, bitmap.frames, memory
      ensures Valid() && Extends(old(UsedFrames()), UsedFrames(), old(memory[..]), memory[..])
      ensures ok ==> TableOk(t, pages[j := q], UsedFrames(), owner)
      ensures ok ==> EntryCloned(tables[src][j], q, old(UsedFrames()), UsedFrames(), old(memory[..]), memory[..])
      ensures !ok ==> Full()
    {
      hide SlotOk, DirectoriesShaped;
      assert TableOk(src, tables[src], UsedFrames(), owner);
      ghost var used := UsedFrames();
      ghost var p := tables[src][j];
      ok, q := CloneEntry(tables[src][j]);
      if ok {
        TableGrows(t, pages, j, p, q, used, UsedFrames(), owner);
        if p.frame != 0 {
          OthersUnmoved(tables, dirs, used, owner, home, q.frame, (t, j));
          owner := owner[q.frame := (t, j)];
        }
      }
    }

    /** A copy of a table, or `None` for the panic. */
    method CloneTable(src: nat) returns (r: Option<nat>)
      requires Valid() && src in tables
      modifies this`tables, this`brk, this`owner, bitmap.frames, memory
      ensures Valid()
      ensures Extends(old(UsedFrames()), UsedFrames(), old(memory[..]), memory[..])
      ensures r.None? ==> tables == old(tables) && Full()
      ensures r.Some? ==>
                && r.value == old(brk) < brk && r.value in tables && |tables[r.value]| == ENTRIES
                && tables == old(tables)[r.value := tables[r.value]]
      ensures r.Some? ==>
                && src in tables
                && TableCloned(tables[src], tables[r.value], old(UsedFrames()), UsedFrames(), old(memory[..]), memory[..])
    {
      hide SlotOk, DirectoriesShaped, EntryCloned, Extends;
      ghost var used, m := UsedFrames(), memory[..];
      var t := brk;
      brk := brk + 1;
      var pages := seq(ENTRIES, _ => BLANK);
      ExtendsItself(used, m);
      for j := 0 to ENTRIES
        invariant Valid() && brk == t + 1 && tables == old(tables) && |pages| == ENTRIES
        invariant Extends(used, UsedFrames(), m, memory[..])
        invariant TableOk(t, pages, UsedFrames(), owner)
        invariant forall k :: 0 <= k < j ==> EntryCloned(tables[src][k], pages[k], used, UsedFrames(), m, memory[..])
      {
        ghost var used', m' := UsedFrames(), memory[..];
        var ok, q := CloneInto(src, t, j, pages);
        ExtendsTransitively(used, used', UsedFrames(), m, m', memory[..]);
        if !ok {
          return None;
        }
        ClonedSoFar(tables[src], pages, q, j, used, used', UsedFrames(), m, m', memory[..]);
        pages := pages[j := q];
      }
      AddTable(tables, dirs, UsedFrames(), owner, home, t, pages);
      tables := tables[t := pages];
      return Some(t);
    }

    static lemma NothingFreed(used: Frames, used': Frames, m: Memory, m': Memory)
      requires Extends(used, used', m, m')
      ensures used <= used' && FreeKept(used', m, m')
    {}

    static lemma ExtendsItself(used: Frames, m: Memory)
      ensures Extends(used, used, m, m)
    {}

    static lemma AddTable(tables: Tables, dirs: seq<Directory>, used: Frames, owner: Places, home: Places, t: nat,
                          pages: seq<Page>)
      requires WellFormed(tables, dirs, used, owner, home) && t !in tables && t != 0 && TableOk(t, pages, used, owner)
      ensures WellFormed(tables[t := pages], dirs, used, owner, home)
    {
      var tables' := tables[t := pages];
      forall d, i | 0 <= d < |dirs| && 0 <= i < ENTRIES
        ensures SlotOk(tables', dirs, home, d, i)
      {
        assert SlotOk(tables, dirs, home, d, i);
      }
    }

    // ---------- forking ----------

    /** A slot of the child: empty, linked, or a copy in a table that did not exist before. */
    static ghost predicate SlotCloned(before: Tables, tables: Tables, kernels: nat, st: nat, ct: nat,
                                      used: Frames, used': Frames, m: Memory, m': Memory) {
      if st == 0 then ct == 0
      else if st == kernels then ct == st
      else
        && ct != 0 && ct in tables && ct !in before && st in before
        && TableCloned(before[st], tables[ct], used, used', m, m')
    }

    /** The tables that existed before are still there, unchanged. */
    static ghost predicate Keeps(before: Tables, tables: Tables) {
      forall t :: t in before ==> t in tables && tables[t] == before[t]
    }

    /** A copy made from a later state is a copy of the earlier one, and stays one. */
    static lemma TableClonedBetween(p: seq<Page>, q: seq<Page>, used0: Frames, used: Frames, used': Frames,
                                    m0: Memory, m: Memory, m': Memory)
      requires TableCloned(p, q, used, used', m, m') && Extends(used0, used, m0, m)
      requires forall j :: 0 <= j < |p| && p[j].frame != 0 ==> p[j].frame in used0
      ensures TableCloned(p, q, used0, used', m0, m')
    {}

    static lemma TableClonedOnward(p: seq<Page>, q: seq<Page>, used0: Frames, used: Frames, used': Frames,
                                   m0: Memory, m: Memory, m': Memory)
      requires TableCloned(p, q, used0, used, m0, m) && Extends(used, used', m, m')
      ensures TableCloned(p, q, used0, used', m0, m')
    {}

    static lemma SlotClonedOnward(before: Tables, tables: Tables, tables': Tables, kernels: nat, st: nat, ct: nat,
                                  used0: Frames, used: Frames, used': Frames, m0: Memory, m: Memory, m': Memory)
      requires SlotCloned(before, tables, kernels, st, ct, used0, used, m0, m)
      requires Extends(used, used', m, m') && Keeps(tables, tables')
      ensures SlotCloned(before, tables', kernels, st, ct, used0, used', m0, m')
    {
      if st != 0 && st != kernels {
        TableClonedOnward(before[st], tables[ct], used0, used, used', m0, m, m');
      }
    }

    /** Homes of existing tables do not change. */
    static ghost predicate Settled(tables: Tables, home: Places, home': Places) {
      forall t :: t in tables && t in home ==> t in home' && home'[t] == home[t]
    }

    static lemma SlotForOnward(tables: Tables, tables': Tables, home: Places, home': Places,
                               kernels: nat, d: nat, i: nat, t: nat, p: nat)
      requires SlotFor(tables, kernels, home, d, i, t, p) && Keeps(tables, tables') && Settled(tables, home, home')
      ensures SlotFor(tables', kernels, home', d, i, t, p)
    {}

    static lemma Resettle(before: Tables, tables: Tables, dirs: seq<Directory>, used0: Frames, owner0: Places,
                          used: Frames, owner: Places, home: Places, home': Places)
      requires WellFormed(before, dirs, used0, owner0, home) && WellFormed(tables, dirs, used, owner, home)
      requires Settled(before, home, home')
      ensures WellFormed(tables, dirs, used, owner, home')
    {
      forall d, i | 0 <= d < |dirs| && 0 <= i < ENTRIES
        ensures SlotOk(tables, dirs, home', d, i)
      {
        assert SlotOk(before, dirs, home, d, i) && SlotOk(tables, dirs, home, d, i);
      }
    }

    /** The body of the loop over the slots of the parent directory. */
    method CloneSlot(src: nat, i: nat) returns (ok: bool, ct: nat, cp: nat)
      requires Valid() && src < |dirs| && i < ENTRIES
      modifies this`tables, this`brk, this`owner, this`home, bitmap.frames, memory
      ensures Valid() && Keeps(old(tables), tables) && Settled(old(tables), old(home), home)
      ensures Extends(old(UsedFrames()), UsedFrames(), old(memory[..]), memory[..])
      ensures ok ==> SlotFor(tables, dirs[0].tables[i], home, |dirs|, i, ct, cp)
      ensures ok ==> SlotCloned(old(tables), tables, dirs[0].tables[i], dirs[src].tables[i], ct,
                                old(UsedFrames()), UsedFrames(), old(memory[..]), memory[..])
      ensures !ok ==> Full()
    {
      ghost var before, owner0, used := tables, owner, UsedFrames();
      assert SlotOk(tables, dirs, home, src, i) && SlotOk(tables, dirs, home, 0, i);
      hide TableCloned, SlotOk;
      ExtendsItself(used, memory[..]);
      hide Extends;
      if dirs[src].tables[i] == 0 {
        return true, 0, 0;
      }
      if dirs[0].tables[i] == dirs[src].tables[i] {
        return true, dirs[src].tables[i], dirs[src].physical[i];
      }
      var r := CloneTable(dirs[src].tables[i]);
      if r.None? {
        return false, 0, 0;
      }
      ghost var home' := home[r.value := (|dirs|, i)];
      Resettle(before, tables, dirs, used, owner0, UsedFrames(), owner, home, home');
      home := home';
      return true, r.value, PhysicalEntry(r.value);
    }

    /** A new directory whose every slot is cloned from directory `src` becomes a copy of its space. */
    static lemma ForkRefines(before: Tables, tables: Tables, dirs: seq<Directory>, child: Directory, src: nat,
                             used0: Frames, owner0: Places, used: Frames, owner: Places,
                             home0: Places, home: Places, m0: Memory, m: Memory)
      requires src < |dirs| && |child.tables| == |child.physical| == ENTRIES
      requires WellFormed(before, dirs, used0, owner0, home0) && WellFormed(tables, dirs, used, owner, home)
      requires Keeps(before, tables) && Extends(used0, used, m0, m) && (forall f :: f in used ==> f < |m|)
      requires forall i :: 0 <= i < ENTRIES ==> SlotFor(tables, dirs[0].tables[i], home, |dirs|, i, child.tables[i], child.physical[i])
      requires forall i :: 0 <= i < ENTRIES ==>
                 SlotCloned(before, tables, dirs[0].tables[i], dirs[src].tables[i], child.tables[i], used0, used, m0, m)
      ensures WellFormed(tables, dirs + [child], used, owner, home)
      ensures SpacesOf(tables, dirs + [child], m) == After(SpacesOf(before, dirs, m0), Forked(src))
    {
      hide SlotOk, SlotFor, SlotCloned, TableOk, SpaceOf, Keeps, Extends;
      AddDirectory(tables, dirs, child, used, owner, home);
      var dirs' := dirs + [child];
      forall d | 0 <= d < |dirs|
        ensures SpaceOf(tables, dirs[0], dirs[d], m) == SpaceOf(before, dirs[0], dirs[d], m0)
      {
        SpaceKept(before, tables, dirs, used0, owner0, used, home0, m0, m, d);
      }
      ChildSpace(before, tables, dirs, child, src, used0, owner0, used, home0, m0, m);
      assert SpacesOf(tables, dirs', m) == SpacesOf(before, dirs, m0) + [SpacesOf(before, dirs, m0)[src]];
    }

    static lemma AddDirectory(tables: Tables, dirs: seq<Directory>, child: Directory, used: Frames, owner: Places,
                              home: Places)
      requires WellFormed(tables, dirs, used, owner, home) && |child.tables| == |child.physical| == ENTRIES
      requires forall i :: 0 <= i < ENTRIES ==> SlotFor(tables, dirs[0].tables[i], home, |dirs|, i, child.tables[i], child.physical[i])
      ensures WellFormed(tables, dirs + [child], used, owner, home)
    {
      hide SlotFor, TableOk;
      var dirs' := dirs + [child];
      forall d, i | 0 <= d < |dirs'| && 0 <= i < ENTRIES
        ensures SlotOk(tables, dirs', home, d, i)
      {
        assert d < |dirs| ==> SlotOk(tables, dirs, home, d, i);
      }
    }

    static lemma SpaceKept(before: Tables, tables: Tables, dirs: seq<Directory>, used0: Frames, owner0: Places,
                           used: Frames,
                           home0: Places, m0: Memory, m: Memory, d: nat)
      requires d < |dirs| && WellFormed(before, dirs, used0, owner0, home0)
      requires 0 !in tables
      requires Keeps(before, tables) && Extends(used0, used, m0, m) && (forall f :: f in used ==> f < |m|)
      ensures SpaceOf(tables, dirs[0], dirs[d], m) == SpaceOf(before, dirs[0], dirs[d], m0)
    {
      hide PagesOf;
      forall i, j | 0 <= i < ENTRIES && 0 <= j < ENTRIES
        ensures Alike(before, tables, dirs[d], dirs[d], m0, m, i, j)
      {
        assert SlotOk(before, dirs, home0, d, i);
      }
      hide Alike, WellFormed, Extends, Keeps;
      SamePages(before, tables, dirs[d], dirs[d], m0, m);
    }

    static lemma ChildSpace(before: Tables, tables: Tables, dirs: seq<Directory>, child: Directory, src: nat,
                            used0: Frames, owner0: Places, used: Frames,
                            home0: Places, m0: Memory, m: Memory)
      requires src < |dirs| && |child.tables| == |child.physical| == ENTRIES
      requires WellFormed(before, dirs, used0, owner0, home0)
      requires 0 !in tables
      requires Keeps(before, tables) && Extends(used0, used, m0, m) && (forall f :: f in used ==> f < |m|)
      requires forall i :: 0 <= i < ENTRIES ==>
                 SlotCloned(before, tables, dirs[0].tables[i], dirs[src].tables[i], child.tables[i], used0, used, m0, m)
      ensures SpaceOf(tables, dirs[0], child, m) == SpaceOf(before, dirs[0], dirs[src], m0)
    {
      var x, y := SpaceOf(before, dirs[0], dirs[src], m0), SpaceOf(tables, dirs[0], child, m);
      forall i | 0 <= i < ENTRIES
        ensures child.tables[i] == 0 <==> dirs[src].tables[i] == 0
        ensures child.tables[i] == dirs[0].tables[i] <==> dirs[src].tables[i] == dirs[0].tables[i]
      {
        assert SlotOk(before, dirs, home0, src, i) && SlotOk(before, dirs, home0, 0, i);
        assert SlotCloned(before, tables, dirs[0].tables[i], dirs[src].tables[i], child.tables[i], used0, used, m0, m);
      }
      hide PagesOf, SlotCloned, WellFormed, Keeps, Extends, Alike;
      forall i, j | 0 <= i < ENTRIES && 0 <= j < ENTRIES
        ensures Alike(before, tables, dirs[src], child, m0, m, i, j)
      {
        PageCloned(before, tables, dirs, child, src, used0, owner0, used, home0, m0, m, i, j);
      }
      SamePages(before, tables, dirs[src], child, m0, m);
    }

    static lemma PageCloned(before: Tables, tables: Tables, dirs: seq<Directory>, child: Directory, src: nat,
                            used0: Frames, owner0: Places, used: Frames,
                            home0: Places, m0: Memory, m: Memory, i: nat, j: nat)
      requires src < |dirs| && |child.tables| == ENTRIES && i < ENTRIES && j < ENTRIES
      requires WellFormed(before, dirs, used0, owner0, home0)
      requires 0 !in tables
      requires Keeps(before, tables) && Extends(used0, used, m0, m) && (forall f :: f in used ==> f < |m|)
      requires SlotCloned(before, tables, dirs[0].tables[i], dirs[src].tables[i], child.tables[i], used0, used, m0, m)
      ensures Alike(before, tables, dirs[src], child, m0, m, i, j)
    {
      assert SlotOk(before, dirs, home0, src, i);
      var st, ct := dirs[src].tables[i], child.tables[i];
      if st != 0 {
        assert TableOk(st, before[st], used0, owner0);
        if st != dirs[0].tables[i] {
          assert EntryCloned(before[st][j], tables[ct][j], used0, used, m0, m);
        }
      }
    }

    /** A fork of directory `src`, or the panic. */
    method CloneDirectory(src: nat) returns (ok: bool)
      requires Valid() && src < |dirs|
      modifies this`tables, this`dirs, this`brk, this`owner, this`home, bitmap.frames, memory
      ensures Valid() && old(UsedFrames()) <= UsedFrames() && FreeKept(UsedFrames(), old(memory[..]), memory[..])
      ensures if ok then Spaces() == After(old(Spaces()), Forked(src)) else Full()
      ensures ok ==>
                && |dirs| == old(|dirs|) + 1 && dirs[..|dirs| - 1] == old(dirs) && Keeps(old(tables), tables)
                && forall i: nat :: i < 1024 ==>
                     TableForked(old(tables), tables, old(dirs[0].tables[i]), old(dirs[src].tables[i]), dirs[|dirs| - 1].tables[i])
    {
      hide SlotFor, SlotCloned, SlotOk, TableOk, SpaceOf, Keeps, Extends, FreeKept, Settled, TableForked;
      ghost var before, used0, owner0, home0, m0 := tables, UsedFrames(), owner, home, memory[..];
      var dir := Directory(seq(ENTRIES, _ => 0), seq(ENTRIES, _ => 0));
      ExtendsItself(used0, m0);
      NothingFreed(used0, used0, m0, m0);
      KeepsItself(before);
      for i := 0 to ENTRIES
        invariant Valid() && dirs == old(dirs) && |dir.tables| == |dir.physical| == ENTRIES
        invariant Keeps(before, tables) && Extends(used0, UsedFrames(), m0, memory[..])
        invariant used0 <= UsedFrames() && FreeKept(UsedFrames(), m0, memory[..])
        invariant forall k :: 0 <= k < i ==> SlotFor(tables, dirs[0].tables[k], home, |dirs|, k, dir.tables[k], dir.physical[k])
        invariant forall k :: 0 <= k < i ==>
                    SlotCloned(before, tables, dirs[0].tables[k], dirs[src].tables[k], dir.tables[k], used0, UsedFrames(), m0, memory[..])
      {
        ghost var tables1, home1, used1, m1 := tables, home, UsedFrames(), memory[..];
        var done, ct, cp := CloneSlot(src, i);
        ExtendsTransitively(used0, used1, UsedFrames(), m0, m1, memory[..]);
        NothingFreed(used0, UsedFrames(), m0, memory[..]);
        if !done {
          return false;
        }
        ghost var next := Directory(dir.tables[i := ct], dir.physical[i := cp]);
        SlotsOnward(before, tables1, tables, dirs, src, dir, next, i, home1, home, used0, used1, UsedFrames(), m0, m1, memory[..], owner0, home0);
        dir := Directory(dir.tables[i := ct], dir.physical[i := cp]);
      }
      ForkRefines(before, tables, dirs, dir, src, used0, owner0, UsedFrames(), owner, home0, home, m0, memory[..]);
      forall i: nat | i < 1024
        ensures TableForked(before, tables, dirs[0].tables[i], dirs[src].tables[i], dir.tables[i])
      {
        ForkedTables(before, tables, dirs, src, i, dir.tables[i], used0, owner0, UsedFrames(), home0, m0, memory[..]);
      }
      dirs := dirs + [dir];
      return true;
    }

    /** A slot of a child: the kernel's tables are linked, any other is copied, entry by entry, with its flags. */
    static ghost predicate TableForked(before: Tables, tables: Tables, kernels: nat, st: nat, ct: nat) {
      if st == 0 || st == kernels then ct == st
      else
        && st in before && ct in tables && ct !in before && |before[st]| == |tables[ct]| == 1024
        && forall j :: 0 <= j < 1024 ==> EntryForked(before[st][j], tables[ct][j])
    }

    /** The writable, accessed and dirty flags of the original; present and user, whatever it was. */
    static ghost predicate EntryForked(p: Page, q: Page) {
      if p.frame == 0 then q == Page(false, false, false, false, false, 0)
      else q == Page(true, p.rw, true, p.accessed, p.dirty, q.frame) && q.frame != 0 && q.frame != p.frame
    }

    static lemma ForkedTables(before: Tables, tables: Tables, dirs: seq<Directory>, src: nat, i: nat, ct: nat,
                              used0: Frames, owner0: Places, used: Frames, home0: Places, m0: Memory, m: Memory)
      requires src < |dirs| && i < ENTRIES && WellFormed(before, dirs, used0, owner0, home0)
      requires SlotCloned(before, tables, dirs[0].tables[i], dirs[src].tables[i], ct, used0, used, m0, m)
      ensures TableForked(before, tables, dirs[0].tables[i], dirs[src].tables[i], ct)
    {
      var st := dirs[src].tables[i];
      assert SlotOk(before, dirs, home0, src, i);
      if st != 0 && st != dirs[0].tables[i] {
        assert TableOk(st, before[st], used0, owner0);
        forall j | 0 <= j < 1024
          ensures EntryForked(before[st][j], tables[ct][j])
        {
          assert EntryCloned(before[st][j], tables[ct][j], used0, used, m0, m);
        }
      }
    }

    static lemma KeepsItself(tables: Tables)
      ensures Keeps(tables, tables)
    {}

    /** The slots cloned so far, and one more. */
    static lemma SlotsOnward(before: Tables, tables1: Tables, tables: Tables, dirs: seq<Directory>, src: nat,
                             dir: Directory, next: Directory, i: nat,
                             home1: Places, home: Places,
                             used0: Frames, used1: Frames, used: Frames, m0: Memory, m1: Memory, m: Memory,
                             owner0: Places, home0: Places)
      requires WellFormed(before, dirs, used0, owner0, home0) && src < |dirs| && i < ENTRIES
      requires |dir.tables| == |dir.physical| == |next.tables| == |next.physical| == ENTRIES
      requires next.tables == dir.tables[i := next.tables[i]] && next.physical == dir.physical[i := next.physical[i]]
      requires Keeps(before, tables1) && Keeps(tables1, tables) && Settled(tables1, home1, home)
      requires Extends(used0, used1, m0, m1) && Extends(used1, used, m1, m)
      requires forall k :: 0 <= k < i ==> SlotFor(tables1, dirs[0].tables[k], home1, |dirs|, k, dir.tables[k], dir.physical[k])
      requires forall k :: 0 <= k < i ==>
                 SlotCloned(before, tables1, dirs[0].tables[k], dirs[src].tables[k], dir.tables[k], used0, used1, m0, m1)
      requires SlotFor(tables, dirs[0].tables[i], home, |dirs|, i, next.tables[i], next.physical[i])
      requires SlotCloned(tables1, tables, dirs[0].tables[i], dirs[src].tables[i], next.tables[i], used1, used, m1, m)
      ensures Keeps(before, tables) && Extends(used0, used, m0, m)
      ensures forall k :: 0 <= k <= i ==> SlotFor(tables, dirs[0].tables[k], home, |dirs|, k, next.tables[k], next.physical[k])
      ensures forall k :: 0 <= k <= i ==>
                SlotCloned(before, tables, dirs[0].tables[k], dirs[src].tables[k], next.tables[k], used0, used, m0, m)
    {
      KeepsTransitively(before, tables1, tables);
      ExtendsTransitively(used0, used1, used, m0, m1, m);
      assert SlotOk(before, dirs, home0, src, i);
      NewSlotSinceStart(before, tables1, tables, dirs[0].tables[i], dirs[src].tables[i], next.tables[i], used0, used1, used, m0, m1, m, owner0);
      hide SlotFor, SlotCloned, Keeps, Extends, Settled, SlotOk;
      forall k | 0 <= k < i
        ensures SlotFor(tables, dirs[0].tables[k], home, |dirs|, k, next.tables[k], next.physical[k])
        ensures SlotCloned(before, tables, dirs[0].tables[k], dirs[src].tables[k], next.tables[k], used0, used, m0, m)
      {
        SlotForOnward(tables1, tables, home1, home, dirs[0].tables[k], |dirs|, k, dir.tables[k], dir.physical[k]);
        SlotClonedOnward(before, tables1, tables, dirs[0].tables[k], dirs[src].tables[k], dir.tables[k], used0, used1, used, m0, m1, m);
      }
    }

    static lemma KeepsTransitively(before: Tables, tables1: Tables, tables: Tables)
      requires Keeps(before, tables1) && Keeps(tables1, tables)
      ensures Keeps(before, tables)
    {}

    static lemma NewSlotSinceStart(before: Tables, tables1: Tables, tables: Tables, kernels: nat, st: nat, ct: nat,
                                   used0: Frames, used1: Frames, used: Frames, m0: Memory, m1: Memory, m: Memory,
                                   owner0: Places)
      requires SlotCloned(tables1, tables, kernels, st, ct, used1, used, m1, m)
      requires Keeps(before, tables1) && Extends(used0, used1, m0, m1)
      requires st != 0 ==> st in before && TableOk(st, before[st], used0, owner0)
      ensures SlotCloned(before, tables, kernels, st, ct, used0, used, m0, m)
    {
      if st != 0 && st != kernels {
        TableClonedBetween(before[st], tables[ct], used0, used1, used, m0, m1, m);
      }
    }

    // ---------- loads and stores ----------

    /** The frame the hardware finds by way of the physical entries of directory d. */
    method Translate(d: nat, i: nat, j: nat) returns (frame: nat)
      requires Valid() && d < |dirs| && i < ENTRIES && j < ENTRIES
      ensures frame == FrameAt(tables, dirs[d], i, j) && frame < memory.Length
      ensures frame == 0 || frame in UsedFrames()
    {
      assert SlotOk(tables, dirs, home, d, i);
      var entry := dirs[d].physical[i];
      if entry == 0 {
        return 0;
      }
      var t := entry / 0x1000;
      assert TableOk(t, tables[t], UsedFrames(), owner);
      return if tables[t][j].present then tables[t][j].frame else 0;
    }

    method ReadWord(d: nat, i: nat, j: nat, o: nat) returns (r: Option<bv32>)
      requires Valid() && d < |dirs| && i < ENTRIES && j < ENTRIES && o < ENTRIES
      ensures r == if (i, j) in Spaces()[d].pages && o < |Spaces()[d].pages[(i, j)]| then Some(Spaces()[d].pages[(i, j)][o]) else None
    {
      var f := Translate(d, i, j);
      r := if f == 0 then None else Some(memory[f][o]);
    }

    /** A load after a store finds the word that was stored, if the page is mapped. */
    method StoreAndLoad(d: nat, i: nat, j: nat, o: nat, v: bv32) returns (r: Option<bv32>)
      requires Valid() && d < |dirs| && i < ENTRIES && j < ENTRIES && o < ENTRIES
      modifies memory
      ensures Valid() && r == if (i, j) in old(Spaces())[d].pages then Some(v) else None
    {
      hide SpaceOf, WellFormed, SetPage;
      PageOf(tables, dirs, memory[..], d, i, j);
      if (i, j) in Spaces()[d].pages {
        StoreIsSeen(Spaces(), d, i, j, o, v);
      }
      WriteWord(d, i, j, o, v);
      PageOf(tables, dirs, memory[..], d, i, j);
      r := ReadWord(d, i, j, o);
    }

    /** The entries that the hardware follows lead to the kernel's tables and are present, writable and for users. */
    lemma PhysicalEntriesCarryFlags(d: nat, i: nat)
      requires Valid() && d < |dirs| && i < 1024
      ensures var p, t := dirs[d].physical[i], dirs[d].tables[i];
              if t == 0 then p == 0 else p / 0x1000 == t && p % 0x1000 == 0x7
    {
      assert SlotOk(tables, dirs, home, d, i);
    }

    method WriteWord(d: nat, i: nat, j: nat, o: nat, v: bv32)
      requires Valid() && d < |dirs| && i < ENTRIES && j < ENTRIES && o < ENTRIES
      modifies memory
      ensures Valid() && FreeKept(UsedFrames(), old(memory[..]), memory[..])
      ensures Spaces() == After(old(Spaces()), Wrote(d, i, j, o, v))
    {
      hide SpaceOf, WellFormed, SetPage;
      var f := Translate(d, i, j);
      PageOf(tables, dirs, memory[..], d, i, j);
      if f != 0 {
        StoreRefines(tables, dirs, UsedFrames(), owner, home, memory[..], d, i, j, memory[f][o := v]);
        ghost var m := memory[..];
        memory[f] := memory[f][o := v];
        assert memory[..] == m[f := m[f][o := v]];
      }
    }

    // ---------- mapping a page ----------

    /** The `make` branch of `get_page`: an empty table for a slot that has none. */
    method MakeTable(d: nat, i: nat)
      requires Valid() && d < |dirs| && i < ENTRIES && dirs[d].tables[i] == 0
      modifies this`tables, this`dirs, this`brk, this`home
      ensures Valid() && |dirs| == old(|dirs|) && dirs[d].tables[i] != 0
      ensures dirs[d].tables[i] !in old(tables) && tables == old(tables)[dirs[d].tables[i] := seq(ENTRIES, _ => BLANK)]
      ensures Spaces() == old(Spaces())[d := WithTable(old(Spaces())[d], d, i)]
    {
      hide WellFormed, SpacesOf, WithTable;
      var t := brk;
      brk := brk + 1;
      NewTableRefines(tables, dirs, UsedFrames(), owner, home, memory[..], t, d, i);
      tables := tables[t := seq(ENTRIES, _ => BLANK)];
      dirs := dirs[d := Directory(dirs[d].tables[i := t], dirs[d].physical[i := PhysicalEntry(t)])];
      home := home[t := (d, i)];
    }

    static lemma NewTableRefines(tables: Tables, dirs: seq<Directory>, used: Frames, owner: Places, home: Places,
                                 memory: Memory, t: nat, d: nat, i: nat)
      requires WellFormed(tables, dirs, used, owner, home)
      requires d < |dirs| && i < ENTRIES && dirs[d].tables[i] == 0 && t != 0 && t !in tables
      ensures var tables' := tables[t := seq(ENTRIES, _ => BLANK)];
              var dirs' := dirs[d := Directory(dirs[d].tables[i := t], dirs[d].physical[i := PhysicalEntry(t)])];
              && WellFormed(tables', dirs', used, owner, home[t := (d, i)])
              && SpacesOf(tables', dirs', memory) == SpacesOf(tables, dirs, memory)[d := WithTable(SpacesOf(tables, dirs, memory)[d], d, i)]
    {
      var tables' := tables[t := seq(ENTRIES, _ => BLANK)];
      var dirs' := dirs[d := Directory(dirs[d].tables[i := t], dirs[d].physical[i := PhysicalEntry(t)])];
      NewTableKeepsWellFormed(tables, dirs, used, owner, home, t, d, i);
      hide SpaceOf, SlotOk, TableOk;
      var a, b := SpacesOf(tables, dirs, memory), SpacesOf(tables', dirs', memory);
      forall e | 0 <= e < |dirs|
        ensures b[e] == if e == d then WithTable(a[d], d, i) else a[e]
      {
        NewTableInOneSpace(tables, dirs, used, owner, home, memory, t, d, i, e);
      }
    }

    static lemma NewTableKeepsWellFormed(tables: Tables, dirs: seq<Directory>, used: Frames, owner: Places, home: Places,
                                         t: nat, d: nat, i: nat)
      requires WellFormed(tables, dirs, used, owner, home)
      requires d < |dirs| && i < ENTRIES && dirs[d].tables[i] == 0 && t != 0 && t !in tables
      ensures WellFormed(tables[t := seq(ENTRIES, _ => BLANK)],
                         dirs[d := Directory(dirs[d].tables[i := t], dirs[d].physical[i := PhysicalEntry(t)])],
                         used, owner, home[t := (d, i)])
    {
      var tables' := tables[t := seq(ENTRIES, _ => BLANK)];
      var dirs' := dirs[d := Directory(dirs[d].tables[i := t], dirs[d].physical[i := PhysicalEntry(t)])];
      var home' := home[t := (d, i)];
      forall e, k | 0 <= e < |dirs'| && 0 <= k < ENTRIES
        ensures SlotOk(tables', dirs', home', e, k)
      {
        assert SlotOk(tables, dirs, home, e, k) && SlotOk(tables, dirs, home, 0, k);
      }
    }

    static lemma NewTableInOneSpace(tables: Tables, dirs: seq<Directory>, used: Frames, owner: Places, home: Places,
                                    memory: Memory, t: nat, d: nat, i: nat, e: nat)
      requires WellFormed(tables, dirs, used, owner, home)
      requires d < |dirs| && e < |dirs| && i < ENTRIES && dirs[d].tables[i] == 0 && t != 0 && t !in tables
      ensures var tables' := tables[t := seq(ENTRIES, _ => BLANK)];
              var dirs' := dirs[d := Directory(dirs[d].tables[i := t], dirs[d].physical[i := PhysicalEntry(t)])];
              SpaceOf(tables', dirs'[0], dirs'[e], memory) ==
                if e == d then WithTable(SpaceOf(tables, dirs[0], dirs[d], memory), d, i) else SpaceOf(tables, dirs[0], dirs[e], memory)
    {
      var tables' := tables[t := seq(ENTRIES, _ => BLANK)];
      var dirs' := dirs[d := Directory(dirs[d].tables[i := t], dirs[d].physical[i := PhysicalEntry(t)])];
      NewTableSlots(tables, dirs, used, owner, home, t, d, i, e);
      hide PagesOf, WellFormed;
      NewTablePages(tables, tables', dirs[e], dirs'[e], memory);
      hide FrameAt;
      NewTableSets(dirs, dirs', t, d, i, e);
    }

    static lemma NewTablePages(tables: Tables, tables': Tables, dir: Directory, dir': Directory, memory: Memory)
      requires forall k, l :: 0 <= k < ENTRIES && 0 <= l < ENTRIES ==> FrameAt(tables', dir', k, l) == FrameAt(tables, dir, k, l)
      ensures PagesOf(tables', dir', memory) == PagesOf(tables, dir, memory)
    {
      hide FrameAt;
      SamePages(tables, tables', dir, dir', memory, memory);
    }

    static lemma NewTableSets(dirs: seq<Directory>, dirs': seq<Directory>, t: nat, d: nat, i: nat, e: nat)
      requires |dirs'| == |dirs| && d < |dirs| && e < |dirs| && i < ENTRIES && t != 0
      requires |dirs[0].tables| == |dirs[e].tables| == |dirs'[0].tables| == |dirs'[e].tables| == |dirs[d].tables| == ENTRIES
      requires dirs[d].tables[i] == 0
      requires dirs'[e].tables == if e == d then dirs[d].tables[i := t] else dirs[e].tables
      requires forall k :: 0 <= k < ENTRIES && dirs'[e].tables[k] != 0 ==>
                 (dirs'[e].tables[k] == dirs'[0].tables[k] <==> if k == i && e == d then d == 0 else dirs[e].tables[k] == dirs[0].tables[k])
      ensures (set k | 0 <= k < ENTRIES && dirs'[e].tables[k] != 0)
           == (set k | 0 <= k < ENTRIES && dirs[e].tables[k] != 0) + (if e == d then {i} else {})
      ensures (set k | 0 <= k < ENTRIES && dirs'[e].tables[k] != 0 && dirs'[e].tables[k] == dirs'[0].tables[k])
           == (set k | 0 <= k < ENTRIES && dirs[e].tables[k] != 0 && dirs[e].tables[k] == dirs[0].tables[k]) + (if e == d && d == 0 then {i} else {})
    {}

    static lemma NewTableSlots(tables: Tables, dirs: seq<Directory>, used: Frames, owner: Places, home: Places,
                               t: nat, d: nat, i: nat, e: nat)
      requires WellFormed(tables, dirs, used, owner, home)
      requires d < |dirs| && e < |dirs| && i < ENTRIES && dirs[d].tables[i] == 0 && t != 0 && t !in tables
      ensures var tables' := tables[t := seq(ENTRIES, _ => BLANK)];
              var dirs' := dirs[d := Directory(dirs[d].tables[i := t], dirs[d].physical[i := PhysicalEntry(t)])];
              && (forall k, l :: 0 <= k < ENTRIES && 0 <= l < ENTRIES ==> FrameAt(tables', dirs'[e], k, l) == FrameAt(tables, dirs[e], k, l))
              && (forall k :: 0 <= k < ENTRIES && dirs'[e].tables[k] != 0 ==>
                    (dirs'[e].tables[k] == dirs'[0].tables[k] <==> if k == i && e == d then d == 0 else dirs[e].tables[k] == dirs[0].tables[k]))
    {
      forall k | 0 <= k < ENTRIES
        ensures dirs[e].tables[k] == 0 || dirs[e].tables[k] in tables
        ensures dirs[0].tables[k] == 0 || dirs[0].tables[k] in tables
      {
        assert SlotOk(tables, dirs, home, e, k) && SlotOk(tables, dirs, home, 0, k);
      }
    }

    /** A newly mapped page, if there is one, shows what a frame held that nothing used. */
    static ghost predicate Unclaimed(found: Contents, used: Frames, memory: Memory) {
      found == [] || exists f: nat :: f < |memory| && f !in used && memory[f] == found
    }

    static ghost predicate StepUnclaimed(step: Step, used: Frames, memory: Memory) {
      step.Mapped? ==> Unclaimed(step.found, used, memory)
    }

    /** What is free later was free before, and held the same. */
    static lemma UnclaimedBefore(step: Step, used: Frames, used': Frames, memory: Memory, memory': Memory)
      requires StepUnclaimed(step, used', memory') && used <= used' && FreeKept(used', memory, memory')
      ensures StepUnclaimed(step, used, memory)
    {}

    static lemma FreeKeptOnward(used: Frames, used': Frames, m: Memory, m': Memory, m'': Memory)
      requires FreeKept(used, m, m') && used <= used' && FreeKept(used', m', m'')
      ensures FreeKept(used', m, m'')
    {}

    /** `alloc_frame(get_page(address, 1, dir), ...)`: page (i, j) of directory d gets a frame if it has none. */
    method MapPage(d: nat, i: nat, j: nat, isKernel: bool, isWriteable: bool) returns (ok: bool, ghost found: Contents)
      requires Valid() && d < |dirs| && i < ENTRIES && j < ENTRIES
      modifies this`tables, this`dirs, this`brk, this`owner, this`home, bitmap.frames
      ensures Valid() && old(UsedFrames()) <= UsedFrames() && Unclaimed(found, old(UsedFrames()), memory[..])
      ensures if ok then Spaces() == After(old(Spaces()), Mapped(d, i, j, found)) else Full()
      ensures |dirs| == old(|dirs|)
      ensures ok ==> PageMapped(old(tables), tables, dirs[d].tables[i], j, isKernel, isWriteable, old(UsedFrames()))
    {
      hide SpaceOf, WellFormed, SetPage, PageMapped;
      found := [];
      ghost var a := Spaces();
      PageOf(tables, dirs, memory[..], d, i, j);
      assert dirs[d].tables[i] != 0 <==> i in a[d].present by { TablePresent(tables, dirs, memory[..], d, i); }
      assert i !in a[d].present ==> (i, j) !in a[d].pages by { NoTableNoPage(tables, dirs, UsedFrames(), owner, home, memory[..], d, i, j); }
      ghost var made := dirs[d].tables[i] == 0;
      if dirs[d].tables[i] == 0 {
        MakeTable(d, i);
      }
      ghost var before := tables;
      ok, found := FillEntry(d, i, j, isKernel, isWriteable);
      if ok && made {
        MappedInNewTable(old(tables), before, tables, dirs[d].tables[i], j, isKernel, isWriteable, old(UsedFrames()));
      }
    }

    /** The slot of the directory and the entry of its table for an address: the page that holds it. */
    method PageIndex(address: nat) returns (i: nat, j: nat)
      requires address < 0x1_0000_0000
      ensures i < 1024 && j < 1024
      ensures i * 0x40_0000 + j * 0x1000 <= address < i * 0x40_0000 + j * 0x1000 + 0x1000
    {
      var page := address / 0x1000;
      i, j := page / 1024, page % 1024;
    }

    /** Mapping the page that holds an address. */
    method MapAddress(d: nat, address: nat, isKernel: bool, isWriteable: bool)
      returns (ok: bool, i: nat, j: nat, ghost found: Contents)
      requires Valid() && d < |dirs| && address < 0x1_0000_0000
      modifies this`tables, this`dirs, this`brk, this`owner, this`home, bitmap.frames
      ensures Valid() && i < 1024 && j < 1024
      ensures i * 0x40_0000 + j * 0x1000 <= address < i * 0x40_0000 + j * 0x1000 + 0x1000
      ensures if ok then Spaces() == After(old(Spaces()), Mapped(d, i, j, found)) else Full()
      ensures |dirs| == old(|dirs|)
      ensures ok ==> PageMapped(old(tables), tables, dirs[d].tables[i], j, isKernel, isWriteable, old(UsedFrames()))
    {
      i, j := PageIndex(address);
      ok, found := MapPage(d, i, j, isKernel, isWriteable);
    }

    /**
     Entry j of table t is what the call asks for: a new entry is present, with the permissions
     asked for and neither accessed nor dirty, an old one as it was. All other entries, and all
     other tables, are unchanged; a table made for the call is otherwise empty.
     */
    static ghost predicate PageMapped(before: Tables, after: Tables, t: nat, j: nat, isKernel: bool, isWriteable: bool, used: Frames) {
      && j < 1024 && t in after && |after[t]| == 1024 && (t in before ==> |before[t]| == 1024)
      && (forall u :: u in before && u != t ==> u in after && after[u] == before[u])
      && (forall l :: 0 <= l < 1024 && l != j ==>
            after[t][l] == if t in before then before[t][l] else Page(false, false, false, false, false, 0))
      && (if t in before && before[t][j].frame != 0 then after[t][j] == before[t][j]
          else
            && after[t][j] == Page(true, isWriteable, !isKernel, false, false, after[t][j].frame)
            && after[t][j].frame != 0 && after[t][j].frame !in used)
    }

    static lemma MappedInNewTable(before: Tables, made: Tables, after: Tables, t: nat, j: nat, isKernel: bool, isWriteable: bool, used: Frames)
      requires t !in before && made == before[t := seq(ENTRIES, _ => BLANK)]
      requires PageMapped(made, after, t, j, isKernel, isWriteable, used)
      ensures PageMapped(before, after, t, j, isKernel, isWriteable, used)
    {}

    static lemma EntryMapped(tables: Tables, t: nat, j: nat, p: Page, isKernel: bool, isWriteable: bool, used: Frames)
      requires t in tables && |tables[t]| == 1024 && j < 1024
      requires if tables[t][j].frame != 0 then p == tables[t][j]
               else p == Page(true, isWriteable, !isKernel, false, false, p.frame) && p.frame != 0 && p.frame !in used
      ensures PageMapped(tables, tables[t := tables[t][j := p]], t, j, isKernel, isWriteable, used)
      ensures tables[t][j].frame != 0 ==> tables[t := tables[t][j := p]] == tables
    {
      if tables[t][j].frame != 0 {
        assert tables[t][j := p] == tables[t];
      }
    }

    /** The frame for an entry of an existing table. */
    method FillEntry(d: nat, i: nat, j: nat, isKernel: bool, isWriteable: bool) returns (ok: bool, ghost found: Contents)
      requires Valid() && d < |dirs| && i < ENTRIES && j < ENTRIES && dirs[d].tables[i] != 0
      modifies this`tables, this`owner, bitmap.frames
      ensures Valid() && old(UsedFrames()) <= UsedFrames() && Unclaimed(found, old(UsedFrames()), memory[..])
      ensures ok ==> Spaces() == if (i, j) in old(Spaces())[d].pages then old(Spaces()) else SetPage(old(Spaces()), d, i, j, found)
      ensures !ok ==> Full()
      ensures ok ==> PageMapped(old(tables), tables, dirs[d].tables[i], j, isKernel, isWriteable, old(UsedFrames()))
    {
      found := [];
      assert SlotOk(tables, dirs, home, d, i);
      var t := dirs[d].tables[i];
      assert TableOk(t, tables[t], UsedFrames(), owner);
      PageOf(tables, dirs, memory[..], d, i, j);
      ghost var used := UsedFrames();
      assert FrameAt(tables, dirs[d], i, j) == tables[t][j].frame;
      hide SpaceOf, SpacesOf, SetPage, SlotOk, TableOk, PageMapped, WellFormed, FrameAt;
      var p;
      ok, p := AllocFrame(tables[t][j], isKernel, isWriteable);
      if ok {
        EntryMapped(tables, t, j, p, isKernel, isWriteable, used);
      }
      if ok && tables[t][j].frame == 0 {
        FillRefines(tables, dirs, used, owner, home, memory[..], d, i, j, p);
        found := memory[p.frame];
        owner := owner[p.frame := (t, j)];
        tables := tables[t := tables[t][j := p]];
      }
    }

    static lemma TablePresent(tables: Tables, dirs: seq<Directory>, memory: Memory, d: nat, i: nat)
      requires DirectoriesShaped(dirs) && d < |dirs| && i < ENTRIES
      ensures i in SpacesOf(tables, dirs, memory)[d].present <==> dirs[d].tables[i] != 0
    {}

    static lemma NoTableNoPage(tables: Tables, dirs: seq<Directory>, used: Frames, owner: Places, home: Places,
                               memory: Memory, d: nat, i: nat, j: nat)
      requires WellFormed(tables, dirs, used, owner, home) && d < |dirs| && i < ENTRIES && j < ENTRIES
      ensures i !in SpacesOf(tables, dirs, memory)[d].present ==> (i, j) !in SpacesOf(tables, dirs, memory)[d].pages
    {}

    static lemma FillRefines(tables: Tables, dirs: seq<Directory>, used: Frames, owner: Places, home: Places,
                             memory: Memory, d: nat, i: nat, j: nat, p: Page)
      requires WellFormed(tables, dirs, used, owner, home)
      requires d < |dirs| && i < ENTRIES && j < ENTRIES && dirs[d].tables[i] in tables
      requires |tables[dirs[d].tables[i]]| == ENTRIES && tables[dirs[d].tables[i]][j].frame == 0
      requires p.present && p.frame !in used && 0 < p.frame < |memory|
      ensures var t := dirs[d].tables[i]; var tables' := tables[t := tables[t][j := p]];
              && WellFormed(tables', dirs, used + {p.frame}, owner[p.frame := (t, j)], home)
              && SpacesOf(tables', dirs, memory) == SetPage(SpacesOf(tables, dirs, memory), d, i, j, memory[p.frame])
    {
      var t, f := dirs[d].tables[i], p.frame;
      var tables' := tables[t := tables[t][j := p]];
      FillKeepsWellFormed(tables, dirs, used, owner, home, t, j, p);
      var a := SpacesOf(tables, dirs, memory);
      hide PagesOf, TableOk;
      forall e | 0 <= e < |dirs|
        ensures SpaceOf(tables', dirs[0], dirs[e], memory) == SetPage(a, d, i, j, memory[f])[e]
      {
        WhoShares(tables, dirs, used, owner, home, memory, d, e, i);
        FillInOneSpace(tables, dirs[0], dirs[e], memory, t, i, j, p, Shares(a, d, e, i));
      }
    }

    static lemma FillKeepsWellFormed(tables: Tables, dirs: seq<Directory>, used: Frames, owner: Places, home: Places,
                                     t: nat, j: nat, p: Page)
      requires WellFormed(tables, dirs, used, owner, home) && j < ENTRIES && t in tables && p.present && p.frame != 0 && p.frame !in used
      ensures WellFormed(tables[t := tables[t][j := p]], dirs, used + {p.frame}, owner[p.frame := (t, j)], home)
    {
      var tables' := tables[t := tables[t][j := p]];
      var owner' := owner[p.frame := (t, j)];
      forall u | u in tables'
        ensures TableOk(u, tables'[u], used + {p.frame}, owner')
      {
        assert TableOk(u, tables[u], used, owner);
      }
      forall e, k | 0 <= e < |dirs| && 0 <= k < ENTRIES
        ensures SlotOk(tables', dirs, home, e, k)
      {
        assert SlotOk(tables, dirs, home, e, k);
      }
    }

    /** The slots of directory e that lead to the table in slot i of directory d. */
    static lemma WhoShares(tables: Tables, dirs: seq<Directory>, used: Frames, owner: Places, home: Places,
                           memory: Memory, d: nat, e: nat, i: nat)
      requires WellFormed(tables, dirs, used, owner, home)
      requires d < |dirs| && e < |dirs| && i < ENTRIES && dirs[d].tables[i] != 0
      ensures forall k :: 0 <= k < ENTRIES ==>
                (dirs[e].tables[k] == dirs[d].tables[i] <==> k == i && Shares(SpacesOf(tables, dirs, memory), d, e, i))
    {
      hide PagesOf, TableOk;
      forall k | 0 <= k < ENTRIES
        ensures dirs[e].tables[k] == dirs[d].tables[i] <==> k == i && Shares(SpacesOf(tables, dirs, memory), d, e, i)
      {
        assert SlotOk(tables, dirs, home, e, k) && SlotOk(tables, dirs, home, d, i);
      }
    }

    static lemma FillInOneSpace(tables: Tables, kernel: Directory, dir: Directory, memory: Memory, t: nat, i: nat,
                                j: nat, p: Page, hit: bool)
      requires |dir.tables| == |kernel.tables| == ENTRIES && i < ENTRIES && j < ENTRIES && 0 < p.frame < |memory|
      requires t in tables && |tables[t]| == ENTRIES
      requires forall k :: 0 <= k < ENTRIES ==> (dir.tables[k] == t <==> k == i && hit)
      ensures var x := SpaceOf(tables, kernel, dir, memory);
              SpaceOf(tables[t := tables[t][j := p]], kernel, dir, memory)
                == if hit then x.(pages := x.pages[(i, j) := memory[p.frame]]) else x
    {
      var tables' := tables[t := tables[t][j := p]];
      var x, y := SpaceOf(tables, kernel, dir, memory), SpaceOf(tables', kernel, dir, memory);
      FillFrames(tables, dir, t, i, j, p, hit);
      hide FrameAt, PagesOf;
      if hit {
        OneMorePage(tables, tables', dir, memory, i, j, p.frame);
      } else {
        SamePages(tables, tables', dir, dir, memory, memory);
      }
    }

    static lemma FillFrames(tables: Tables, dir: Directory, t: nat, i: nat, j: nat, p: Page, hit: bool)
      requires |dir.tables| == ENTRIES && i < ENTRIES && j < ENTRIES && t in tables && |tables[t]| == ENTRIES
      requires forall k :: 0 <= k < ENTRIES ==> (dir.tables[k] == t <==> k == i && hit)
      ensures forall k, l :: 0 <= k < ENTRIES && 0 <= l < ENTRIES ==>
                FrameAt(tables[t := tables[t][j := p]], dir, k, l) == if k == i && l == j && hit then p.frame else FrameAt(tables, dir, k, l)
    {
      var tables' := tables[t := tables[t][j := p]];
      forall k, l | 0 <= k < ENTRIES && 0 <= l < ENTRIES
        ensures FrameAt(tables', dir, k, l) == if k == i && l == j && hit then p.frame else FrameAt(tables, dir, k, l)
      {
        assert dir.tables[k] == t <==> k == i && hit;
      }
    }

    // ---------- runs ----------

    method Perform(op: Operation) returns (ok: bool, ghost step: Step)
      requires Valid()
      modifies this, bitmap.frames, memory
      ensures Valid() && Does(op, step)
      ensures old(UsedFrames()) <= UsedFrames() && FreeKept(UsedFrames(), old(memory[..]), memory[..])
      ensures StepUnclaimed(step, old(UsedFrames()), old(memory[..]))
      ensures if ok then Spaces() == After(old(Spaces()), step) else Full()
      ensures ok && op.Map? && op.d < old(|dirs|) ==>
                && op.d < |dirs|
                && PageMapped(old(tables), tables, dirs[op.d].tables[op.i], op.j, op.isKernel, op.isWriteable, old(UsedFrames()))
    {
      hide After;
      match op {
        case Fork(d) =>
          step := Forked(d);
          if d < |dirs| {
            ok := CloneDirectory(d);
          } else {
            ok := true;
            NoSuchDirectory(Spaces(), step, d);
          }
        case Write(d, i, j, o, v) =>
          step := Wrote(d, i, j, o, v);
          ok := true;
          if d < |dirs| {
            WriteWord(d, i, j, o, v);
          } else {
            NoSuchDirectory(Spaces(), step, d);
          }
        case Map(d, i, j, isKernel, isWriteable) =>
          if d < |dirs| {
            ghost var found;
            ok, found := MapPage(d, i, j, isKernel, isWriteable);
            step := Mapped(d, i, j, found);
          } else {
            ok, step := true, Mapped(d, i, j, []);
            NoSuchDirectory(Spaces(), step, d);
          }
      }
    }

    static lemma NoSuchDirectory(a: seq<Space>, step: Step, d: nat)
      requires d >= |a| && step.d == d
      ensures After(a, step) == a
    {}

    /**
     Any run of forks, stores and mappings, up to a panic, acts on the spaces as promised. Frames
     that are free all along keep their contents, and a newly mapped page shows what some frame
     held that was free at the start: never another directory's data.
     */
    method Run(ops: seq<Operation>) returns (ok: bool, ghost steps: seq<Step>)
      requires Valid()
      modifies this, bitmap.frames, memory
      ensures Valid()
      ensures old(UsedFrames()) <= UsedFrames() && FreeKept(UsedFrames(), old(memory[..]), memory[..])
      ensures forall k :: 0 <= k < |steps| ==> StepUnclaimed(steps[k], old(UsedFrames()), old(memory[..]))
      ensures ok ==> |steps| == |ops| && (forall k :: 0 <= k < |ops| ==> Does(ops[k], steps[k]))
      ensures if ok then Spaces() == AfterAll(old(Spaces()), steps) else Full()
    {
      hide After, WellFormed, SpacesOf, Does, FreeKept, StepUnclaimed;
      steps := [];
      ghost var used, m := UsedFrames(), memory[..];
      assert FreeKept(used, m, m) by { ExtendsItself(used, m); NothingFreed(used, used, m, m); }
      for k := 0 to |ops|
        invariant Valid() && |steps| == k
        invariant forall n :: 0 <= n < k ==> Does(ops[n], steps[n])
        invariant Spaces() == AfterAll(old(Spaces()), steps)
        invariant used <= UsedFrames() && FreeKept(UsedFrames(), m, memory[..])
        invariant forall n :: 0 <= n < k ==> StepUnclaimed(steps[n], used, m)
      {
        ghost var step;
        ghost var used', m' := UsedFrames(), memory[..];
        ok, step := Perform(ops[k]);
        UnclaimedBefore(step, used, used', m, m');
        FreeKeptOnward(used', UsedFrames(), m, m', memory[..]);
        if !ok {
          return;
        }
        assert (steps + [step])[..k] == steps;
        steps := steps + [step];
      }
      ok := true;
    }

    // ---------- isolation ----------

    /** The page that a load through directory d finds at (i, j). */
    ghost function Reads(d: nat, i: nat, j: nat): Option<Contents>
      requires d < |dirs|
      reads this, memory
    {
      var f := FrameAt(tables, dirs[d], i, j);
      if 0 != f < memory.Length then Some(memory[f]) else None
    }

    /** Slot i of directory d does not lead to the kernel directory's table. */
    ghost predicate OwnSlot(d: nat, i: nat)
      requires DirectoriesShaped(dirs) && d < |dirs| && i < ENTRIES
      reads this
    {
      dirs[d].tables[i] == 0 || dirs[d].tables[i] != dirs[0].tables[i]
    }

    lemma ReadsOfSpace(d: nat, i: nat, j: nat)
      requires DirectoriesShaped(dirs) && d < |dirs| && i < ENTRIES && j < ENTRIES
      ensures var x := Spaces()[d];
              && OwnSlot(d, i) == (i !in x.linked)
              && Reads(d, i, j) == if (i, j) in x.pages then Some(x.pages[(i, j)]) else None
    {
      hide PagesOf;
      PageOf(tables, dirs, memory[..], d, i, j);
    }

    lemma AllReadsOfSpace(d: nat)
      requires DirectoriesShaped(dirs) && d < |dirs|
      ensures forall i: nat :: i < ENTRIES ==> OwnSlot(d, i) == (i !in Spaces()[d].linked)
      ensures forall i: nat, j: nat :: i < ENTRIES && j < ENTRIES ==>
                Reads(d, i, j) == if (i, j) in Spaces()[d].pages then Some(Spaces()[d].pages[(i, j)]) else None
    {
      hide SpacesOf, OwnSlot, Reads;
      forall i: nat | i < ENTRIES
        ensures OwnSlot(d, i) == (i !in Spaces()[d].linked)
      {
        ReadsOfSpace(d, i, 0);
      }
      forall i: nat, j: nat | i < ENTRIES && j < ENTRIES
        ensures Reads(d, i, j) == if (i, j) in Spaces()[d].pages then Some(Spaces()[d].pages[(i, j)]) else None
      {
        ReadsOfSpace(d, i, j);
      }
    }

    /**
     Isolation in the kernel. What is directory d's own at the end of a run is what it would be
     if only the operations through d had taken place, with new pages that show what some frame
     held that was free at the start; so if there are none, every load through d from a table of
     its own finds what it found before.
     */
    method RunBeside(ops: seq<Operation>, d: nat) returns (ok: bool, ghost steps: seq<Step>)
      requires Valid() && d < |dirs|
      modifies this, bitmap.frames, memory
      ensures Valid()
      ensures ok ==>
                && d < |dirs| && |steps| == |ops| && (forall k :: 0 <= k < |ops| ==> Does(ops[k], steps[k]))
                && OwnOf(Spaces()[d]) == OwnOf(AfterAll(old(Spaces()), Only(steps, d))[d])
                && (forall k :: 0 <= k < |steps| ==> StepUnclaimed(steps[k], old(UsedFrames()), old(memory[..])))
      ensures ok && Beside(ops, d) ==>
                forall i: nat, j: nat :: i < ENTRIES && j < ENTRIES && old(OwnSlot(d, i)) ==>
                  Reads(d, i, j) == old(Reads(d, i, j))
    {
      hide SpacesOf, OwnOf, After, WellFormed, Does, Beside, Through, OwnSlot, Reads;
      SpacesAreCoherent();
      ghost var before := Spaces();
      AllReadsOfSpace(d);
      ok, steps := Run(ops);
      if ok {
        NonInterference(before, steps, d);
        if Beside(ops, d) {
          OthersOnly(ops, steps, d);
          forall i: nat, j: nat | i < ENTRIES && j < ENTRIES && old(OwnSlot(d, i))
            ensures Reads(d, i, j) == old(Reads(d, i, j))
          {
            Isolation(before, steps, d, i, j);
            ReadsOfSpace(d, i, j);
          }
        }
      }
    }

    static lemma OthersOnly(ops: seq<Operation>, steps: seq<Step>, d: nat)
      requires |steps| == |ops| && (forall k :: 0 <= k < |ops| ==> Does(ops[k], steps[k])) && Beside(ops, d)
      ensures forall k :: 0 <= k < |steps| ==> !Through(steps[k], d)
    {
      forall k | 0 <= k < |steps|
        ensures !Through(steps[k], d)
      {
        ActsThrough(ops[k], steps[k], d);
      }
    }

    /** A fork, and then a run that does not act through the child: loads through the child find the parent's pages of the fork. */
    method ForkAndRun(parent: nat, ops: seq<Operation>) returns (ok: bool, ghost steps: seq<Step>)
      requires Valid() && parent < |dirs|
      requires Beside(ops, |dirs|)
      modifies this, bitmap.frames, memory
      ensures Valid()
      ensures ok ==>
                && old(|dirs|) < |dirs|
                && forall i: nat, j: nat :: i < ENTRIES && j < ENTRIES && old(OwnSlot(parent, i)) ==>
                     Reads(old(|dirs|), i, j) == old(Reads(parent, i, j))
    {
      hide SpacesOf, WellFormed, Beside, OwnSlot, Reads;
      ghost var before := Spaces();
      AllReadsOfSpace(parent);
      steps := [];
      ok := CloneDirectory(parent);
      if ok {
        ghost var child := |before|;
        assert Spaces() == before + [before[parent]];
        ghost var forked := Spaces();
        ok, steps := Run(ops);
        if ok {
          OthersOnly(ops, steps, child);
          forall i: nat, j: nat | i < ENTRIES && j < ENTRIES && old(OwnSlot(parent, i))
            ensures Reads(child, i, j) == old(Reads(parent, i, j))
          {
            Isolation(forked, steps, child, i, j);
            ReadsOfSpace(child, i, j);
          }
        }
      }
    }
  }
}
