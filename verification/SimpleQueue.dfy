/**
 Simple queues: entries are linked forward only, and the head keeps the address of the
 forward pointer that ends the queue, so that appending takes no walk. As in the tail
 queue, the address of a forward pointer is modelled by the cell that holds it; the head
 holds one as well.
 */
module SimpleQueues {
  import opened Sequences

  class Cell {
    var next: Cell?
    constructor ()
      ensures next == null
    {
      next := null;
    }
  }

  /** Forward links lead along the cells, and the last one leads nowhere. */
  ghost predicate Linked(cells: seq<Cell>)
    reads cells
  {
    && |cells| > 0
    && (forall i, j :: 0 <= i < j < |cells| ==> cells[i] != cells[j])
    && (forall i :: 0 <= i < |cells| - 1 ==> cells[i].next == cells[i + 1])
    && cells[|cells| - 1].next == null
  }

  /** Two queues of which the first has been made to run on into the second. */
  ghost predicate Joined(a: seq<Cell>, b: seq<Cell>)
    reads a, b
  {
    && |a| > 0 && |b| > 1
    && (forall i, j :: 0 <= i < j < |a| ==> a[i] != a[j])
    && (forall i, j :: 0 <= i < j < |b| ==> b[i] != b[j])
    && (forall i, j :: 0 <= i < |a| && 0 <= j < |b| ==> a[i] != b[j])
    && (forall i :: 0 <= i < |a| - 1 ==> a[i].next == a[i + 1])
    && a[|a| - 1].next == b[1]
    && (forall i :: 1 <= i < |b| - 1 ==> b[i].next == b[i + 1])
    && b[|b| - 1].next == null
  }

  lemma JoinedIsLinked(a: seq<Cell>, b: seq<Cell>)
    requires Joined(a, b)
    ensures Linked(a + b[1..]) && (a + b[1..])[1..] == a[1..] + b[1..]
  {
    var cells := a + b[1..];
    forall i | 0 <= i < |cells| - 1
      ensures cells[i].next == cells[i + 1]
    {
      assert cells[i + 1] == if i + 1 < |a| then a[i + 1] else b[i + 2 - |a|];
    }
  }

  class SimpleQueue {
    const head: Cell
    var last: Cell
    ghost var cells: seq<Cell>

    ghost predicate Valid()
      reads this, cells
      ensures Valid() ==> |cells| > 0 && cells[0] == head && cells[|cells| - 1] == last
    {
      Linked(cells) && cells[0] == head && cells[|cells| - 1] == last
    }

    ghost function Elems(): seq<Cell>
      reads this
      requires |cells| > 0
    {
      cells[1..]
    }

    /** QSIMPLEQ_INIT on new storage. */
    constructor ()
      ensures Valid() && Elems() == [] && fresh(head)
    {
      head := new Cell();
      last := head;
      cells := [head];
      new;
      head.next := null;
    }

    /** QSIMPLEQ_INIT */
    method Init()
      modifies this, head
      ensures Valid() && Elems() == []
    {
      head.next := null;
      last := head;
      cells := [head];
    }

    predicate IsEmpty()
      reads this, head, cells
      requires Valid()
      ensures IsEmpty() <==> Elems() == []
    {
      assert |cells| > 1 ==> cells[0].next == cells[1];
      head.next == null
    }

    method InsertHead(elm: Cell)
      requires Valid() && elm !in cells
      modifies this, cells, elm
      ensures Valid() && Elems() == InsertAt(old(Elems()), 0, elm)
    {
      assert |cells| > 1 ==> cells[0].next == cells[1];
      elm.next := head.next;
      if elm.next == null {
        last := elm;
      }
      head.next := elm;
      cells := InsertAt(cells, 1, elm);
    }

    method InsertTail(elm: Cell)
      requires Valid() && elm !in cells
      modifies this, cells, elm
      ensures Valid() && Elems() == InsertAt(old(Elems()), |old(Elems())|, elm)
    {
      elm.next := null;
      last.next := elm;
      last := elm;
      cells := InsertAt(cells, |cells|, elm);
    }

    method InsertAfter(listelm: Cell, elm: Cell, ghost k: nat)
      requires Valid() && elm !in cells
      requires k < |Elems()| && Elems()[k] == listelm
      modifies this, cells, elm
      ensures Valid() && Elems() == InsertAt(old(Elems()), k + 1, elm)
    {
      assert listelm == cells[k + 1] && (k + 2 < |cells| ==> listelm.next == cells[k + 2]);
      elm.next := listelm.next;
      if elm.next == null {
        last := elm;
      }
      listelm.next := elm;
      cells := InsertAt(cells, k + 2, elm);
    }

    method RemoveHead()
      requires Valid() && Elems() != []
      modifies this, cells
      ensures Valid() && Elems() == RemoveAt(old(Elems()), 0)
    {
      assert cells[0].next == cells[1] && (|cells| > 2 ==> cells[1].next == cells[2]);
      head.next := head.next.next;
      if head.next == null {
        last := head;
      }
      cells := RemoveAt(cells, 1);
    }

    method Remove(elm: Cell, ghost k: nat)
      requires Valid() && k < |Elems()| && Elems()[k] == elm
      modifies this, cells
      ensures Valid() && Elems() == RemoveAt(old(Elems()), k)
    {
      assert cells[0].next == cells[1];
      if head.next == elm {
        RemoveHead();
      } else {
        var curelm := head.next;
        ghost var p := 1;
        while curelm.next != elm
          invariant 1 <= p <= k && curelm == cells[p]
          decreases k - p
        {
          assert cells[p].next == cells[p + 1] && cells[k].next == cells[k + 1];
          curelm := curelm.next;
          p := p + 1;
        }
        assert cells[k + 1] == elm && p == k && (k + 2 < |cells| ==> elm.next == cells[k + 2]);
        curelm.next := curelm.next.next;
        if curelm.next == null {
          last := curelm;
        }
        cells := RemoveAt(cells, k + 1);
      }
    }

    method Concat(other: SimpleQueue)
      requires Valid() && other.Valid() && this != other
      requires forall i, j :: 0 <= i < |cells| && 0 <= j < |other.cells| ==> cells[i] != other.cells[j]
      modifies this, cells, other, other.cells
      ensures Valid() && Elems() == old(Elems()) + old(other.Elems())
      ensures other.Valid() && other.Elems() == []
    {
      if !other.IsEmpty() {
        assert other.cells[0].next == other.cells[1];
        ghost var a, b := cells, other.cells;
        last.next := other.head.next;
        last := other.last;
        cells := a + b[1..];
        other.Init();
        JoinedIsLinked(a, b);
      }
    }

    /** QSIMPLEQ_LAST; the offset arithmetic of the source takes the end pointer back to its entry. */
    method Last() returns (r: Cell?)
      requires Valid()
      ensures r == if Elems() == [] then null else Elems()[|Elems()| - 1]
    {
      r := if IsEmpty() then null else last;
    }

    method Foreach() returns (visited: seq<Cell>)
      requires Valid()
      ensures visited == Elems()
    {
      visited := [];
      assert |cells| > 1 ==> cells[0].next == cells[1];
      var v := head.next;
      while v != null
        invariant |visited| < |cells| && visited == cells[1..|visited| + 1]
        invariant v == if |visited| == |cells| - 1 then null else cells[|visited| + 1]
        decreases |cells| - |visited|
      {
        visited := visited + [v];
        v := v.next;
      }
    }
  }
}
