/**
 Tail queues. A head and an entry have the same two fields, so one class serves for both:
 `first` is the forward pointer and is the first thing in the structure, hence the address
 of a forward pointer is the address of the link that holds it. `last` is such an address:
 in an entry, of the forward pointer that leads to it; in the head, of the forward pointer
 that ends the queue.
 */
module TailQueues {
  import opened Sequences

  class Link {
    var first: Link?
    var last: Link?
    constructor ()
      ensures first == null && last == null
    {
      first, last := null, null;
    }
  }

  /** Head and entries in order: forward pointers lead along them, backward ones lead back, the head's to the end. */
  ghost predicate Chained(cells: seq<Link>)
    reads cells
  {
    && |cells| > 0
    && (forall i, j :: 0 <= i < j < |cells| ==> cells[i] != cells[j])
    && (forall i :: 0 <= i < |cells| - 1 ==> cells[i].first == cells[i + 1])
    && (forall i :: 1 <= i < |cells| ==> cells[i].last == cells[i - 1])
    && cells[|cells| - 1].first == null
    && cells[0].last == cells[|cells| - 1]
  }

  /** Reading a backward pointer as a head and taking its last element steps back by one, or off the front. */
  lemma StepBack(cells: seq<Link>, i: nat)
    requires Chained(cells) && i < |cells|
    ensures cells[i].last != null && cells[i].last.last != null
    ensures cells[i].last.last.first ==
            if i == 0 then (if |cells| == 1 then null else cells[|cells| - 1])
            else if i == 1 then null else cells[i - 1]
  {
    var n := |cells|;
    if i == 0 {
      if n > 1 {
        assert cells[n - 1].last == cells[n - 2] && cells[n - 2].first == cells[n - 1];
      }
    } else {
      assert cells[i].last == cells[i - 1];
      if i > 1 {
        assert cells[i - 1].last == cells[i - 2] && cells[i - 2].first == cells[i - 1];
      }
    }
  }

  /** The links of a queue `cells` into which `elm` has been spliced behind position p. */
  ghost predicate Spliced(cells: seq<Link>, p: nat, elm: Link)
    reads cells, elm
  {
    var n := |cells|;
    && p < n && elm !in cells
    && (forall i, j :: 0 <= i < j < n ==> cells[i] != cells[j])
    && (forall i :: 0 <= i < n - 1 && i != p ==> cells[i].first == cells[i + 1])
    && (forall i :: 1 <= i < n && i != p + 1 ==> cells[i].last == cells[i - 1])
    && cells[p].first == elm && elm.last == cells[p]
    && (if p == n - 1 then elm.first == null && cells[0].last == elm
        else elm.first == cells[p + 1] && cells[p + 1].last == elm && cells[n - 1].first == null && cells[0].last == cells[n - 1])
  }

  lemma SplicedIsChained(cells: seq<Link>, p: nat, elm: Link)
    requires Spliced(cells, p, elm)
    ensures Chained(InsertAt(cells, p + 1, elm))
    ensures InsertAt(cells, p + 1, elm)[0] == cells[0]
    ensures InsertAt(cells, p + 1, elm)[1..] == InsertAt(cells[1..], p, elm)
  {
    var after := InsertAt(cells, p + 1, elm);
    forall i | 0 <= i < |after| - 1
      ensures after[i].first == after[i + 1]
    {
      assert after[i + 1] == if i + 1 <= p then cells[i + 1] else if i == p then elm else cells[i];
    }
    forall i | 1 <= i < |after|
      ensures after[i].last == after[i - 1]
    {
      assert after[i - 1] == if i <= p + 1 then cells[i - 1] else if i == p + 2 then elm else cells[i - 2];
    }
  }

  /** The links of a queue `cells` around its cell at position p, once that has been taken out. */
  ghost predicate Unlinked(cells: seq<Link>, p: nat)
    reads cells
  {
    var n := |cells|;
    && 0 < p < n
    && (forall i, j :: 0 <= i < j < n ==> cells[i] != cells[j])
    && (forall i :: 0 <= i < n - 1 && i != p - 1 && i != p ==> cells[i].first == cells[i + 1])
    && (forall i :: 1 <= i < n && i != p && i != p + 1 ==> cells[i].last == cells[i - 1])
    && (if p == n - 1 then cells[p - 1].first == null && cells[0].last == cells[p - 1]
        else cells[p - 1].first == cells[p + 1] && cells[p + 1].last == cells[p - 1]
             && cells[n - 1].first == null && cells[0].last == cells[n - 1])
  }

  lemma UnlinkedIsChained(cells: seq<Link>, p: nat)
    requires Unlinked(cells, p)
    ensures Chained(RemoveAt(cells, p))
    ensures RemoveAt(cells, p)[0] == cells[0]
    ensures RemoveAt(cells, p)[1..] == RemoveAt(cells[1..], p - 1)
  {
    var after := RemoveAt(cells, p);
    forall i | 0 <= i < |after| - 1
      ensures after[i].first == after[i + 1]
    {
      assert after[i + 1] == if i + 1 < p then cells[i + 1] else cells[i + 2];
    }
    forall i | 1 <= i < |after|
      ensures after[i].last == after[i - 1]
    {
      assert after[i - 1] == if i <= p then cells[i - 1] else cells[i];
    }
  }

  class TailQueue {
    const head: Link
    ghost var cells: seq<Link>

    ghost predicate Valid()
      reads this, cells
      ensures Valid() ==> |cells| > 0 && cells[0] == head
    {
      Chained(cells) && cells[0] == head
    }

    /** The queue as a sequence. */
    ghost function Elems(): seq<Link>
      reads this
      requires |cells| > 0
    {
      cells[1..]
    }

    /** QTAILQ_INIT */
    constructor ()
      ensures Valid() && Elems() == [] && fresh(head)
    {
      head := new Link();
      cells := [head];
      new;
      head.first := null;
      head.last := head;
    }

    method InsertHead(elm: Link)
      requires Valid() && elm !in cells
      modifies this, cells, elm
      ensures Valid() && Elems() == InsertAt(old(Elems()), 0, elm)
    {
      assert |cells| > 1 ==> head.first == cells[1];
      elm.first := head.first;
      if elm.first != null {
        head.first.last := elm;
      } else {
        head.last := elm;
      }
      head.first := elm;
      elm.last := head;
      SplicedIsChained(cells, 0, elm);
      cells := InsertAt(cells, 1, elm);
    }

    method InsertTail(elm: Link)
      requires Valid() && elm !in cells
      modifies this, cells, elm
      ensures Valid() && Elems() == InsertAt(old(Elems()), |old(Elems())|, elm)
    {
      elm.first := null;
      elm.last := head.last;
      head.last.first := elm;
      head.last := elm;
      SplicedIsChained(cells, |cells| - 1, elm);
      cells := InsertAt(cells, |cells|, elm);
    }

    method InsertAfter(listelm: Link, elm: Link, ghost k: nat)
      requires Valid() && elm !in cells
      requires k < |Elems()| && Elems()[k] == listelm
      modifies this, cells, elm
      ensures Valid() && Elems() == InsertAt(old(Elems()), k + 1, elm)
    {
      hide InsertAt;
      assert listelm == cells[k + 1] && (k + 2 < |cells| ==> listelm.first == cells[k + 2]);
      elm.first := listelm.first;
      if elm.first != null {
        elm.first.last := elm;
      } else {
        head.last := elm;
      }
      listelm.first := elm;
      elm.last := listelm;
      SplicedIsChained(cells, k + 1, elm);
      cells := InsertAt(cells, k + 2, elm);
    }

    method InsertBefore(listelm: Link, elm: Link, ghost k: nat)
      requires Valid() && elm !in cells
      requires k < |Elems()| && Elems()[k] == listelm
      modifies this, cells, elm
      ensures Valid() && Elems() == InsertAt(old(Elems()), k, elm)
    {
      elm.last := listelm.last;
      elm.first := listelm;
      assert listelm == cells[k + 1] && listelm.last == cells[k];
      listelm.last.first := elm;
      listelm.last := elm;
      SplicedIsChained(cells, k, elm);
      cells := InsertAt(cells, k + 1, elm);
    }

    method Remove(elm: Link, ghost k: nat)
      requires Valid() && k < |Elems()| && Elems()[k] == elm
      modifies this, cells
      ensures Valid() && Elems() == RemoveAt(old(Elems()), k)
      ensures forall i :: 0 <= i < |cells| ==> cells[i] in old(cells)
      ensures elm.first == old(elm.first) && elm.last == old(elm.last)
    {
      hide RemoveAt;
      assert elm == cells[k + 1] && elm.last == cells[k] && (k + 2 < |cells| ==> elm.first == cells[k + 2]);
      if elm.first != null {
        elm.first.last := elm.last;
      } else {
        head.last := elm.last;
      }
      elm.last.first := elm.first;
      UnlinkedIsChained(cells, k + 1);
      cells := RemoveAt(cells, k + 1);
    }

    method Last() returns (r: Link?)
      requires Valid()
      ensures r == if Elems() == [] then null else Elems()[|Elems()| - 1]
    {
      StepBack(cells, 0);
      r := head.last.last.first;
    }

    method Prev(elm: Link, ghost k: nat) returns (r: Link?)
      requires Valid() && k < |Elems()| && Elems()[k] == elm
      ensures r == if k == 0 then null else Elems()[k - 1]
    {
      StepBack(cells, k + 1);
      r := elm.last.last.first;
    }

    method Foreach() returns (visited: seq<Link>)
      requires Valid()
      ensures visited == Elems()
    {
      visited := [];
      var v := head.first;
      while v != null
        invariant |visited| < |cells| && visited == cells[1..|visited| + 1]
        invariant v == if |visited| == |cells| - 1 then null else cells[|visited| + 1]
        decreases |cells| - |visited|
      {
        visited := visited + [v];
        v := v.first;
      }
    }

    method ForeachReverse() returns (visited: seq<Link>)
      requires Valid()
      ensures visited == Reverse(Elems())
    {
      visited := [];
      StepBack(cells, 0);
      var v := head.last.last.first;
      while v != null
        invariant |visited| < |cells|
        invariant forall i :: 0 <= i < |visited| ==> visited[i] == cells[|cells| - 1 - i]
        invariant v == if |visited| == |cells| - 1 then null else cells[|cells| - 1 - |visited|]
        decreases |cells| - |visited|
      {
        StepBack(cells, |cells| - 1 - |visited|);
        visited := visited + [v];
        v := v.last.last.first;
      }
    }

    /** The successor of an element, in the sense of QTAILQ_NEXT. */
    method Next(elm: Link, ghost k: nat) returns (r: Link?)
      requires Valid() && k < |Elems()| && Elems()[k] == elm
      ensures r == if k + 1 == |Elems()| then null else Elems()[k + 1]
    {
      assert cells[k + 1] == elm;
      r := elm.first;
    }

    /** One pass of the safe loop: remember the successor, then perhaps remove the element. */
    method Visit(v: Link, drop: Link -> bool, ghost kept: seq<Link>, ghost rest: seq<Link>) returns (next: Link?, ghost kept': seq<Link>)
      requires Valid() && rest != [] && rest[0] == v && Elems() == kept + rest
      modifies this, cells
      ensures Valid() && Elems() == kept' + rest[1..]
      ensures kept' == kept + (if drop(v) then [] else [v])
      ensures next == if |rest| == 1 then null else rest[1]
      ensures forall i :: 0 <= i < |cells| ==> cells[i] in old(cells)
    {
      hide Chained, RemoveAt;
      next := Next(v, |kept|);
      if drop(v) {
        RemoveAtSeam(kept, rest);
        Remove(v, |kept|);
        kept' := kept;
      } else {
        kept' := kept + [v];
      }
    }

    /** QTAILQ_FOREACH_SAFE with a body that may take the current element out. */
    method RemoveWhere(drop: Link -> bool)
      requires Valid()
      modifies this, cells
      ensures Valid() && Elems() == Keep(drop, old(Elems()))
    {
      hide Chained, RemoveAt, Keep;
      ghost var kept, rest := [], Elems();
      var v := First();
      while v != null
        invariant Valid() && forall i :: 0 <= i < |cells| ==> cells[i] in old(cells)
        invariant Elems() == kept + rest
        invariant kept + Keep(drop, rest) == Keep(drop, old(Elems()))
        invariant v == if rest == [] then null else rest[0]
        decreases |rest|
      {
        KeepUnfolds(drop, kept, rest);
        v, kept := Visit(v, drop, kept, rest);
        rest := rest[1..];
      }
      KeepNothing(drop, kept);
    }

    method First() returns (r: Link?)
      requires Valid()
      ensures r == if Elems() == [] then null else Elems()[0]
    {
      assert |cells| > 1 ==> cells[0].first == cells[1];
      r := head.first;
    }
  }
}
