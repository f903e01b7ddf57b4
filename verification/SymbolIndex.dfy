/**
 The debugger's symbols in two ordered sets, one by address and one by name. An ordered
 set keeps the first of several equivalent elements, so symbols with equal addresses or
 equal names may be in one set and not in the other.
 */
module SymbolIndexes {
  import opened Options
  import opened Sequences

  type Name = seq<nat>

  datatype Symbol = Symbol(start: nat, name: Name)

  // ---------- ordered sets ----------

  type Order = (Symbol, Symbol) -> bool

  ghost predicate StrictWeak(less: Order) {
    && (forall a :: !less(a, a))
    && (forall a, b, c :: less(a, b) && less(b, c) ==> less(a, c))
    && (forall a, b, c :: less(a, c) ==> less(a, b) || less(b, c))
  }

  predicate Equivalent(less: Order, a: Symbol, b: Symbol) {
    !less(a, b) && !less(b, a)
  }

  ghost predicate Sorted(less: Order, s: seq<Symbol>) {
    forall i, j :: 0 <= i < j < |s| ==> less(s[i], s[j])
  }

  /** The first element not less than x. */
  function LowerBound(less: Order, s: seq<Symbol>, x: Symbol): (i: nat)
    ensures i <= |s|
    ensures forall k :: 0 <= k < i ==> less(s[k], x)
    ensures i < |s| ==> !less(s[i], x)
  {
    if s == [] || !less(s[0], x) then 0 else LowerBound(less, s[1..], x) + 1
  }

  /** The first element greater than x. */
  function UpperBound(less: Order, s: seq<Symbol>, x: Symbol): (i: nat)
    ensures i <= |s|
    ensures forall k :: 0 <= k < i ==> !less(x, s[k])
    ensures i < |s| ==> less(x, s[i])
  {
    if s == [] || less(x, s[0]) then 0 else UpperBound(less, s[1..], x) + 1
  }

  /** Insertion does nothing when an equivalent element is there. */
  function Insert(less: Order, s: seq<Symbol>, x: Symbol): seq<Symbol> {
    var i := LowerBound(less, s, x);
    if i < |s| && !less(x, s[i]) then s else InsertAt(s, i, x)
  }

  /** The k-th symbol of the plain list is the first of its equivalence class. */
  ghost predicate FirstOfClass(less: Order, added: seq<Symbol>, k: nat) {
    k < |added| && forall m :: 0 <= m < k ==> !Equivalent(less, added[m], added[k])
  }

  ghost predicate FromList(less: Order, added: seq<Symbol>, x: Symbol) {
    exists k: nat :: FirstOfClass(less, added, k) && added[k] == x
  }

  ghost predicate Covered(less: Order, s: seq<Symbol>, y: Symbol) {
    exists i: nat :: i < |s| && Equivalent(less, s[i], y)
  }

  /** The set holds, in order, the first symbol of every class in the plain list. */
  ghost predicate Indexes(less: Order, s: seq<Symbol>, added: seq<Symbol>) {
    && Sorted(less, s)
    && (forall i :: 0 <= i < |s| ==> FromList(less, added, s[i]))
    && (forall k :: 0 <= k < |added| ==> Covered(less, s, added[k]))
  }

  lemma Between(less: Order, a: Symbol, b: Symbol, c: Symbol)
    requires StrictWeak(less) && less(a, c)
    ensures less(a, b) || less(b, c)
  {}

  lemma Transitive(less: Order, a: Symbol, b: Symbol, c: Symbol)
    requires StrictWeak(less) && less(a, b) && less(b, c)
    ensures less(a, c)
  {}

  lemma InsertKeepsIndex(less: Order, s: seq<Symbol>, added: seq<Symbol>, x: Symbol)
    requires StrictWeak(less) && Indexes(less, s, added)
    ensures Indexes(less, Insert(less, s, x), added + [x])
  {
    var s', added' := Insert(less, s, x), added + [x];
    InsertSorted(less, s, x);
    InsertCovers(less, s, x);
    InsertFromList(less, s, added, x);
    hide StrictWeak, Insert, Covered, FromList, Sorted;
  }

  lemma InsertSorted(less: Order, s: seq<Symbol>, x: Symbol)
    requires StrictWeak(less) && Sorted(less, s)
    ensures Sorted(less, Insert(less, s, x))
  {}

  lemma InsertCovers(less: Order, s: seq<Symbol>, x: Symbol)
    requires StrictWeak(less)
    ensures Covered(less, Insert(less, s, x), x)
    ensures forall y :: Covered(less, s, y) ==> Covered(less, Insert(less, s, x), y)
  {
    assert !less(x, x);
    hide StrictWeak;
    var i, s' := LowerBound(less, s, x), Insert(less, s, x);
    assert i < |s'| && Equivalent(less, s'[i], x);
    forall y | Covered(less, s, y)
      ensures Covered(less, s', y)
    {
      var j: nat :| j < |s| && Equivalent(less, s[j], y);
      assert s[j] == s'[if s' == s || j < i then j else j + 1];
    }
  }

  lemma InsertFromList(less: Order, s: seq<Symbol>, added: seq<Symbol>, x: Symbol)
    requires StrictWeak(less) && Indexes(less, s, added)
    ensures var s' := Insert(less, s, x); forall i :: 0 <= i < |s'| ==> FromList(less, added + [x], s'[i])
  {
    var i, s', added' := LowerBound(less, s, x), Insert(less, s, x), added + [x];
    if i == |s| || less(x, s[i]) {
      NewClass(less, s, added, x);
      assert FirstOfClass(less, added', |added|) && added'[|added|] == x;
    }
    hide StrictWeak;
    forall j | 0 <= j < |s|
      ensures FromList(less, added', s[j])
    {
      assert FromList(less, added, s[j]);
      var k: nat :| FirstOfClass(less, added, k) && added[k] == s[j];
      assert FirstOfClass(less, added', k) && added'[k] == s[j];
    }
  }

  /** When the set has no element equivalent to x, neither has the plain list. */
  lemma NewClass(less: Order, s: seq<Symbol>, added: seq<Symbol>, x: Symbol)
    requires StrictWeak(less) && Indexes(less, s, added)
    requires var i := LowerBound(less, s, x); i == |s| || less(x, s[i])
    ensures forall m :: 0 <= m < |added| ==> !Equivalent(less, added[m], x)
  {
    hide StrictWeak;
    var i := LowerBound(less, s, x);
    forall m | 0 <= m < |added|
      ensures !Equivalent(less, added[m], x)
    {
      var y := added[m];
      assert Covered(less, s, y);
      var j: nat :| j < |s| && Equivalent(less, s[j], y);
      if j < i {
        Between(less, s[j], y, x);
      } else {
        if i < j {
          Transitive(less, x, s[i], s[j]);
        }
        Between(less, x, y, s[j]);
      }
    }
  }

  // ---------- the two orders ----------

  function ByStart(): Order {
    (a: Symbol, b: Symbol) => a.start < b.start
  }

  /** Byte-wise order of names, as `strcoll` orders them in the C locale. */
  predicate Before(a: Name, b: Name) {
    if b == [] then false
    else if a == [] then true
    else if a[0] != b[0] then a[0] < b[0]
    else Before(a[1..], b[1..])
  }

  function ByName(): Order {
    (a: Symbol, b: Symbol) => Before(a.name, b.name)
  }

  lemma {:induction false} BeforeIrreflexive(a: Name)
    ensures !Before(a, a)
  {
    if a != [] {
      BeforeIrreflexive(a[1..]);
    }
  }

  lemma {:induction false} BeforeTransitive(a: Name, b: Name, c: Name)
    requires Before(a, b) && Before(b, c)
    ensures Before(a, c)
  {
    if a != [] && b != [] && c != [] && a[0] == b[0] == c[0] {
      BeforeTransitive(a[1..], b[1..], c[1..]);
    }
  }

  lemma {:induction false} BeforeTotal(a: Name, b: Name)
    ensures Before(a, b) || Before(b, a) || a == b
  {
    if a != [] && b != [] && a[0] == b[0] {
      BeforeTotal(a[1..], b[1..]);
      assert a == [a[0]] + a[1..] && b == [b[0]] + b[1..];
    }
  }

  lemma OrdersAreStrictWeak()
    ensures StrictWeak(ByStart()) && StrictWeak(ByName())
  {
    forall a: Symbol
      ensures !ByName()(a, a)
    {
      BeforeIrreflexive(a.name);
    }
    forall a: Symbol, b: Symbol, c: Symbol
      ensures ByName()(a, b) && ByName()(b, c) ==> ByName()(a, c)
      ensures ByName()(a, c) ==> ByName()(a, b) || ByName()(b, c)
    {
      if Before(a.name, b.name) && Before(b.name, c.name) {
        BeforeTransitive(a.name, b.name, c.name);
      }
      if Before(a.name, c.name) && !Before(a.name, b.name) {
        BeforeTotal(a.name, b.name);
        if Before(b.name, a.name) {
          BeforeTransitive(b.name, a.name, c.name);
        }
      }
    }
  }

  lemma SameNameIffEquivalent(a: Symbol, b: Symbol)
    ensures Equivalent(ByName(), a, b) <==> a.name == b.name
  {
    BeforeTotal(a.name, b.name);
    BeforeIrreflexive(a.name);
  }

  /** Of two names that differ first at byte k, the one with the smaller byte there comes first. */
  lemma {:induction false} FirstDifferenceDecides(a: Name, b: Name, k: nat)
    requires k < |a| && k < |b| && a[k] != b[k] && forall i :: 0 <= i < k ==> a[i] == b[i]
    ensures Before(a, b) <==> a[k] < b[k]
  {
    if k > 0 {
      assert a[0] == b[0];
      FirstDifferenceDecides(a[1..], b[1..], k - 1);
    }
  }

  /** A name comes after its proper prefixes. */
  lemma {:induction false} PrefixComesFirst(a: Name, b: Name)
    requires a < b
    ensures Before(a, b) && !Before(b, a)
  {
    if a != [] {
      assert a[0] == b[0] && a[1..] < b[1..];
      PrefixComesFirst(a[1..], b[1..]);
    }
  }

  /** The sets hold the first symbol added at each address, and under each name. */
  lemma FirstsOnly(added: seq<Symbol>, x: Symbol)
    ensures FromList(ByStart(), added, x) <==>
            exists k: nat :: k < |added| && added[k] == x && forall m :: 0 <= m < k ==> added[m].start != x.start
    ensures FromList(ByName(), added, x) <==>
            exists k: nat :: k < |added| && added[k] == x && forall m :: 0 <= m < k ==> added[m].name != x.name
  {
    forall k: nat | k < |added| && added[k] == x
      ensures FirstOfClass(ByStart(), added, k) <==> forall m :: 0 <= m < k ==> added[m].start != x.start
      ensures FirstOfClass(ByName(), added, k) <==> forall m :: 0 <= m < k ==> added[m].name != x.name
    {
      forall m | 0 <= m < k
        ensures Equivalent(ByStart(), added[m], x) <==> added[m].start == x.start
        ensures Equivalent(ByName(), added[m], x) <==> added[m].name == x.name
      {
        SameNameIffEquivalent(added[m], x);
      }
    }
  }

  // ---------- prefixes ----------

  /** `bx_dbg_strprefix` */
  predicate IsPrefix(p: Name, s: Name) {
    |p| <= |s| && s[..|p|] == p
  }

  lemma PrefixOperator(p: Name)
    ensures forall s: Name :: IsPrefix(p, s) <==> p <= s
  {}

  lemma {:induction false} PrefixNotAfter(p: Name, s: Name)
    requires IsPrefix(p, s)
    ensures !Before(s, p)
  {
    if p != [] {
      assert s[0] == s[..|p|][0] && s[1..][..|p| - 1] == s[..|p|][1..];
      PrefixNotAfter(p[1..], s[1..]);
    }
  }

  /** Names between a prefix and a name that has it have it too. */
  lemma {:induction false} PrefixesAreConsecutive(p: Name, t: Name, s: Name)
    requires IsPrefix(p, s) && !Before(t, p) && Before(t, s)
    ensures IsPrefix(p, t)
  {
    if p != [] {
      assert s[0] == s[..|p|][0] && s[1..][..|p| - 1] == s[..|p|][1..];
      PrefixesAreConsecutive(p[1..], t[1..], s[1..]);
      assert t[..|p|] == [t[0]] + t[1..][..|p| - 1];
    }
  }

  lemma IndexIsSorted(less: Order, s: seq<Symbol>, added: seq<Symbol>)
    requires Indexes(less, s, added)
    ensures Sorted(less, s)
  {}

  /** The names with a prefix stand together, from the prefix's lower bound on. */
  lemma MatchesAreARange(s: seq<Symbol>, p: Name, from: nat, to: nat)
    requires Sorted(ByName(), s) && from == LowerBound(ByName(), s, Symbol(0, p)) && from <= to <= |s|
    requires forall k :: from <= k < to ==> IsPrefix(p, s[k].name)
    requires to < |s| ==> !IsPrefix(p, s[to].name)
    ensures forall k :: 0 <= k < |s| ==> (IsPrefix(p, s[k].name) <==> from <= k < to)
  {
    hide Before, IsPrefix, Sorted;
    forall k | 0 <= k < |s|
      ensures IsPrefix(p, s[k].name) <==> from <= k < to
    {
      if k < from {
        assert ByName()(s[k], Symbol(0, p));
        if IsPrefix(p, s[k].name) {
          PrefixNotAfter(p, s[k].name);
        }
      } else if k > to && IsPrefix(p, s[k].name) {
        assert ByName()(s[to], s[k]) by { SortedAt(s, to, k); }
        if Before(s[to].name, p) && from < to {
          assert ByName()(s[from], s[to]) by { SortedAt(s, from, to); }
          BeforeTransitive(s[from].name, s[to].name, p);
        }
        PrefixesAreConsecutive(p, s[to].name, s[k].name);
      }
    }
  }

  lemma SortedAt(s: seq<Symbol>, i: nat, j: nat)
    requires Sorted(ByName(), s) && i < j < |s|
    ensures ByName()(s[i], s[j])
  {}

  lemma KeepRange(drop: Symbol -> bool, s: seq<Symbol>, from: nat, to: nat)
    requires from <= to <= |s|
    requires forall k :: 0 <= k < |s| ==> (drop(s[k]) <==> !(from <= k < to))
    ensures Keep(drop, s) == s[from..to]
  {
    hide Keep;
    DropFront(drop, s, from);
    KeepFront(drop, s[from..], to - from);
  }

  /** The set by name holds exactly the first symbol added under each name. */
  lemma NamesInSet(s: seq<Symbol>, added: seq<Symbol>, x: Symbol)
    requires Indexes(ByName(), s, added)
    ensures x in s <==> FromList(ByName(), added, x)
  {
    hide Before, Sorted;
    if FromList(ByName(), added, x) {
      var k: nat :| FirstOfClass(ByName(), added, k) && added[k] == x;
      assert Covered(ByName(), s, added[k]);
      var j: nat :| j < |s| && Equivalent(ByName(), s[j], added[k]);
      assert FromList(ByName(), added, s[j]);
      var m: nat :| FirstOfClass(ByName(), added, m) && added[m] == s[j];
      SameNameIffEquivalent(added[m], added[k]);
      SameNameIffEquivalent(added[k], added[m]);
    }
  }

  lemma ListedMembers(s: seq<Symbol>, added: seq<Symbol>, p: Name, from: nat, to: nat)
    requires Indexes(ByName(), s, added) && from <= to <= |s|
    requires forall k :: 0 <= k < |s| ==> (IsPrefix(p, s[k].name) <==> from <= k < to)
    ensures forall x :: x in s[from..to] <==> FromList(ByName(), added, x) && IsPrefix(p, x.name)
  {
    hide Indexes, FromList, IsPrefix;
    forall x
      ensures x in s[from..to] <==> FromList(ByName(), added, x) && IsPrefix(p, x.name)
    {
      NamesInSet(s, added, x);
      if k: nat :| k < |s| && s[k] == x && IsPrefix(p, x.name) {
        assert s[from..to][k - from] == x;
      }
    }
  }

  // ---------- the context ----------

  /** x is the first symbol added at its address, at or below ip, with none nearer. */
  ghost predicate Nearest(added: seq<Symbol>, ip: nat, x: Symbol) {
    && FromList(ByStart(), added, x) && x.start <= ip
    && (forall k :: 0 <= k < |added| && added[k].start <= ip ==> added[k].start <= x.start)
  }

  ghost predicate SomeAbove(added: seq<Symbol>, ip: nat) {
    exists k :: 0 <= k < |added| && added[k].start > ip
  }

  class Context {
    var syms: seq<Symbol>
    var rsyms: seq<Symbol>
    /** The plain list: every symbol added, in order. */
    ghost var added: seq<Symbol>

    ghost predicate Valid()
      reads this
    {
      Indexes(ByStart(), syms, added) && Indexes(ByName(), rsyms, added)
    }

    constructor ()
      ensures Valid() && added == []
    {
      syms, rsyms, added := [], [], [];
    }

    method AddSymbol(sym: Symbol)
      requires Valid()
      modifies this
      ensures Valid() && added == old(added) + [sym]
    {
      hide Indexes, StrictWeak, Insert, Before;
      OrdersAreStrictWeak();
      InsertKeepsIndex(ByStart(), syms, added, sym);
      InsertKeepsIndex(ByName(), rsyms, added, sym);
      syms := Insert(ByStart(), syms, sym);
      rsyms := Insert(ByName(), rsyms, sym);
      added := added + [sym];
    }

    /** The symbol for an address: the one in front of the first symbol above it. */
    function SymbolAt(ip: nat): Option<Symbol>
      reads this
    {
      var i := UpperBound(ByStart(), syms, Symbol(ip, []));
      if syms == [] || i == |syms| || i == 0 then None else Some(syms[i - 1])
    }

    /**
     An address lookup returns the nearest symbol at or below the address exactly when some
     symbol lies above the address as well; otherwise it returns nothing.
     */
    lemma AddressLookup(ip: nat)
      requires Valid()
      ensures SymbolAt(ip).Some? ==> Nearest(added, ip, SymbolAt(ip).value)
      ensures SymbolAt(ip).Some? <==> SomeAbove(added, ip) && exists k :: 0 <= k < |added| && added[k].start <= ip
    {
      hide FirstOfClass, Indexes;
      var i := UpperBound(ByStart(), syms, Symbol(ip, []));
      assert forall k :: 0 <= k < i ==> syms[k].start <= ip;
      if i < |syms| {
        var above := InList(ByStart(), syms, added, i);
        assert added[above].start > ip;
      }
      if 0 < i {
        var below := InList(ByStart(), syms, added, i - 1);
        assert added[below].start <= ip;
      }
      forall k | 0 <= k < |added|
        ensures added[k].start <= ip ==> 0 < i && added[k].start <= syms[i - 1].start
        ensures added[k].start > ip ==> i < |syms|
      {
        PlaceOfSymbol(ip, i, k);
      }
    }

    /** Where the k-th symbol added stands relative to position i of the set, the first above the address. */
    lemma PlaceOfSymbol(ip: nat, i: nat, k: nat)
      requires Valid() && k < |added| && i <= |syms|
      requires 0 < i ==> syms[i - 1].start <= ip
      requires i < |syms| ==> ip < syms[i].start
      ensures added[k].start <= ip ==> 0 < i && added[k].start <= syms[i - 1].start
      ensures added[k].start > ip ==> i < |syms|
    {
      hide Indexes, Before;
      var j := SymbolWithStart(k);
      if j < i - 1 {
        StartsIncrease(j, i - 1);
      }
      if i < j {
        StartsIncrease(i, j);
      }
    }

    lemma SymbolWithStart(k: nat) returns (j: nat)
      requires Valid() && k < |added|
      ensures j < |syms| && syms[j].start == added[k].start
    {
      hide Indexes, Before;
      j := InSet(ByStart(), syms, added, k);
      assert ByStart()(syms[j], added[k]) == (syms[j].start < added[k].start);
      assert ByStart()(added[k], syms[j]) == (added[k].start < syms[j].start);
    }

    lemma StartsIncrease(a: nat, b: nat)
      requires Valid() && a < b < |syms|
      ensures syms[a].start < syms[b].start
    {
      hide Indexes, Before;
      IndexIsSorted(ByStart(), syms, added);
      assert ByStart()(syms[a], syms[b]);
    }

    lemma InList(less: Order, s: seq<Symbol>, list: seq<Symbol>, i: nat) returns (k: nat)
      requires Indexes(less, s, list) && i < |s|
      ensures FirstOfClass(less, list, k) && k < |list| && list[k] == s[i] && FromList(less, list, s[i])
    {
      assert FromList(less, list, s[i]);
      k :| FirstOfClass(less, list, k) && list[k] == s[i];
    }

    lemma InSet(less: Order, s: seq<Symbol>, list: seq<Symbol>, k: nat) returns (j: nat)
      requires Indexes(less, s, list) && k < |list|
      ensures j < |s| && Equivalent(less, s[j], list[k])
    {
      assert Covered(less, s, list[k]);
      j :| j < |s| && Equivalent(less, s[j], list[k]);
    }

    function SymbolNamed(name: Name): Option<Symbol>
      reads this
    {
      var probe := Symbol(0, name);
      var i := LowerBound(ByName(), rsyms, probe);
      if rsyms == [] || i == |rsyms| || ByName()(probe, rsyms[i]) then None else Some(rsyms[i])
    }

    /** A name lookup returns the first symbol added under the name, if there is one. */
    lemma NameLookup(name: Name)
      requires Valid()
      ensures SymbolNamed(name).Some? ==> FromList(ByName(), added, SymbolNamed(name).value) && SymbolNamed(name).value.name == name
      ensures SymbolNamed(name).None? ==> forall k :: 0 <= k < |added| ==> added[k].name != name
    {
      hide StrictWeak, Before, Covered, Sorted;
      var probe := Symbol(0, name);
      var i := LowerBound(ByName(), rsyms, probe);
      if i < |rsyms| && !ByName()(probe, rsyms[i]) {
        SameNameIffEquivalent(rsyms[i], probe);
      } else {
        OrdersAreStrictWeak();
        NewClass(ByName(), rsyms, added, probe);
        forall k | 0 <= k < |added|
          ensures added[k].name != name
        {
          SameNameIffEquivalent(added[k], probe);
        }
      }
    }

    /** The walk from the lower bound of a prefix while the prefix matches. */
    method WalkPrefix(prefix: Name) returns (listed: seq<Symbol>)
      requires Valid()
      ensures listed == Keep((s: Symbol) => !IsPrefix(prefix, s.name), rsyms)
      ensures forall x :: x in listed <==> FromList(ByName(), added, x) && prefix <= x.name
      ensures forall i, j :: 0 <= i < j < |listed| ==> Before(listed[i].name, listed[j].name)
    {
      PrefixOperator(prefix);
      hide Indexes, Keep, IsPrefix, FromList, Sorted;
      var from := LowerBound(ByName(), rsyms, Symbol(0, prefix));
      var to := EndOfMatches(from, prefix);
      listed := rsyms[from..to];
      IndexIsSorted(ByName(), rsyms, added);
      MatchesAreARange(rsyms, prefix, from, to);
      KeepRange((s: Symbol) => !IsPrefix(prefix, s.name), rsyms, from, to);
      ListedMembers(rsyms, added, prefix, from, to);
      forall i, j | 0 <= i < j < |listed|
        ensures Before(listed[i].name, listed[j].name)
      {
        SortedAt(rsyms, from + i, from + j);
      }
    }

    /** The loop of the walk. */
    method EndOfMatches(from: nat, prefix: Name) returns (to: nat)
      requires from <= |rsyms|
      ensures from <= to <= |rsyms|
      ensures forall k :: from <= k < to ==> IsPrefix(prefix, rsyms[k].name)
      ensures to < |rsyms| ==> !IsPrefix(prefix, rsyms[to].name)
    {
      to := from;
      while to < |rsyms| && IsPrefix(prefix, rsyms[to].name)
        invariant from <= to <= |rsyms|
        invariant forall k :: from <= k < to ==> IsPrefix(prefix, rsyms[k].name)
      {
        to := to + 1;
      }
    }
  }
}
