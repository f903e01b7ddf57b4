module Options {
  datatype Option<+T> = None | Some(value: T)
}

/** The sequence operations that the queues are measured against. */
module Sequences {

  function InsertAt<T>(s: seq<T>, i: nat, x: T): seq<T>
    requires i <= |s|
  {
    s[..i] + [x] + s[i..]
  }

  function RemoveAt<T>(s: seq<T>, i: nat): (r: seq<T>)
    requires i < |s|
    ensures forall x :: x in r ==> x in s
  {
    s[..i] + s[i + 1..]
  }

  lemma RemoveAtSeam<T>(kept: seq<T>, rest: seq<T>)
    requires rest != []
    ensures RemoveAt(kept + rest, |kept|) == kept + rest[1..]
  {}

  function Reverse<T>(s: seq<T>): (r: seq<T>)
    ensures |r| == |s|
    ensures forall i :: 0 <= i < |s| ==> r[i] == s[|s| - 1 - i]
  {
    if s == [] then [] else Reverse(s[1..]) + [s[0]]
  }

  /** The elements that are not dropped, in order. */
  function Keep<T>(drop: T -> bool, s: seq<T>): seq<T> {
    if s == [] then [] else (if drop(s[0]) then [] else [s[0]]) + Keep(drop, s[1..])
  }

  lemma KeepUnfolds<T>(drop: T -> bool, kept: seq<T>, s: seq<T>)
    requires s != []
    ensures kept + Keep(drop, s) == (kept + if drop(s[0]) then [] else [s[0]]) + Keep(drop, s[1..])
  {}

  lemma {:induction false} DropFront<T>(drop: T -> bool, s: seq<T>, n: nat)
    requires n <= |s| && forall k :: 0 <= k < n ==> drop(s[k])
    ensures Keep(drop, s) == Keep(drop, s[n..])
  {
    if n > 0 {
      DropFront(drop, s[1..], n - 1);
      assert s[1..][n - 1..] == s[n..];
    }
  }

  lemma {:induction false} KeepFront<T>(drop: T -> bool, s: seq<T>, n: nat)
    requires n <= |s| && forall k :: 0 <= k < |s| ==> drop(s[k]) == (n <= k)
    ensures Keep(drop, s) == s[..n]
  {
    if s != [] {
      KeepFront(drop, s[1..], if n > 0 then n - 1 else 0);
      assert n > 0 ==> s[..n] == [s[0]] + s[1..][..n - 1];
    }
  }

  lemma KeepNothing<T>(drop: T -> bool, kept: seq<T>)
    ensures kept + Keep(drop, []) == kept
  {}
}
