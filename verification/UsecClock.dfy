/**
 The microsecond time that never repeats: callers that ask several times within one
 microsecond are given the following ones in advance.
 */
module UsecClocks {

  import opened Timers

  function Max(a: nat, b: nat): nat {
    if a < b then b else a
  }

  class SequentialClock {
    var lastTimeUsec: nat
    var usecSinceLast: nat

    /** The last time handed out. */
    ghost function Last(): nat
      reads this
    {
      lastTimeUsec + usecSinceLast
    }

    constructor ()
      ensures lastTimeUsec == 0 && Last() == 0
    {
      lastTimeUsec, usecSinceLast := 0, 0;
    }

    method TimeUsecSequential(thisTimeUsec: nat) returns (r: nat)
      requires lastTimeUsec <= thisTimeUsec && Max(Last(), thisTimeUsec) + 1 < TWO64
      modifies this
      ensures r == Max(old(Last()), thisTimeUsec) + 1
      ensures Last() == r && lastTimeUsec == thisTimeUsec
    {
      hide U64;
      if thisTimeUsec != lastTimeUsec {
        var diffUsec := U64(thisTimeUsec - lastTimeUsec);
        lastTimeUsec := thisTimeUsec;
        if diffUsec >= usecSinceLast {
          usecSinceLast := 0;
        } else {
          usecSinceLast := U64(usecSinceLast - diffUsec);
        }
      }
      usecSinceLast := U64(usecSinceLast + 1);
      return U64(thisTimeUsec + usecSinceLast);
    }

    /** A run of calls while the clock does not go back. */
    method Run(times: seq<nat>) returns (results: seq<nat>)
      requires lastTimeUsec == 0 && Last() == 0 && NeverGoesBack(times)
      requires forall k :: 0 <= k < |times| ==> Result(times, k) < TWO64
      modifies this
      ensures |results| == |times| && forall k :: 0 <= k < |times| ==> results[k] == Result(times, k)
    {
      hide Result, Max;
      results := [];
      for k := 0 to |times|
        invariant |results| == k && forall j :: 0 <= j < k ==> results[j] == Result(times, j)
        invariant Last() == if k == 0 then 0 else Result(times, k - 1)
        invariant k < |times| ==> lastTimeUsec <= times[k]
      {
        ResultUnfolds(times, k);
        var r := TimeUsecSequential(times[k]);
        results := results + [r];
      }
    }
  }

  predicate NeverGoesBack(times: seq<nat>) {
    forall i, j :: 0 <= i < j < |times| ==> times[i] <= times[j]
  }

  /** The k-th result: one more than the larger of the result before it and the time. */
  function Result(times: seq<nat>, k: nat): nat
    requires k < |times|
  {
    Max(if k == 0 then 0 else Result(times, k - 1), times[k]) + 1
  }

  lemma ResultUnfolds(times: seq<nat>, k: nat)
    requires k < |times|
    ensures Result(times, k) == Max(if k == 0 then 0 else Result(times, k - 1), times[k]) + 1
  {}

  /** Results keep increasing. */
  lemma {:induction false} ResultsIncrease(times: seq<nat>, i: nat, k: nat)
    requires NeverGoesBack(times) && i < k < |times|
    ensures Result(times, i) < Result(times, k)
    decreases k
  {
    if i < k - 1 {
      ResultsIncrease(times, i, k - 1);
    }
  }

  /**
   What a result owes to the past: the k-th is the largest of t(j) + (k - j) + 1 over the
   calls j up to it, and at least k + 1.
   */
  lemma {:induction false} ResultIsLargestDebt(times: seq<nat>, k: nat) returns (j: int)
    requires k < |times|
    ensures -1 <= j <= k && Result(times, k) == (if j == -1 then 0 else times[j]) + (if j == -1 then k else k - j) + 1
    ensures forall i :: 0 <= i <= k ==> times[i] + (k - i) + 1 <= Result(times, k)
    ensures k + 1 <= Result(times, k)
  {
    j := k;
    if k == 0 {
      if times[0] == 0 {
        j := -1;
      }
    } else {
      var before := ResultIsLargestDebt(times, k - 1);
      if times[k] < Result(times, k - 1) {
        j := before;
      }
    }
  }
}
