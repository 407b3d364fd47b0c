/**
  Rails: can the trains 1..n, arriving from station A in increasing order,
  leave towards B in a requested order when a dead-end siding (a stack)
  may hold trains in between?

  Station A is a single counter `a` (the next train still waiting there);
  the siding is a stack of train numbers, bottom first.
 */
module Railroads {

  /** Strictly increasing from bottom (index 0) to top. */
  predicate Increasing(s: seq<nat>)
  {
    forall i, j :: 0 <= i < j < |s| ==> s[i] < s[j]
  }

  /** The trains a, a+1, ..., b-1 in that order (empty when b <= a). */
  function Range(a: nat, b: nat): (r: seq<nat>)
    ensures |r| == if a <= b then b - a else 0
    ensures forall t :: 0 <= t < |r| ==> r[t] == a + t
    decreases b - a
  {
    if a >= b then [] else [a] + Range(a + 1, b)
  }

  /** The top of the siding, with 0 standing for an empty siding. */
  function Top(station: seq<nat>): (r: nat)
    ensures station != [] ==> r in station
    ensures Increasing(station) ==> forall t :: 0 <= t < |station| ==> station[t] <= r
  {
    if station == [] then 0 else station[|station| - 1]
  }

  /** The siding's invariant: increasing, and every train on it is one that
      already left A (1 <= t < a). */
  predicate SidingOk(a: nat, station: seq<nat>)
  {
    && 1 <= a
    && Increasing(station)
    && forall t :: 0 <= t < |station| ==> 1 <= station[t] < a
  }

  datatype StepResult = Stuck | Moved(a: nat, station: seq<nat>)

  /**
    One iteration of the loop for the requested train `train`: if it is
    still at A, every train before it goes onto the siding and it leaves;
    otherwise it must be on top of the siding (an empty siding reads as 0);
    otherwise the order is impossible and the loop stops.
   */
  function Step(a: nat, station: seq<nat>, train: nat): (r: StepResult)
    requires SidingOk(a, station)
    ensures r.Stuck? <==> train < a && train != Top(station)
    // `a` never decreases, and it moves only to train + 1 for a train still at A
    ensures r.Moved? ==> a <= r.a
    ensures r.Moved? && r.a != a ==> a <= train && r.a == train + 1
    ensures r.Moved? && a <= train ==> r.a == train + 1 && r.station == station + Range(a, train)
    // otherwise the train was popped from the top of the siding
    ensures r.Moved? && train < a ==>
              r.a == a && (station == [] ==> train == 0 && r.station == [])
                       && (station != [] ==> train == station[|station| - 1] && r.station == station[..|station| - 1])
    // the siding's invariant is kept
    ensures r.Moved? ==> SidingOk(r.a, r.station)
    // every step sends exactly one train to B, except a 0 read against an empty siding
    ensures r.Moved? ==> r.a - |r.station| == a - |station| + (if train == 0 then 0 else 1)
  {
    if a <= train then
      Moved(train + 1, station + Range(a, train))
    else if train == Top(station) then
      Moved(a, if station == [] then [] else station[..|station| - 1])
    else
      Stuck
  }

  /** The requested order is a permutation of 1..n. */
  predicate IsPermutation(v: seq<nat>, n: nat)
  {
    && |v| == n
    && (forall k :: 0 <= k < n ==> 1 <= v[k] <= n)
    && (forall i, j :: 0 <= i < j < n ==> v[i] != v[j])
  }

  /**
    The loop of the program's main routine for one requested order `v`:
    `yes` is the printed answer, `a` and `station` are the final state of
    station A and of the siding, and `stopped` is the number of trains
    handled before the loop ended (|v| unless it took the early exit).
   */
  method Check(n: nat, v: seq<nat>) returns (yes: bool, a: nat, station: seq<nat>, ghost stopped: nat)
    ensures stopped <= |v|
    ensures yes <==> a - 1 == n && station == []
    ensures SidingOk(a, station)
    // a train that left A is either on the siding or already gone to B, never both
    ensures forall t :: 1 <= t < a ==> (t in station <==> t !in v[..stopped])
    // leaving the loop early always answers "No" for an order of n trains
    ensures |v| == n && stopped < |v| ==> !yes
    // for a permutation of 1..n the answer is "Yes" exactly when no step got stuck
    ensures IsPermutation(v, n) ==> (yes <==> stopped == |v|)
  {
    station := [];
    a := 1;
    var k := 0;
    ghost var idle := 0;  // steps that read a 0 against an empty siding
    while k < |v|
      invariant 0 <= idle <= k <= |v|
      invariant SidingOk(a, station)
      invariant a - 1 - |station| + idle == k
      invariant (forall j :: 0 <= j < k ==> v[j] != 0) ==> idle == 0
      // every handled train has left A, and a - 1 is the largest one handled
      invariant forall j :: 0 <= j < k ==> v[j] < a
      invariant a == 1 || exists j :: 0 <= j < k && v[j] == a - 1
      invariant forall t :: 1 <= t < a ==> (t in station <==> t !in v[..k])
    {
      var r := Step(a, station, v[k]);
      if r.Stuck? {
        break;
      }
      StepKeepsPartition(a, station, v[..k], v[k], r);
      assert v[..k + 1] == v[..k] + [v[k]];
      if v[k] == 0 {
        idle := idle + 1;
      }
      a, station := r.a, r.station;
      k := k + 1;
    }
    stopped := k;
    yes := a - 1 == n && station == [];
    if IsPermutation(v, n) && stopped == |v| && a != 1 {
      var j :| 0 <= j < k && v[j] == a - 1;
    }
  }

  /** The partition "on the siding xor already handled" survives a step. */
  lemma StepKeepsPartition(a: nat, station: seq<nat>, done: seq<nat>, train: nat, r: StepResult)
    requires SidingOk(a, station)
    requires forall j :: 0 <= j < |done| ==> done[j] < a
    requires forall t :: 1 <= t < a ==> (t in station <==> t !in done)
    requires r == Step(a, station, train) && r.Moved?
    ensures forall t :: 1 <= t < r.a ==> (t in r.station <==> t !in done + [train])
  {
    RangeMembers(a, train);
    forall t | 1 <= t < r.a
      ensures t in r.station <==> t !in done + [train]
    {
      if a <= train {
        if t < a {
          assert t != train;
        } else if t < train {
          assert t in Range(a, train);
        } else {
          assert t == train;
        }
      } else if station != [] {
        var top := |station| - 1;
        assert station == station[..top] + [station[top]];
        assert forall i :: 0 <= i < top ==> station[..top][i] < station[top];
      }
    }
  }

  lemma RangeMembers(a: nat, b: nat)
    ensures forall t :: t in Range(a, b) <==> a <= t < b
  {
    forall t | a <= t < b
      ensures t in Range(a, b)
    {
      assert Range(a, b)[t - a] == t;
    }
  }

}
