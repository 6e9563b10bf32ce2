/** Maximal runs of set bits, counted by length. */
module Runs {

  /** The length of the run of set bits that ends just before `n`. */
  function RunBefore(bits: seq<bool>, n: nat): (r: nat)
    requires n <= |bits|
    ensures r <= n
  {
    if n == 0 || !bits[n - 1] then 0 else 1 + RunBefore(bits, n - 1)
  }

  /** A maximal run ends just before `n`: the bit before is set, the next one is clear or missing. */
  predicate RunEnds(bits: seq<bool>, n: nat)
    requires n <= |bits|
  {
    0 < n && bits[n - 1] && (n < |bits| ==> !bits[n])
  }

  function Clamp(len: nat, cap: nat): nat {
    if len > cap then cap else len
  }

  /** The number of maximal runs among the first `n` bits whose length, cut to `cap`, is `k`. */
  function RunCount(bits: seq<bool>, cap: nat, k: nat, n: nat): nat
    requires n <= |bits|
  {
    if n == 0 then 0
    else
      var here := if RunEnds(bits, n) && Clamp(RunBefore(bits, n), cap) == k then 1 else 0;
      RunCount(bits, cap, k, n - 1) + here
  }

  /** All of them. */
  function Histogram(bits: seq<bool>, cap: nat, k: nat): nat {
    RunCount(bits, cap, k, |bits|)
  }

  lemma {:induction false} RunBeforeIs(bits: seq<bool>, n: nat)
    requires n <= |bits|
    ensures forall i :: n - RunBefore(bits, n) <= i < n ==> bits[i]
    ensures RunBefore(bits, n) < n ==> !bits[n - RunBefore(bits, n) - 1]
  {
    if n > 0 && bits[n - 1] {
      RunBeforeIs(bits, n - 1);
    }
  }

  /** A run is maximal: the bits of [s, e) are set and its neighbours are not. */
  predicate IsRun(bits: seq<bool>, s: nat, e: nat) {
    && s < e <= |bits| && (forall i :: s <= i < e ==> bits[i])
    && (s > 0 ==> !bits[s - 1]) && (e < |bits| ==> !bits[e])
  }

  /** Ends of runs and maximal runs are the same thing, so counting ends counts runs. */
  lemma RunsAreTheirEnds(bits: seq<bool>, s: nat, e: nat)
    requires s <= e <= |bits|
    ensures IsRun(bits, s, e) <==> RunEnds(bits, e) && RunBefore(bits, e) == e - s
  {
    RunBeforeIs(bits, e);
    if IsRun(bits, s, e) {
      assert RunBefore(bits, e) > e - s ==> s > 0;
    }
  }
}
