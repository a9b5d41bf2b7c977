/** The weighted choice of a system call: a row of running sums and a binary search. */
module ChoiceTable {

  /** The weight of call j in a row: nothing for a disabled call. */
  function Weight(weights: seq<nat>, enabled: seq<bool>, j: nat): nat
    requires |weights| == |enabled| && j < |weights|
  {
    if enabled[j] then weights[j] else 0
  }

  /** The weights of the calls before n. */
  function Total(weights: seq<nat>, enabled: seq<bool>, n: nat): nat
    requires |weights| == |enabled| && n <= |weights|
  {
    if n == 0 then 0 else Total(weights, enabled, n - 1) + Weight(weights, enabled, n - 1)
  }

  lemma {:induction false} TotalGrows(weights: seq<nat>, enabled: seq<bool>, m: nat, n: nat)
    requires |weights| == |enabled| && m <= n <= |weights|
    ensures Total(weights, enabled, m) <= Total(weights, enabled, n)
    decreases n
  {
    if m < n {
      TotalGrows(weights, enabled, m, n - 1);
    }
  }

  /** A row holds the running sums. */
  ghost predicate IsRow(run: seq<nat>, weights: seq<nat>, enabled: seq<bool>) {
    |weights| == |enabled| == |run| && forall j :: 0 <= j < |run| ==> run[j] == Total(weights, enabled, j + 1)
  }

  method BuildRow(weights: seq<nat>, enabled: seq<bool>) returns (run: seq<nat>)
    requires |weights| == |enabled|
    ensures IsRow(run, weights, enabled)
  {
    run := [];
    var sum := 0;
    for j := 0 to |weights|
      invariant |run| == j && sum == Total(weights, enabled, j)
      invariant forall k :: 0 <= k < j ==> run[k] == Total(weights, enabled, k + 1)
    {
      if enabled[j] {
        sum := sum + weights[j];
      }
      run := run + [sum];
    }
  }

  /** The smallest index whose running sum reaches x. */
  ghost predicate Smallest(run: seq<nat>, x: nat, i: nat) {
    && i <= |run| && (forall k :: 0 <= k < i ==> run[k] < x) && (forall k :: i <= k < |run| ==> run[k] >= x)
  }

  method SearchInts(run: seq<nat>, x: nat) returns (i: nat)
    requires forall k, l :: 0 <= k <= l < |run| ==> run[k] <= run[l]
    ensures Smallest(run, x, i)
  {
    var j := |run|;
    i := 0;
    while i < j
      invariant i <= j <= |run| && (forall k :: 0 <= k < i ==> run[k] < x)
        && (forall k :: j <= k < |run| ==> run[k] >= x)
      decreases j - i
    {
      var h := (i + j) / 2;
      if run[h] < x {
        i := h + 1;
      } else {
        j := h;
      }
    }
  }

  // ---- the choice as a linear scan ----

  /** Walks over the calls from i on, taking off weights until x is used up. */
  function Scan(weights: seq<nat>, enabled: seq<bool>, i: nat, x: nat): (j: nat)
    requires |weights| == |enabled| && i <= |weights|
    ensures i <= j <= |weights|
    decreases |weights| - i
  {
    if i == |weights| then i
    else if x <= Weight(weights, enabled, i) then i
    else Scan(weights, enabled, i + 1, x - Weight(weights, enabled, i))
  }

  /** The scan stops exactly where the running sum reaches the draw. */
  lemma {:induction false} ScanStops(weights: seq<nat>, enabled: seq<bool>, i: nat, x: nat, j: nat)
    requires |weights| == |enabled| && i <= j < |weights| && 0 < x
    requires Total(weights, enabled, j) < Total(weights, enabled, i) + x <= Total(weights, enabled, j + 1)
    ensures Scan(weights, enabled, i, x) == j
    decreases j - i
  {
    if i < j {
      TotalGrows(weights, enabled, i + 1, j);
      ScanStops(weights, enabled, i + 1, x - Weight(weights, enabled, i), j);
    }
  }

  /** A draw between 1 and the total is enough to choose: the search finds an enabled call at once, the
      one that the linear scan finds. The total has to be positive. */
  method Choose(run: seq<nat>, weights: seq<nat>, enabled: seq<bool>, x: nat) returns (i: nat)
    requires IsRow(run, weights, enabled) && 1 <= x <= Total(weights, enabled, |weights|)
    ensures i < |weights| && enabled[i] && Weight(weights, enabled, i) > 0
    ensures Total(weights, enabled, i) < x <= Total(weights, enabled, i + 1)
    ensures i == Scan(weights, enabled, 0, x)
  {
    forall k, l | 0 <= k <= l < |run|
      ensures run[k] <= run[l]
    {
      TotalGrows(weights, enabled, k + 1, l + 1);
    }
    i := SearchInts(run, x);
    assert i < |run| by {
      assert run[|run| - 1] == Total(weights, enabled, |weights|);
    }
    assert Total(weights, enabled, i) < x by {
      if i > 0 {
        assert run[i - 1] < x;
      }
    }
    assert run[i] >= x && run[i] == Total(weights, enabled, i + 1);
    ScanStops(weights, enabled, 0, x, i);
  }

  // ---- how often each call is chosen ----

  /** Does draw x select call j? */
  predicate Selects(weights: seq<nat>, enabled: seq<bool>, x: nat, j: nat)
    requires |weights| == |enabled| && j < |weights|
  {
    1 <= x && Scan(weights, enabled, 0, x) == j
  }

  function Draws(weights: seq<nat>, enabled: seq<bool>, j: nat, n: nat): nat
    requires |weights| == |enabled| && j < |weights|
  {
    if n == 0 then 0 else Draws(weights, enabled, j, n - 1) + if Selects(weights, enabled, n, j) then 1 else 0
  }

  function Clamp(v: int, hi: nat): nat { if v < 0 then 0 else if v > hi then hi else v }

  lemma {:induction false} FindCall(weights: seq<nat>, enabled: seq<bool>, x: nat, n: nat) returns (i: nat)
    requires |weights| == |enabled| && n <= |weights| && 1 <= x <= Total(weights, enabled, n)
    ensures i < n && Total(weights, enabled, i) < x <= Total(weights, enabled, i + 1)
  {
    if x <= Total(weights, enabled, n - 1) {
      i := FindCall(weights, enabled, x, n - 1);
    } else {
      i := n - 1;
    }
  }

  /** Call j is selected exactly by the draws in its stretch of the running sums. */
  lemma SelectsIff(weights: seq<nat>, enabled: seq<bool>, x: nat, j: nat)
    requires |weights| == |enabled| && j < |weights| && 1 <= x <= Total(weights, enabled, |weights|)
    ensures Selects(weights, enabled, x, j) <==> Total(weights, enabled, j) < x <= Total(weights, enabled, j + 1)
  {
    var i := FindCall(weights, enabled, x, |weights|);
    ScanStops(weights, enabled, 0, x, i);
    if i < j {
      TotalGrows(weights, enabled, i + 1, j);
    }
    if j < i {
      TotalGrows(weights, enabled, j + 1, i);
    }
  }

  lemma {:induction false} DrawsUpto(weights: seq<nat>, enabled: seq<bool>, j: nat, n: nat)
    requires |weights| == |enabled| && j < |weights| && n <= Total(weights, enabled, |weights|)
    ensures Draws(weights, enabled, j, n) == Clamp(n - Total(weights, enabled, j), Weight(weights, enabled, j))
  {
    if n > 0 {
      DrawsUpto(weights, enabled, j, n - 1);
      SelectsIff(weights, enabled, n, j);
    }
  }

  /** Over all draws each call is chosen exactly as often as its weight says. */
  lemma ChosenByWeight(weights: seq<nat>, enabled: seq<bool>, j: nat)
    requires |weights| == |enabled| && j < |weights|
    ensures Draws(weights, enabled, j, Total(weights, enabled, |weights|)) == Weight(weights, enabled, j)
  {
    DrawsUpto(weights, enabled, j, Total(weights, enabled, |weights|));
    TotalGrows(weights, enabled, j + 1, |weights|);
  }
}
