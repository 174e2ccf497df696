/** Memoised 0/1 knapsack (`knapsack`, `helper`).

    `helper(k, i)` is the best total value of a choice among items `0..i`
    whose total weight is at most `k`. The table `dp[i][k]` caches results,
    with `-1` for an entry not computed yet. `helper` returns 0 as soon
    as `k == 0`, before looking at the items; that is only right when no item
    weighs 0 (see `BestAsWritten` and `Best` below). Values are unbounded
    integers: the 32-bit overflow of large sums is not modelled. */
module Knapsack {

  /** The inputs modelled: every item `0..|val|-1` has a weight, and those
      weights are non-negative. With `W >= 1` a negative weight on an item
      `i >= 1` makes `helper(W, i)` look up column `W - wt[i]`, past `W`, so
      Java throws; a negative weight on item 0, or any weight when `W == 0`,
      gives a result without error, which is not modelled. Weights past the
      last value are never read, as `knapsack` reads only `val.length` items. */
  ghost predicate WellFormed(val: seq<int>, wt: seq<int>)
  {
    |val| <= |wt| && forall j :: 0 <= j < |val| ==> wt[j] >= 0
  }

  /** Total weight of the items picked by `sel` (item `j` is picked when
      `sel[j]`). */
  function SelWeight(wt: seq<int>, sel: seq<bool>): int
    requires |sel| <= |wt|
  {
    if sel == [] then 0
    else SelWeight(wt, sel[..|sel| - 1]) + (if sel[|sel| - 1] then wt[|sel| - 1] else 0)
  }

  /** Total value of the items picked by `sel`. */
  function SelValue(val: seq<int>, sel: seq<bool>): int
    requires |sel| <= |val|
  {
    if sel == [] then 0
    else SelValue(val, sel[..|sel| - 1]) + (if sel[|sel| - 1] then val[|sel| - 1] else 0)
  }

  /** `sel` picks among items `0..i` and fits in capacity `k`. */
  ghost predicate Feasible(wt: seq<int>, sel: seq<bool>, k: int, i: int)
    requires -1 <= i < |wt|
  {
    |sel| == i + 1 && SelWeight(wt, sel) <= k
  }

  /** The recursion of `helper` exactly as written, including the early
      `return 0` when the capacity is 0. */
  function BestAsWritten(val: seq<int>, wt: seq<int>, k: int, i: int): int
    requires WellFormed(val, wt) && k >= 0 && -1 <= i < |val|
    decreases i + 1
  {
    if i < 0 || k == 0 then 0
    else
      var x := BestAsWritten(val, wt, k, i - 1);
      var y := if wt[i] <= k then BestAsWritten(val, wt, k - wt[i], i - 1) + val[i] else 0;
      if x >= y then x else y
  }

  /** The recursion without the early return at capacity 0: the optimum
      also when some item weighs 0. */
  function Best(val: seq<int>, wt: seq<int>, k: int, i: int): int
    requires WellFormed(val, wt) && k >= 0 && -1 <= i < |val|
    decreases i + 1
  {
    if i < 0 then 0
    else
      var x := Best(val, wt, k, i - 1);
      var y := if wt[i] <= k then Best(val, wt, k - wt[i], i - 1) + val[i] else 0;
      if x >= y then x else y
  }

  /** A choice achieving `Best`: an item is taken only when it fits. */
  function BestChoice(val: seq<int>, wt: seq<int>, k: int, i: int): (sel: seq<bool>)
    requires WellFormed(val, wt) && k >= 0 && -1 <= i < |val|
    ensures Feasible(wt, sel, k, i)
    ensures SelValue(val, sel) == Best(val, wt, k, i)
    ensures i >= 0 && sel[i] ==> wt[i] <= k
    decreases i + 1
  {
    if i < 0 then []
    else
      var x := Best(val, wt, k, i - 1);
      var y := if wt[i] <= k then Best(val, wt, k - wt[i], i - 1) + val[i] else 0;
      BestNonNegative(val, wt, k, i - 1);
      if wt[i] <= k && x < y then BestChoice(val, wt, k - wt[i], i - 1) + [true]
      else BestChoice(val, wt, k, i - 1) + [false]
  }

  /** No feasible choice beats `Best`. */
  lemma {:induction false} BestIsUpperBound(val: seq<int>, wt: seq<int>, k: int, i: int, sel: seq<bool>)
    requires WellFormed(val, wt) && k >= 0 && -1 <= i < |val|
    requires Feasible(wt, sel, k, i)
    ensures SelValue(val, sel) <= Best(val, wt, k, i)
    decreases i + 1
  {
    if i >= 0 {
      var rest := sel[..i];
      SelWeightNonNegative(wt, rest);
      if sel[i] {
        BestIsUpperBound(val, wt, k - wt[i], i - 1, rest);
      } else {
        BestIsUpperBound(val, wt, k, i - 1, rest);
      }
    }
  }

  lemma {:induction false} SelWeightNonNegative(wt: seq<int>, sel: seq<bool>)
    requires |sel| <= |wt| && forall j :: 0 <= j < |sel| ==> wt[j] >= 0
    ensures SelWeight(wt, sel) >= 0
  {
    if sel != [] {
      SelWeightNonNegative(wt, sel[..|sel| - 1]);
    }
  }

  /** `Best` is the optimum: attained by a feasible choice, and an upper
      bound on every feasible choice. */
  lemma BestIsOptimum(val: seq<int>, wt: seq<int>, k: int, i: int)
    requires WellFormed(val, wt) && k >= 0 && -1 <= i < |val|
    ensures exists sel :: Feasible(wt, sel, k, i) && SelValue(val, sel) == Best(val, wt, k, i)
    ensures forall sel :: Feasible(wt, sel, k, i) ==> SelValue(val, sel) <= Best(val, wt, k, i)
  {
    var choice := BestChoice(val, wt, k, i);
    assert Feasible(wt, choice, k, i);
    forall sel | Feasible(wt, sel, k, i)
      ensures SelValue(val, sel) <= Best(val, wt, k, i)
    {
      BestIsUpperBound(val, wt, k, i, sel);
    }
  }

  /** When every item weighs at least 1 the early return is harmless: the
      recursion as written computes the optimum. */
  lemma {:induction false} AsWrittenIsBestForPositiveWeights(val: seq<int>, wt: seq<int>, k: int, i: int)
    requires WellFormed(val, wt) && k >= 0 && -1 <= i < |val|
    requires forall j :: 0 <= j < |val| ==> wt[j] >= 1
    ensures BestAsWritten(val, wt, k, i) == Best(val, wt, k, i)
    decreases i + 1
  {
    if i >= 0 {
      AsWrittenIsBestForPositiveWeights(val, wt, k, i - 1);
      if wt[i] <= k {
        AsWrittenIsBestForPositiveWeights(val, wt, k - wt[i], i - 1);
      }
      if k == 0 {
        BestAtZeroCapacity(val, wt, i);
      }
    }
  }

  /** With no zero-weight item, nothing fits in capacity 0. */
  lemma {:induction false} BestAtZeroCapacity(val: seq<int>, wt: seq<int>, i: int)
    requires WellFormed(val, wt) && -1 <= i < |val|
    requires forall j :: 0 <= j < |val| ==> wt[j] >= 1
    ensures Best(val, wt, 0, i) == 0
    decreases i + 1
  {
    if i >= 0 {
      BestAtZeroCapacity(val, wt, i - 1);
    }
  }

  /** The early return loses the optimum once an item weighs 0: with
      values [5, 1], weights [0, 1] and capacity 1 the recursion as written
      yields 5, yet taking both items weighs 1 and is worth 6. */
  lemma ZeroWeightCounterexample()
    ensures WellFormed([5, 1], [0, 1])
    ensures BestAsWritten([5, 1], [0, 1], 1, 1) == 5
    ensures Feasible([0, 1], [true, true], 1, 1) && SelValue([5, 1], [true, true]) == 6
    ensures Best([5, 1], [0, 1], 1, 1) == 6
  {
  }

  /** Weights past the last value are never read: the recursion gives the
      same answer with them cut off. */
  lemma {:induction false} ExtraWeightsIgnored(val: seq<int>, wt: seq<int>, k: int, i: int)
    requires WellFormed(val, wt) && k >= 0 && -1 <= i < |val|
    ensures WellFormed(val, wt[..|val|])
    ensures BestAsWritten(val, wt, k, i) == BestAsWritten(val, wt[..|val|], k, i)
    decreases i + 1
  {
    if i >= 0 && k != 0 {
      ExtraWeightsIgnored(val, wt, k, i - 1);
      if wt[i] <= k {
        ExtraWeightsIgnored(val, wt, k - wt[i], i - 1);
      }
    }
  }

  /** The recursion never yields the `-1` "not computed" marker. */
  lemma {:induction false} AsWrittenNonNegative(val: seq<int>, wt: seq<int>, k: int, i: int)
    requires WellFormed(val, wt) && k >= 0 && -1 <= i < |val|
    ensures BestAsWritten(val, wt, k, i) >= 0
    decreases i + 1
  {
    if i >= 0 && k != 0 {
      AsWrittenNonNegative(val, wt, k, i - 1);
    }
  }

  lemma {:induction false} BestNonNegative(val: seq<int>, wt: seq<int>, k: int, i: int)
    requires WellFormed(val, wt) && k >= 0 && -1 <= i < |val|
    ensures Best(val, wt, k, i) >= 0
    decreases i + 1
  {
    if i >= 0 {
      BestNonNegative(val, wt, k, i - 1);
    }
  }

  /** Leaving an item out is always an option, so adding item `i` never hurts. */
  lemma ExcludeIsAvailable(val: seq<int>, wt: seq<int>, k: int, i: int)
    requires WellFormed(val, wt) && k >= 0 && 0 <= i < |val|
    ensures BestAsWritten(val, wt, k, i) >= BestAsWritten(val, wt, k, i - 1)
    ensures Best(val, wt, k, i) >= Best(val, wt, k, i - 1)
  {
  }

  /** The table has one row per item and columns `0..W`. */
  ghost predicate TableShape(dp: seq<seq<int>>, n: int, w: int)
  {
    |dp| == n && forall r :: 0 <= r < |dp| ==> |dp[r]| == w + 1
  }

  /** Every table entry is either unset or the true value of its sub-problem. */
  ghost predicate MemoCoherent(val: seq<int>, wt: seq<int>, dp: seq<seq<int>>, w: int)
    requires WellFormed(val, wt) && TableShape(dp, |val|, w)
  {
    forall r, c :: 0 <= r < |dp| && 0 <= c <= w ==>
      dp[r][c] == -1 || dp[r][c] == BestAsWritten(val, wt, c, r)
  }

  /** `helper(k, val, wt, dp, i)`: returns the optimum of items `0..i` at
      capacity `k`, and the table as it is afterwards. */
  method Helper(k: int, val: seq<int>, wt: seq<int>, dp: seq<seq<int>>, i: int, ghost w: int)
    returns (r: int, dp': seq<seq<int>>)
    requires WellFormed(val, wt) && 0 <= k <= w && -1 <= i < |val|
    requires TableShape(dp, |val|, w) && MemoCoherent(val, wt, dp, w)
    ensures r == BestAsWritten(val, wt, k, i)
    ensures i < 0 || k == 0 ==> r == 0
    ensures TableShape(dp', |val|, w) && MemoCoherent(val, wt, dp', w)
    ensures i >= 0 && k != 0 && dp[i][k] != -1 ==> r == dp[i][k] && dp' == dp
    ensures forall row, col :: 0 <= row < |dp| && 0 <= col <= w && dp[row][col] != -1 ==> dp'[row][col] == dp[row][col]
    decreases i + 1
  {
    if i < 0 || k == 0 {
      return 0, dp;
    }
    if dp[i][k] != -1 {
      return dp[i][k], dp;
    }
    var x, dp1 := Helper(k, val, wt, dp, i - 1, w);
    var y := 0;
    dp' := dp1;
    if wt[i] <= k {
      var z;
      z, dp' := Helper(k - wt[i], val, wt, dp1, i - 1, w);
      y := z + val[i];
    }
    r := if x >= y then x else y;
    AsWrittenNonNegative(val, wt, k, i);
    dp' := dp'[i := dp'[i][k := r]];
  }

  /** `knapsack(W, val, wt)`: fills a fresh table with `-1` and asks for all
      items at capacity `W`. With positive weights the answer is the optimum
      over every choice of items. */
  method Knapsack(w: int, val: seq<int>, wt: seq<int>) returns (r: int)
    requires WellFormed(val, wt) && w >= 0
    ensures r == BestAsWritten(val, wt, w, |val| - 1)
    ensures (forall j :: 0 <= j < |val| ==> wt[j] >= 1) ==>
      && (exists sel :: Feasible(wt, sel, w, |val| - 1) && SelValue(val, sel) == r)
      && (forall sel :: Feasible(wt, sel, w, |val| - 1) ==> SelValue(val, sel) <= r)
  {
    var dp := seq(|val|, _ => seq(w + 1, _ => -1));
    var dp';
    r, dp' := Helper(w, val, wt, dp, |val| - 1, w);
    if forall j :: 0 <= j < |val| ==> wt[j] >= 1 {
      AsWrittenIsBestForPositiveWeights(val, wt, w, |val| - 1);
      BestIsOptimum(val, wt, w, |val| - 1);
    }
  }
}
