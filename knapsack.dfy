/**
 * `bagPacking` (src/Lesson5/Map.kt): 0/1 knapsack by dynamic programming.
 * The treasures are the map's entries in iteration order, each a name with a
 * (weight, value) pair. `Best` is the recurrence the table follows, `Trace` the
 * choice the traceback makes; the lemmas show the choice fits the bag and is
 * worth as much as any selection that fits.
 */
module Knapsack {
  import opened Wrappers
  import opened Arith

  /** A name with its (weight, value). */
  type Treasure = (string, (int, int))

  function WeightOf(t: Treasure): int { t.1.0 }
  function ValueOf(t: Treasure): int { t.1.1 }

  /** The best value of the first `i` treasures in a bag of capacity `w`: `dp[i][w]`. */
  function Best(items: seq<Treasure>, i: nat, w: int): int
    requires i <= |items|
  {
    if i == 0 then 0
    else if WeightOf(items[i - 1]) <= w then
      Max(Best(items, i - 1, w), Best(items, i - 1, w - WeightOf(items[i - 1])) + ValueOf(items[i - 1]))
    else Best(items, i - 1, w)
  }

  /** The weight of the treasures `sel` takes among the first `n`: `sel[k]` says whether treasure `k` is taken. */
  function WeightUpTo(items: seq<Treasure>, sel: seq<bool>, n: nat): int
    requires n <= |sel| <= |items|
  {
    if n == 0 then 0
    else WeightUpTo(items, sel, n - 1) + (if sel[n - 1] then WeightOf(items[n - 1]) else 0)
  }

  function ValueUpTo(items: seq<Treasure>, sel: seq<bool>, n: nat): int
    requires n <= |sel| <= |items|
  {
    if n == 0 then 0
    else ValueUpTo(items, sel, n - 1) + (if sel[n - 1] then ValueOf(items[n - 1]) else 0)
  }

  /** The weight of a selection of the first `|sel|` treasures. */
  function SelWeight(items: seq<Treasure>, sel: seq<bool>): int
    requires |sel| <= |items|
  {
    WeightUpTo(items, sel, |sel|)
  }

  function SelValue(items: seq<Treasure>, sel: seq<bool>): int
    requires |sel| <= |items|
  {
    ValueUpTo(items, sel, |sel|)
  }

  /** A choice appended to a selection leaves the sums over its first treasures alone. */
  lemma {:induction false} UpToSnoc(items: seq<Treasure>, sel: seq<bool>, took: bool, n: nat)
    requires n <= |sel| < |items|
    ensures WeightUpTo(items, sel + [took], n) == WeightUpTo(items, sel, n)
    ensures ValueUpTo(items, sel + [took], n) == ValueUpTo(items, sel, n)
  {
    if n > 0 {
      UpToSnoc(items, sel, took, n - 1);
    }
  }

  /** The selection the traceback makes from row `i`, column `w`. */
  function Trace(items: seq<Treasure>, i: nat, w: int): (sel: seq<bool>)
    requires i <= |items|
    ensures |sel| == i
  {
    if i == 0 then []
    else if Takes(items, i, w) then
      Trace(items, i - 1, w - WeightOf(items[i - 1])) + [true]
    else Trace(items, i - 1, w) + [false]
  }

  /** The names of the selected treasures from index `from` on. */
  function PickedFrom(items: seq<Treasure>, sel: seq<bool>, from: int): set<string>
    requires |sel| <= |items|
  {
    set k | 0 <= k < |sel| && from <= k && sel[k] :: items[k].0
  }

  predicate NonNegativeWeights(items: seq<Treasure>) {
    forall k :: 0 <= k < |items| ==> WeightOf(items[k]) >= 0
  }

  /** A row only improves on the one before: `max` keeps the row above. */
  lemma BestGrows(items: seq<Treasure>, i: nat, w: int)
    requires 0 < i <= |items|
    ensures Best(items, i, w) >= Best(items, i - 1, w)
  {
  }

  /** Weight and value of a selection extended by one more choice. */
  lemma SelSnoc(items: seq<Treasure>, sel: seq<bool>, took: bool)
    requires |sel| < |items|
    ensures SelWeight(items, sel + [took]) == SelWeight(items, sel) + (if took then WeightOf(items[|sel|]) else 0)
    ensures SelValue(items, sel + [took]) == SelValue(items, sel) + (if took then ValueOf(items[|sel|]) else 0)
  {
    UpToSnoc(items, sel, took, |sel|);
  }

  /** Whether the traceback takes treasure `i - 1` at column `w`: `dp[i][w] != dp[i - 1][w]`. */
  predicate Takes(items: seq<Treasure>, i: nat, w: int)
    requires 0 < i <= |items|
  {
    Best(items, i, w) != Best(items, i - 1, w)
  }

  /** The traceback's last choice, and the column it continues from. */
  lemma TraceLast(items: seq<Treasure>, i: nat, w: int)
    requires 0 < i <= |items|
    ensures Takes(items, i, w) ==> WeightOf(items[i - 1]) <= w
    ensures Trace(items, i, w) ==
      Trace(items, i - 1, if Takes(items, i, w) then w - WeightOf(items[i - 1]) else w) + [Takes(items, i, w)]
  {
  }

  /** Taking treasure `i - 1` is what changes the row's value. */
  lemma TakesValue(items: seq<Treasure>, i: nat, w: int)
    requires 0 < i <= |items| && Takes(items, i, w)
    ensures Best(items, i, w) == Best(items, i - 1, w - WeightOf(items[i - 1])) + ValueOf(items[i - 1])
  {
  }

  /** The traceback's choice fits in the bag. */
  lemma {:induction false} TraceFits(items: seq<Treasure>, i: nat, w: int)
    requires i <= |items| && w >= 0
    ensures SelWeight(items, Trace(items, i, w)) <= w
  {
    if i > 0 {
      TraceLast(items, i, w);
      var rest := if Takes(items, i, w) then w - WeightOf(items[i - 1]) else w;
      TraceFits(items, i - 1, rest);
      SelSnoc(items, Trace(items, i - 1, rest), Takes(items, i, w));
    }
  }

  /** The traceback's choice is worth the best value of the table. */
  lemma {:induction false} TraceValue(items: seq<Treasure>, i: nat, w: int)
    requires i <= |items|
    ensures SelValue(items, Trace(items, i, w)) == Best(items, i, w)
  {
    if i > 0 {
      TraceLast(items, i, w);
      var rest := if Takes(items, i, w) then w - WeightOf(items[i - 1]) else w;
      if Takes(items, i, w) {
        TakesValue(items, i, w);
      }
      TraceValue(items, i - 1, rest);
      SelSnoc(items, Trace(items, i - 1, rest), Takes(items, i, w));
    }
  }

  lemma {:induction false} WeightNonNegative(items: seq<Treasure>, sel: seq<bool>, n: nat)
    requires n <= |sel| <= |items| && NonNegativeWeights(items)
    ensures WeightUpTo(items, sel, n) >= 0
  {
    if n > 0 {
      WeightNonNegative(items, sel, n - 1);
    }
  }

  /** With non-negative weights, no choice among the first `n` that fits is worth more than `Best`. */
  lemma {:induction false} BestIsOptimal(items: seq<Treasure>, sel: seq<bool>, n: nat, w: int)
    requires n <= |sel| <= |items| && NonNegativeWeights(items)
    requires WeightUpTo(items, sel, n) <= w
    ensures ValueUpTo(items, sel, n) <= Best(items, n, w)
  {
    if n > 0 {
      var weight := WeightOf(items[n - 1]);
      WeightNonNegative(items, sel, n - 1);
      if sel[n - 1] {
        BestIsOptimal(items, sel, n - 1, w - weight);
      } else {
        BestIsOptimal(items, sel, n - 1, w);
        BestGrows(items, n, w);
      }
    }
  }

  /** The traceback's choice fits, and no selection that fits is worth more. */
  lemma PackingIsOptimal(items: seq<Treasure>, capacity: int, sel: seq<bool>)
    requires capacity >= 0 && NonNegativeWeights(items)
    requires |sel| == |items| && SelWeight(items, sel) <= capacity
    ensures SelWeight(items, Trace(items, |items|, capacity)) <= capacity
    ensures SelValue(items, sel) <= SelValue(items, Trace(items, |items|, capacity))
  {
    TraceFits(items, |items|, capacity);
    TraceValue(items, |items|, capacity);
    BestIsOptimal(items, sel, |sel|, capacity);
  }

  /**
   * `bagPacking(treasures, capacity)`. A capacity below -1 makes the table's
   * rows of negative size; a capacity of -1 gives rows of length 0, which the
   * traceback indexes at -1 unless there are no treasures; a negative weight
   * makes the fill read a column beyond the capacity. Otherwise the result is
   * the names the traceback picks.
   */
  method BagPacking(treasures: seq<Treasure>, capacity: int) returns (r: Result<set<string>>)
    ensures capacity < -1 ==> r == Fail(NegativeArraySize)
    ensures capacity == -1 ==> r == (if |treasures| == 0 then Ok({}) else Fail(IndexOutOfBounds))
    ensures capacity >= 0 && !NonNegativeWeights(treasures) ==> r == Fail(IndexOutOfBounds)
    ensures capacity >= 0 && NonNegativeWeights(treasures) ==>
      r == Ok(PickedFrom(treasures, Trace(treasures, |treasures|, capacity), 0))
  {
    var items := treasures;
    var n := |items|;
    if capacity + 1 < 0 {
      return Fail(NegativeArraySize);
    }
    var dp := new int[n + 1, capacity + 1]((i, w) => 0);
    var filled := FillTable(items, capacity, dp);
    if !filled {
      return Fail(IndexOutOfBounds);
    }
    if capacity == -1 {
      if n == 0 {
        return Ok({});
      }
      return Fail(IndexOutOfBounds);
    }
    var result := TraceBack(items, capacity, dp);
    return Ok(result);
  }

  /**
   * The fill: row `i` from row `i - 1` by the recurrence of `Best`. It fails
   * at the first read of `dp[i - 1][w - weight]` beyond the last column.
   */
  method FillTable(items: seq<Treasure>, capacity: int, dp: array2<int>) returns (ok: bool)
    requires capacity >= -1
    requires dp.Length0 == |items| + 1 && dp.Length1 == capacity + 1
    requires forall w :: 0 <= w <= capacity ==> dp[0, w] == 0
    modifies dp
    ensures ok <==> capacity == -1 || NonNegativeWeights(items)
    ensures ok ==> forall i, w :: 0 <= i <= |items| && 0 <= w <= capacity ==> dp[i, w] == Best(items, i, w)
  {
    var n := |items|;
    for i := 1 to n + 1
      invariant forall i', w :: 0 <= i' < i && 0 <= w <= capacity ==> dp[i', w] == Best(items, i', w)
      invariant capacity == -1 || forall k :: 0 <= k < i - 1 ==> WeightOf(items[k]) >= 0
    {
      var rowOk := FillRow(items, capacity, dp, i);
      if !rowOk {
        return false;
      }
    }
    return true;
  }

  /** Row `i` of the table holds the recurrence's values. */
  predicate RowIsBest(items: seq<Treasure>, capacity: int, dp: array2<int>, i: nat)
    requires i <= |items| && dp.Length0 == |items| + 1 && dp.Length1 == capacity + 1
    reads dp
  {
    forall w :: 0 <= w <= capacity ==> dp[i, w] == Best(items, i, w)
  }

  /** Row `i` of the fill, from row `i - 1`; it fails when the weight is negative and a column exists. */
  method FillRow(items: seq<Treasure>, capacity: int, dp: array2<int>, i: nat) returns (ok: bool)
    requires capacity >= -1 && 0 < i <= |items|
    requires dp.Length0 == |items| + 1 && dp.Length1 == capacity + 1
    requires RowIsBest(items, capacity, dp, i - 1)
    modifies dp
    ensures ok <==> capacity == -1 || WeightOf(items[i - 1]) >= 0
    ensures ok ==> RowIsBest(items, capacity, dp, i)
    ensures forall i', w :: 0 <= i' < dp.Length0 && i' != i && 0 <= w < dp.Length1 ==> dp[i', w] == old(dp[i', w])
  {
    var weight, value := WeightOf(items[i - 1]), ValueOf(items[i - 1]);
    for w := 0 to capacity + 1
      invariant forall w' :: 0 <= w' < w ==> dp[i, w'] == Best(items, i, w')
      invariant forall i', w' :: 0 <= i' < dp.Length0 && i' != i && 0 <= w' < dp.Length1 ==> dp[i', w'] == old(dp[i', w'])
      invariant w == 0 || weight > w - 1 || w - 1 - weight <= capacity
    {
      if weight <= w {
        if w - weight > capacity {
          return false;
        }
        dp[i, w] := Max(dp[i - 1, w], dp[i - 1, w - weight] + value);
      } else {
        dp[i, w] := dp[i - 1, w];
      }
    }
    return true;
  }

  /** The traceback: from `dp[n][capacity]` up, take every treasure that changed the row's value. */
  method TraceBack(items: seq<Treasure>, capacity: int, dp: array2<int>) returns (result: set<string>)
    requires capacity >= 0 && NonNegativeWeights(items)
    requires dp.Length0 == |items| + 1 && dp.Length1 == capacity + 1
    requires forall i, w :: 0 <= i <= |items| && 0 <= w <= capacity ==> dp[i, w] == Best(items, i, w)
    ensures result == PickedFrom(items, Trace(items, |items|, capacity), 0)
  {
    ghost var sel := Trace(items, |items|, capacity);
    result := {};
    var w := capacity;
    var i := |items|;
    while i > 0
      invariant 0 <= i <= |items| && 0 <= w <= capacity
      invariant sel[..i] == Trace(items, i, w)
      invariant result == PickedFrom(items, sel, i)
    {
      var took := dp[i, w] != dp[i - 1, w];
      assert sel[..i][i - 1] == sel[i - 1] && sel[..i - 1] == sel[..i][..i - 1];
      if took {
        assert WeightOf(items[i - 1]) <= w;
        result := result + {items[i - 1].0};
        w := w - WeightOf(items[i - 1]);
      }
      PickedStep(items, sel, i);
      i := i - 1;
    }
  }

  lemma PickedStep(items: seq<Treasure>, sel: seq<bool>, i: int)
    requires 0 < i <= |sel| <= |items|
    ensures PickedFrom(items, sel, i - 1) ==
      PickedFrom(items, sel, i) + (if sel[i - 1] then {items[i - 1].0} else {})
  {
  }
}
