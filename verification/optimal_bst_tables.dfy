/**
 The two table-filling programs for the optimal binary search tree: the full cubic search
 and Knuth's, which tries only the roots between two roots already found.
 */
module OptimalBstTables {
  import opened OptimalBst

  /** The sentinel the tables start from: a quarter of the largest 64-bit integer. */
  const INF: int := 2305843009213693951

  /** No interval is as expensive as the sentinel. */
  ghost predicate FitsBelowInf(freq: seq<int>) {
    forall i: nat, j: nat :: i < j <= |freq| ==> Cost(freq, i, j) < INF
  }

  /** `cost` is the least search cost over all binary search trees on all the keys. */
  ghost predicate IsOptimal(freq: seq<int>, cost: int) {
    && (forall t :: Holds(t, 0, |freq|) ==> cost <= SearchCost(freq, t, 1))
    && (exists t :: Holds(t, 0, |freq|) && cost == SearchCost(freq, t, 1))
  }

  lemma {:induction false} CostIsOptimal(freq: seq<int>)
    ensures IsOptimal(freq, Cost(freq, 0, |freq|))
  {
    SomeTreeReachesCost(freq, 0, |freq|);
    forall t | Holds(t, 0, |freq|)
      ensures Cost(freq, 0, |freq|) <= SearchCost(freq, t, 1)
    {
      NoTreeIsCheaper(freq, t, 0, |freq|);
    }
  }

  /** A sufficient bound on the input for the sentinel never to interfere. */
  lemma {:induction false} CostBound(freq: seq<int>, i: nat, j: nat)
    requires i <= j <= |freq| && NonNegative(freq)
    ensures 0 <= Cost(freq, i, j) <= (j - i) * Weight(freq, i, j)
    decreases j - i
  {
    WeightNonNegative(freq, i, j);
    if i < j {
      CostAt(freq, i, j, i);
      CostBound(freq, i + 1, j);
      WeightQuadrangle(freq, i, i + 1, j, j);
      LinearStep(j - i, Weight(freq, i + 1, j), Weight(freq, i, j));
      var r := Root(freq, i, j);
      CostIsLeast(freq, i, j);
      CostBound(freq, i, r);
      CostBound(freq, r + 1, j);
    }
  }

  lemma {:induction false} LinearStep(n: nat, v: nat, w: nat)
    requires n > 0 && v <= w
    ensures w + (n - 1) * v <= n * w
  {
    ProductMonotone(n - 1, n - 1, v, w);
    assert w + (n - 1) * w == n * w;
  }

  lemma {:induction false} SmallInputFits(freq: seq<int>)
    requires NonNegative(freq) && |freq| * Weight(freq, 0, |freq|) < INF
    ensures FitsBelowInf(freq)
  {
    forall i: nat, j: nat | i < j <= |freq|
      ensures Cost(freq, i, j) < INF
    {
      CostBound(freq, i, j);
      WeightQuadrangle(freq, 0, i, j, |freq|);
      ProductMonotone(j - i, |freq|, Weight(freq, i, j), Weight(freq, 0, |freq|));
    }
  }

  lemma {:induction false} ProductMonotone(a: nat, b: nat, x: nat, y: nat)
    requires a <= b && x <= y
    ensures a * x <= b * y
  {
    assert a * x <= a * y;
    assert a * y <= b * y;
  }

  method PrefixSums(freq: seq<int>) returns (prefix: seq<int>)
    ensures IsPrefix(freq, prefix)
  {
    prefix := [0];
    for i := 0 to |freq|
      invariant |prefix| == i + 1
      invariant forall k :: 0 <= k <= i ==> prefix[k] == Weight(freq, 0, k)
    {
      prefix := prefix + [prefix[i] + freq[i]];
    }
  }

  ghost predicate IsPrefix(freq: seq<int>, prefix: seq<int>) {
    |prefix| == |freq| + 1 && forall k :: 0 <= k <= |freq| ==> prefix[k] == Weight(freq, 0, k)
  }

  /** The cells of the table already filled: all shorter intervals, and those of length `len`
      that start before `i`. */
  predicate Done(len: int, i: int, a: int, b: int) {
    b - a + 1 < len || (b - a + 1 == len && a < i)
  }

  ghost predicate CellOk(freq: seq<int>, dp: array2<int>, a: int, b: int)
    reads dp
    requires 0 <= a <= b < |freq| == dp.Length0 == dp.Length1
  {
    dp[a, b] == Cost(freq, a, b + 1)
  }

  ghost predicate Filled(freq: seq<int>, dp: array2<int>, len: int, i: int)
    reads dp
    requires dp.Length0 == dp.Length1 == |freq|
  {
    forall a, b :: 0 <= a <= b < |freq| && Done(len, i, a, b) ==> CellOk(freq, dp, a, b)
  }

  function Left(freq: seq<int>, dp: array2<int>, i: nat, r: nat): int
    reads dp
    requires dp.Length0 == dp.Length1 == |freq| && i <= r < |freq|
  {
    if r > i then dp[i, r - 1] else 0
  }

  function Right(freq: seq<int>, dp: array2<int>, r: nat, j: nat): int
    reads dp
    requires dp.Length0 == dp.Length1 == |freq| && r <= j < |freq|
  {
    if r < j then dp[r + 1, j] else 0
  }

  lemma {:induction false} SubtreesFilled(freq: seq<int>, dp: array2<int>, i: nat, j: nat, r: nat)
    requires dp.Length0 == dp.Length1 == |freq| && i <= r <= j < |freq| && Filled(freq, dp, j - i + 1, i)
    ensures Left(freq, dp, i, r) + Right(freq, dp, r, j) == Split(freq, i, j + 1, r)
  {
    assert r > i ==> CellOk(freq, dp, i, r - 1);
    assert r < j ==> CellOk(freq, dp, r + 1, j);
  }

  lemma {:induction false} SingleKey(freq: seq<int>, i: nat)
    requires i < |freq|
    ensures Cost(freq, i, i + 1) == freq[i] && Root(freq, i, i + 1) == i
  {
    assert Weight(freq, i, i + 1) == Weight(freq, i, i) + freq[i];
    CostIsLeast(freq, i, i + 1);
  }

  /** One cell of the full search: all roots of [i, j] are tried. */
  method FillCell(freq: seq<int>, prefix: seq<int>, dp: array2<int>, i: nat, j: nat)
    requires FitsBelowInf(freq) && IsPrefix(freq, prefix)
    requires dp.Length0 == dp.Length1 == |freq| && i < j < |freq| && Filled(freq, dp, j - i + 1, i)
    modifies dp
    ensures Filled(freq, dp, j - i + 1, i + 1)
  {
    dp[i, j] := INF;
    var total := prefix[j + 1] - prefix[i];
    WeightAdds(freq, 0, i, j + 1);
    CostIsLeast(freq, i, j + 1);
    for r := i to j + 1
      invariant Filled(freq, dp, j - i + 1, i)
      invariant dp[i, j] >= Cost(freq, i, j + 1)
      invariant r > Root(freq, i, j + 1) ==> dp[i, j] == Cost(freq, i, j + 1)
    {
      SubtreesFilled(freq, dp, i, j, r);
      var candidate := Left(freq, dp, i, r) + Right(freq, dp, r, j) + total;
      assert candidate == Weight(freq, i, j + 1) + Split(freq, i, j + 1, r);
      if candidate < dp[i, j] {
        dp[i, j] := candidate;
      }
    }
  }

  /** The full search over all roots of every interval. */
  method OptimalBstCost(freq: seq<int>) returns (cost: int)
    requires FitsBelowInf(freq)
    ensures cost == Cost(freq, 0, |freq|)
    ensures IsOptimal(freq, cost)
  {
    CostIsOptimal(freq);
    var n := |freq|;
    if n == 0 {
      return 0;
    }
    var prefix := PrefixSums(freq);
    var dp := new int[n, n]((_, _) => 0);
    for i := 0 to n
      invariant forall a :: 0 <= a < i ==> dp[a, a] == Cost(freq, a, a + 1)
    {
      SingleKey(freq, i);
      dp[i, i] := freq[i];
    }
    for len := 2 to n + 1
      invariant Filled(freq, dp, len, 0)
    {
      for i := 0 to n - len + 1
        invariant Filled(freq, dp, len, i)
      {
        FillCell(freq, prefix, dp, i, i + len - 1);
      }
    }
    assert CellOk(freq, dp, 0, n - 1);
    return dp[0, n - 1];
  }

  ghost predicate RootOk(freq: seq<int>, opt: array2<int>, a: int, b: int)
    reads opt
    requires 0 <= a <= b < |freq| == opt.Length0 == opt.Length1
  {
    opt[a, b] == Root(freq, a, b + 1)
  }

  ghost predicate RootsFilled(freq: seq<int>, opt: array2<int>, len: int, i: int)
    reads opt
    requires opt.Length0 == opt.Length1 == |freq|
  {
    forall a, b :: 0 <= a <= b < |freq| && Done(len, i, a, b) ==> RootOk(freq, opt, a, b)
  }

  /** One cell of Knuth's search: only the roots from opt[i, j - 1] to opt[i + 1, j] are tried. */
  method FillCellKnuth(freq: seq<int>, prefix: seq<int>, dp: array2<int>, opt: array2<int>, i: nat, j: nat)
    requires NonNegative(freq) && FitsBelowInf(freq) && IsPrefix(freq, prefix)
    requires dp != opt && dp.Length0 == dp.Length1 == |freq| && opt.Length0 == opt.Length1 == |freq|
    requires i < j < |freq| && Filled(freq, dp, j - i + 1, i) && RootsFilled(freq, opt, j - i + 1, i)
    modifies dp, opt
    ensures Filled(freq, dp, j - i + 1, i + 1) && RootsFilled(freq, opt, j - i + 1, i + 1)
  {
    dp[i, j] := INF;
    var total := prefix[j + 1] - prefix[i];
    assert RootOk(freq, opt, i, j - 1) && RootOk(freq, opt, i + 1, j);
    var first := opt[i, j - 1];
    var last := opt[i + 1, j];
    WeightAdds(freq, 0, i, j + 1);
    CostIsLeast(freq, i, j + 1);
    RootMovesRight(freq, i, j);
    RootMovesLeft(freq, i, j + 1);
    for r := first to last + 1
      invariant Filled(freq, dp, j - i + 1, i) && RootsFilled(freq, opt, j - i + 1, i)
      invariant r <= Root(freq, i, j + 1) ==> dp[i, j] > Cost(freq, i, j + 1)
      invariant r > Root(freq, i, j + 1) ==> dp[i, j] == Cost(freq, i, j + 1) && opt[i, j] == Root(freq, i, j + 1)
    {
      SubtreesFilled(freq, dp, i, j, r);
      var candidate := Left(freq, dp, i, r) + Right(freq, dp, r, j) + total;
      assert candidate == Weight(freq, i, j + 1) + Split(freq, i, j + 1, r);
      if candidate < dp[i, j] {
        dp[i, j] := candidate;
        opt[i, j] := r;
      }
    }
  }

  /** Knuth's search: the same cost in a restricted range of roots. */
  method OptimalBstCostKnuth(freq: seq<int>) returns (cost: int)
    requires NonNegative(freq) && FitsBelowInf(freq)
    ensures cost == Cost(freq, 0, |freq|)
    ensures IsOptimal(freq, cost)
  {
    CostIsOptimal(freq);
    var n := |freq|;
    if n == 0 {
      return 0;
    }
    var prefix := PrefixSums(freq);
    var dp := new int[n, n]((_, _) => 0);
    var opt := new int[n, n]((_, _) => 0);
    for i := 0 to n
      invariant forall a :: 0 <= a < i ==> dp[a, a] == Cost(freq, a, a + 1) && opt[a, a] == Root(freq, a, a + 1)
    {
      SingleKey(freq, i);
      dp[i, i] := freq[i];
      opt[i, i] := i;
    }
    for len := 2 to n + 1
      invariant Filled(freq, dp, len, 0) && RootsFilled(freq, opt, len, 0)
    {
      for i := 0 to n - len + 1
        invariant Filled(freq, dp, len, i) && RootsFilled(freq, opt, len, i)
      {
        FillCellKnuth(freq, prefix, dp, opt, i, i + len - 1);
      }
    }
    assert CellOk(freq, dp, 0, n - 1);
    return dp[0, n - 1];
  }
}
