/**
 The optimal binary search tree: what the cost of the best tree is, and why Knuth's
 restriction of the root range loses nothing.

 Key intervals are half open: [i, j) holds the keys i, ..., j - 1.
 */
module OptimalBst {

  /** The total frequency of the keys in [i, j). */
  function Weight(freq: seq<int>, i: nat, j: nat): int
    requires i <= j <= |freq|
    decreases j - i
  {
    if i == j then 0 else Weight(freq, i, j - 1) + freq[j - 1]
  }

  /** The least weighted search cost of the keys in [i, j). */
  function Cost(freq: seq<int>, i: nat, j: nat): int
    requires i <= j <= |freq|
    decreases j - i, 0
  {
    if i == j then 0 else Weight(freq, i, j) + Split(freq, i, j, BestRoot(freq, i, j, j - 1))
  }

  /** The cost of the two subtrees when r is the root of [i, j). */
  function Split(freq: seq<int>, i: nat, j: nat, r: nat): int
    requires i <= r < j <= |freq|
    decreases j - i, 0, 0
  {
    Cost(freq, i, r) + Cost(freq, r + 1, j)
  }

  /** The smallest best root of [i, j) among i, ..., last. */
  function BestRoot(freq: seq<int>, i: nat, j: nat, last: nat): (r: nat)
    requires i <= last < j <= |freq|
    ensures i <= r <= last
    decreases j - i, 0, 1, last
  {
    if last == i then i
    else
      var r := BestRoot(freq, i, j, last - 1);
      if Split(freq, i, j, last) < Split(freq, i, j, r) then last else r
  }

  function Root(freq: seq<int>, i: nat, j: nat): (r: nat)
    requires i < j <= |freq|
    ensures i <= r < j
  {
    BestRoot(freq, i, j, j - 1)
  }

  lemma {:induction false} BestRootIsSmallest(freq: seq<int>, i: nat, j: nat, last: nat)
    requires i <= last < j <= |freq|
    ensures var b := BestRoot(freq, i, j, last);
            && (forall r :: i <= r <= last ==> Split(freq, i, j, b) <= Split(freq, i, j, r))
            && (forall r :: i <= r < b ==> Split(freq, i, j, b) < Split(freq, i, j, r))
    decreases last
  {
    if last > i {
      BestRootIsSmallest(freq, i, j, last - 1);
    }
  }

  /** Cost is the minimum over all roots, first reached at Root. */
  lemma {:induction false} CostIsLeast(freq: seq<int>, i: nat, j: nat)
    requires i < j <= |freq|
    ensures Cost(freq, i, j) == Weight(freq, i, j) + Split(freq, i, j, Root(freq, i, j))
    ensures forall r :: i <= r < j ==> Cost(freq, i, j) <= Weight(freq, i, j) + Split(freq, i, j, r)
    ensures forall r :: i <= r < Root(freq, i, j) ==> Cost(freq, i, j) < Weight(freq, i, j) + Split(freq, i, j, r)
  {
    BestRootIsSmallest(freq, i, j, j - 1);
  }

  lemma {:induction false} CostAt(freq: seq<int>, i: nat, j: nat, r: nat)
    requires i <= r < j <= |freq|
    ensures Cost(freq, i, j) <= Weight(freq, i, j) + Cost(freq, i, r) + Cost(freq, r + 1, j)
  {
    CostIsLeast(freq, i, j);
    assert Split(freq, i, j, r) == Cost(freq, i, r) + Cost(freq, r + 1, j);
  }

  // ----- weights

  ghost predicate NonNegative(freq: seq<int>) {
    forall k :: 0 <= k < |freq| ==> freq[k] >= 0
  }

  lemma {:induction false} WeightAdds(freq: seq<int>, i: nat, k: nat, j: nat)
    requires i <= k <= j <= |freq|
    ensures Weight(freq, i, j) == Weight(freq, i, k) + Weight(freq, k, j)
    decreases j - k
  {
    if k < j {
      WeightAdds(freq, i, k, j - 1);
    }
  }

  lemma {:induction false} WeightNonNegative(freq: seq<int>, i: nat, j: nat)
    requires i <= j <= |freq| && NonNegative(freq)
    ensures Weight(freq, i, j) >= 0
    decreases j - i
  {
    if i < j {
      WeightNonNegative(freq, i, j - 1);
    }
  }

  /** Weight is modular and grows with the interval. */
  lemma {:induction false} WeightQuadrangle(freq: seq<int>, i: nat, i': nat, j: nat, j': nat)
    requires i <= i' <= j <= j' <= |freq| && NonNegative(freq)
    ensures Weight(freq, i, j) + Weight(freq, i', j') == Weight(freq, i, j') + Weight(freq, i', j)
    ensures 0 <= Weight(freq, i', j) <= Weight(freq, i, j')
    ensures Weight(freq, i, j) <= Weight(freq, i, j') && Weight(freq, i', j') <= Weight(freq, i, j')
  {
    WeightAdds(freq, i, i', j);
    WeightAdds(freq, i, i', j');
    WeightAdds(freq, i', j, j');
    WeightNonNegative(freq, i, i');
    WeightNonNegative(freq, j, j');
    WeightNonNegative(freq, i', j);
  }

  // ----- the quadrangle inequality

  ghost predicate Quadrangle(freq: seq<int>, i: nat, i': nat, j: nat, j': nat)
    requires i <= i' <= j <= j' <= |freq|
  {
    Cost(freq, i, j) + Cost(freq, i', j') <= Cost(freq, i, j') + Cost(freq, i', j)
  }

  /** Cost satisfies the quadrangle inequality. */
  lemma {:induction false} CostQuadrangle(freq: seq<int>, i: nat, i': nat, j: nat, j': nat)
    requires i <= i' <= j <= j' <= |freq| && NonNegative(freq)
    ensures Quadrangle(freq, i, i', j, j')
    decreases j' - i
  {
    if i == i' || j == j' {
    } else if i' == j {
      TouchingIntervals(freq, i, j, j');
    } else {
      NestedIntervals(freq, i, i', j, j');
    }
  }

  lemma {:induction false} TouchingIntervals(freq: seq<int>, i: nat, j: nat, j': nat)
    requires i < j < j' <= |freq| && NonNegative(freq)
    ensures Quadrangle(freq, i, j, j, j')
    decreases j' - i, 0
  {
    var r := Root(freq, i, j');
    CostIsLeast(freq, i, j');
    WeightQuadrangle(freq, i, j, j, j');
    if r < j {
      CostAt(freq, i, j, r);
      CostQuadrangle(freq, r + 1, j, j, j');
    } else {
      CostAt(freq, j, j', r);
      CostQuadrangle(freq, i, j, j, r);
    }
  }

  lemma {:induction false} NestedIntervals(freq: seq<int>, i: nat, i': nat, j: nat, j': nat)
    requires i < i' < j < j' <= |freq| && NonNegative(freq)
    ensures Quadrangle(freq, i, i', j, j')
    decreases j' - i, 0
  {
    var y, z := Root(freq, i', j), Root(freq, i, j');
    CostIsLeast(freq, i', j);
    CostIsLeast(freq, i, j');
    WeightQuadrangle(freq, i, i', j, j');
    if z <= y {
      CostAt(freq, i, j, z);
      CostAt(freq, i', j', y);
      CostQuadrangle(freq, z + 1, y + 1, j, j');
    } else {
      CostAt(freq, i, j, y);
      CostAt(freq, i', j', z);
      CostQuadrangle(freq, i, i', y, z);
    }
  }

  // ----- monotone roots

  /** Adding a key on the right never moves the smallest best root to the left. */
  lemma {:induction false} RootMovesRight(freq: seq<int>, i: nat, j: nat)
    requires i < j < |freq| && NonNegative(freq)
    ensures Root(freq, i, j) <= Root(freq, i, j + 1)
  {
    var b, r := Root(freq, i, j), Root(freq, i, j + 1);
    if r < b {
      CostIsLeast(freq, i, j);
      assert Split(freq, i, j, b) < Split(freq, i, j, r);
      CostIsLeast(freq, i, j + 1);
      assert Split(freq, i, j + 1, r) <= Split(freq, i, j + 1, b);
      CostQuadrangle(freq, r + 1, b + 1, j, j + 1);
    }
  }

  /** Adding a key on the left never moves it to the right. */
  lemma {:induction false} RootMovesLeft(freq: seq<int>, i: nat, j: nat)
    requires i + 1 < j <= |freq| && NonNegative(freq)
    ensures Root(freq, i, j) <= Root(freq, i + 1, j)
  {
    var b, r := Root(freq, i + 1, j), Root(freq, i, j);
    if b < r {
      CostIsLeast(freq, i + 1, j);
      assert Split(freq, i + 1, j, b) <= Split(freq, i + 1, j, r);
      CostIsLeast(freq, i, j);
      assert Split(freq, i, j, r) < Split(freq, i, j, b);
      CostQuadrangle(freq, i, i + 1, b, r);
    }
  }

  // ----- trees

  datatype Tree = Leaf | Node(left: Tree, key: nat, right: Tree)

  /** The tree is a binary search tree on exactly the keys of [i, j). */
  ghost predicate Holds(t: Tree, i: nat, j: nat) {
    match t
    case Leaf => i == j
    case Node(left, key, right) => i <= key < j && Holds(left, i, key) && Holds(right, key + 1, j)
  }

  function InOrder(t: Tree): seq<nat> {
    match t
    case Leaf => []
    case Node(left, key, right) => InOrder(left) + [key] + InOrder(right)
  }

  /** Every search for a key costs its depth; the root has depth `depth`. */
  function SearchCost(freq: seq<int>, t: Tree, depth: nat): int {
    match t
    case Leaf => 0
    case Node(left, key, right) =>
      (if key < |freq| then freq[key] * depth else 0)
      + SearchCost(freq, left, depth + 1) + SearchCost(freq, right, depth + 1)
  }

  /** Holds means what it should: the keys read in order are i, ..., j - 1. */
  lemma {:induction false} HoldsIsInOrder(t: Tree, i: nat, j: nat)
    requires i <= j
    ensures Holds(t, i, j) <==> InOrder(t) == seq(j - i, k requires 0 <= k < j - i => i + k)
  {
    var keys := seq(j - i, k requires 0 <= k < j - i => i + k);
    match t
    case Leaf =>
      assert i < j ==> |keys| > 0;
    case Node(left, key, right) =>
      var m := |InOrder(left)|;
      assert InOrder(t)[m] == key;
      if InOrder(t) == keys {
        assert keys[m] == i + m;
        assert InOrder(left) == InOrder(t)[..m] == keys[..m];
        assert InOrder(right) == InOrder(t)[m + 1..] == keys[m + 1..];
        assert keys[..m] == seq(key - i, k requires 0 <= k < key - i => i + k);
        assert keys[m + 1..] == seq(j - key - 1, k requires 0 <= k < j - key - 1 => key + 1 + k);
        HoldsIsInOrder(left, i, key);
        HoldsIsInOrder(right, key + 1, j);
      }
      if Holds(t, i, j) {
        HoldsIsInOrder(left, i, key);
        HoldsIsInOrder(right, key + 1, j);
      }
  }

  lemma {:induction false} OneLevelDeeper(freq: seq<int>, t: Tree, i: nat, j: nat, depth: nat)
    requires i <= j <= |freq| && Holds(t, i, j)
    ensures SearchCost(freq, t, depth + 1) == SearchCost(freq, t, depth) + Weight(freq, i, j)
  {
    match t
    case Leaf =>
    case Node(left, key, right) =>
      OneLevelDeeper(freq, left, i, key, depth + 1);
      OneLevelDeeper(freq, right, key + 1, j, depth + 1);
      WeightAdds(freq, i, key, j);
      WeightAdds(freq, key, key + 1, j);
      assert Weight(freq, key, key + 1) == freq[key];
      assert freq[key] * (depth + 1) == freq[key] * depth + freq[key];
  }

  /** No binary search tree on the keys of [i, j) is cheaper than Cost. */
  lemma {:induction false} NoTreeIsCheaper(freq: seq<int>, t: Tree, i: nat, j: nat)
    requires i <= j <= |freq| && Holds(t, i, j)
    ensures Cost(freq, i, j) <= SearchCost(freq, t, 1)
  {
    match t
    case Leaf =>
    case Node(left, key, right) =>
      NoTreeIsCheaper(freq, left, i, key);
      NoTreeIsCheaper(freq, right, key + 1, j);
      OneLevelDeeper(freq, left, i, key, 1);
      OneLevelDeeper(freq, right, key + 1, j, 1);
      WeightAdds(freq, i, key, j);
      WeightAdds(freq, key, key + 1, j);
      assert Weight(freq, key, key + 1) == freq[key];
      CostAt(freq, i, j, key);
  }

  function BestTree(freq: seq<int>, i: nat, j: nat): Tree
    requires i <= j <= |freq|
    decreases j - i
  {
    if i == j then Leaf
    else
      var r := Root(freq, i, j);
      Node(BestTree(freq, i, r), r, BestTree(freq, r + 1, j))
  }

  /** Some binary search tree on the keys of [i, j) costs exactly Cost. */
  lemma {:induction false} SomeTreeReachesCost(freq: seq<int>, i: nat, j: nat)
    requires i <= j <= |freq|
    ensures Holds(BestTree(freq, i, j), i, j)
    ensures SearchCost(freq, BestTree(freq, i, j), 1) == Cost(freq, i, j)
    decreases j - i
  {
    if i < j {
      var r := Root(freq, i, j);
      SomeTreeReachesCost(freq, i, r);
      SomeTreeReachesCost(freq, r + 1, j);
      OneLevelDeeper(freq, BestTree(freq, i, r), i, r, 1);
      OneLevelDeeper(freq, BestTree(freq, r + 1, j), r + 1, j, 1);
      WeightAdds(freq, i, r, j);
      WeightAdds(freq, r, r + 1, j);
      assert Weight(freq, r, r + 1) == freq[r];
      CostIsLeast(freq, i, j);
    }
  }
}
