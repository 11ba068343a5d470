/**
 The B-tree of the fusion tree: insertion that splits on the way down, deletion that refills on
 the way down, and searches.  It holds a finite set of keys.
 */
module FusionTrees {
  import opened BTreeNodes
  import opened BTreeSteps

  datatype Option<K> = None | Some(value: K)

  // ----- insertion

  /** The place of a new key: the loops that walk back while keys are greater. */
  method InsertPlace(keys: seq<Key>, x: Key) returns (i: nat)
    requires Sorted(keys) && x !in keys
    ensures IsRank(keys, x, i)
  {
    var j := |keys| - 1;
    while j >= 0 && keys[j] > x
      invariant -1 <= j < |keys|
      invariant forall k {:trigger keys[k]} :: j < k < |keys| ==> keys[k] > x
    {
      j := j - 1;
    }
    if j >= 0 {
      assert keys[j] in keys;
    }
    i := j + 1;
  }

  lemma {:induction false} RankSorted(keys: seq<Key>, x: Key, i: nat)
    requires Sorted(keys) && IsRank(keys, x, i)
    ensures forall k {:trigger keys[k]} :: i <= k < |keys| ==> x <= keys[k]
  {
  }

  lemma {:induction false} OwnKeys(n: Node, i: nat)
    requires n.Inner? && i < |n.keys| && |n.kids| == |n.keys| + 1
    ensures n.keys[i] in InOrder(n)
  {
    AroundPair(n, i);
    assert n.keys[i] in PairOrder(n, i);
  }

  lemma {:induction false} OwnSorted(n: Node)
    requires n.Inner? && |n.kids| == |n.keys| + 1 && Sorted(InOrder(n))
    ensures Sorted(n.keys)
  {
    forall i, j | 0 <= i < j < |n.keys|
      ensures n.keys[i] < n.keys[j]
    {
      AroundPair(n, j);
      KeyInLeft(n, i, j);
      assert InOrder(n) == (Left(n, j) + InOrder(n.kids[j])) + [n.keys[j]] + (InOrder(n.kids[j + 1]) + Right(n, j + 1));
      SortedAround(Left(n, j) + InOrder(n.kids[j]), n.keys[j], InOrder(n.kids[j + 1]) + Right(n, j + 1));
      var k :| 0 <= k < |Left(n, j)| && Left(n, j)[k] == n.keys[i];
      assert (Left(n, j) + InOrder(n.kids[j]))[k] == n.keys[i];
    }
  }

  lemma {:induction false} KeyInLeft(n: Node, i: nat, j: nat)
    requires n.Inner? && i < j <= |n.keys| && |n.kids| == |n.keys| + 1
    ensures n.keys[i] in Left(n, j)
    decreases j
  {
    if i < j - 1 {
      KeyInLeft(n, i, j - 1);
    }
  }

  /** Child i replaced. */
  function WithKid(n: Node, i: nat, kid: Node): Node
    requires n.Inner? && i <= |n.keys| && |n.kids| == |n.keys| + 1
  {
    Inner(n.keys, n.kids[i := kid])
  }

  lemma {:induction false} WithKidOrder(n: Node, i: nat, kid: Node)
    requires n.Inner? && i <= |n.keys| && |n.kids| == |n.keys| + 1
    ensures InOrder(WithKid(n, i, kid)) == Left(n, i) + InOrder(kid) + Right(n, i)
  {
    var m := WithKid(n, i, kid);
    Around(m, i);
    assert m.kids[..i] == n.kids[..i] && m.kids[i + 1..] == n.kids[i + 1..];
    SameLeft(n, m, i);
    SameRight(n, m, i, i);
  }

  /** Entering x in the child where it belongs enters it in the node. */
  lemma {:induction false} EnteredInKid(n: Node, i: nat, kid: Node, x: Key, h: nat)
    requires 0 < h && Formed(n, h) && Parted(n, x, i) && Good(kid, h - 1, T - 1)
    requires InOrder(kid) == Entered(InOrder(n.kids[i]), x)
    ensures Formed(WithKid(n, i, kid), h) && InOrder(WithKid(n, i, kid)) == Entered(InOrder(n), x)
  {
    WithKidOrder(n, i, kid);
    Around(n, i);
    EnteredAround(Left(n, i), InOrder(n.kids[i]), Right(n, i), x);
  }

  lemma {:induction false} RemovedInKid(n: Node, i: nat, kid: Node, x: Key, h: nat)
    requires 0 < h && Formed(n, h) && Parted(n, x, i) && Good(kid, h - 1, T - 1)
    requires InOrder(kid) == Without(InOrder(n.kids[i]), x)
    ensures Formed(WithKid(n, i, kid), h) && InOrder(WithKid(n, i, kid)) == Without(InOrder(n), x)
  {
    WithKidOrder(n, i, kid);
    Around(n, i);
    WithoutAround(Left(n, i), InOrder(n.kids[i]), Right(n, i), x);
  }

  /** After splitting child i, x belongs left or right of the new key. */
  lemma {:induction false} SplitRank(n: Node, x: Key, i: nat, h: nat) returns (j: nat)
    requires 0 < h && Formed(n, h) && IsRank(n.keys, x, i) && |n.kids[i].keys| == MAX_KEYS
    requires Sorted(InOrder(n)) && x !in InOrder(n)
    ensures Paired(n.kids[i]) && Paired(SplitChild(n, i))
    ensures j == if SplitChild(n, i).keys[i] < x then i + 1 else i
    ensures Parted(SplitChild(n, i), x, j)
  {
    SplitKeeps(n, i, h);
    var m := SplitChild(n, i);
    j := if m.keys[i] < x then i + 1 else i;
    forall k | 0 <= k < |m.keys|
      ensures m.keys[k] != x
    {
      OwnKeys(m, k);
    }
    OwnSorted(n);
    RankSorted(n.keys, x, i);
    assert forall k {:trigger m.keys[k]} :: 0 <= k < i ==> m.keys[k] == n.keys[k];
    assert i < |n.keys| ==> m.keys[i + 1] == n.keys[i];
    RankParts(m, x, j);
  }

  lemma {:induction false} OwnKeysAbsent(n: Node, x: Key)
    requires n.Inner? && |n.kids| == |n.keys| + 1 && x !in InOrder(n)
    ensures x !in n.keys
  {
    forall k | 0 <= k < |n.keys|
      ensures n.keys[k] in InOrder(n)
    {
      OwnKeys(n, k);
    }
  }

  /** The child for x, split first if it is full. */
  method RoomBelow(n: Node, x: Key, ghost h: nat) returns (m: Node, i: nat)
    requires 0 < h && Formed(n, h) && Sorted(InOrder(n)) && x !in InOrder(n)
    ensures Formed(m, h) && InOrder(m) == InOrder(n) && |n.keys| <= |m.keys| <= |n.keys| + 1
    ensures Parted(m, x, i) && |m.kids[i].keys| < MAX_KEYS
  {
    OwnSorted(n);
    OwnKeysAbsent(n, x);
    i := InsertPlace(n.keys, x);
    m := n;
    if |n.kids[i].keys| == MAX_KEYS {
      ghost var j := SplitRank(n, x, i, h);
      SplitKeeps(n, i, h);
      m := SplitChild(n, i);
      if m.keys[i] < x {
        i := i + 1;
      }
    } else {
      RankParts(n, x, i);
    }
  }

  method InsertNonFull(n: Node, x: Key, ghost h: nat) returns (m: Node)
    requires Formed(n, h) && |n.keys| < MAX_KEYS && Sorted(InOrder(n)) && x !in InOrder(n)
    ensures Formed(m, h) && |n.keys| <= |m.keys| <= |n.keys| + 1
    ensures InOrder(m) == Entered(InOrder(n), x)
    decreases h
  {
    if n.Leaf? {
      var i := InsertPlace(n.keys, x);
      LeafRankNotThere(n.keys, x, i);
      return Leaf(n.keys[..i] + [x] + n.keys[i..]);
    }
    var node, i := RoomBelow(n, x, h);
    PartedMember(node, x, i);
    KidSorted(node, i);
    var kid := InsertNonFull(node.kids[i], x, h - 1);
    EnteredInKid(node, i, kid, x, h);
    m := WithKid(node, i, kid);
  }

  // ----- deletion

  /** fill: child idx, which has too few keys, borrows one or is merged with a neighbour. */
  method Fill(n: Node, idx: nat, ghost h: nat) returns (m: Node)
    requires 0 < h && Formed(n, h) && idx <= |n.keys| && 0 < |n.keys| && |n.kids[idx].keys| < T && Sorted(InOrder(n))
    ensures Formed(m, h) && InOrder(m) == InOrder(n) && |n.keys| - 1 <= |m.keys| <= |n.keys|
    ensures var j := if idx > |m.keys| then idx - 1 else idx;
            && |m.kids[j].keys| >= T
            && (forall x {:trigger IsRank(n.keys, x, idx)} :: IsRank(n.keys, x, idx) && x !in n.keys ==>
                  IsRank(m.keys, x, j) && (j < |m.keys| ==> m.keys[j] != x))
  {
    if idx != 0 && |n.kids[idx - 1].keys| >= T {
      BorrowPrevKeeps(n, idx, h);
      NeighbourKeys(n, idx - 1);
      m := BorrowFromPrev(n, idx);
      BorrowedRank(n.keys, m.keys, idx);
    } else if idx != |n.keys| && |n.kids[idx + 1].keys| >= T {
      BorrowNextKeeps(n, idx, h);
      NeighbourKeys(n, idx);
      m := BorrowFromNext(n, idx);
      BorrowedRank(n.keys, m.keys, idx);
    } else if idx != |n.keys| {
      MergeKeeps(n, idx, h);
      m := Merge(n, idx);
      MergedRank(n.keys, idx, idx);
      OwnSorted(n);
    } else {
      MergeKeeps(n, idx - 1, h);
      m := Merge(n, idx - 1);
      MergedRank(n.keys, idx, idx - 1);
      OwnSorted(n);
    }
  }

  lemma {:induction false} BorrowedRank(keys: seq<Key>, keys': seq<Key>, idx: nat)
    requires idx <= |keys| == |keys'|
    requires forall k {:trigger keys'[k]} :: 0 <= k < |keys| ==>
               (k < idx ==> keys'[k] <= keys[k]) && (k >= idx ==> keys[k] <= keys'[k])
    ensures forall x {:trigger IsRank(keys, x, idx)} :: IsRank(keys, x, idx) && x !in keys ==>
              IsRank(keys', x, idx) && (idx < |keys'| ==> keys'[idx] != x)
  {
    forall x | IsRank(keys, x, idx) && x !in keys
      ensures IsRank(keys', x, idx) && (idx < |keys'| ==> keys'[idx] != x)
    {
      assert idx < |keys| ==> keys[idx] in keys && keys'[idx] >= keys[idx];
    }
  }

  /** Dropping the key on either side of the child. */
  lemma {:induction false} MergedRank(keys: seq<Key>, idx: nat, gone: nat)
    requires idx <= |keys| && gone < |keys| && (gone == idx || gone + 1 == idx == |keys|)
    ensures var keys' := keys[..gone] + keys[gone + 1..];
            Sorted(keys) ==> forall x {:trigger IsRank(keys, x, idx)} :: IsRank(keys, x, idx) && x !in keys ==>
              IsRank(keys', x, gone) && (gone < |keys'| ==> keys'[gone] != x)
  {
    var keys' := keys[..gone] + keys[gone + 1..];
    forall x | Sorted(keys) && IsRank(keys, x, idx) && x !in keys
      ensures IsRank(keys', x, gone) && (gone < |keys'| ==> keys'[gone] != x)
    {
      assert forall k {:trigger keys'[k]} :: 0 <= k < gone ==> keys'[k] == keys[k];
      if gone < |keys'| {
        assert keys'[gone] == keys[gone + 1] && keys[gone + 1] in keys;
        assert keys[gone] < keys[gone + 1];
      }
    }
  }

  lemma {:induction false} HasKeys(n: Node, h: nat)
    requires Formed(n, h) && n.keys != []
    ensures InOrder(n) != []
  {
    if n.Inner? {
      LeftLast(n, |n.keys|);
    }
  }

  /** get_predecessor: the last key below child idx. */
  method GetPredecessor(n: Node, idx: nat, ghost h: nat) returns (k: Key)
    requires 0 < h && Formed(n, h) && idx <= |n.keys|
    ensures var s := InOrder(n.kids[idx]); s != [] && k == s[|s| - 1]
  {
    var cur := n.kids[idx];
    ghost var g: nat := h - 1;
    HasKeys(cur, g);
    while cur.Inner?
      invariant Good(cur, g, T - 1) && InOrder(cur) != []
      invariant InOrder(n.kids[idx]) != []
      invariant InOrder(cur)[|InOrder(cur)| - 1] == InOrder(n.kids[idx])[|InOrder(n.kids[idx])| - 1]
      decreases g
    {
      HasKeys(cur.kids[|cur.keys|], g - 1);
      cur := cur.kids[|cur.keys|];
      g := g - 1;
    }
    k := cur.keys[|cur.keys| - 1];
  }

  /** get_successor: the first key below child idx + 1. */
  method GetSuccessor(n: Node, idx: nat, ghost h: nat) returns (k: Key)
    requires 0 < h && Formed(n, h) && idx < |n.keys|
    ensures var s := InOrder(n.kids[idx + 1]); s != [] && k == s[0]
  {
    var cur := n.kids[idx + 1];
    ghost var g: nat := h - 1;
    HasKeys(cur, g);
    while cur.Inner?
      invariant Good(cur, g, T - 1) && InOrder(cur) != []
      invariant InOrder(n.kids[idx + 1]) != []
      invariant InOrder(cur)[0] == InOrder(n.kids[idx + 1])[0]
      decreases g
    {
      HasKeys(cur.kids[0], g - 1);
      Around(cur, 0);
      cur := cur.kids[0];
      g := g - 1;
    }
    k := cur.keys[0];
  }

  lemma {:induction false} WithoutEnds(s: seq<Key>)
    requires Sorted(s) && s != []
    ensures Without(s, s[|s| - 1]) == s[..|s| - 1] && Without(s, s[0]) == s[1..]
  {
    LeafRankThere(s, s[|s| - 1], |s| - 1);
    LeafRankThere(s, s[0], 0);
  }

  lemma {:induction false} WithoutMiddle(l: seq<Key>, a: seq<Key>, k: Key, b: seq<Key>, r: seq<Key>)
    requires Sorted(l + (a + [k] + b) + r)
    ensures Without(l + (a + [k] + b) + r, k) == l + (a + b) + r
  {
    assert l + (a + [k] + b) + r == (l + a) + [k] + (b + r);
    SortedAround(l + a, k, b + r);
    WithoutAround(l + a, [k], b + r, k);
    assert Without([k], k) == Without([k][1..], k) == [];
    assert l + (a + b) + r == (l + a) + [] + (b + r);
  }

  /** The key above is replaced by its neighbour from the child on the left, or on the right. */
  lemma {:induction false} PairReplaced(n: Node, idx: nat, a: Node, k: Key, b: Node, h: nat)
    requires 0 < h && Formed(n, h) && idx < |n.keys| && Good(a, h - 1, T - 1) && Good(b, h - 1, T - 1)
    requires Sorted(InOrder(n)) && InOrder(a) + [k] + InOrder(b) == InOrder(n.kids[idx]) + InOrder(n.kids[idx + 1])
    ensures Formed(WithPair(n, idx, a, k, b), h)
    ensures InOrder(WithPair(n, idx, a, k, b)) == Without(InOrder(n), n.keys[idx])
  {
    var m := WithPair(n, idx, a, k, b);
    AroundPair(n, idx);
    AroundPair(m, idx);
    assert m.keys[..idx] == n.keys[..idx] && m.kids[..idx] == n.kids[..idx];
    SameLeft(n, m, idx);
    assert m.keys[idx + 1..] == n.keys[idx + 1..] && m.kids[idx + 2..] == n.kids[idx + 2..];
    SameRight(n, m, idx + 1, idx + 1);
    WithoutMiddle(Left(n, idx), InOrder(n.kids[idx]), n.keys[idx], InOrder(n.kids[idx + 1]), Right(n, idx + 1));
  }

  /** After merging around its key, the key belongs in the merged child. */
  lemma {:induction false} MergedKey(n: Node, idx: nat, h: nat)
    requires 0 < h && Formed(n, h) && idx < |n.keys| && Sorted(InOrder(n))
    requires |n.kids[idx].keys| < T && |n.kids[idx + 1].keys| < T
    ensures n.kids[idx].Leaf? == n.kids[idx + 1].Leaf? && Parted(Merge(n, idx), n.keys[idx], idx)
  {
    MergeKeeps(n, idx, h);
    var m := Merge(n, idx);
    OwnSorted(n);
    assert forall k {:trigger m.keys[k]} :: 0 <= k < idx ==> m.keys[k] == n.keys[k];
    assert idx < |m.keys| ==> m.keys[idx] == n.keys[idx + 1];
    RankParts(m, n.keys[idx], idx);
  }

  /** remove_from_non_leaf: the neighbour from a child with keys to spare takes the key's place. */
  method RemoveFromNonLeaf(n: Node, idx: nat, ghost h: nat) returns (m: Node)
    requires 0 < h && Formed(n, h) && idx < |n.keys| <= MAX_KEYS && Sorted(InOrder(n))
    ensures Formed(m, h) && |n.keys| - 1 <= |m.keys| <= |n.keys|
    ensures InOrder(m) == Without(InOrder(n), n.keys[idx])
    decreases h, 0
  {
    var k := n.keys[idx];
    if |n.kids[idx].keys| >= T {
      KidSorted(n, idx);
      var pred := GetPredecessor(n, idx, h);
      var kid := Remove(n.kids[idx], pred, h - 1);
      PredecessorTaken(n, idx, kid, h);
      m := WithPair(n, idx, kid, pred, n.kids[idx + 1]);
    } else if |n.kids[idx + 1].keys| >= T {
      KidSorted(n, idx + 1);
      var succ := GetSuccessor(n, idx, h);
      var kid := Remove(n.kids[idx + 1], succ, h - 1);
      SuccessorTaken(n, idx, kid, h);
      m := WithPair(n, idx, n.kids[idx], succ, kid);
    } else {
      MergeKeeps(n, idx, h);
      MergedKey(n, idx, h);
      var merged := Merge(n, idx);
      KidSorted(merged, idx);
      var kid := Remove(merged.kids[idx], k, h - 1);
      RemovedInKid(merged, idx, kid, k, h);
      m := WithKid(merged, idx, kid);
    }
  }

  lemma {:induction false} PredecessorTaken(n: Node, idx: nat, kid: Node, h: nat)
    requires 0 < h && Formed(n, h) && idx < |n.keys| && Good(kid, h - 1, T - 1)
    requires Sorted(InOrder(n)) && InOrder(n.kids[idx]) != []
    requires InOrder(kid) == Without(InOrder(n.kids[idx]), InOrder(n.kids[idx])[|InOrder(n.kids[idx])| - 1])
    ensures var m := WithPair(n, idx, kid, InOrder(n.kids[idx])[|InOrder(n.kids[idx])| - 1], n.kids[idx + 1]);
            Formed(m, h) && InOrder(m) == Without(InOrder(n), n.keys[idx])
  {
    KidSorted(n, idx);
    var s, t := InOrder(n.kids[idx]), InOrder(n.kids[idx + 1]);
    WithoutEnds(s);
    assert s[..|s| - 1] + [s[|s| - 1]] + t == s + t;
    PairReplaced(n, idx, kid, s[|s| - 1], n.kids[idx + 1], h);
  }

  lemma {:induction false} SuccessorTaken(n: Node, idx: nat, kid: Node, h: nat)
    requires 0 < h && Formed(n, h) && idx < |n.keys| && Good(kid, h - 1, T - 1)
    requires Sorted(InOrder(n)) && InOrder(n.kids[idx + 1]) != []
    requires InOrder(kid) == Without(InOrder(n.kids[idx + 1]), InOrder(n.kids[idx + 1])[0])
    ensures var m := WithPair(n, idx, n.kids[idx], InOrder(n.kids[idx + 1])[0], kid);
            Formed(m, h) && InOrder(m) == Without(InOrder(n), n.keys[idx])
  {
    KidSorted(n, idx + 1);
    var s, t := InOrder(n.kids[idx]), InOrder(n.kids[idx + 1]);
    WithoutEnds(t);
    assert s + [t[0]] + t[1..] == s + t;
    PairReplaced(n, idx, n.kids[idx], t[0], kid, h);
  }

  /** remove: on the way down every child entered has a key to spare. */
  method Remove(n: Node, x: Key, ghost h: nat) returns (m: Node)
    requires Formed(n, h) && |n.keys| <= MAX_KEYS && (h > 0 ==> |n.keys| > 0) && Sorted(InOrder(n))
    ensures Formed(m, h) && |n.keys| - 1 <= |m.keys| <= |n.keys|
    ensures InOrder(m) == Without(InOrder(n), x)
    decreases h, 1
  {
    var idx := FindKey(n.keys, x);
    if idx < |n.keys| && n.keys[idx] == x {
      if n.Leaf? {
        LeafRankThere(n.keys, x, idx);
        return Leaf(n.keys[..idx] + n.keys[idx + 1..]);
      }
      m := RemoveFromNonLeaf(n, idx, h);
      return;
    }
    if n.Leaf? {
      LeafRankNotThere(n.keys, x, idx);
      return n;
    }
    OwnSorted(n);
    NotAKey(n.keys, x, idx);
    var flag := idx == |n.keys|;
    var node := n;
    if |n.kids[idx].keys| < T {
      node := Fill(n, idx, h);
    }
    var j := if flag && idx > |node.keys| then idx - 1 else idx;
    RankParts(node, x, j);
    KidSorted(node, j);
    var kid := Remove(node.kids[j], x, h - 1);
    RemovedInKid(node, j, kid, x, h);
    m := WithKid(node, j, kid);
  }

  lemma {:induction false} NotAKey(keys: seq<Key>, x: Key, idx: nat)
    requires Sorted(keys) && IsRank(keys, x, idx) && (idx < |keys| ==> keys[idx] != x)
    ensures x !in keys
  {
  }

  // ----- searching

  /** The greatest key of s that is at most x. */
  ghost predicate IsPredecessor(s: seq<Key>, x: Key, best: Option<Key>) {
    match best
    case None => AllAbove(s, x)
    case Some(k) => k in s && k <= x && forall y {:trigger y in s} :: y in s && y <= x ==> y <= k
  }

  /** The least key of s that is at least x. */
  ghost predicate IsSuccessor(s: seq<Key>, x: Key, best: Option<Key>) {
    match best
    case None => AllBelow(s, x)
    case Some(k) => k in s && x <= k && forall y {:trigger y in s} :: y in s && x <= y ==> k <= y
  }

  function LastOf(a: seq<Key>): Option<Key> {
    if a == [] then None else Some(a[|a| - 1])
  }

  function FirstOf(b: seq<Key>): Option<Key> {
    if b == [] then None else Some(b[0])
  }

  lemma {:induction false} GreatestBelow(a: seq<Key>, b: seq<Key>, x: Key)
    requires Sorted(a) && AllBelow(a, x) && AllAbove(b, x)
    ensures IsPredecessor(a + b, x, LastOf(a))
  {
    var s := a + b;
    forall y | y in s && y <= x
      ensures a != [] && y <= a[|a| - 1]
    {
      var k :| 0 <= k < |s| && s[k] == y;
    }
    if a == [] {
      assert s == b;
    } else {
      assert s[|a| - 1] == a[|a| - 1];
    }
  }

  lemma {:induction false} LeastAbove(a: seq<Key>, b: seq<Key>, x: Key)
    requires Sorted(b) && AllBelow(a, x) && AllAbove(b, x)
    ensures IsSuccessor(a + b, x, FirstOf(b))
  {
    var s := a + b;
    forall y | y in s && x <= y
      ensures b != [] && b[0] <= y
    {
      var k :| 0 <= k < |s| && s[k] == y;
      assert k >= |a| ==> s[k] == b[k - |a|];
    }
    if b == [] {
      assert s == a;
    } else {
      assert s[|a|] == b[0];
    }
  }

  lemma {:induction false} NeighboursOf(a: seq<Key>, b: seq<Key>, x: Key)
    requires Sorted(a + b) && AllBelow(a, x) && AllAbove(b, x)
    ensures IsPredecessor(a + b, x, LastOf(a)) && IsSuccessor(a + b, x, FirstOf(b))
  {
    assert a + b == a + b + [];
    SortedParts(a, b, []);
    GreatestBelow(a, b, x);
    LeastAbove(a, b, x);
  }

  /** Where a search stands: the keys before and after the current node, with none missed. */
  ghost predicate Searching(root: Node, cur: Node, x: Key, a: seq<Key>, b: seq<Key>) {
    InOrder(root) == a + InOrder(cur) + b && AllBelow(a, x) && AllAbove(b, x)
  }

  /** One step down: what is left of the child joins a, what is right of it joins b. */
  lemma {:induction false} Descend(root: Node, cur: Node, x: Key, a: seq<Key>, b: seq<Key>, i: nat)
    requires Searching(root, cur, x, a, b) && Parted(cur, x, i)
    ensures Searching(root, cur.kids[i], x, a + Left(cur, i), Right(cur, i) + b)
    ensures LastOf(a + Left(cur, i)) == if i > 0 then Some(cur.keys[i - 1]) else LastOf(a)
    ensures FirstOf(Right(cur, i) + b) == if i < |cur.keys| then Some(cur.keys[i]) else FirstOf(b)
  {
    Around(cur, i);
    assert a + (Left(cur, i) + InOrder(cur.kids[i]) + Right(cur, i)) + b
        == (a + Left(cur, i)) + InOrder(cur.kids[i]) + (Right(cur, i) + b);
    if i > 0 {
      LeftLast(cur, i);
    } else {
      assert a + Left(cur, i) == a;
    }
    if i == |cur.keys| {
      assert Right(cur, i) + b == b;
    }
  }

  lemma {:induction false} CurSorted(root: Node, cur: Node, x: Key, a: seq<Key>, b: seq<Key>)
    requires Searching(root, cur, x, a, b) && Sorted(InOrder(root))
    ensures Sorted(InOrder(cur))
  {
    SortedParts(a, InOrder(cur), b);
  }

  lemma {:induction false} FoundHere(root: Node, cur: Node, x: Key, a: seq<Key>, b: seq<Key>, i: nat)
    requires Searching(root, cur, x, a, b) && Paired(cur) && i < |cur.keys| && cur.keys[i] == x
    ensures x in InOrder(root)
  {
    if cur.Inner? {
      OwnKeys(cur, i);
    }
    assert x in InOrder(cur);
  }

  lemma {:induction false} LeafLists(a: seq<Key>, keys: seq<Key>, b: seq<Key>, i: nat)
    requires i <= |keys|
    ensures a + keys + b == (a + keys[..i]) + (keys[i..] + b)
    ensures LastOf(a + keys[..i]) == if i > 0 then Some(keys[i - 1]) else LastOf(a)
    ensures FirstOf(keys[i..] + b) == if i < |keys| then Some(keys[i]) else FirstOf(b)
  {
    assert keys == keys[..i] + keys[i..];
    assert i == 0 ==> a + keys[..i] == a;
    assert i == |keys| ==> keys[i..] + b == b;
  }

  lemma {:induction false} LeafNeighbours(a: seq<Key>, keys: seq<Key>, b: seq<Key>, x: Key, i: nat)
    requires Sorted(a + keys + b) && AllBelow(a, x) && AllAbove(b, x)
    requires IsRank(keys, x, i) && AllAbove(keys[i..], x)
    ensures IsPredecessor(a + keys + b, x, if i > 0 then Some(keys[i - 1]) else LastOf(a))
    ensures IsSuccessor(a + keys + b, x, if i < |keys| then Some(keys[i]) else FirstOf(b))
  {
    LeafLists(a, keys, b, i);
    NeighboursOf(a + keys[..i], keys[i..] + b, x);
  }

  lemma {:induction false} AboveRank(keys: seq<Key>, x: Key, i: nat)
    requires Sorted(keys) && IsRank(keys, x, i) && (i < |keys| ==> keys[i] != x)
    ensures AllAbove(keys[i..], x) && x !in keys
  {
    forall k | 0 <= k < |keys[i..]|
      ensures x < keys[i..][k]
    {
      assert keys[i] <= keys[i + k];
    }
    NotAKey(keys, x, i);
  }

  /** At a leaf without x the keys next to its place are its neighbours. */
  lemma {:induction false} AtLeaf(root: Node, cur: Node, x: Key, a: seq<Key>, b: seq<Key>, i: nat)
    requires Searching(root, cur, x, a, b) && cur.Leaf? && Sorted(InOrder(root))
    requires IsRank(cur.keys, x, i) && (i < |cur.keys| ==> cur.keys[i] != x)
    ensures x !in InOrder(root)
    ensures IsPredecessor(InOrder(root), x, if i > 0 then Some(cur.keys[i - 1]) else LastOf(a))
    ensures IsSuccessor(InOrder(root), x, if i < |cur.keys| then Some(cur.keys[i]) else FirstOf(b))
  {
    CurSorted(root, cur, x, a, b);
    AboveRank(cur.keys, x, i);
    LeafNeighbours(a, cur.keys, b, x, i);
  }

  method Contains(root: Node, x: Key, ghost h: nat) returns (yes: bool)
    requires Formed(root, h) && Sorted(InOrder(root))
    ensures yes <==> x in InOrder(root)
  {
    var cur := root;
    ghost var g: nat := h;
    ghost var a: seq<Key>, b: seq<Key> := [], [];
    assert [] + InOrder(root) + [] == InOrder(root);
    while true
      invariant Formed(cur, g) && Searching(root, cur, x, a, b)
      decreases g
    {
      var idx := FindKey(cur.keys, x);
      CurSorted(root, cur, x, a, b);
      if idx < |cur.keys| && cur.keys[idx] == x {
        FoundHere(root, cur, x, a, b, idx);
        return true;
      }
      if cur.Leaf? {
        AtLeaf(root, cur, x, a, b, idx);
        return false;
      }
      RankParts(cur, x, idx);
      Descend(root, cur, x, a, b, idx);
      a, b := a + Left(cur, idx), Right(cur, idx) + b;
      cur := cur.kids[idx];
      g := g - 1;
    }
  }

  lemma {:induction false} OwnNeighbour(s: seq<Key>, x: Key)
    requires x in s
    ensures IsPredecessor(s, x, Some(x)) && IsSuccessor(s, x, Some(x))
  {
  }

  method Predecessor(root: Node, x: Key, ghost h: nat) returns (best: Option<Key>)
    requires Formed(root, h) && Sorted(InOrder(root))
    ensures IsPredecessor(InOrder(root), x, best)
  {
    best := None;
    var cur := root;
    ghost var g: nat := h;
    ghost var a: seq<Key>, b: seq<Key> := [], [];
    assert [] + InOrder(root) + [] == InOrder(root);
    while true
      invariant Formed(cur, g) && Searching(root, cur, x, a, b) && best == LastOf(a)
      decreases g
    {
      var idx := FindKey(cur.keys, x);
      CurSorted(root, cur, x, a, b);
      if idx < |cur.keys| && cur.keys[idx] == x {
        FoundHere(root, cur, x, a, b, idx);
        OwnNeighbour(InOrder(root), x);
        return Some(x);
      }
      if idx > 0 {
        best := Some(cur.keys[idx - 1]);
      }
      if cur.Leaf? {
        AtLeaf(root, cur, x, a, b, idx);
        return;
      }
      RankParts(cur, x, idx);
      Descend(root, cur, x, a, b, idx);
      a, b := a + Left(cur, idx), Right(cur, idx) + b;
      cur := cur.kids[idx];
      g := g - 1;
    }
  }

  method Successor(root: Node, x: Key, ghost h: nat) returns (best: Option<Key>)
    requires Formed(root, h) && Sorted(InOrder(root))
    ensures IsSuccessor(InOrder(root), x, best)
  {
    best := None;
    var cur := root;
    ghost var g: nat := h;
    ghost var a: seq<Key>, b: seq<Key> := [], [];
    assert [] + InOrder(root) + [] == InOrder(root);
    while true
      invariant Formed(cur, g) && Searching(root, cur, x, a, b) && best == FirstOf(b)
      decreases g
    {
      var idx := FindKey(cur.keys, x);
      CurSorted(root, cur, x, a, b);
      if idx < |cur.keys| && cur.keys[idx] == x {
        FoundHere(root, cur, x, a, b, idx);
        OwnNeighbour(InOrder(root), x);
        return Some(x);
      }
      if idx < |cur.keys| {
        best := Some(cur.keys[idx]);
      }
      if cur.Leaf? {
        AtLeaf(root, cur, x, a, b, idx);
        return;
      }
      RankParts(cur, x, idx);
      Descend(root, cur, x, a, b, idx);
      a, b := a + Left(cur, idx), Right(cur, idx) + b;
      cur := cur.kids[idx];
      g := g - 1;
    }
  }

  // ----- the tree

  /** A full root becomes the only child of a new one and is split there. */
  lemma {:induction false} NewRoot(root: Node, h: nat)
    requires Formed(root, h) && |root.keys| == MAX_KEYS
    ensures Paired(root)
    ensures var m := SplitChild(Inner([], [root]), 0);
            Formed(m, h + 1) && |m.keys| == 1 && InOrder(m) == InOrder(root)
  {
    var s := Inner([], [root]);
    assert InOrder(s) == InOrder(root);
    SplitKeeps(s, 0, h + 1);
  }

  method InsertAtRoot(root: Node, x: Key, ghost h: nat) returns (m: Node, ghost g: nat)
    requires Formed(root, h) && |root.keys| <= MAX_KEYS && (h > 0 ==> |root.keys| > 0)
    requires Sorted(InOrder(root)) && x !in InOrder(root)
    ensures Formed(m, g) && |m.keys| <= MAX_KEYS && (g > 0 ==> |m.keys| > 0)
    ensures InOrder(m) == Entered(InOrder(root), x)
  {
    if |root.keys| == MAX_KEYS {
      NewRoot(root, h);
      m := InsertNonFull(SplitChild(Inner([], [root]), 0), x, h + 1);
      g := h + 1;
    } else {
      m := InsertNonFull(root, x, h);
      g := h;
    }
  }

  class FusionTree {
    var root: Node
    var size: nat
    ghost var height: nat

    /** All leaves at one depth, three to seven keys in every node but the root, keys sorted. */
    ghost predicate Valid()
      reads this
    {
      && Formed(root, height) && |root.keys| <= MAX_KEYS && (height > 0 ==> |root.keys| > 0)
      && Sorted(InOrder(root)) && size == |InOrder(root)|
    }

    ghost function Keys(): set<Key>
      reads this
    {
      set k | k in InOrder(root)
    }

    constructor ()
      ensures Valid() && Keys() == {}
    {
      root := Leaf([]);
      size := 0;
      height := 0;
    }

    method Has(x: Key) returns (yes: bool)
      requires Valid()
      ensures yes <==> x in Keys()
    {
      yes := Contains(root, x, height);
    }

    /** Adds a key that is not there yet; a full root is split first. */
    method Insert(x: Key) returns (added: bool)
      requires Valid()
      modifies this
      ensures Valid() && added == (x !in old(Keys())) && Keys() == old(Keys()) + {x}
      ensures size == old(size) + if added then 1 else 0
    {
      var there := Contains(root, x, height);
      if there {
        return false;
      }
      EnteredKeys(InOrder(root), x);
      root, height := InsertAtRoot(root, x, height);
      size := size + 1;
      added := true;
    }

    /** Removes a key that is there; a root left without keys gives way to its only child. */
    method Erase(x: Key) returns (removed: bool)
      requires Valid()
      modifies this
      ensures Valid() && removed == (x in old(Keys())) && Keys() == old(Keys()) - {x}
      ensures size == old(size) - if removed then 1 else 0
    {
      var there := Contains(root, x, height);
      if !there {
        return false;
      }
      WithoutKeys(InOrder(root), x);
      root := Remove(root, x, height);
      if |root.keys| == 0 && root.Inner? {
        assert InOrder(root) == InOrder(root.kids[0]);
        root := root.kids[0];
        height := height - 1;
      }
      size := size - 1;
      removed := true;
    }

    method PredecessorOf(x: Key) returns (best: Option<Key>)
      requires Valid()
      ensures IsPredecessor(InOrder(root), x, best)
    {
      if size == 0 {
        return None;
      }
      best := Predecessor(root, x, height);
    }

    method SuccessorOf(x: Key) returns (best: Option<Key>)
      requires Valid()
      ensures IsSuccessor(InOrder(root), x, best)
    {
      if size == 0 {
        return None;
      }
      best := Successor(root, x, height);
    }
  }
}
