/**
 The steps that rebalance a B-tree: split, borrow from either side, and merge.  Each keeps the
 in-order list of keys and the shape of the tree.
 */
module BTreeSteps {
  import opened BTreeNodes

  // ----- two nodes and a key between them

  /** One node with the keys of a, then k, then the keys of b, and the children of both. */
  function Joined(a: Node, k: Key, b: Node): Node
    requires a.Leaf? == b.Leaf?
  {
    if a.Leaf? then Leaf(a.keys + [k] + b.keys) else Inner(a.keys + [k] + b.keys, a.kids + b.kids)
  }

  predicate Paired(n: Node) {
    n.Inner? ==> |n.kids| == |n.keys| + 1
  }

  lemma {:induction false} JoinedLeft(a: Node, k: Key, b: Node)
    requires a.Inner? && b.Inner? && Paired(a) && Paired(b)
    ensures Paired(Joined(a, k, b))
    ensures InOrder(a) == Left(Joined(a, k, b), |a.keys|) + InOrder(Joined(a, k, b).kids[|a.keys|])
  {
    var m, i := Joined(a, k, b), |a.keys|;
    assert m.keys[..i] == a.keys[..i] && m.kids[..i] == a.kids[..i];
    SameLeft(m, a, i);
  }

  lemma {:induction false} JoinedRight(a: Node, k: Key, b: Node)
    requires a.Inner? && b.Inner? && Paired(a) && Paired(b)
    ensures Paired(Joined(a, k, b))
    ensures InOrder(b) == InOrder(Joined(a, k, b).kids[|a.keys| + 1]) + Right(Joined(a, k, b), |a.keys| + 1)
  {
    var m, i := Joined(a, k, b), |a.keys|;
    assert m.keys[i + 1..] == b.keys[0..] && m.kids[i + 2..] == b.kids[1..];
    SameRight(m, b, i + 1, 0);
    Around(b, 0);
  }

  lemma {:induction false} JoinedOrder(a: Node, k: Key, b: Node)
    requires a.Leaf? == b.Leaf? && Paired(a) && Paired(b)
    ensures Paired(Joined(a, k, b)) && InOrder(Joined(a, k, b)) == InOrder(a) + [k] + InOrder(b)
  {
    if a.Inner? {
      var i := |a.keys|;
      var m := Joined(a, k, b);
      Around(m, i);
      JoinedLeft(a, k, b);
      JoinedRight(a, k, b);
      assert Right(m, i) == [k] + InOrder(m.kids[i + 1]) + Right(m, i + 1);
    }
  }

  /** Right kind for the height and all children good, whatever the number of keys. */
  ghost predicate Formed(n: Node, h: nat) {
    if h == 0 then n.Leaf?
    else n.Inner? && |n.kids| == |n.keys| + 1
         && forall i {:trigger n.kids[i]} :: 0 <= i < |n.kids| ==> Good(n.kids[i], h - 1, T - 1)
  }

  lemma {:induction false} JoinedFormed(a: Node, k: Key, b: Node, h: nat)
    requires a.Leaf? == b.Leaf? && Paired(a) && Paired(b)
    ensures Formed(Joined(a, k, b), h) <==> Formed(a, h) && Formed(b, h)
  {
    var m := Joined(a, k, b);
    if h > 0 && Formed(m, h) {
      forall i | 0 <= i < |a.kids|
        ensures Good(a.kids[i], h - 1, T - 1)
      {
        assert m.kids[i] == a.kids[i];
      }
      forall i | 0 <= i < |b.kids|
        ensures Good(b.kids[i], h - 1, T - 1)
      {
        assert m.kids[|a.kids| + i] == b.kids[i];
      }
    }
  }

  /** The part of a node that moves to its neighbour: nothing of a leaf, one child of an inner. */
  function FirstKid(n: Node): Node
    requires n.Inner? ==> n.kids != []
  {
    if n.Leaf? then Leaf([]) else Inner([], [n.kids[0]])
  }

  function LastKid(n: Node): Node
    requires n.Inner? ==> n.kids != []
  {
    if n.Leaf? then Leaf([]) else Inner([], [n.kids[|n.kids| - 1]])
  }

  function WithoutFirst(n: Node): Node
    requires n.keys != [] && (n.Inner? ==> n.kids != [])
  {
    if n.Leaf? then Leaf(n.keys[1..]) else Inner(n.keys[1..], n.kids[1..])
  }

  function WithoutLast(n: Node): Node
    requires n.keys != [] && (n.Inner? ==> n.kids != [])
  {
    if n.Leaf? then Leaf(n.keys[..|n.keys| - 1]) else Inner(n.keys[..|n.keys| - 1], n.kids[..|n.kids| - 1])
  }

  lemma {:induction false} EndsJoined(n: Node)
    requires n.keys != [] && Paired(n)
    ensures Joined(FirstKid(n), n.keys[0], WithoutFirst(n)) == n
    ensures Joined(WithoutLast(n), n.keys[|n.keys| - 1], LastKid(n)) == n
  {
  }

  // ----- the steps

  /** Children i and i + 1 and the key between them replaced. */
  function WithPair(n: Node, i: nat, a: Node, k: Key, b: Node): Node
    requires n.Inner? && i < |n.keys| && |n.kids| == |n.keys| + 1
  {
    Inner(n.keys[i := k], n.kids[i := a][i + 1 := b])
  }

  /** borrow_from_prev: the key above moves down, the neighbour's last key moves up. */
  function BorrowFromPrev(n: Node, idx: nat): Node
    requires n.Inner? && 0 < idx <= |n.keys| && |n.kids| == |n.keys| + 1
    requires n.kids[idx - 1].keys != [] && n.kids[idx - 1].Leaf? == n.kids[idx].Leaf?
    requires n.kids[idx - 1].Inner? ==> n.kids[idx - 1].kids != []
  {
    var child, sibling := n.kids[idx], n.kids[idx - 1];
    var child' := if child.Leaf? then Leaf([n.keys[idx - 1]] + child.keys)
                  else Inner([n.keys[idx - 1]] + child.keys, [sibling.kids[|sibling.kids| - 1]] + child.kids);
    WithPair(n, idx - 1, WithoutLast(sibling), sibling.keys[|sibling.keys| - 1], child')
  }

  /** borrow_from_next: the same with the neighbour on the right. */
  function BorrowFromNext(n: Node, idx: nat): Node
    requires n.Inner? && idx < |n.keys| && |n.kids| == |n.keys| + 1
    requires n.kids[idx + 1].keys != [] && n.kids[idx + 1].Leaf? == n.kids[idx].Leaf?
    requires n.kids[idx + 1].Inner? ==> n.kids[idx + 1].kids != []
  {
    var child, sibling := n.kids[idx], n.kids[idx + 1];
    var child' := if child.Leaf? then Leaf(child.keys + [n.keys[idx]])
                  else Inner(child.keys + [n.keys[idx]], child.kids + [sibling.kids[0]]);
    WithPair(n, idx, child', sibling.keys[0], WithoutFirst(sibling))
  }

  /** merge: children idx and idx + 1 and the key between them become one child. */
  function Merge(n: Node, idx: nat): Node
    requires n.Inner? && idx < |n.keys| && |n.kids| == |n.keys| + 1 && n.kids[idx].Leaf? == n.kids[idx + 1].Leaf?
  {
    Inner(n.keys[..idx] + n.keys[idx + 1..],
          n.kids[..idx] + [Joined(n.kids[idx], n.keys[idx], n.kids[idx + 1])] + n.kids[idx + 2..])
  }

  /** split_child: a full child becomes two with its middle key between them. */
  function SplitChild(n: Node, i: nat): Node
    requires n.Inner? && i <= |n.keys| && |n.kids| == |n.keys| + 1 && |n.kids[i].keys| == MAX_KEYS && Paired(n.kids[i])
  {
    var full := n.kids[i];
    var y := if full.Leaf? then Leaf(full.keys[..T - 1]) else Inner(full.keys[..T - 1], full.kids[..T]);
    var z := if full.Leaf? then Leaf(full.keys[T..]) else Inner(full.keys[T..], full.kids[T..]);
    Inner(n.keys[..i] + [full.keys[T - 1]] + n.keys[i..], n.kids[..i] + [y, z] + n.kids[i + 1..])
  }

  // ----- what a step does to the in-order list

  /** The keys of children i and i + 1 with the key between them. */
  function PairOrder(n: Node, i: nat): seq<Key>
    requires n.Inner? && i < |n.keys| && |n.kids| == |n.keys| + 1
  {
    InOrder(n.kids[i]) + [n.keys[i]] + InOrder(n.kids[i + 1])
  }

  lemma {:induction false} Regroup(l: seq<Key>, a: seq<Key>, k: Key, b: seq<Key>, r: seq<Key>)
    ensures l + a + ([k] + b + r) == l + (a + [k] + b) + r
  {
  }

  lemma {:induction false} AroundPair(n: Node, i: nat)
    requires n.Inner? && i < |n.keys| && |n.kids| == |n.keys| + 1
    ensures InOrder(n) == Left(n, i) + PairOrder(n, i) + Right(n, i + 1)
  {
    Around(n, i);
    Regroup(Left(n, i), InOrder(n.kids[i]), n.keys[i], InOrder(n.kids[i + 1]), Right(n, i + 1));
  }

  lemma {:induction false} WithPairKeeps(n: Node, i: nat, a: Node, k: Key, b: Node, h: nat)
    requires 0 < h && Formed(n, h) && i < |n.keys| && Good(a, h - 1, T - 1) && Good(b, h - 1, T - 1)
    requires InOrder(a) + [k] + InOrder(b) == PairOrder(n, i)
    ensures Formed(WithPair(n, i, a, k, b), h) && InOrder(WithPair(n, i, a, k, b)) == InOrder(n)
  {
    var m := WithPair(n, i, a, k, b);
    AroundPair(n, i);
    AroundPair(m, i);
    assert m.keys[..i] == n.keys[..i] && m.kids[..i] == n.kids[..i];
    SameLeft(n, m, i);
    assert m.keys[i + 1..] == n.keys[i + 1..] && m.kids[i + 2..] == n.kids[i + 2..];
    SameRight(n, m, i + 1, i + 1);
  }

  lemma {:induction false} MergeFormed(n: Node, i: nat, h: nat)
    requires 0 < h && Formed(n, h) && i < |n.keys| && |n.kids[i].keys| + |n.kids[i + 1].keys| < MAX_KEYS
    ensures n.kids[i].Leaf? == n.kids[i + 1].Leaf? && Formed(Merge(n, i), h)
    ensures |Merge(n, i).kids[i].keys| == |n.kids[i].keys| + |n.kids[i + 1].keys| + 1
  {
    var m := Merge(n, i);
    JoinedFormed(n.kids[i], n.keys[i], n.kids[i + 1], h - 1);
    assert m.kids[i] == Joined(n.kids[i], n.keys[i], n.kids[i + 1]);
    forall j | 0 <= j < |m.kids|
      ensures Good(m.kids[j], h - 1, T - 1)
    {
      assert j < i ==> m.kids[j] == n.kids[j];
      assert j > i ==> m.kids[j] == n.kids[j + 1];
    }
  }

  lemma {:induction false} MergeOrder(n: Node, i: nat)
    requires n.Inner? && i < |n.keys| && |n.kids| == |n.keys| + 1 && n.kids[i].Leaf? == n.kids[i + 1].Leaf?
    requires Paired(n.kids[i]) && Paired(n.kids[i + 1])
    ensures InOrder(Merge(n, i)) == InOrder(n)
  {
    var m := Merge(n, i);
    JoinedOrder(n.kids[i], n.keys[i], n.kids[i + 1]);
    assert InOrder(m.kids[i]) == PairOrder(n, i);
    AroundPair(n, i);
    Around(m, i);
    assert m.keys[..i] == n.keys[..i] && m.kids[..i] == n.kids[..i];
    SameLeft(n, m, i);
    assert n.keys[i + 1..] == m.keys[i..] && n.kids[i + 2..] == m.kids[i + 1..];
    SameRight(n, m, i + 1, i);
  }

  lemma {:induction false} MergeKeeps(n: Node, i: nat, h: nat)
    requires 0 < h && Formed(n, h) && i < |n.keys| && |n.kids[i].keys| + |n.kids[i + 1].keys| < MAX_KEYS
    ensures n.kids[i].Leaf? == n.kids[i + 1].Leaf?
    ensures var m := Merge(n, i);
            Formed(m, h) && InOrder(m) == InOrder(n) && |m.kids[i].keys| == |n.kids[i].keys| + |n.kids[i + 1].keys| + 1
  {
    MergeFormed(n, i, h);
    MergeOrder(n, i);
  }

  lemma {:induction false} SplitJoins(n: Node, i: nat)
    requires n.Inner? && i <= |n.keys| && |n.kids| == |n.keys| + 1 && |n.kids[i].keys| == MAX_KEYS && Paired(n.kids[i])
    ensures var m := SplitChild(n, i);
            && |m.keys| == |n.keys| + 1 && |m.kids| == |n.kids| + 1
            && |m.kids[i].keys| == T - 1 && |m.kids[i + 1].keys| == T - 1
            && m.kids[i].Leaf? == m.kids[i + 1].Leaf? && Paired(m.kids[i]) && Paired(m.kids[i + 1])
            && Joined(m.kids[i], m.keys[i], m.kids[i + 1]) == n.kids[i]
  {
    var full, m := n.kids[i], SplitChild(n, i);
    var y, k, z := m.kids[i], m.keys[i], m.kids[i + 1];
    assert full.keys == y.keys + [k] + z.keys;
    assert full.Inner? ==> full.kids == y.kids + z.kids;
  }

  lemma {:induction false} SplitKeeps(n: Node, i: nat, h: nat)
    requires 0 < h && Formed(n, h) && i <= |n.keys| && |n.kids[i].keys| == MAX_KEYS
    ensures Paired(n.kids[i])
    ensures var m := SplitChild(n, i);
            && Formed(m, h) && InOrder(m) == InOrder(n) && |m.keys| == |n.keys| + 1
            && |m.kids[i].keys| == T - 1 && |m.kids[i + 1].keys| == T - 1
  {
    var m := SplitChild(n, i);
    SplitJoins(n, i);
    JoinedOrder(m.kids[i], m.keys[i], m.kids[i + 1]);
    JoinedFormed(m.kids[i], m.keys[i], m.kids[i + 1], h - 1);
    forall j | 0 <= j < |m.kids|
      ensures Good(m.kids[j], h - 1, T - 1)
    {
      assert j < i ==> m.kids[j] == n.kids[j];
      assert j > i + 1 ==> m.kids[j] == n.kids[j - 1];
    }
    SplitOrder(n, m, i);
  }

  lemma {:induction false} SplitOrder(n: Node, m: Node, i: nat)
    requires n.Inner? && i <= |n.keys| && |n.kids| == |n.keys| + 1 && m.Inner? && |m.keys| == |n.keys| + 1
    requires |m.kids| == |n.kids| + 1
    requires m.keys == n.keys[..i] + [m.keys[i]] + n.keys[i..]
    requires m.kids == n.kids[..i] + [m.kids[i], m.kids[i + 1]] + n.kids[i + 1..]
    requires PairOrder(m, i) == InOrder(n.kids[i])
    ensures InOrder(m) == InOrder(n)
  {
    Around(n, i);
    AroundPair(m, i);
    assert m.keys[..i] == n.keys[..i] && m.kids[..i] == n.kids[..i];
    SameLeft(n, m, i);
    assert n.keys[i..] == m.keys[i + 1..] && n.kids[i + 1..] == m.kids[i + 2..];
    SameRight(n, m, i, i + 1);
  }

  lemma {:induction false} JoinedFront(a: Node, k: Key, b: Node)
    requires a.Leaf? == b.Leaf? && (a.Inner? ==> a.kids != [])
    ensures var m := Joined(LastKid(a), k, b);
            if b.Leaf? then m == Leaf([k] + b.keys) else m == Inner([k] + b.keys, [a.kids[|a.kids| - 1]] + b.kids)
  {
    assert [] + [k] + b.keys == [k] + b.keys;
  }

  lemma {:induction false} JoinedBack(a: Node, k: Key, b: Node)
    requires a.Leaf? == b.Leaf? && (b.Inner? ==> b.kids != [])
    ensures var m := Joined(a, k, FirstKid(b));
            if a.Leaf? then m == Leaf(a.keys + [k]) else m == Inner(a.keys + [k], a.kids + [b.kids[0]])
  {
    assert a.keys + [k] + [] == a.keys + [k];
  }

  lemma {:induction false} Rejoin(a: seq<Key>, k: Key, m: seq<Key>, j: Key, b: seq<Key>)
    ensures (a + [k] + m) + [j] + b == a + [k] + (m + [j] + b)
  {
  }

  lemma {:induction false} EndsFormed(n: Node, h: nat)
    requires Formed(n, h) && n.keys != []
    ensures Formed(FirstKid(n), h) && Formed(WithoutFirst(n), h)
    ensures Formed(WithoutLast(n), h) && Formed(LastKid(n), h)
  {
    EndsJoined(n);
    JoinedFormed(FirstKid(n), n.keys[0], WithoutFirst(n), h);
    JoinedFormed(WithoutLast(n), n.keys[|n.keys| - 1], LastKid(n), h);
  }

  /** The last part of a moves over k to the front of b. */
  lemma {:induction false} ShiftRight(a: Node, k: Key, b: Node, h: nat)
    requires Good(a, h, T) && Good(b, h, T - 1) && |b.keys| < MAX_KEYS
    ensures a.Leaf? == b.Leaf? && (a.Inner? ==> a.kids != [])
    ensures var a', b' := WithoutLast(a), Joined(LastKid(a), k, b);
            && Good(a', h, T - 1) && Good(b', h, T - 1)
            && InOrder(a') + [a.keys[|a.keys| - 1]] + InOrder(b') == InOrder(a) + [k] + InOrder(b)
  {
    var a', k', mid := WithoutLast(a), a.keys[|a.keys| - 1], LastKid(a);
    EndsJoined(a);
    EndsFormed(a, h);
    JoinedFormed(mid, k, b, h);
    JoinedOrder(a', k', mid);
    JoinedOrder(mid, k, b);
    Rejoin(InOrder(a'), k', InOrder(mid), k, InOrder(b));
  }

  lemma {:induction false} ShiftLeft(a: Node, k: Key, b: Node, h: nat)
    requires Good(a, h, T - 1) && Good(b, h, T) && |a.keys| < MAX_KEYS
    ensures a.Leaf? == b.Leaf? && (b.Inner? ==> b.kids != [])
    ensures var a', b' := Joined(a, k, FirstKid(b)), WithoutFirst(b);
            && Good(a', h, T - 1) && Good(b', h, T - 1)
            && InOrder(a') + [b.keys[0]] + InOrder(b') == InOrder(a) + [k] + InOrder(b)
  {
    var mid, k', b' := FirstKid(b), b.keys[0], WithoutFirst(b);
    EndsJoined(b);
    EndsFormed(b, h);
    JoinedFormed(a, k, mid, h);
    JoinedOrder(mid, k', b');
    JoinedOrder(a, k, mid);
    Rejoin(InOrder(a), k, InOrder(mid), k', InOrder(b'));
  }

  lemma {:induction false} BorrowPrevKeeps(n: Node, idx: nat, h: nat)
    requires 0 < h && Formed(n, h) && 0 < idx <= |n.keys| && |n.kids[idx - 1].keys| >= T
    requires |n.kids[idx].keys| < MAX_KEYS
    ensures n.kids[idx - 1].Leaf? == n.kids[idx].Leaf? && (n.kids[idx - 1].Inner? ==> n.kids[idx - 1].kids != [])
    ensures var m := BorrowFromPrev(n, idx);
            && Formed(m, h) && InOrder(m) == InOrder(n) && |m.keys| == |n.keys|
            && |m.kids[idx].keys| == |n.kids[idx].keys| + 1
            && m.keys == n.keys[idx - 1 := n.kids[idx - 1].keys[|n.kids[idx - 1].keys| - 1]]
  {
    var i := idx - 1;
    var a, k, b := n.kids[i], n.keys[i], n.kids[i + 1];
    ShiftPair(n, i, h);
    JoinedFront(a, k, b);
    assert BorrowFromPrev(n, idx) == WithPair(n, i, WithoutLast(a), a.keys[|a.keys| - 1], Joined(LastKid(a), k, b));
  }

  lemma {:induction false} ShiftPair(n: Node, i: nat, h: nat)
    requires 0 < h && Formed(n, h) && i < |n.keys| && |n.kids[i].keys| >= T && |n.kids[i + 1].keys| < MAX_KEYS
    ensures n.kids[i].Leaf? == n.kids[i + 1].Leaf? && (n.kids[i].Inner? ==> n.kids[i].kids != [])
    ensures var a, k, b := n.kids[i], n.keys[i], n.kids[i + 1];
            var m := WithPair(n, i, WithoutLast(a), a.keys[|a.keys| - 1], Joined(LastKid(a), k, b));
            Formed(m, h) && InOrder(m) == InOrder(n) && |m.kids[i + 1].keys| == |b.keys| + 1
  {
    var a, k, b := n.kids[i], n.keys[i], n.kids[i + 1];
    ShiftRight(a, k, b, h - 1);
    WithPairKeeps(n, i, WithoutLast(a), a.keys[|a.keys| - 1], Joined(LastKid(a), k, b), h);
  }

  lemma {:induction false} BorrowNextKeeps(n: Node, idx: nat, h: nat)
    requires 0 < h && Formed(n, h) && idx < |n.keys| && |n.kids[idx + 1].keys| >= T && |n.kids[idx].keys| < MAX_KEYS
    ensures n.kids[idx + 1].Leaf? == n.kids[idx].Leaf? && (n.kids[idx + 1].Inner? ==> n.kids[idx + 1].kids != [])
    ensures var m := BorrowFromNext(n, idx);
            && Formed(m, h) && InOrder(m) == InOrder(n) && |m.keys| == |n.keys|
            && |m.kids[idx].keys| == |n.kids[idx].keys| + 1
            && m.keys == n.keys[idx := n.kids[idx + 1].keys[0]]
  {
    var a, k, b := n.kids[idx], n.keys[idx], n.kids[idx + 1];
    ShiftLeft(a, k, b, h - 1);
    var a', k', b' := Joined(a, k, FirstKid(b)), b.keys[0], WithoutFirst(b);
    WithPairKeeps(n, idx, a', k', b', h);
    JoinedBack(a, k, b);
  }

  /** The last key of child i is below the key above it, the first key of child i + 1 above it. */
  lemma {:induction false} NeighbourKeys(n: Node, i: nat)
    requires n.Inner? && i < |n.keys| && |n.kids| == |n.keys| + 1 && Sorted(InOrder(n))
    requires Paired(n.kids[i]) && Paired(n.kids[i + 1])
    ensures n.kids[i].keys != [] ==> n.kids[i].keys[|n.kids[i].keys| - 1] < n.keys[i]
    ensures n.kids[i + 1].keys != [] ==> n.keys[i] < n.kids[i + 1].keys[0]
  {
    var a, b := n.kids[i], n.kids[i + 1];
    AroundPair(n, i);
    SortedParts(Left(n, i), PairOrder(n, i), Right(n, i + 1));
    SortedAround(InOrder(a), n.keys[i], InOrder(b));
    if a.keys != [] {
      EndsJoined(a);
      JoinedOrder(WithoutLast(a), a.keys[|a.keys| - 1], LastKid(a));
      assert InOrder(a)[|InOrder(WithoutLast(a))|] == a.keys[|a.keys| - 1];
    }
    if b.keys != [] {
      EndsJoined(b);
      JoinedOrder(FirstKid(b), b.keys[0], WithoutFirst(b));
      assert InOrder(b)[|InOrder(FirstKid(b))|] == b.keys[0];
    }
  }
}
