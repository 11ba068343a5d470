/**
 B-tree nodes as values, the in-order list of their keys, and their shape: three to seven keys
 in every node but the root, and all leaves at one depth.
 */
module BTreeNodes {

  const T: nat := 4
  const MAX_KEYS: nat := 7

  type Key = nat

  datatype Node = Leaf(keys: seq<Key>) | Inner(keys: seq<Key>, kids: seq<Node>)

  // ----- the keys in order

  function InOrder(n: Node): seq<Key>
    decreases n, |n.keys| + 1
  {
    match n
    case Leaf(keys) => keys
    case Inner(keys, kids) => if |kids| == |keys| + 1 then Left(n, |keys|) + InOrder(kids[|keys|]) else []
  }

  /** Everything left of child i. */
  function Left(n: Node, i: nat): seq<Key>
    requires n.Inner? && i <= |n.keys| && |n.kids| == |n.keys| + 1
    decreases n, i
  {
    if i == 0 then [] else Left(n, i - 1) + InOrder(n.kids[i - 1]) + [n.keys[i - 1]]
  }

  /** Everything right of child i. */
  function Right(n: Node, i: nat): seq<Key>
    requires n.Inner? && i <= |n.keys| && |n.kids| == |n.keys| + 1
    decreases n, |n.keys| - i
  {
    if i == |n.keys| then [] else [n.keys[i]] + InOrder(n.kids[i + 1]) + Right(n, i + 1)
  }

  lemma {:induction false} Around(n: Node, i: nat)
    requires n.Inner? && i <= |n.keys| && |n.kids| == |n.keys| + 1
    ensures InOrder(n) == Left(n, i) + InOrder(n.kids[i]) + Right(n, i)
    decreases |n.keys| - i
  {
    if i == |n.keys| {
      assert Right(n, i) == [];
    } else {
      Around(n, i + 1);
      assert Left(n, i + 1) == Left(n, i) + InOrder(n.kids[i]) + [n.keys[i]];
      assert Right(n, i) == [n.keys[i]] + InOrder(n.kids[i + 1]) + Right(n, i + 1);
    }
  }

  /** The left part depends on what is left of child i only. */
  lemma {:induction false} SameLeft(n: Node, m: Node, i: nat)
    requires n.Inner? && i <= |n.keys| && |n.kids| == |n.keys| + 1
    requires m.Inner? && i <= |m.keys| && |m.kids| == |m.keys| + 1
    requires n.keys[..i] == m.keys[..i] && n.kids[..i] == m.kids[..i]
    ensures Left(n, i) == Left(m, i)
    decreases i
  {
    if i > 0 {
      assert n.keys[..i][..i - 1] == n.keys[..i - 1] && m.keys[..i][..i - 1] == m.keys[..i - 1];
      assert n.kids[..i][..i - 1] == n.kids[..i - 1] && m.kids[..i][..i - 1] == m.kids[..i - 1];
      assert n.keys[..i][i - 1] == m.keys[..i][i - 1] && n.kids[..i][i - 1] == m.kids[..i][i - 1];
      SameLeft(n, m, i - 1);
    }
  }

  lemma {:induction false} SameRight(n: Node, m: Node, i: nat, j: nat)
    requires n.Inner? && i <= |n.keys| && |n.kids| == |n.keys| + 1
    requires m.Inner? && j <= |m.keys| && |m.kids| == |m.keys| + 1
    requires n.keys[i..] == m.keys[j..] && n.kids[i + 1..] == m.kids[j + 1..]
    ensures Right(n, i) == Right(m, j)
    decreases |n.keys| - i
  {
    assert |n.keys| - i == |m.keys| - j;
    if i < |n.keys| {
      assert n.keys[i..][1..] == n.keys[i + 1..] && m.keys[j..][1..] == m.keys[j + 1..];
      assert n.kids[i + 1..][1..] == n.kids[i + 2..] && m.kids[j + 1..][1..] == m.kids[j + 2..];
      assert n.keys[i..][0] == m.keys[j..][0] && n.kids[i + 1..][0] == m.kids[j + 1..][0];
      SameRight(n, m, i + 1, j + 1);
    }
  }

  // ----- shape

  ghost predicate Good(n: Node, h: nat, least: nat) {
    && least <= |n.keys| <= MAX_KEYS
    && (if h == 0 then n.Leaf?
        else n.Inner? && |n.kids| == |n.keys| + 1
             && forall i {:trigger n.kids[i]} :: 0 <= i < |n.kids| ==> Good(n.kids[i], h - 1, T - 1))
  }

  // ----- sorted lists

  ghost predicate Sorted(s: seq<Key>) {
    forall i, j {:trigger s[i], s[j]} :: 0 <= i < j < |s| ==> s[i] < s[j]
  }

  ghost predicate AllBelow(s: seq<Key>, x: Key) {
    forall i {:trigger s[i]} :: 0 <= i < |s| ==> s[i] < x
  }

  ghost predicate AllAbove(s: seq<Key>, x: Key) {
    forall i {:trigger s[i]} :: 0 <= i < |s| ==> x < s[i]
  }

  lemma {:induction false} SortedParts(a: seq<Key>, m: seq<Key>, b: seq<Key>)
    requires Sorted(a + m + b)
    ensures Sorted(a) && Sorted(m) && Sorted(b)
  {
    var s := a + m + b;
    forall i, j | 0 <= i < j < |a|
      ensures a[i] < a[j]
    {
      assert s[i] < s[j];
    }
    forall i, j | 0 <= i < j < |m|
      ensures m[i] < m[j]
    {
      assert s[|a| + i] < s[|a| + j];
    }
    forall i, j | 0 <= i < j < |b|
      ensures b[i] < b[j]
    {
      assert s[|a| + |m| + i] < s[|a| + |m| + j];
    }
  }

  /** In a sorted list x at place |a| is above a and below b. */
  lemma {:induction false} SortedAround(a: seq<Key>, x: Key, b: seq<Key>)
    requires Sorted(a + [x] + b)
    ensures AllBelow(a, x) && AllAbove(b, x)
  {
    var s := a + [x] + b;
    forall i | 0 <= i < |a|
      ensures a[i] < x
    {
      assert s[i] < s[|a|];
    }
    forall i | 0 <= i < |b|
      ensures x < b[i]
    {
      assert s[|a|] < s[|a| + 1 + i];
    }
  }

  /** s with x entered at its place. */
  function Entered(s: seq<Key>, x: Key): seq<Key> {
    if s == [] then [x] else if x < s[0] then [x] + s else [s[0]] + Entered(s[1..], x)
  }

  /** s without x. */
  function Without(s: seq<Key>, x: Key): seq<Key> {
    if s == [] then [] else if s[0] == x then Without(s[1..], x) else [s[0]] + Without(s[1..], x)
  }

  lemma {:induction false} EnteredBehind(a: seq<Key>, s: seq<Key>, x: Key)
    requires AllBelow(a, x)
    ensures Entered(a + s, x) == a + Entered(s, x)
    decreases |a|
  {
    if a == [] {
      assert a + s == s;
    } else {
      assert (a + s)[1..] == a[1..] + s && (a + s)[0] == a[0];
      EnteredBehind(a[1..], s, x);
    }
  }

  lemma {:induction false} EnteredBefore(m: seq<Key>, b: seq<Key>, x: Key)
    requires AllAbove(b, x)
    ensures Entered(m + b, x) == Entered(m, x) + b
    decreases |m|
  {
    if m == [] {
      assert m + b == b;
    } else {
      assert (m + b)[1..] == m[1..] + b && (m + b)[0] == m[0];
      EnteredBefore(m[1..], b, x);
    }
  }

  lemma {:induction false} EnteredAround(a: seq<Key>, m: seq<Key>, b: seq<Key>, x: Key)
    requires AllBelow(a, x) && AllAbove(b, x)
    ensures Entered(a + m + b, x) == a + Entered(m, x) + b
  {
    assert a + m + b == a + (m + b);
    EnteredBehind(a, m + b, x);
    EnteredBefore(m, b, x);
  }

  lemma {:induction false} WithoutBoth(a: seq<Key>, b: seq<Key>, x: Key)
    ensures Without(a + b, x) == Without(a, x) + Without(b, x)
    decreases |a|
  {
    if a == [] {
      assert a + b == b;
    } else {
      assert (a + b)[1..] == a[1..] + b && (a + b)[0] == a[0];
      WithoutBoth(a[1..], b, x);
    }
  }

  lemma {:induction false} WithoutAround(a: seq<Key>, m: seq<Key>, b: seq<Key>, x: Key)
    requires AllBelow(a, x) && AllAbove(b, x)
    ensures Without(a + m + b, x) == a + Without(m, x) + b
  {
    WithoutBoth(a + m, b, x);
    WithoutBoth(a, m, x);
    WithoutAbsent(a, x);
    WithoutAbsent(b, x);
  }

  lemma {:induction false} WithoutAbsent(s: seq<Key>, x: Key)
    requires x !in s
    ensures Without(s, x) == s
    decreases |s|
  {
    if s != [] {
      WithoutAbsent(s[1..], x);
    }
  }

  lemma {:induction false} EnteredKeys(s: seq<Key>, x: Key)
    requires Sorted(s) && x !in s
    ensures Sorted(Entered(s, x)) && |Entered(s, x)| == |s| + 1
    ensures forall y {:trigger y in Entered(s, x)} :: y in Entered(s, x) <==> y == x || y in s
    decreases |s|
  {
    if s != [] {
      assert s == [s[0]] + s[1..];
      SortedParts([s[0]], s[1..], []);
      assert [s[0]] + s[1..] + [] == s;
      EnteredKeys(s[1..], x);
      if x > s[0] {
        var r := Entered(s[1..], x);
        forall i | 0 <= i < |r|
          ensures s[0] < r[i]
        {
          assert r[i] in r;
          if r[i] != x {
            var k :| 0 <= k < |s[1..]| && s[1..][k] == r[i];
            assert s[k + 1] == r[i];
          }
        }
      }
    }
  }

  lemma {:induction false} WithoutKeys(s: seq<Key>, x: Key)
    requires Sorted(s)
    ensures Sorted(Without(s, x)) && |Without(s, x)| == |s| - (if x in s then 1 else 0)
    ensures forall y {:trigger y in Without(s, x)} :: y in Without(s, x) <==> y != x && y in s
    decreases |s|
  {
    if s != [] {
      assert s == [s[0]] + s[1..];
      assert [s[0]] + s[1..] + [] == s;
      SortedParts([s[0]], s[1..], []);
      WithoutKeys(s[1..], x);
      HeadIsLeast(s);
      if s[0] != x {
        var r := Without(s[1..], x);
        forall i | 0 <= i < |r|
          ensures s[0] < r[i]
        {
          assert r[i] in r;
        }
      }
    }
  }

  lemma {:induction false} HeadIsLeast(s: seq<Key>)
    requires Sorted(s) && s != []
    ensures forall y {:trigger y in s[1..]} :: y in s[1..] ==> s[0] < y
  {
    forall y | y in s[1..]
      ensures s[0] < y
    {
      var k :| 0 <= k < |s[1..]| && s[1..][k] == y;
      assert s[k + 1] == y;
    }
  }

  // ----- where a key can be

  /** idx is the number of keys below x. */
  predicate IsRank(keys: seq<Key>, x: Key, idx: nat) {
    && idx <= |keys| && (forall i {:trigger keys[i]} :: 0 <= i < idx ==> keys[i] < x)
    && (idx < |keys| ==> x <= keys[idx])
  }

  method FindKey(keys: seq<Key>, x: Key) returns (idx: nat)
    ensures IsRank(keys, x, idx)
  {
    idx := 0;
    while idx < |keys| && keys[idx] < x
      invariant idx <= |keys| && forall i {:trigger keys[i]} :: 0 <= i < idx ==> keys[i] < x
    {
      idx := idx + 1;
    }
  }

  /** x, which is no key of n itself, can only be in child i. */
  ghost predicate Parted(n: Node, x: Key, i: nat) {
    n.Inner? && i <= |n.keys| && |n.kids| == |n.keys| + 1 && AllBelow(Left(n, i), x) && AllAbove(Right(n, i), x)
  }

  lemma {:induction false} LeftLast(n: Node, i: nat)
    requires n.Inner? && 0 < i <= |n.keys| && |n.kids| == |n.keys| + 1
    ensures Left(n, i) == (Left(n, i - 1) + InOrder(n.kids[i - 1])) + [n.keys[i - 1]]
  {
  }

  lemma {:induction false} BelowLast(s: seq<Key>, k: Key, x: Key)
    requires Sorted(s + [k]) && k < x
    ensures AllBelow(s + [k], x)
  {
    forall i | 0 <= i < |s + [k]|
      ensures (s + [k])[i] < x
    {
      assert i < |s| ==> (s + [k])[i] < (s + [k])[|s|];
    }
  }

  lemma {:induction false} AboveFirst(k: Key, s: seq<Key>, x: Key)
    requires Sorted([k] + s) && x < k
    ensures AllAbove([k] + s, x)
  {
    forall i | 0 <= i < |[k] + s|
      ensures x < ([k] + s)[i]
    {
      assert i > 0 ==> ([k] + s)[0] < ([k] + s)[i];
    }
  }

  lemma {:induction false} RankParts(n: Node, x: Key, i: nat)
    requires n.Inner? && |n.kids| == |n.keys| + 1 && Sorted(InOrder(n)) && IsRank(n.keys, x, i)
    requires i < |n.keys| ==> n.keys[i] != x
    ensures Parted(n, x, i)
  {
    Around(n, i);
    SortedParts(Left(n, i), InOrder(n.kids[i]), Right(n, i));
    if i > 0 {
      LeftLast(n, i);
      BelowLast(Left(n, i - 1) + InOrder(n.kids[i - 1]), n.keys[i - 1], x);
    }
    if i < |n.keys| {
      assert Right(n, i) == [n.keys[i]] + (InOrder(n.kids[i + 1]) + Right(n, i + 1));
      AboveFirst(n.keys[i], InOrder(n.kids[i + 1]) + Right(n, i + 1), x);
    }
  }

  lemma {:induction false} PartedMember(n: Node, x: Key, i: nat)
    requires Parted(n, x, i)
    ensures x in InOrder(n) <==> x in InOrder(n.kids[i])
  {
    Around(n, i);
    assert x !in Left(n, i) && x !in Right(n, i);
  }

  lemma {:induction false} KidSorted(n: Node, i: nat)
    requires n.Inner? && i <= |n.keys| && |n.kids| == |n.keys| + 1 && Sorted(InOrder(n))
    ensures Sorted(InOrder(n.kids[i]))
  {
    Around(n, i);
    SortedParts(Left(n, i), InOrder(n.kids[i]), Right(n, i));
  }

  lemma {:induction false} LeafRankThere(keys: seq<Key>, x: Key, i: nat)
    requires Sorted(keys) && i < |keys| && keys[i] == x
    ensures Without(keys, x) == keys[..i] + keys[i + 1..]
  {
    assert keys == keys[..i] + [x] + keys[i + 1..];
    SortedAround(keys[..i], x, keys[i + 1..]);
    WithoutAround(keys[..i], [x], keys[i + 1..], x);
    assert Without([x], x) == Without([x][1..], x) == [];
  }

  lemma {:induction false} LeafRankNotThere(keys: seq<Key>, x: Key, i: nat)
    requires Sorted(keys) && IsRank(keys, x, i) && (i < |keys| ==> keys[i] != x)
    ensures x !in keys && Entered(keys, x) == keys[..i] + [x] + keys[i..] && Without(keys, x) == keys
  {
    assert AllBelow(keys[..i], x);
    forall k | 0 <= k < |keys[i..]|
      ensures x < keys[i..][k]
    {
      assert keys[i] <= keys[i + k];
    }
    EnteredAround(keys[..i], [], keys[i..], x);
    assert keys[..i] + [] + keys[i..] == keys;
    forall k | 0 <= k < |keys|
      ensures keys[k] != x
    {
      assert k >= i ==> keys[i..][k - i] == keys[k];
    }
    WithoutAbsent(keys, x);
  }
}
