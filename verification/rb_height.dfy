/**
 Why the red-black rules matter: no member lies deeper than twice the logarithm of the size.
 */
module RbHeight {
  import opened RbState

  function Power2(n: nat): nat {
    if n == 0 then 1 else 2 * Power2(n - 1)
  }

  /** A subtree of black height b has at least 2^b - 1 members. */
  lemma {:induction false} ManyMembers(t: seq<Node>, root: int, order: seq<int>, sp: seq<Span>, bh: seq<nat>, v: int)
    requires Shape(t, root, order, sp) && Balanced(t, root, order, sp, bh) && In(order, sp, v)
    ensures 0 <= v < |bh| && Size(sp, v) + 1 >= Power2(bh[v])
    decreases Size(sp, v)
  {
    Member(t, root, order, sp, v);
    assert HeightOk(t, bh, v);
    SideMembers(t, root, order, sp, bh, v, false);
    SideMembers(t, root, order, sp, bh, v, true);
    assert bh[v] > Height(bh, t[v].left) ==> Power2(bh[v]) == 2 * Power2(Height(bh, t[v].left));
  }

  lemma {:induction false} SideMembers(t: seq<Node>, root: int, order: seq<int>, sp: seq<Span>, bh: seq<nat>, v: int,
          k: bool)
    requires Shape(t, root, order, sp) && Balanced(t, root, order, sp, bh) && In(order, sp, v) && v < |t|
    ensures SideLo(sp, v, k) <= SideHi(sp, v, k)
    ensures SideHi(sp, v, k) - SideLo(sp, v, k) + 1 >= Power2(Height(bh, Child(t[v], k)))
    decreases Size(sp, v), 0
  {
    Member(t, root, order, sp, v);
    assert ChildOk(t, order, sp, v, k);
    var c := Child(t[v], k);
    if c != 0 {
      ChildFacts(t, root, order, sp, v, c);
      ManyMembers(t, root, order, sp, bh, c);
    }
  }

  /** The number of members above v. */
  ghost function Depth(t: seq<Node>, root: int, order: seq<int>, sp: seq<Span>, v: int): nat
    requires Shape(t, root, order, sp) && In(order, sp, v)
    decreases |order| - Size(sp, v)
  {
    ParentFacts(t, root, order, sp, v);
    if v == root then 0
    else
      Member(t, root, order, sp, t[v].parent);
      1 + Depth(t, root, order, sp, t[v].parent)
  }

  /** Red nodes at most double the way down. */
  lemma {:induction false} DepthByBlackHeight(t: seq<Node>, root: int, order: seq<int>, sp: seq<Span>, bh: seq<nat>,
          v: int)
    requires Shape(t, root, order, sp) && Balanced(t, root, order, sp, bh) && In(order, sp, v)
    ensures 0 <= v < |bh| && 0 <= root < |bh|
    ensures Depth(t, root, order, sp, v) + 2 * bh[v] + (if t[v].red then 1 else 0) <= 2 * bh[root]
    decreases |order| - Size(sp, v)
  {
    ParentFacts(t, root, order, sp, v);
    if v != root {
      var p := t[v].parent;
      Member(t, root, order, sp, p);
      DepthByBlackHeight(t, root, order, sp, bh, p);
      assert HeightOk(t, bh, p) && RedOk(t, p);
      ChildFacts(t, root, order, sp, p, v);
    }
  }

  /** The balance theorem: 2^(depth / 2) is at most the number of members plus one. */
  lemma {:induction false} DepthIsLogarithmic(t: seq<Node>, root: int, order: seq<int>, sp: seq<Span>, bh: seq<nat>,
          v: int)
    requires Shape(t, root, order, sp) && Balanced(t, root, order, sp, bh) && In(order, sp, v)
    ensures Power2(Depth(t, root, order, sp, v) / 2) <= |order| + 1
  {
    DepthByBlackHeight(t, root, order, sp, bh, v);
    ParentFacts(t, root, order, sp, root);
    ManyMembers(t, root, order, sp, bh, root);
    PowerMonotone(Depth(t, root, order, sp, v) / 2, bh[root]);
  }

  lemma {:induction false} PowerMonotone(a: nat, b: nat)
    requires a <= b
    ensures Power2(a) <= Power2(b)
    decreases b
  {
    if a < b {
      PowerMonotone(a, b - 1);
    }
  }
}
