/**
 Colours and black heights: what each case of the two rebalancing loops does to them.
 */
module RbBalance {
  import opened RbState
  import opened RbRotate

  /** v, if red, has no red child other than z. */
  predicate RedExcept(t: seq<Node>, z: int, v: int) {
    0 <= v < |t| && (t[v].red ==> (t[v].left == z || !Red(t, t[v].left)) && (t[v].right == z || !Red(t, t[v].right)))
  }

  ghost predicate Heights(t: seq<Node>, order: seq<int>, sp: seq<Span>, bh: seq<nat>) {
    |bh| == |t| && forall v {:trigger HeightOk(t, bh, v)} :: In(order, sp, v) ==> HeightOk(t, bh, v)
  }

  // ----- insertion: a red node z whose parent may be red

  ghost predicate Inserting(t: seq<Node>, root: int, order: seq<int>, sp: seq<Span>, bh: seq<nat>, z: int) {
    && Shape(t, root, order, sp) && Heights(t, order, sp, bh)
    && In(order, sp, z) && t[z].red
    && (forall v {:trigger RedExcept(t, z, v)} :: In(order, sp, v) ==> RedExcept(t, z, v))
    && (Red(t, root) ==> root == z)
  }

  /** Where the loop of insert_fixup stands: z's parent p is red and is g's child on side k. */
  ghost predicate RedPair(t: seq<Node>, root: int, order: seq<int>, sp: seq<Span>, bh: seq<nat>, z: int, p: int,
          g: int, k: bool) {
    && Inserting(t, root, order, sp, bh, z) && z != root
    && p == t[z].parent && 0 <= p < |t| && t[p].red && g == t[p].parent && 0 <= g < |t| && Child(t[g], k) == p
  }

  lemma {:induction false} PairFacts(t: seq<Node>, root: int, order: seq<int>, sp: seq<Span>, bh: seq<nat>, z: int)
    requires Inserting(t, root, order, sp, bh, z) && t[z].parent != 0
    requires 0 <= t[z].parent < |t| && t[t[z].parent].red
    ensures z != root && In(order, sp, t[z].parent) && t[z].parent != root && IsChild(t, t[z].parent, z)
    ensures var g := t[t[z].parent].parent;
            && In(order, sp, g) && IsChild(t, g, t[z].parent) && !t[g].red
            && g != z && g != t[z].parent && t[g].left != t[g].right && Size(sp, z) < Size(sp, g)
  {
    ParentFacts(t, root, order, sp, z);
    var p := t[z].parent;
    ParentFacts(t, root, order, sp, p);
    ChildFacts(t, root, order, sp, p, z);
    var g := t[p].parent;
    ChildFacts(t, root, order, sp, g, p);
    assert RedExcept(t, z, g);
  }

  // case 1: the uncle is red

  ghost predicate Recoloured(t: seq<Node>, t': seq<Node>, p: int, y: int, g: int) {
    && |t'| == |t| && 1 <= p < |t| && 1 <= y < |t| && 1 <= g < |t|
    && t' == t[p := t[p].(red := false)][y := t[y].(red := false)][g := t[g].(red := true)]
  }

  /** Links do not depend on colours. */
  lemma {:induction false} ShapeOfLinks(t: seq<Node>, t': seq<Node>, root: int, order: seq<int>, sp: seq<Span>)
    requires Shape(t, root, order, sp) && |t'| == |t|
    requires forall v :: 0 <= v < |t| ==> t'[v] == t[v].(red := t'[v].red)
    ensures Shape(t', root, order, sp)
  {
    forall v | In(order, sp, v)
      ensures LinkOk(t', root, order, sp, v)
    {
      Member(t, root, order, sp, v);
      SameLinks(t, t', root, order, sp, v);
    }
  }

  lemma {:induction false} SameLinks(t: seq<Node>, t': seq<Node>, root: int, order: seq<int>, sp: seq<Span>, v: int)
    requires LinkOk(t, root, order, sp, v) && |t'| == |t|
    requires forall w :: 0 <= w < |t| ==> t'[w] == t[w].(red := t'[w].red)
    ensures LinkOk(t', root, order, sp, v)
  {
  }

  lemma {:induction false} UncleRed(t: seq<Node>, t': seq<Node>, root: int, order: seq<int>, sp: seq<Span>,
          bh: seq<nat>, z: int, p: int, g: int, y: int, k: bool)
    requires RedPair(t, root, order, sp, bh, z, p, g, k) && In(order, sp, g) && In(order, sp, p) && !t[g].red
    requires y == Child(t[g], !k) && Red(t, y) && Recoloured(t, t', p, y, g)
    ensures Inserting(t', root, order, sp, bh[p := bh[p] + 1][y := bh[y] + 1], g)
  {
    var bh' := bh[p := bh[p] + 1][y := bh[y] + 1];
    ShapeOfLinks(t, t', root, order, sp);
    SmallChild(t, root, order, sp, g, k);
    SmallChild(t, root, order, sp, g, !k);
    forall v | In(order, sp, v)
      ensures HeightOk(t', bh', v) && RedExcept(t', g, v)
    {
      assert HeightOk(t, bh, v) && RedExcept(t, z, v);
      assert HeightOk(t, bh, g);
      SmallChild(t, root, order, sp, v, false);
      SmallChild(t, root, order, sp, v, true);
    }
  }

  // ----- heights and colours around a rotation

  /** A node that is not turned keeps its colour and its children, but for n's place. */
  lemma {:induction false} TurnedEntry(t: seq<Node>, t': seq<Node>, root: int, root': int, order: seq<int>,
          sp: seq<Span>, n: int, k: bool, v: int)
    requires Step(t, t', root, root', order, sp, n, k) && In(order, sp, v) && v != n && v != Child(t[n], !k)
    ensures t'[v].red == t[v].red
    ensures t'[v].left == if t[v].left == n then Child(t[n], !k) else t[v].left
    ensures t'[v].right == if t[v].right == n then Child(t[n], !k) else t[v].right
    ensures 0 <= t[v].left < |t| && 0 <= t[v].right < |t| && t[v].left != Child(t[n], !k)
    ensures t[v].right != Child(t[n], !k)
  {
    IsLocal(t, root, order, sp, n, k);
    SmallChild(t, root, order, sp, v, false);
    SmallChild(t, root, order, sp, v, true);
  }

  /** Outside the two turned nodes heights stay right if the pair keeps its height. */
  lemma {:induction false} TurnHeights(t: seq<Node>, t': seq<Node>, root: int, root': int, order: seq<int>,
          sp: seq<Span>, bh: seq<nat>, bh': seq<nat>, n: int, k: bool, v: int)
    requires Step(t, t', root, root', order, sp, n, k) && In(order, sp, v) && v != n && v != Child(t[n], !k)
    requires |bh| == |bh'| == |t| && 0 <= Child(t[n], !k) < |t| && bh'[Child(t[n], !k)] == bh[n]
    requires forall w :: 0 <= w < |t| && w != n && w != Child(t[n], !k) ==> bh'[w] == bh[w]
    ensures Height(bh', t'[v].left) == Height(bh, t[v].left) && Height(bh', t'[v].right) == Height(bh, t[v].right)
    ensures HeightOk(t, bh, v) ==> HeightOk(t', bh', v)
  {
    TurnedEntry(t, t', root, root', order, sp, n, k, v);
    IsLocal(t, root, order, sp, n, k);
  }

  lemma {:induction false} TurnedColours(t: seq<Node>, t': seq<Node>, root: int, root': int, n: int, k: bool, w: int)
    requires Turned(t, t', root, root', n, k) && 0 <= w < |t|
    ensures t'[w].red == t[w].red && t'[w].key == t[w].key
  {
  }

  // ----- insertion, black uncle

  /** z is an inner grandchild: rotating its parent down makes the parent the outer one. */
  lemma {:induction false} InnerTurn(t: seq<Node>, t': seq<Node>, root: int, root': int, order: seq<int>,
          sp: seq<Span>, bh: seq<nat>, z: int, p: int, g: int, k: bool)
    requires RedPair(t, root, order, sp, bh, z, p, g, k) && z == Child(t[p], !k)
    requires Step(t, t', root, root', order, sp, p, k)
    ensures root' == root && Inserting(t', root, order, TurnedSpans(t, sp, p, k), bh, p)
    ensures RedPair(t', root, order, TurnedSpans(t, sp, p, k), bh, p, z, g, k) && p == Child(t'[z], k)
    ensures t'[g] == WithChild(t[g], k, z)
  {
    var sp' := TurnedSpans(t, sp, p, k);
    PairFacts(t, root, order, sp, bh, z);
    TurnKeeps(t, t', root, root', order, sp, p, k);
    IsLocal(t, root, order, sp, p, k);
    forall v | In(order, sp', v)
      ensures HeightOk(t', bh, v) && RedExcept(t', p, v)
    {
      SameIn(t, order, sp, p, k, v);
      assert HeightOk(t, bh, v) && RedExcept(t, z, v) && HeightOk(t, bh, p) && HeightOk(t, bh, z);
    assert RedExcept(t, z, p) && RedExcept(t, z, z);
      if v != p && v != z {
        TurnHeights(t, t', root, root', order, sp, bh, bh, p, k, v);
        TurnedEntry(t, t', root, root', order, sp, p, k, v);
        ParentFacts(t, root, order, sp, z);
        if IsChild(t, v, z) {
          ChildFacts(t, root, order, sp, v, z);
        }
        if IsChild(t, v, p) {
          ChildFacts(t, root, order, sp, v, p);
        }
      }
    }
    TurnedColours(t, t', root, root', p, k, root);
  }

  predicate PairPainted(t: seq<Node>, t1: seq<Node>, p: int, g: int) {
    1 <= p < |t| && 1 <= g < |t| && p != g && t1 == t[p := t[p].(red := false)][g := t[g].(red := true)]
  }

  function Raised(bh: seq<nat>, p: int, g: int): seq<nat>
    requires 0 <= p < |bh| && 0 <= g < |bh|
  {
    bh[p := bh[p] + 1][g := bh[p]]
  }

  /** The two turned nodes after the last rotation of insert_fixup. */
  lemma {:induction false} OuterPair(t: seq<Node>, t1: seq<Node>, t': seq<Node>, root: int, root': int,
          order: seq<int>, sp: seq<Span>, bh: seq<nat>, z: int, p: int, g: int, k: bool)
    requires RedPair(t, root, order, sp, bh, z, p, g, k) && z == Child(t[p], k) && !Red(t, Child(t[g], !k))
    requires PairPainted(t, t1, p, g) && Step(t1, t', root, root', order, sp, g, !k)
    ensures In(order, sp, p) && In(order, sp, g) && |bh| == |t| && bh[g] == bh[p] + 1
    ensures HeightOk(t', Raised(bh, p, g), p) && HeightOk(t', Raised(bh, p, g), g)
    ensures RedExcept(t', z, p) && RedExcept(t', z, g) && !t'[p].red && t'[z].parent == p && t'[z].red
  {
    PairFacts(t, root, order, sp, bh, z);
    IsLocal(t1, root, order, sp, g, !k);
    assert HeightOk(t, bh, p) && HeightOk(t, bh, g) && HeightOk(t, bh, z) && RedExcept(t, z, p);
    ChildFacts(t, root, order, sp, p, z);
  }

  /** z is an outer grandchild: recolouring and rotating the grandparent down ends the loop. */
  lemma {:induction false} OuterTurn(t: seq<Node>, t1: seq<Node>, t': seq<Node>, root: int, root': int,
          order: seq<int>, sp: seq<Span>, bh: seq<nat>, z: int, p: int, g: int, k: bool)
    requires RedPair(t, root, order, sp, bh, z, p, g, k) && z == Child(t[p], k) && !Red(t, Child(t[g], !k))
    requires PairPainted(t, t1, p, g) && Step(t1, t', root, root', order, sp, g, !k)
    ensures 0 <= p < |bh| && 0 <= g < |bh|
    ensures Inserting(t', root', order, TurnedSpans(t1, sp, g, !k), Raised(bh, p, g), z)
    ensures t'[z].parent == p && !t'[p].red
  {
    var sp' := TurnedSpans(t1, sp, g, !k);
    PairFacts(t, root, order, sp, bh, z);
    OuterPair(t, t1, t', root, root', order, sp, bh, z, p, g, k);
    TurnKeeps(t1, t', root, root', order, sp, g, !k);
    forall v | In(order, sp', v)
      ensures HeightOk(t', Raised(bh, p, g), v) && RedExcept(t', z, v)
    {
      SameIn(t1, order, sp, g, !k, v);
      if v != p && v != g {
        OuterBystander(t, t1, t', root, root', order, sp, bh, z, p, g, k, v);
      }
    }
    SameIn(t1, order, sp, g, !k, z);
    ParentFacts(t, root, order, sp, g);
    TurnedColours(t1, t', root, root', g, !k, root');
  }

  lemma {:induction false} OuterBystander(t: seq<Node>, t1: seq<Node>, t': seq<Node>, root: int, root': int,
          order: seq<int>, sp: seq<Span>, bh: seq<nat>, z: int, p: int, g: int, k: bool, v: int)
    requires RedPair(t, root, order, sp, bh, z, p, g, k) && z == Child(t[p], k)
    requires PairPainted(t, t1, p, g) && Step(t1, t', root, root', order, sp, g, !k)
    requires In(order, sp, v) && v != p && v != g && |bh| == |t| && bh[g] == bh[p] + 1 && !t'[p].red
    ensures HeightOk(t', Raised(bh, p, g), v) && RedExcept(t', z, v)
  {
    assert HeightOk(t, bh, v) && RedExcept(t, z, v);
    assert HeightOk(t1, bh, v);
    TurnHeights(t1, t', root, root', order, sp, bh, Raised(bh, p, g), g, !k, v);
    TurnedEntry(t1, t', root, root', order, sp, g, !k, v);
    PairFacts(t, root, order, sp, bh, z);
    if IsChild(t, v, p) {
      ChildFacts(t, root, order, sp, v, p);
    }
    TurnedColours(t1, t', root, root', g, !k, t[v].left);
    TurnedColours(t1, t', root, root', g, !k, t[v].right);
  }

  /** The loop has ended; blackening the root makes the tree a red-black tree again. */
  lemma {:induction false} InsertDone(t: seq<Node>, t': seq<Node>, root: int, order: seq<int>, sp: seq<Span>,
          bh: seq<nat>, z: int)
    requires Inserting(t, root, order, sp, bh, z) && (z == root || (0 <= t[z].parent < |t| && !t[t[z].parent].red))
    requires 1 <= root < |t| && t' == t[root := t[root].(red := false)]
    ensures Shape(t', root, order, sp)
    ensures Balanced(t', root, order, sp, if t[root].red then bh[root := bh[root] + 1] else bh)
  {
    var bh' := if t[root].red then bh[root := bh[root] + 1] else bh;
    ShapeOfLinks(t, t', root, order, sp);
    forall v | In(order, sp, v)
      ensures HeightOk(t', bh', v) && RedOk(t', v)
    {
      assert HeightOk(t, bh, v) && RedExcept(t, z, v);
      NoParentOfRoot(t, root, order, sp, v);
      if IsChild(t, v, z) {
        ChildFacts(t, root, order, sp, v, z);
      }
    }
  }

  lemma {:induction false} NoParentOfRoot(t: seq<Node>, root: int, order: seq<int>, sp: seq<Span>, v: int)
    requires Shape(t, root, order, sp) && In(order, sp, v) && root != 0
    ensures t[v].left != root && t[v].right != root
  {
    if IsChild(t, v, root) {
      ChildFacts(t, root, order, sp, v, root);
      ParentFacts(t, root, order, sp, root);
    }
  }
}
