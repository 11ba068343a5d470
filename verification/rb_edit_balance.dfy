/**
 Colours and black heights around the changes of membership.
 */
module RbEditBalance {
  import opened RbState
  import opened RbRotate
  import opened RbBalance
  import opened RbEdit
  import opened RbErase

  /** A new red leaf leaves the heights as they were; only its parent may now be red above it. */
  lemma {:induction false} AttachedInserting(t: seq<Node>, t': seq<Node>, root: int, root': int, order: seq<int>,
          sp: seq<Span>, bh: seq<nat>, z: int, y: int, k: bool, i: int)
    requires Balanced(t, root, order, sp, bh)
    requires Attachable(t, root, order, sp, z, y, k, i) && Attached(t, t', root, root', z, y, k)
    ensures 0 <= i <= |order| && 0 <= z < |bh|
    ensures Inserting(t', root', Inserted(order, i, z), GrownSpans(sp, z, i, k), bh[z := 0], z)
  {
    GrownIn(t, root, order, sp, z, y, k, i, z);
    AttachKeeps(t, t', root, root', order, sp, z, y, k, i);
    var order', sp' := Inserted(order, i, z), GrownSpans(sp, z, i, k);
    forall v | In(order', sp', v)
      ensures HeightOk(t', bh[z := 0], v) && RedExcept(t', z, v)
    {
      GrownIn(t, root, order, sp, z, y, k, i, v);
      if v != z {
        AttachedAt(t, t', root, root', order, sp, bh, z, y, k, i, v);
      }
    }
    if y != 0 {
      ParentFacts(t, root, order, sp, root);
      assert z != root by { MemberAt(t, root, order, sp, sp[root].pos); }
    }
  }

  lemma {:induction false} AttachedAt(t: seq<Node>, t': seq<Node>, root: int, root': int, order: seq<int>,
          sp: seq<Span>, bh: seq<nat>, z: int, y: int, k: bool, i: int, v: int)
    requires Balanced(t, root, order, sp, bh)
    requires Attachable(t, root, order, sp, z, y, k, i) && Attached(t, t', root, root', z, y, k)
    requires In(order, sp, v) && v != z && |bh| == |t|
    ensures HeightOk(t', bh[z := 0], v) && RedExcept(t', z, v)
  {
    assert HeightOk(t, bh, v) && RedOk(t, v);
    SmallChild(t, root, order, sp, v, false);
    SmallChild(t, root, order, sp, v, true);
  }

  // ----- a node taken out

  /** y's side below its parent. */
  function SideOf(t: seq<Node>, p: int, y: int): bool {
    0 <= p < |t| && t[p].right == y
  }

  lemma {:induction false} UnlinkedAt(t: seq<Node>, t': seq<Node>, root: int, root': int, order: seq<int>,
          sp: seq<Span>, bh: seq<nat>, y: int, m: bool, v: int)
    requires Balanced(t, root, order, sp, bh) && Unlinked(t, t', root, root', order, sp, y, m) && In(order, sp, v)
    requires v != y
    ensures RedExcept(t', Child(t[y], !m), v) && (t[y].red ==> RedOk(t', v))
    ensures t'[v].red == t[v].red
    ensures v != t[y].parent || t[y].red ==> HeightOk(t', bh, v)
    ensures v == t[y].parent && !t[y].red ==>
              var k := SideOf(t, v, y); var x := Child(t[y], !m);
              && Child(t'[v], k) == x && Height(bh, Child(t'[v], !k)) == Height(bh, x) + 1
              && bh[v] == Height(bh, x) + 1 + if t'[v].red then 0 else 1
  {
    assert HeightOk(t, bh, v) && RedOk(t, v) && HeightOk(t, bh, y) && RedOk(t, y);
    SmallChild(t, root, order, sp, v, false);
    SmallChild(t, root, order, sp, v, true);
    SmallChild(t, root, order, sp, y, !m);
    ParentFacts(t, root, order, sp, y);
    OnlyParent(t, root, order, sp, v, y);
    if y != root {
      ChildFacts(t, root, order, sp, t[y].parent, y);
    }
  }

  /** Taking out a red node keeps the balance. */
  lemma {:induction false} UnlinkRed(t: seq<Node>, t': seq<Node>, root: int, root': int, order: seq<int>,
          sp: seq<Span>, bh: seq<nat>, y: int, m: bool)
    requires Balanced(t, root, order, sp, bh) && Unlinked(t, t', root, root', order, sp, y, m) && t[y].red
    ensures 0 <= sp[y].pos < |order|
    ensures Balanced(t', root', Without(order, sp[y].pos), ShrunkSpans(sp, sp[y].pos), bh)
  {
    Member(t, root, order, sp, y);
    var order', sp' := Without(order, sp[y].pos), ShrunkSpans(sp, sp[y].pos);
    forall v | In(order', sp', v)
      ensures HeightOk(t', bh, v) && RedOk(t', v)
    {
      ShrunkIn(t, root, order, sp, y, v);
      UnlinkedAt(t, t', root, root', order, sp, bh, y, m, v);
    }
    UnlinkedRootColour(t, t', root, root', order, sp, bh, y, m);
  }

  lemma {:induction false} UnlinkedRootColour(t: seq<Node>, t': seq<Node>, root: int, root': int, order: seq<int>,
          sp: seq<Span>, bh: seq<nat>, y: int, m: bool)
    requires Balanced(t, root, order, sp, bh) && Unlinked(t, t', root, root', order, sp, y, m)
    ensures Red(t', root') ==> root' == Child(t[y], !m) && !t[y].red
    ensures root' == Child(t[y], !m) <==> y == root
  {
    ParentFacts(t, root, order, sp, y);
    OnlyChildOf(t, root, order, sp, y, m, root);
    assert RedOk(t, y);
    if y != root {
      UnlinkedAt(t, t', root, root', order, sp, bh, y, m, root);
      ParentFacts(t, root, order, sp, root);
    }
  }

  /** Taking out a black node leaves its place one black node short. */
  lemma {:induction false} UnlinkBlack(t: seq<Node>, t': seq<Node>, root: int, root': int, order: seq<int>,
          sp: seq<Span>, bh: seq<nat>, y: int, m: bool)
    requires Balanced(t, root, order, sp, bh) && Unlinked(t, t', root, root', order, sp, y, m) && !t[y].red
    ensures 0 <= sp[y].pos < |order|
    ensures Short(t', root', Without(order, sp[y].pos), ShrunkSpans(sp, sp[y].pos), bh, Child(t[y], !m), t[y].parent,
              SideOf(t, t[y].parent, y))
  {
    Member(t, root, order, sp, y);
    UnlinkKeeps(t, t', root, root', order, sp, y, m);
    var order', sp' := Without(order, sp[y].pos), ShrunkSpans(sp, sp[y].pos);
    var x, p := Child(t[y], !m), t[y].parent;
    UnlinkedRootColour(t, t', root, root', order, sp, bh, y, m);
    ParentFacts(t, root, order, sp, y);
    forall v | In(order', sp', v)
      ensures RedExcept(t', x, v)
      ensures x == root' || v != p ==> HeightOk(t', bh, v)
    {
      ShrunkIn(t, root, order, sp, y, v);
      UnlinkedAt(t, t', root, root', order, sp, bh, y, m, v);
    }
    if y != root {
      ShrunkIn(t, root, order, sp, y, p);
      ChildFacts(t, root, order, sp, p, y);
      UnlinkedAt(t, t', root, root', order, sp, bh, y, m, p);
    }
  }

  // ----- a node put in another's place

  /** y's entry has z's children, and everyone else's child z has become y. */
  lemma {:induction false} SwappedEntry(t: seq<Node>, t': seq<Node>, root: int, root': int, order: seq<int>,
          sp: seq<Span>, z: int, y: int, v: int)
    requires CanSubstitute(t, t', root, root', order, sp, z, y) && In(order, sp, v) && v != z
    ensures v != y && t'[v].red == t[v].red
    ensures t'[v].left == (if t[v].left == z then y else t[v].left)
    ensures t'[v].right == (if t[v].right == z then y else t[v].right)
    ensures 0 <= t[v].left < |t| && 0 <= t[v].right < |t| && t[v].left != y && t[v].right != y
  {
    SmallChild(t, root, order, sp, v, false);
    SmallChild(t, root, order, sp, v, true);
    OnlyTwo(t, root, order, sp, z);
    ParentFacts(t, root, order, sp, z);
    OnlyParent(t, root, order, sp, v, z);
    if z != root {
      ChildFacts(t, root, order, sp, t[z].parent, z);
    }
  }

  lemma {:induction false} SwappedColour(t: seq<Node>, t': seq<Node>, root: int, root': int, order: seq<int>,
          sp: seq<Span>, z: int, y: int, c: int)
    requires CanSubstitute(t, t', root, root', order, sp, z, y) && 0 <= c < |t| && c != z
    ensures Red(t', c) <==> if c == y then t[z].red else Red(t, c)
  {
    OnlyTwo(t, root, order, sp, z);
  }

  /** Heights and colours follow the substitution. */
  lemma {:induction false} SwappedAt(t: seq<Node>, t': seq<Node>, root: int, root': int, order: seq<int>,
          sp: seq<Span>, bh: seq<nat>, z: int, y: int, x: int, v: int)
    requires CanSubstitute(t, t', root, root', order, sp, z, y) && In(order, sp, v) && |bh| == |t| && x != z && x != y
    ensures var u := if v == z then y else v; var bh' := bh[y := bh[z]];
            && t'[u].red == t[v].red && bh'[u] == bh[v]
            && Height(bh', t'[u].left) == Height(bh, t[v].left) && Height(bh', t'[u].right) == Height(bh, t[v].right)
            && (HeightOk(t, bh, v) ==> HeightOk(t', bh', u))
            && (RedExcept(t, x, v) ==> RedExcept(t', x, u))
            && (RedOk(t, v) ==> RedOk(t', u))
            && (t'[u].left == x <==> t[v].left == x) && (t'[u].right == x <==> t[v].right == x)
  {
    OnlyTwo(t, root, order, sp, z);
    SmallChild(t, root, order, sp, v, false);
    SmallChild(t, root, order, sp, v, true);
    if v != z {
      SwappedEntry(t, t', root, root', order, sp, z, y, v);
    }
    if t[v].left != z {
      SwappedColour(t, t', root, root', order, sp, z, y, t[v].left);
    }
    if t[v].right != z {
      SwappedColour(t, t', root, root', order, sp, z, y, t[v].right);
    }
    SwappedColour(t, t', root, root', order, sp, z, y, y);
  }

  lemma {:induction false} SubstituteBalanced(t: seq<Node>, t': seq<Node>, root: int, root': int, order: seq<int>,
          sp: seq<Span>, bh: seq<nat>, z: int, y: int)
    requires CanSubstitute(t, t', root, root', order, sp, z, y) && Balanced(t, root, order, sp, bh)
    ensures 0 <= z < |bh| && 0 <= y < |bh|
    ensures Balanced(t', root', order[sp[z].pos := y], sp[y := sp[z]], bh[y := bh[z]])
  {
    var order', sp', bh' := order[sp[z].pos := y], sp[y := sp[z]], bh[y := bh[z]];
    forall v | In(order', sp', v)
      ensures HeightOk(t', bh', v) && RedOk(t', v)
    {
      SwappedIn(t, root, order, sp, z, y, v);
      var u := if v == y then z else v;
      assert HeightOk(t, bh, u) && RedOk(t, u);
      SwappedAt(t, t', root, root', order, sp, bh, z, y, 0, u);
    }
    ParentFacts(t, root, order, sp, z);
    ParentFacts(t, root, order, sp, root);
    if root != z {
      SwappedColour(t, t', root, root', order, sp, z, y, root);
    }
  }

  lemma {:induction false} SubstituteShort(t: seq<Node>, t': seq<Node>, root: int, root': int, order: seq<int>,
          sp: seq<Span>, bh: seq<nat>, z: int, y: int, x: int, xp: int, k: bool)
    requires CanSubstitute(t, t', root, root', order, sp, z, y) && Short(t, root, order, sp, bh, x, xp, k)
    requires x != z && x != y && x != root && xp != y
    ensures 0 <= z < |bh| && 0 <= y < |bh|
    ensures Short(t', root', order[sp[z].pos := y], sp[y := sp[z]], bh[y := bh[z]], x, if xp == z then y else xp, k)
  {
    var order', sp', bh' := order[sp[z].pos := y], sp[y := sp[z]], bh[y := bh[z]];
    var xp' := if xp == z then y else xp;
    SubstituteKeeps(t, t', root, root', order, sp, z, y);
    forall v | In(order', sp', v)
      ensures v != x ==> RedExcept(t', x, v)
      ensures v != xp' ==> HeightOk(t', bh', v)
    {
      SwappedIn(t, root, order, sp, z, y, v);
      var u := if v == y then z else v;
      assert u != x ==> RedExcept(t, x, u);
      assert u != xp ==> HeightOk(t, bh, u);
      SwappedAt(t, t', root, root', order, sp, bh, z, y, x, u);
    }
    SwappedRoot(t, t', root, root', order, sp, z, y, x);
    SwappedIn(t, root, order, sp, z, y, xp');
    SwappedAt(t, t', root, root', order, sp, bh, z, y, x, xp);
    ShortSide(t, t', root, root', order, sp, bh, z, y, x, xp, k);
  }

  lemma {:induction false} SwappedRoot(t: seq<Node>, t': seq<Node>, root: int, root': int, order: seq<int>,
          sp: seq<Span>, z: int, y: int, x: int)
    requires CanSubstitute(t, t', root, root', order, sp, z, y) && x != root && x != y && (Red(t, root) ==> root == x)
    ensures !Red(t', root') && root' != x
  {
    ParentFacts(t, root, order, sp, z);
    ParentFacts(t, root, order, sp, root);
    if root != z {
      SwappedColour(t, t', root, root', order, sp, z, y, root);
    }
  }

  /** The short side stays short. */
  lemma {:induction false} ShortSide(t: seq<Node>, t': seq<Node>, root: int, root': int, order: seq<int>,
          sp: seq<Span>, bh: seq<nat>, z: int, y: int, x: int, xp: int, k: bool)
    requires CanSubstitute(t, t', root, root', order, sp, z, y) && In(order, sp, xp) && |bh| == |t|
    requires x != z && x != y && Child(t[xp], k) == x && Height(bh, Child(t[xp], !k)) == Height(bh, x) + 1
    requires bh[xp] == Height(bh, x) + 1 + if t[xp].red then 0 else 1
    ensures var xp' := if xp == z then y else xp; var bh' := bh[y := bh[z]];
            && Child(t'[xp'], k) == x && Height(bh', Child(t'[xp'], !k)) == Height(bh', x) + 1
            && bh'[xp'] == Height(bh', x) + 1 + if t'[xp'].red then 0 else 1
  {
    SwappedAt(t, t', root, root', order, sp, bh, z, y, x, xp);
    SmallChild(t, root, order, sp, xp, k);
  }
}
