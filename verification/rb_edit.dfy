/**
 The changes of membership: a new leaf, a node with at most one child taken out, and a node
 put in another's place.
 */
module RbEdit {
  import opened RbState
  import opened RbRotate

  // ----- a new leaf z below y on side k; i is its place in the list

  function Inserted(order: seq<int>, i: int, z: int): seq<int>
    requires 0 <= i <= |order|
  {
    order[..i] + [z] + order[i..]
  }

  /** A boundary of a stretch after a new node at place i, which extends the stretch that ends
      there (k) or the one that begins there (!k). */
  function Grow(b: int, i: int, k: bool): int {
    if b > i || (k && b == i) then b + 1 else b
  }

  function GrownSpan(s: Span, i: int, k: bool): Span {
    Span(Grow(s.lo, i, k), if s.pos >= i then s.pos + 1 else s.pos, Grow(s.hi, i, k))
  }

  function GrownSpans(sp: seq<Span>, z: int, i: int, k: bool): seq<Span> {
    seq(|sp|, v requires 0 <= v < |sp| => if v == z then Span(i, i, i + 1) else GrownSpan(sp[v], i, k))
  }

  ghost predicate Attachable(t: seq<Node>, root: int, order: seq<int>, sp: seq<Span>, z: int, y: int, k: bool, i: int) {
    && Shape(t, root, order, sp) && 1 <= z < |t| && z !in order && z != y
    && (if y == 0 then order == [] && i == 0
        else In(order, sp, y) && Child(t[y], k) == 0 && i == if k then sp[y].pos + 1 else sp[y].pos)
  }

  ghost predicate Attached(t: seq<Node>, t': seq<Node>, root: int, root': int, z: int, y: int, k: bool) {
    && |t'| == |t| && 1 <= z < |t| && 0 <= y < |t| && z != y
    && t'[z] == t[z].(parent := y, left := 0, right := 0, red := true)
    && (y != 0 ==> t'[y] == WithChild(t[y], k, z))
    && root' == (if y == 0 then z else root)
    && forall v {:trigger t'[v]} :: 0 <= v < |t| && v != z && !(v == y && y != 0) ==> t'[v] == t[v]
  }

  lemma {:induction false} MemberIn(t: seq<Node>, root: int, order: seq<int>, sp: seq<Span>, v: int)
    requires Shape(t, root, order, sp) && v in order
    ensures In(order, sp, v)
  {
    var i :| 0 <= i < |order| && order[i] == v;
    assert InRange(sp, order, i);
  }

  lemma {:induction false} GrownIn(t: seq<Node>, root: int, order: seq<int>, sp: seq<Span>, z: int, y: int, k: bool,
          i: int, v: int)
    requires Attachable(t, root, order, sp, z, y, k, i)
    ensures 0 <= i <= |order|
    ensures In(Inserted(order, i, z), GrownSpans(sp, z, i, k), v) <==> v == z || In(order, sp, v)
    ensures y != 0 && v != y && In(order, sp, v) ==> sp[v].pos != sp[y].pos
  {
    if y != 0 {
      Member(t, root, order, sp, y);
    }
    var order', sp' := Inserted(order, i, z), GrownSpans(sp, z, i, k);
    if In(order', sp', v) && v != z {
      var j := sp'[v].pos;
      assert order'[j] == v;
      MemberAt(t, root, order, sp, if j < i then j else j - 1);
    }
  }

  lemma {:induction false} GrownChild(t: seq<Node>, t': seq<Node>, root: int, root': int, order: seq<int>,
          sp: seq<Span>, z: int, y: int, k: bool, i: int, v: int, j: bool)
    requires Attachable(t, root, order, sp, z, y, k, i) && Attached(t, t', root, root', z, y, k)
    requires In(order, sp, v) && v != z && (v != y || j != k)
    ensures 0 <= i <= |order| && ChildOk(t', Inserted(order, i, z), GrownSpans(sp, z, i, k), v, j)
  {
    Member(t, root, order, sp, v);
    GrownIn(t, root, order, sp, z, y, k, i, v);
    if y != 0 {
      Member(t, root, order, sp, y);
    }
    assert ChildOk(t, order, sp, v, j);
    var c := Child(t[v], j);
    if c != 0 {
      ChildFacts(t, root, order, sp, v, c);
      GrownIn(t, root, order, sp, z, y, k, i, c);
    }
  }

  lemma {:induction false} GrownLink(t: seq<Node>, t': seq<Node>, root: int, root': int, order: seq<int>,
          sp: seq<Span>, z: int, y: int, k: bool, i: int, v: int)
    requires Attachable(t, root, order, sp, z, y, k, i) && Attached(t, t', root, root', z, y, k)
    requires In(order, sp, v) && v != z
    ensures 0 <= i <= |order| && LinkOk(t', root', Inserted(order, i, z), GrownSpans(sp, z, i, k), v)
  {
    Member(t, root, order, sp, v);
    Member(t, root, order, sp, y);
    GrownIn(t, root, order, sp, z, y, k, i, v);
    GrownChild(t, t', root, root', order, sp, z, y, k, i, v, !k);
    if v != y {
      GrownChild(t, t', root, root', order, sp, z, y, k, i, v, k);
    } else {
      GrownIn(t, root, order, sp, z, y, k, i, z);
      assert ChildOk(t, order, sp, y, k);
    }
    GrownParent(t, t', root, root', order, sp, z, y, k, i, v);
  }

  lemma {:induction false} GrownParent(t: seq<Node>, t': seq<Node>, root: int, root': int, order: seq<int>,
          sp: seq<Span>, z: int, y: int, k: bool, i: int, v: int)
    requires Attachable(t, root, order, sp, z, y, k, i) && Attached(t, t', root, root', z, y, k)
    requires In(order, sp, v) && v != z
    ensures 0 <= i <= |order| && ParentOk(t', root', Inserted(order, i, z), GrownSpans(sp, z, i, k), v)
  {
    Member(t, root, order, sp, v);
    Member(t, root, order, sp, y);
    ParentFacts(t, root, order, sp, v);
    if v != root {
      GrownIn(t, root, order, sp, z, y, k, i, t[v].parent);
      ChildFacts(t, root, order, sp, t[v].parent, v);
    }
  }

  /** Attaching a leaf inserts it into the in-order list at that place. */
  lemma {:induction false} AttachKeeps(t: seq<Node>, t': seq<Node>, root: int, root': int, order: seq<int>,
          sp: seq<Span>, z: int, y: int, k: bool, i: int)
    requires Attachable(t, root, order, sp, z, y, k, i) && Attached(t, t', root, root', z, y, k)
    ensures 0 <= i <= |order| && Shape(t', root', Inserted(order, i, z), GrownSpans(sp, z, i, k))
  {
    GrownIn(t, root, order, sp, z, y, k, i, z);
    var order', sp' := Inserted(order, i, z), GrownSpans(sp, z, i, k);
    forall j | 0 <= j < |order'|
      ensures InRange(sp', order', j)
    {
      if j < i {
        assert InRange(sp, order, j);
      } else if j > i {
        assert InRange(sp, order, j - 1);
      }
    }
    forall v | In(order', sp', v)
      ensures LinkOk(t', root', order', sp', v)
    {
      GrownIn(t, root, order, sp, z, y, k, i, v);
      if v == z {
        GrownLeaf(t, t', root, root', order, sp, z, y, k, i);
      } else {
        GrownLink(t, t', root, root', order, sp, z, y, k, i, v);
      }
    }
    if y != 0 {
      Member(t, root, order, sp, y);
      GrownIn(t, root, order, sp, z, y, k, i, root);
      ParentFacts(t, root, order, sp, root);
    }
  }

  lemma {:induction false} GrownLeaf(t: seq<Node>, t': seq<Node>, root: int, root': int, order: seq<int>,
          sp: seq<Span>, z: int, y: int, k: bool, i: int)
    requires Attachable(t, root, order, sp, z, y, k, i) && Attached(t, t', root, root', z, y, k)
    ensures 0 <= i <= |order| && LinkOk(t', root', Inserted(order, i, z), GrownSpans(sp, z, i, k), z)
  {
    GrownIn(t, root, order, sp, z, y, k, i, z);
    if y != 0 {
      GrownIn(t, root, order, sp, z, y, k, i, y);
      Member(t, root, order, sp, y);
    }
  }

  // ----- y, which has no child on side m, is taken out; x is its other child

  function Without(order: seq<int>, q: int): seq<int>
    requires 0 <= q < |order|
  {
    order[..q] + order[q + 1..]
  }

  function Shrink(b: int, q: int): int {
    if b > q then b - 1 else b
  }

  function ShrunkSpans(sp: seq<Span>, q: int): seq<Span> {
    seq(|sp|, v requires 0 <= v < |sp| => Span(Shrink(sp[v].lo, q), Shrink(sp[v].pos, q), Shrink(sp[v].hi, q)))
  }

  /** rb_transplant(u, v): v, which may be 0, takes u's place below u's parent. */
  ghost predicate Transplanted(t: seq<Node>, t': seq<Node>, root: int, root': int, u: int, v: int) {
    && |t'| == |t| && 1 <= u < |t| && 0 <= v < |t| && 0 <= t[u].parent < |t| && u != v
    && var p := t[u].parent;
       && p != u && (v != 0 ==> p != v)
       && (p != 0 ==> t'[p] == WithChild(t[p], t[p].right == u, v))
       && (v != 0 ==> t'[v] == t[v].(parent := p))
       && root' == (if p == 0 then v else root)
       && forall w {:trigger t'[w]} :: 0 <= w < |t| && !(w == p && p != 0) && !(w == v && v != 0) ==> t'[w] == t[w]
  }

  ghost predicate Unlinked(t: seq<Node>, t': seq<Node>, root: int, root': int, order: seq<int>, sp: seq<Span>, y: int,
          m: bool) {
    && Shape(t, root, order, sp) && In(order, sp, y) && Child(t[y], m) == 0
    && Transplanted(t, t', root, root', y, Child(t[y], !m))
  }

  lemma {:induction false} ShrunkIn(t: seq<Node>, root: int, order: seq<int>, sp: seq<Span>, y: int, v: int)
    requires Shape(t, root, order, sp) && In(order, sp, y)
    ensures 0 <= sp[y].pos < |order|
    ensures In(Without(order, sp[y].pos), ShrunkSpans(sp, sp[y].pos), v) <==> v != y && In(order, sp, v)
  {
    var q := sp[y].pos;
    var order', sp' := Without(order, q), ShrunkSpans(sp, q);
    if In(order', sp', v) {
      var j := sp'[v].pos;
      assert order'[j] == v;
      MemberAt(t, root, order, sp, if j < q then j else j + 1);
    }
    if v != y && In(order, sp, v) {
      assert sp[v].pos != q;
    }
  }

  lemma {:induction false} ShrunkSides(sp: seq<Span>, q: int, v: int, j: bool)
    requires 0 <= v < |sp| && sp[v].pos != q
    ensures SideLo(ShrunkSpans(sp, q), v, j) == Shrink(SideLo(sp, v, j), q)
    ensures SideHi(ShrunkSpans(sp, q), v, j) == Shrink(SideHi(sp, v, j), q)
  {
  }

  /** y's own stretch, without y, is x's. */
  lemma {:induction false} ShrunkToX(t: seq<Node>, root: int, order: seq<int>, sp: seq<Span>, y: int, m: bool)
    requires Shape(t, root, order, sp) && In(order, sp, y) && y < |t| && Child(t[y], m) == 0
    ensures SpanOk(order, sp, y) && 0 <= Child(t[y], !m) < |t|
    ensures var q := sp[y].pos; var x := Child(t[y], !m);
            if x == 0 then Shrink(sp[y].lo, q) == Shrink(sp[y].hi, q)
            else In(order, sp, x) && x != y && Shrink(sp[x].lo, q) == Shrink(sp[y].lo, q)
                 && Shrink(sp[x].hi, q) == Shrink(sp[y].hi, q)
  {
    Member(t, root, order, sp, y);
    assert ChildOk(t, order, sp, y, m) && ChildOk(t, order, sp, y, !m);
    SmallChild(t, root, order, sp, y, !m);
  }

  lemma {:induction false} ShrunkChild(t: seq<Node>, t': seq<Node>, root: int, root': int, order: seq<int>,
          sp: seq<Span>, y: int, m: bool, v: int, j: bool)
    requires Unlinked(t, t', root, root', order, sp, y, m) && In(order, sp, v) && v != y
    ensures 0 <= sp[y].pos < |order| && ChildOk(t', Without(order, sp[y].pos), ShrunkSpans(sp, sp[y].pos), v, j)
  {
    Member(t, root, order, sp, v);
    assert ChildOk(t, order, sp, v, j);
    var c, x := Child(t[v], j), Child(t[y], !m);
    assert sp[v].pos != sp[y].pos;
    ShrunkSides(sp, sp[y].pos, v, j);
    ShrunkToX(t, root, order, sp, y, m);
    ShrunkIn(t, root, order, sp, y, x);
    if c == 0 {
      NoKid(t, t', root, root', order, sp, y, m, v, j);
    } else {
      ShrunkIn(t, root, order, sp, y, c);
      ShrunkKid(t, t', root, root', order, sp, y, m, v, j);
      if c != y {
        KeepsSize(t, root, order, sp, c, y);
        assert ChildOk(t', Without(order, sp[y].pos), ShrunkSpans(sp, sp[y].pos), v, j);
      } else if x == 0 {
        assert ChildOk(t', Without(order, sp[y].pos), ShrunkSpans(sp, sp[y].pos), v, j);
      } else {
        KeepsSize(t, root, order, sp, x, y);
        assert ChildOk(t', Without(order, sp[y].pos), ShrunkSpans(sp, sp[y].pos), v, j);
      }
    }
  }

  lemma {:induction false} NoKid(t: seq<Node>, t': seq<Node>, root: int, root': int, order: seq<int>, sp: seq<Span>,
          y: int, m: bool, v: int, j: bool)
    requires Unlinked(t, t', root, root', order, sp, y, m) && In(order, sp, v) && v != y && v < |t|
    requires Child(t[v], j) == 0
    ensures Child(t'[v], j) == 0
  {
    ParentFacts(t, root, order, sp, y);
    if y != root {
      ChildFacts(t, root, order, sp, t[y].parent, y);
    }
  }

  /** Only y itself covers nothing but y's place. */
  lemma {:induction false} KeepsSize(t: seq<Node>, root: int, order: seq<int>, sp: seq<Span>, c: int, y: int)
    requires Shape(t, root, order, sp) && In(order, sp, c) && In(order, sp, y)
    ensures c != y ==> Shrink(sp[c].lo, sp[y].pos) < Shrink(sp[c].hi, sp[y].pos)
  {
    Member(t, root, order, sp, c);
  }

  /** The entries of v's child on side j before and after. */
  lemma {:induction false} ShrunkKid(t: seq<Node>, t': seq<Node>, root: int, root': int, order: seq<int>,
          sp: seq<Span>, y: int, m: bool, v: int, j: bool)
    requires Unlinked(t, t', root, root', order, sp, y, m) && In(order, sp, v) && v != y && Child(t[v], j) != 0
    ensures Child(t[v], j) != y ==>
              Child(t'[v], j) == Child(t[v], j) && 1 <= Child(t[v], j) < |t| && t'[Child(t[v], j)].parent == v
    ensures Child(t[v], j) == y ==> Child(t'[v], j) == Child(t[y], !m) && (Child(t[y], !m) != 0 ==>
              1 <= Child(t[y], !m) < |t| && t'[Child(t[y], !m)].parent == v)
  {
    var c, x := Child(t[v], j), Child(t[y], !m);
    SmallChild(t, root, order, sp, v, j);
    SmallChild(t, root, order, sp, v, !j);
    SmallChild(t, root, order, sp, y, !m);
    if c == y {
      ChildFacts(t, root, order, sp, v, y);
    }
    if x != 0 {
      ChildFacts(t, root, order, sp, y, x);
    }
    ParentFacts(t, root, order, sp, v);
    ParentFacts(t, root, order, sp, y);
    if y != root {
      ChildFacts(t, root, order, sp, t[y].parent, y);
    }
  }

  /** Only the new root covers the whole shortened list. */
  lemma {:induction false} ShrunkWhole(t: seq<Node>, t': seq<Node>, root: int, root': int, order: seq<int>,
          sp: seq<Span>, y: int, m: bool, v: int)
    requires Unlinked(t, t', root, root', order, sp, y, m) && In(order, sp, v) && v != y
    ensures 0 <= sp[y].pos < |order|
    ensures (Whole(Without(order, sp[y].pos), ShrunkSpans(sp, sp[y].pos), v) <==> v == root')
  {
    var q := sp[y].pos;
    var x := Child(t[y], !m);
    Member(t, root, order, sp, v);
    Member(t, root, order, sp, y);
    ParentFacts(t, root, order, sp, y);
    ParentFacts(t, root, order, sp, v);
    assert ChildOk(t, order, sp, y, m) && ChildOk(t, order, sp, y, !m);
    if v != root {
      Nested(t, root, order, sp, root, v);
      if y != root {
        Nested(t, root, order, sp, root, y);
      } else if v != x {
        ChildFacts(t, root, order, sp, y, x);
        Nested(t, root, order, sp, x, v);
      }
    }
  }

  lemma {:induction false} ShrunkLink(t: seq<Node>, t': seq<Node>, root: int, root': int, order: seq<int>,
          sp: seq<Span>, y: int, m: bool, v: int)
    requires Unlinked(t, t', root, root', order, sp, y, m) && In(order, sp, v) && v != y
    ensures 0 <= sp[y].pos < |order| && LinkOk(t', root', Without(order, sp[y].pos), ShrunkSpans(sp, sp[y].pos), v)
  {
    Member(t, root, order, sp, v);
    ShrunkChild(t, t', root, root', order, sp, y, m, v, false);
    ShrunkChild(t, t', root, root', order, sp, y, m, v, true);
    ShrunkWhole(t, t', root, root', order, sp, y, m, v);
    ShrunkParent(t, t', root, root', order, sp, y, m, v);
    assert sp[v].pos != sp[y].pos;
  }

  lemma {:induction false} ShrunkParent(t: seq<Node>, t': seq<Node>, root: int, root': int, order: seq<int>,
          sp: seq<Span>, y: int, m: bool, v: int)
    requires Unlinked(t, t', root, root', order, sp, y, m) && In(order, sp, v) && v != y
    ensures 0 <= sp[y].pos < |order|
    ensures if v == root' then t'[v].parent == 0
            else In(Without(order, sp[y].pos), ShrunkSpans(sp, sp[y].pos), t'[v].parent) && IsChild(t', t'[v].parent, v)
  {
    var x := Child(t[y], !m);
    SmallChild(t, root, order, sp, y, !m);
    ParentFacts(t, root, order, sp, v);
    ParentFacts(t, root, order, sp, y);
    OnlyChildOf(t, root, order, sp, y, m, v);
    if y != root {
      ChildFacts(t, root, order, sp, t[y].parent, y);
      ShrunkIn(t, root, order, sp, y, t[y].parent);
    }
    if v != root {
      ChildFacts(t, root, order, sp, t[v].parent, v);
      ShrunkIn(t, root, order, sp, y, t[v].parent);
    }
  }

  /** A child of y is x. */
  lemma {:induction false} OnlyChildOf(t: seq<Node>, root: int, order: seq<int>, sp: seq<Span>, y: int, m: bool, v: int)
    requires Shape(t, root, order, sp) && In(order, sp, y) && Child(t[y], m) == 0 && In(order, sp, v)
    ensures v != root && t[v].parent == y ==> v == Child(t[y], !m)
    ensures v == Child(t[y], !m) ==> t[v].parent == y && v != root
  {
    ParentFacts(t, root, order, sp, v);
    if v == Child(t[y], !m) {
      ChildFacts(t, root, order, sp, y, v);
    }
  }

  /** Taking out a node with at most one child removes it from the in-order list. */
  lemma {:induction false} UnlinkKeeps(t: seq<Node>, t': seq<Node>, root: int, root': int, order: seq<int>,
          sp: seq<Span>, y: int, m: bool)
    requires Unlinked(t, t', root, root', order, sp, y, m)
    ensures 0 <= sp[y].pos < |order| && Shape(t', root', Without(order, sp[y].pos), ShrunkSpans(sp, sp[y].pos))
  {
    var q := sp[y].pos;
    var order', sp' := Without(order, q), ShrunkSpans(sp, q);
    forall i | 0 <= i < |order'|
      ensures InRange(sp', order', i)
    {
      assert InRange(sp, order, if i < q then i else i + 1);
    }
    forall v | In(order', sp', v)
      ensures LinkOk(t', root', order', sp', v)
    {
      ShrunkIn(t, root, order, sp, y, v);
      ShrunkLink(t, t', root, root', order, sp, y, m, v);
    }
    UnlinkedRoot(t, t', root, root', order, sp, y, m);
  }

  lemma {:induction false} UnlinkedRoot(t: seq<Node>, t': seq<Node>, root: int, root': int, order: seq<int>,
          sp: seq<Span>, y: int, m: bool)
    requires Unlinked(t, t', root, root', order, sp, y, m)
    ensures 0 <= sp[y].pos < |order|
    ensures var order', sp' := Without(order, sp[y].pos), ShrunkSpans(sp, sp[y].pos);
            if order' == [] then root' == 0 else In(order', sp', root') && Whole(order', sp', root')
  {
    var x := Child(t[y], !m);
    Member(t, root, order, sp, y);
    ParentFacts(t, root, order, sp, y);
    ShrunkIn(t, root, order, sp, y, root');
    SmallChild(t, root, order, sp, y, !m);
    assert ChildOk(t, order, sp, y, m) && ChildOk(t, order, sp, y, !m);
    if root' != 0 {
      ShrunkWhole(t, t', root, root', order, sp, y, m, root');
    }
  }

  // ----- y takes z's place

  ghost predicate Substituted(t: seq<Node>, t': seq<Node>, root: int, root': int, z: int, y: int) {
    && |t'| == |t| && 1 <= z < |t| && 1 <= y < |t| && z != y
    && 0 <= t[z].parent < |t| && 0 <= t[z].left < |t| && 0 <= t[z].right < |t|
    && var p, a, b := t[z].parent, t[z].left, t[z].right;
       && p != y && a != y && b != y
       && t'[y] == t[z].(key := t[y].key)
       && (a != 0 ==> t'[a] == t[a].(parent := y))
       && (b != 0 ==> t'[b] == t[b].(parent := y))
       && (p != 0 ==> t'[p] == WithChild(t[p], t[p].right == z, y))
       && root' == (if p == 0 then y else root)
       && forall v {:trigger t'[v]} ::
            0 <= v < |t| && v != y && v != z && !(v == a && a != 0) && !(v == b && b != 0) && !(v == p && p != 0) ==>
              t'[v] == t[v]
  }

  ghost predicate CanSubstitute(t: seq<Node>, t': seq<Node>, root: int, root': int, order: seq<int>, sp: seq<Span>,
          z: int, y: int) {
    Shape(t, root, order, sp) && In(order, sp, z) && y !in order && Substituted(t, t', root, root', z, y)
  }

  lemma {:induction false} SwappedIn(t: seq<Node>, root: int, order: seq<int>, sp: seq<Span>, z: int, y: int, v: int)
    requires Shape(t, root, order, sp) && In(order, sp, z) && y !in order && 1 <= y < |t|
    ensures In(order[sp[z].pos := y], sp[y := sp[z]], v) <==> v == y || (v != z && In(order, sp, v))
  {
    var order', sp' := order[sp[z].pos := y], sp[y := sp[z]];
    if In(order', sp', v) && v != y {
      assert order[sp[v].pos] == v;
    }
    if v != z && In(order, sp, v) {
      assert sp[v].pos != sp[z].pos && v != y;
    }
  }

  lemma {:induction false} SwappedChild(t: seq<Node>, t': seq<Node>, root: int, root': int, order: seq<int>,
          sp: seq<Span>, z: int, y: int, v: int, j: bool)
    requires CanSubstitute(t, t', root, root', order, sp, z, y) && In(order, sp, v)
    ensures ChildOk(t', order[sp[z].pos := y], sp[y := sp[z]], if v == z then y else v, j)
  {
    Member(t, root, order, sp, v);
    assert ChildOk(t, order, sp, v, j);
    SmallChild(t, root, order, sp, v, j);
    SmallChild(t, root, order, sp, v, !j);
    SmallChild(t, root, order, sp, z, j);
    SmallChild(t, root, order, sp, z, !j);
    ParentFacts(t, root, order, sp, z);
    SwappedIn(t, root, order, sp, z, y, Child(t[v], j));
    SwappedIn(t, root, order, sp, z, y, y);
    if Child(t[v], j) != 0 {
      ChildFacts(t, root, order, sp, v, Child(t[v], j));
    }
    if z != root {
      ChildFacts(t, root, order, sp, t[z].parent, z);
    }
  }

  lemma {:induction false} SwappedParent(t: seq<Node>, t': seq<Node>, root: int, root': int, order: seq<int>,
          sp: seq<Span>, z: int, y: int, v: int)
    requires CanSubstitute(t, t', root, root', order, sp, z, y) && In(order, sp, v)
    ensures ParentOk(t', root', order[sp[z].pos := y], sp[y := sp[z]], if v == z then y else v)
  {
    ParentFacts(t, root, order, sp, v);
    ParentFacts(t, root, order, sp, z);
    SwappedIn(t, root, order, sp, z, y, y);
    SwappedIn(t, root, order, sp, z, y, t[v].parent);
    if v != root {
      ChildFacts(t, root, order, sp, t[v].parent, v);
    }
    if z != root {
      ChildFacts(t, root, order, sp, t[z].parent, z);
    }
    if IsChild(t, z, v) {
      ChildFacts(t, root, order, sp, z, v);
    }
    OnlyTwo(t, root, order, sp, z);
  }

  lemma {:induction false} OnlyTwo(t: seq<Node>, root: int, order: seq<int>, sp: seq<Span>, z: int)
    requires Shape(t, root, order, sp) && In(order, sp, z)
    ensures 0 <= t[z].left < |t| && 0 <= t[z].right < |t| && t[z].left != z && t[z].right != z
    ensures t[z].left != 0 ==> t[t[z].left].parent == z && t[z].left != t[z].right && t[z].left != t[z].parent
    ensures t[z].right != 0 ==> t[t[z].right].parent == z && t[z].right != t[z].parent
  {
    SmallChild(t, root, order, sp, z, false);
    SmallChild(t, root, order, sp, z, true);
    ParentFacts(t, root, order, sp, z);
  }

  /** Substitution replaces the node in the in-order list. */
  lemma {:induction false} SubstituteKeeps(t: seq<Node>, t': seq<Node>, root: int, root': int, order: seq<int>,
          sp: seq<Span>, z: int, y: int)
    requires CanSubstitute(t, t', root, root', order, sp, z, y)
    ensures Shape(t', root', order[sp[z].pos := y], sp[y := sp[z]])
  {
    var order', sp' := order[sp[z].pos := y], sp[y := sp[z]];
    forall i | 0 <= i < |order'|
      ensures InRange(sp', order', i)
    {
      assert InRange(sp, order, i);
    }
    forall v | In(order', sp', v)
      ensures LinkOk(t', root', order', sp', v)
    {
      SwappedIn(t, root, order, sp, z, y, v);
      var u := if v == y then z else v;
      Member(t, root, order, sp, u);
      SwappedChild(t, t', root, root', order, sp, z, y, u, false);
      SwappedChild(t, t', root, root', order, sp, z, y, u, true);
      SwappedParent(t, t', root, root', order, sp, z, y, u);
    }
    SwappedIn(t, root, order, sp, z, y, root');
    ParentFacts(t, root, order, sp, z);
    ParentFacts(t, root, order, sp, root);
  }
}
