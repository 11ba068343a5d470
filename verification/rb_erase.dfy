/**
 Colours and black heights during deletion: one side of one node is a black node short.
 */
module RbErase {
  import opened RbState
  import opened RbRotate
  import opened RbBalance

  /** The subtree x, on side k of xp, is one black node too low; x is 0 if it is empty.  If x is
      the root the whole tree is meant and nothing is short. */
  ghost predicate Short(t: seq<Node>, root: int, order: seq<int>, sp: seq<Span>, bh: seq<nat>, x: int, xp: int,
      k: bool) {
    && Shape(t, root, order, sp) && |bh| == |t|
    && (forall v {:trigger RedExcept(t, x, v)} :: In(order, sp, v) && v != x ==> RedExcept(t, x, v))
    && (Red(t, root) ==> root == x)
    && (forall v {:trigger HeightOk(t, bh, v)} :: In(order, sp, v) && (x == root || v != xp) ==> HeightOk(t, bh, v))
    && (x != root ==>
          && In(order, sp, xp) && Child(t[xp], k) == x
          && Height(bh, Child(t[xp], !k)) == Height(bh, x) + 1
          && bh[xp] == Height(bh, x) + 1 + if t[xp].red then 0 else 1)
  }

  /** Where the loop of erase_fixup stands: x is black or empty and w is its sibling. */
  ghost predicate Sibling(t: seq<Node>, root: int, order: seq<int>, sp: seq<Span>, bh: seq<nat>, x: int, xp: int,
          k: bool, w: int) {
    && Short(t, root, order, sp, bh, x, xp, k) && x != root && !Red(t, x)
    && 0 <= xp < |t| && w == Child(t[xp], !k)
  }

  /** The test for x's side is right and the sibling exists. */
  lemma {:induction false} SiblingExists(t: seq<Node>, root: int, order: seq<int>, sp: seq<Span>, bh: seq<nat>,
          x: int, xp: int, k: bool)
    requires Short(t, root, order, sp, bh, x, xp, k) && x != root && !Red(t, x)
    ensures In(order, sp, xp) && (x == t[xp].left <==> !k)
    ensures var w := Child(t[xp], !k);
            && In(order, sp, w) && w != xp && w != x && t[w].parent == xp && HeightOk(t, bh, w) && RedExcept(t, x, w)
            && 0 <= t[w].left < |t| && 0 <= t[w].right < |t| && t[w].left != w && t[w].right != w
            && t[w].left != xp && t[w].right != xp
            && (t[w].left != 0 ==> In(order, sp, t[w].left) && t[w].left != t[w].right && t[w].left != x)
            && (t[w].right != 0 ==> In(order, sp, t[w].right) && t[w].right != x)
  {
    SmallChild(t, root, order, sp, xp, k);
    SmallChild(t, root, order, sp, xp, !k);
    var w := Child(t[xp], !k);
    SmallChild(t, root, order, sp, w, false);
    SmallChild(t, root, order, sp, w, true);
    ParentFacts(t, root, order, sp, xp);
  }

  lemma {:induction false} NephewFacts(t: seq<Node>, root: int, order: seq<int>, sp: seq<Span>, bh: seq<nat>, x: int,
          xp: int, k: bool, w: int, c: int)
    requires Sibling(t, root, order, sp, bh, x, xp, k, w) && In(order, sp, w) && IsChild(t, w, c)
    ensures In(order, sp, c) && c != w && c != xp && c != x && HeightOk(t, bh, c) && RedExcept(t, x, c)
    ensures t[c].parent == w && t[w].left != t[w].right
  {
    ChildFacts(t, root, order, sp, w, c);
    ChildFacts(t, root, order, sp, xp, w);
    if x != 0 {
      ChildFacts(t, root, order, sp, xp, x);
    }
  }

  // case A: a red sibling is rotated away

  predicate Swapped(t: seq<Node>, t1: seq<Node>, w: int, xp: int) {
    1 <= w < |t| && 1 <= xp < |t| && w != xp && t1 == t[w := t[w].(red := false)][xp := t[xp].(red := true)]
  }

  function Lifted(bh: seq<nat>, w: int, xp: int, h: nat): seq<nat>
    requires 0 <= w < |bh| && 0 <= xp < |bh|
  {
    bh[w := h + 1][xp := h]
  }

  lemma {:induction false} RedSibling(t: seq<Node>, t1: seq<Node>, t': seq<Node>, root: int, root': int,
          order: seq<int>, sp: seq<Span>, bh: seq<nat>, x: int, xp: int, k: bool, w: int)
    requires Sibling(t, root, order, sp, bh, x, xp, k, w) && Red(t, w)
    requires Swapped(t, t1, w, xp) && Step(t1, t', root, root', order, sp, xp, k)
    ensures 0 <= w < |bh| && 0 <= xp < |bh|
    ensures var bh' := Lifted(bh, w, xp, Height(bh, x) + 1); var sp' := TurnedSpans(t1, sp, xp, k);
            && Sibling(t', root', order, sp', bh', x, xp, k, Child(t'[xp], !k)) && t'[xp].red
            && !Red(t', Child(t'[xp], !k))
  {
    var bh', sp' := Lifted(bh, w, xp, Height(bh, x) + 1), TurnedSpans(t1, sp, xp, k);
    SiblingExists(t, root, order, sp, bh, x, xp, k);
    RedSiblingPair(t, t1, t', root, root', order, sp, bh, x, xp, k, w);
    TurnKeeps(t1, t', root, root', order, sp, xp, k);
    forall v | In(order, sp', v) && v != xp
      ensures HeightOk(t', bh', v) && (v != x ==> RedExcept(t', x, v))
    {
      SameIn(t1, order, sp, xp, k, v);
      if v != w {
        RedSiblingBystander(t, t1, t', root, root', order, sp, bh, x, xp, k, w, v);
      }
    }
    SameIn(t1, order, sp, xp, k, xp);
    RedSiblingRoot(t, t1, t', root, root', order, sp, bh, x, xp, k, w);
  }

  lemma {:induction false} RedSiblingPair(t: seq<Node>, t1: seq<Node>, t': seq<Node>, root: int, root': int,
          order: seq<int>, sp: seq<Span>, bh: seq<nat>, x: int, xp: int, k: bool, w: int)
    requires Sibling(t, root, order, sp, bh, x, xp, k, w) && Red(t, w)
    requires Swapped(t, t1, w, xp) && Step(t1, t', root, root', order, sp, xp, k)
    ensures In(order, sp, w) && In(order, sp, xp) && |bh| == |t| && !t[xp].red && bh[xp] == Height(bh, x) + 2
    ensures var bh' := Lifted(bh, w, xp, Height(bh, x) + 1);
            && HeightOk(t', bh', w) && RedExcept(t', x, w) && !t'[w].red && t'[xp].red
            && Child(t'[xp], k) == x && Height(bh', Child(t'[xp], !k)) == Height(bh', x) + 1
            && bh'[xp] == Height(bh', x) + 1
            && !Red(t', Child(t'[xp], !k)) && RedExcept(t', x, xp) && !Red(t', x)
  {
    SiblingExists(t, root, order, sp, bh, x, xp, k);
    assert RedExcept(t, x, xp) && HeightOk(t, bh, w) && RedExcept(t, x, w);
    IsLocal(t1, root, order, sp, xp, k);
  }

  lemma {:induction false} RedSiblingBystander(t: seq<Node>, t1: seq<Node>, t': seq<Node>, root: int, root': int,
          order: seq<int>, sp: seq<Span>, bh: seq<nat>, x: int, xp: int, k: bool, w: int, v: int)
    requires Sibling(t, root, order, sp, bh, x, xp, k, w) && Red(t, w) && In(order, sp, w)
    requires Swapped(t, t1, w, xp) && Step(t1, t', root, root', order, sp, xp, k)
    requires In(order, sp, v) && v != xp && v != w && bh[xp] == Height(bh, x) + 2 && !t'[w].red
    ensures HeightOk(t', Lifted(bh, w, xp, Height(bh, x) + 1), v) && (v != x ==> RedExcept(t', x, v))
  {
    var bh' := Lifted(bh, w, xp, Height(bh, x) + 1);
    assert HeightOk(t, bh, v) && (v != x ==> RedExcept(t, x, v));
    assert HeightOk(t1, bh, v);
    TurnHeights(t1, t', root, root', order, sp, bh, bh', xp, k, v);
    TurnedEntry(t1, t', root, root', order, sp, xp, k, v);
    if IsChild(t, v, w) {
      ChildFacts(t, root, order, sp, v, w);
    }
    TurnedColours(t1, t', root, root', xp, k, t[v].left);
    TurnedColours(t1, t', root, root', xp, k, t[v].right);
  }

  lemma {:induction false} RedSiblingRoot(t: seq<Node>, t1: seq<Node>, t': seq<Node>, root: int, root': int,
          order: seq<int>, sp: seq<Span>, bh: seq<nat>, x: int, xp: int, k: bool, w: int)
    requires Sibling(t, root, order, sp, bh, x, xp, k, w) && Red(t, w) && In(order, sp, w) && In(order, sp, xp)
    requires Swapped(t, t1, w, xp) && Step(t1, t', root, root', order, sp, xp, k) && !t'[w].red
    ensures !Red(t', root') && x != root'
  {
    ParentFacts(t, root, order, sp, xp);
    ParentFacts(t, root, order, sp, w);
    TurnedColours(t1, t', root, root', xp, k, root');
    SmallChild(t, root, order, sp, xp, k);
    SmallChild(t, root, order, sp, xp, !k);
    if xp != root {
      ParentFacts(t, root, order, sp, root);
    }
  }

  // case B: the sibling can be reddened, and the shortage moves up

  function Side(t: seq<Node>, v: int): bool
    requires 0 <= v < |t|
  {
    0 <= t[v].parent < |t| && t[t[v].parent].right == v
  }

  lemma {:induction false} BlackNephews(t: seq<Node>, t': seq<Node>, root: int, order: seq<int>, sp: seq<Span>,
          bh: seq<nat>, x: int, xp: int, k: bool, w: int)
    requires Sibling(t, root, order, sp, bh, x, xp, k, w) && !Red(t, w) && In(order, sp, w)
    requires !Red(t, t[w].left) && !Red(t, t[w].right) && t' == t[w := t[w].(red := true)]
    ensures bh[xp] > 0 && bh[w] > 0
    ensures Short(t', root, order, sp, bh[w := bh[w] - 1][xp := bh[xp] - 1], xp, t[xp].parent, Side(t, xp))
    ensures Size(sp, xp) > if x == 0 then 0 else if 0 <= x < |sp| then Size(sp, x) else 0
  {
    SiblingExists(t, root, order, sp, bh, x, xp, k);
    assert HeightOk(t, bh, w);
    var bh' := bh[w := bh[w] - 1][xp := bh[xp] - 1];
    ShapeOfLinks(t, t', root, order, sp);
    ParentFacts(t, root, order, sp, xp);
    SmallChild(t, root, order, sp, xp, k);
    SpanPositive(t, root, order, sp, xp);
    var xpp := t[xp].parent;
    forall v | In(order, sp, v)
      ensures (xp == root || v != xpp) ==> HeightOk(t', bh', v)
      ensures v != xp ==> RedExcept(t', xp, v)
    {
      BlackNephewsAt(t, t', root, order, sp, bh, x, xp, k, w, v);
    }
    ChildFacts(t, root, order, sp, xp, w);
    NoParentOfRoot(t, root, order, sp, xp);
    if xp != root {
      MovedUp(t, t', root, order, sp, bh, x, xp, k, w);
    }
  }

  lemma {:induction false} MovedUp(t: seq<Node>, t': seq<Node>, root: int, order: seq<int>, sp: seq<Span>,
          bh: seq<nat>, x: int, xp: int, k: bool, w: int)
    requires Sibling(t, root, order, sp, bh, x, xp, k, w) && In(order, sp, w) && xp != root && bh[w] > 0 && bh[xp] > 0
    requires t' == t[w := t[w].(red := true)]
    ensures var xpp := t[xp].parent; var j := Side(t, xp); var bh' := bh[w := bh[w] - 1][xp := bh[xp] - 1];
            && In(order, sp, xpp) && Child(t'[xpp], j) == xp
            && Height(bh', Child(t'[xpp], !j)) == Height(bh', xp) + 1
            && bh'[xpp] == Height(bh', xp) + 1 + if t'[xpp].red then 0 else 1
  {
    var xpp := t[xp].parent;
    var j := Side(t, xp);
    ParentFacts(t, root, order, sp, xp);
    ChildFacts(t, root, order, sp, xpp, xp);
    ChildFacts(t, root, order, sp, xp, w);
    SmallChild(t, root, order, sp, xpp, !j);
    assert HeightOk(t, bh, xpp);
  }

  lemma {:induction false} SpanPositive(t: seq<Node>, root: int, order: seq<int>, sp: seq<Span>, v: int)
    requires Shape(t, root, order, sp) && In(order, sp, v)
    ensures Size(sp, v) > 0
  {
    Member(t, root, order, sp, v);
  }

  lemma {:induction false} BlackNephewsAt(t: seq<Node>, t': seq<Node>, root: int, order: seq<int>, sp: seq<Span>,
          bh: seq<nat>, x: int, xp: int, k: bool, w: int, v: int)
    requires Sibling(t, root, order, sp, bh, x, xp, k, w) && !Red(t, w) && In(order, sp, w) && In(order, sp, v)
    requires !Red(t, t[w].left) && !Red(t, t[w].right) && t' == t[w := t[w].(red := true)] && bh[w] > 0 && bh[xp] > 0
    ensures (xp == root || v != t[xp].parent) ==> HeightOk(t', bh[w := bh[w] - 1][xp := bh[xp] - 1], v)
    ensures v != xp ==> RedExcept(t', xp, v)
  {
    SiblingExists(t, root, order, sp, bh, x, xp, k);
    SmallChild(t, root, order, sp, v, false);
    SmallChild(t, root, order, sp, v, true);
    ParentFacts(t, root, order, sp, xp);
    assert HeightOk(t, bh, w);
    if v == xp {
      SmallChild(t, root, order, sp, xp, k);
    } else {
      assert HeightOk(t, bh, v) && (v != x ==> RedExcept(t, x, v));
      if v != w && IsChild(t, v, w) {
        ChildFacts(t, root, order, sp, v, w);
        ChildFacts(t, root, order, sp, xp, w);
      }
      if IsChild(t, v, xp) {
        ChildFacts(t, root, order, sp, v, xp);
        NoParentOfRoot(t, root, order, sp, v);
      }
    }
  }

  // case C: the red nephew is the inner one; it is turned into the outer one

  predicate NephewPainted(t: seq<Node>, t1: seq<Node>, i: int, w: int) {
    1 <= i < |t| && 1 <= w < |t| && i != w && t1 == t[i := t[i].(red := false)][w := t[w].(red := true)]
  }

  lemma {:induction false} InnerPair(t: seq<Node>, t1: seq<Node>, t': seq<Node>, root: int, root': int,
          order: seq<int>, sp: seq<Span>, bh: seq<nat>, x: int, xp: int, k: bool, w: int, i: int)
    requires Sibling(t, root, order, sp, bh, x, xp, k, w) && In(order, sp, w) && !Red(t, w)
    requires i == Child(t[w], k) && Red(t, i) && !Red(t, Child(t[w], !k))
    requires NephewPainted(t, t1, i, w) && Step(t1, t', root, root', order, sp, w, !k)
    ensures In(order, sp, i) && |bh| == |t| && bh[w] == Height(bh, x) + 1 && bh[i] == Height(bh, x)
    ensures var bh' := Lifted(bh, i, w, Height(bh, x));
            HeightOk(t', bh', i) && HeightOk(t', bh', w) && RedExcept(t', x, i) && RedExcept(t', x, w)
    ensures t'[w].red && !t'[i].red && Child(t'[i], !k) == w
  {
    SiblingExists(t, root, order, sp, bh, x, xp, k);
    NephewFacts(t, root, order, sp, bh, x, xp, k, w, i);
    assert HeightOk(t, bh, w);
    IsLocal(t1, root, order, sp, w, !k);
  }

  lemma {:induction false} InnerBystander(t: seq<Node>, t1: seq<Node>, t': seq<Node>, root: int, root': int,
          order: seq<int>, sp: seq<Span>, bh: seq<nat>, x: int, xp: int, k: bool, w: int, i: int, v: int)
    requires Sibling(t, root, order, sp, bh, x, xp, k, w) && In(order, sp, w) && In(order, sp, i) && i == Child(t[w], k)
    requires NephewPainted(t, t1, i, w) && Step(t1, t', root, root', order, sp, w, !k)
    requires In(order, sp, v) && v != i && v != w && bh[w] == Height(bh, x) + 1 && !t'[i].red
    ensures v != xp ==> HeightOk(t', Lifted(bh, i, w, Height(bh, x)), v)
    ensures v != x ==> RedExcept(t', x, v)
  {
    var bh' := Lifted(bh, i, w, Height(bh, x));
    assert v != xp ==> HeightOk(t, bh, v);
    assert v != x ==> RedExcept(t, x, v);
    assert v != xp ==> HeightOk(t1, bh, v);
    TurnHeights(t1, t', root, root', order, sp, bh, bh', w, !k, v);
    TurnedEntry(t1, t', root, root', order, sp, w, !k, v);
    if IsChild(t, v, i) {
      ChildFacts(t, root, order, sp, v, i);
      ChildFacts(t, root, order, sp, w, i);
    }
    TurnedColours(t1, t', root, root', w, !k, t[v].left);
    TurnedColours(t1, t', root, root', w, !k, t[v].right);
  }

  lemma {:induction false} InnerNephew(t: seq<Node>, t1: seq<Node>, t': seq<Node>, root: int, root': int,
          order: seq<int>, sp: seq<Span>, bh: seq<nat>, x: int, xp: int, k: bool, w: int, i: int)
    requires Sibling(t, root, order, sp, bh, x, xp, k, w) && In(order, sp, w) && !Red(t, w)
    requires i == Child(t[w], k) && Red(t, i) && !Red(t, Child(t[w], !k))
    requires NephewPainted(t, t1, i, w) && Step(t1, t', root, root', order, sp, w, !k)
    ensures 0 <= i < |bh| && 0 <= w < |bh| && root' == root
    ensures Sibling(t', root', order, TurnedSpans(t1, sp, w, !k), Lifted(bh, i, w, Height(bh, x)), x, xp, k, i)
    ensures !Red(t', i) && Child(t'[i], !k) == w && Red(t', w)
  {
    var bh', sp' := Lifted(bh, i, w, Height(bh, x)), TurnedSpans(t1, sp, w, !k);
    SiblingExists(t, root, order, sp, bh, x, xp, k);
    InnerPair(t, t1, t', root, root', order, sp, bh, x, xp, k, w, i);
    TurnKeeps(t1, t', root, root', order, sp, w, !k);
    forall v | In(order, sp', v)
      ensures v != xp ==> HeightOk(t', bh', v)
      ensures v != x ==> RedExcept(t', x, v)
    {
      SameIn(t1, order, sp, w, !k, v);
      if v != i && v != w {
        InnerBystander(t, t1, t', root, root', order, sp, bh, x, xp, k, w, i, v);
      }
    }
    InnerSibling(t, t1, t', root, root', order, sp, bh, x, xp, k, w, i);
    SameIn(t1, order, sp, w, !k, xp);
  }

  lemma {:induction false} InnerSibling(t: seq<Node>, t1: seq<Node>, t': seq<Node>, root: int, root': int,
          order: seq<int>, sp: seq<Span>, bh: seq<nat>, x: int, xp: int, k: bool, w: int, i: int)
    requires Sibling(t, root, order, sp, bh, x, xp, k, w) && In(order, sp, w) && !Red(t, w)
    requires i == Child(t[w], k) && Red(t, i) && !Red(t, Child(t[w], !k))
    requires NephewPainted(t, t1, i, w) && Step(t1, t', root, root', order, sp, w, !k)
    requires bh[i] == Height(bh, x)
    ensures root' == root && !Red(t', root) && !Red(t', x) && !Red(t', i)
    ensures In(order, sp, xp) && Child(t'[xp], k) == x && Child(t'[xp], !k) == i && t'[xp].red == t[xp].red
    ensures In(order, sp, i) && i != xp && w != xp && i != x && w != x && i != w
  {
    SiblingExists(t, root, order, sp, bh, x, xp, k);
    NephewFacts(t, root, order, sp, bh, x, xp, k, w, i);
    ParentFacts(t, root, order, sp, w);
    TurnedEntry(t1, t', root, root', order, sp, w, !k, xp);
    TurnedColours(t1, t', root, root', w, !k, root);
    TurnedColours(t1, t', root, root', w, !k, x);
    TurnedColours(t1, t', root, root', w, !k, i);
    ChildFacts(t, root, order, sp, w, i);
    ChildFacts(t, root, order, sp, xp, w);
    NoParentOfRoot(t, root, order, sp, w);
    SmallChild(t, root, order, sp, xp, k);
  }

  // case D: the outer nephew is red; one rotation repairs the shortage

  predicate AllPainted(t: seq<Node>, t1: seq<Node>, w: int, xp: int, o: int) {
    && 1 <= w < |t| && 1 <= xp < |t| && 1 <= o < |t| && w != xp && o != w && o != xp
    && t1 == t[w := t[w].(red := t[xp].red)][xp := t[xp].(red := false)][o := t[o].(red := false)]
  }

  function Repaired(bh: seq<nat>, w: int, xp: int, o: int, h: nat): seq<nat>
    requires 0 <= w < |bh| && 0 <= xp < |bh| && 0 <= o < |bh|
  {
    bh[w := bh[xp]][xp := h + 1][o := h + 1]
  }

  /** What the rotation leaves below w and xp. */
  lemma {:induction false} OuterKids(t: seq<Node>, t1: seq<Node>, t': seq<Node>, root: int, root': int,
          order: seq<int>, sp: seq<Span>, bh: seq<nat>, x: int, xp: int, k: bool, w: int, o: int)
    requires Sibling(t, root, order, sp, bh, x, xp, k, w) && In(order, sp, w)
    requires o == Child(t[w], !k) && AllPainted(t, t1, w, xp, o) && Step(t1, t', root, root', order, sp, xp, k)
    ensures Child(t'[w], !k) == o && Child(t'[w], k) == xp && Child(t'[xp], k) == x
    ensures Child(t'[xp], !k) == Child(t[w], k)
    ensures t'[w].red == t[xp].red && !t'[xp].red && !t'[o].red
    ensures var i := Child(t[w], k); 0 <= i < |t| && i != xp && i != w && (i != 0 ==> i != o)
  {
    SiblingExists(t, root, order, sp, bh, x, xp, k);
    IsLocal(t1, root, order, sp, xp, k);
    TurnedColours(t1, t', root, root', xp, k, w);
    TurnedColours(t1, t', root, root', xp, k, o);
  }

  lemma {:induction false} OuterThree(t: seq<Node>, t1: seq<Node>, t': seq<Node>, root: int, root': int,
          order: seq<int>, sp: seq<Span>, bh: seq<nat>, x: int, xp: int, k: bool, w: int, o: int)
    requires Sibling(t, root, order, sp, bh, x, xp, k, w) && In(order, sp, w) && !Red(t, w)
    requires o == Child(t[w], !k) && Red(t, o)
    requires AllPainted(t, t1, w, xp, o) && Step(t1, t', root, root', order, sp, xp, k)
    ensures In(order, sp, o) && |bh| == |t| && bh[w] == Height(bh, x) + 1 && bh[o] == Height(bh, x) && In(order, sp, xp)
    ensures var bh' := Repaired(bh, w, xp, o, Height(bh, x));
            && HeightOk(t', bh', w) && HeightOk(t', bh', xp) && RedOk(t', w) && RedOk(t', xp)
    ensures t'[w].red == t[xp].red && !t'[xp].red && !t'[o].red
  {
    SiblingExists(t, root, order, sp, bh, x, xp, k);
    NephewFacts(t, root, order, sp, bh, x, xp, k, w, o);
    assert HeightOk(t, bh, w);
    OuterKids(t, t1, t', root, root', order, sp, bh, x, xp, k, w, o);
    SmallChild(t, root, order, sp, xp, k);
  }

  /** A node is a child of its parent only. */
  lemma {:induction false} OnlyParent(t: seq<Node>, root: int, order: seq<int>, sp: seq<Span>, v: int, c: int)
    requires Shape(t, root, order, sp) && In(order, sp, v)
    ensures IsChild(t, v, c) ==> 0 <= c < |t| && t[c].parent == v
  {
    if IsChild(t, v, c) {
      ChildFacts(t, root, order, sp, v, c);
    }
  }

  /** After recolouring, every other node is in order already. */
  lemma {:induction false} PaintedBystander(t: seq<Node>, t1: seq<Node>, root: int, order: seq<int>, sp: seq<Span>,
          bh: seq<nat>, x: int, xp: int, k: bool, w: int, o: int, v: int)
    requires Sibling(t, root, order, sp, bh, x, xp, k, w) && In(order, sp, w) && In(order, sp, o)
    requires o == Child(t[w], !k)
    requires AllPainted(t, t1, w, xp, o) && In(order, sp, v) && v != xp && v != w
    requires |bh| == |t| && Red(t, o)
    ensures HeightOk(t1, bh[o := bh[o] + 1], v)
    ensures !IsChild(t, v, w) && (t[v].red && v != o ==>
              (t[v].left == xp || !Red(t1, t[v].left)) && (t[v].right == xp || !Red(t1, t[v].right)))
    ensures t[v].red && v != o ==> RedExcept(t, x, v)
    ensures t[v].red && v != o && IsChild(t, v, xp) ==> !t[xp].red
  {
    assert HeightOk(t, bh, v);
    assert v != x ==> RedExcept(t, x, v);
    OnlyParent(t, root, order, sp, v, o);
    OnlyParent(t, root, order, sp, v, w);
    OnlyParent(t, root, order, sp, v, x);
    OnlyParent(t, root, order, sp, xp, w);
    OnlyParent(t, root, order, sp, xp, x);
    OnlyParent(t, root, order, sp, w, o);
    ParentFacts(t, root, order, sp, xp);
    SiblingExists(t, root, order, sp, bh, x, xp, k);
  }

  lemma {:induction false} OuterBystanderD(t: seq<Node>, t1: seq<Node>, t': seq<Node>, root: int, root': int,
          order: seq<int>, sp: seq<Span>, bh: seq<nat>, x: int, xp: int, k: bool, w: int, o: int, v: int)
    requires Sibling(t, root, order, sp, bh, x, xp, k, w) && In(order, sp, w) && In(order, sp, o)
    requires o == Child(t[w], !k)
    requires AllPainted(t, t1, w, xp, o) && Step(t1, t', root, root', order, sp, xp, k)
    requires In(order, sp, v) && v != xp && v != w && t'[w].red == t[xp].red
    requires |bh| == |t| && bh[o] == Height(bh, x) && Red(t, o)
    ensures HeightOk(t', Repaired(bh, w, xp, o, Height(bh, x)), v) && RedOk(t', v)
  {
    PaintedBystander(t, t1, root, order, sp, bh, x, xp, k, w, o, v);
    TurnHeights(t1, t', root, root', order, sp, bh[o := bh[o] + 1], Repaired(bh, w, xp, o, Height(bh, x)), xp, k, v);
    TurnedEntry(t1, t', root, root', order, sp, xp, k, v);
    TurnedColours(t1, t', root, root', xp, k, t[v].left);
    TurnedColours(t1, t', root, root', xp, k, t[v].right);
  }

  lemma {:induction false} OuterNephew(t: seq<Node>, t1: seq<Node>, t': seq<Node>, root: int, root': int,
          order: seq<int>, sp: seq<Span>, bh: seq<nat>, x: int, xp: int, k: bool, w: int, o: int)
    requires Sibling(t, root, order, sp, bh, x, xp, k, w) && In(order, sp, w) && !Red(t, w)
    requires o == Child(t[w], !k) && Red(t, o)
    requires AllPainted(t, t1, w, xp, o) && Step(t1, t', root, root', order, sp, xp, k)
    ensures 0 <= w < |bh| && 0 <= xp < |bh| && 0 <= o < |bh|
    ensures Shape(t', root', order, TurnedSpans(t1, sp, xp, k))
    ensures Balanced(t', root', order, TurnedSpans(t1, sp, xp, k), Repaired(bh, w, xp, o, Height(bh, x)))
  {
    var bh', sp' := Repaired(bh, w, xp, o, Height(bh, x)), TurnedSpans(t1, sp, xp, k);
    SiblingExists(t, root, order, sp, bh, x, xp, k);
    OuterThree(t, t1, t', root, root', order, sp, bh, x, xp, k, w, o);
    TurnKeeps(t1, t', root, root', order, sp, xp, k);
    forall v | In(order, sp', v)
      ensures HeightOk(t', bh', v) && RedOk(t', v)
    {
      SameIn(t1, order, sp, xp, k, v);
      if v != xp && v != w {
        OuterBystanderD(t, t1, t', root, root', order, sp, bh, x, xp, k, w, o, v);
      }
    }
    ParentFacts(t, root, order, sp, xp);
    ParentFacts(t, root, order, sp, o);
    ParentFacts(t, root, order, sp, w);
    TurnedColours(t1, t', root, root', xp, k, root');
  }

  /** The loop has ended with x red or x the root; blackening x repairs what is left. */
  lemma {:induction false} EraseDone(t: seq<Node>, t': seq<Node>, root: int, order: seq<int>, sp: seq<Span>,
          bh: seq<nat>, x: int, xp: int, k: bool)
    requires Short(t, root, order, sp, bh, x, xp, k) && (x == root || Red(t, x))
    requires 0 <= x < |t| && t' == if x != 0 then t[x := t[x].(red := false)] else t
    ensures Shape(t', root, order, sp)
    ensures Balanced(t', root, order, sp, if Red(t, x) then bh[x := bh[x] + 1] else bh)
  {
    var bh' := if Red(t, x) then bh[x := bh[x] + 1] else bh;
    ShapeOfLinks(t, t', root, order, sp);
    forall v | In(order, sp, v)
      ensures HeightOk(t', bh', v) && RedOk(t', v)
    {
      assert x == root || v != xp ==> HeightOk(t, bh, v);
      assert v != x ==> RedExcept(t, x, v);
      OnlyParent(t, root, order, sp, v, x);
      SmallChild(t, root, order, sp, v, false);
      SmallChild(t, root, order, sp, v, true);
      if x != 0 && x == root {
        NoParentOfRoot(t, root, order, sp, v);
      }
      if x != root {
        SmallChild(t, root, order, sp, xp, k);
      }
    }
  }
}
