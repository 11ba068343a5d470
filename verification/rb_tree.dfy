/**
 The red-black tree with a cached leftmost node, against a stably sorted list.
 */
module RbTrees {
  import opened RbState
  import opened RbRotate
  import opened RbBalance
  import opened RbErase
  import opened RbEdit
  import opened RbEditBalance

  predicate KeyAtMost(t: seq<Node>, order: seq<int>, i: int, j: int) {
    && 0 <= i < |order| && 0 <= j < |order| && 0 <= order[i] < |t| && 0 <= order[j] < |t|
    && t[order[i]].key <= t[order[j]].key
  }

  ghost predicate Sorted(t: seq<Node>, order: seq<int>) {
    forall i, j :: 0 <= i < j < |order| ==> KeyAtMost(t, order, i, j)
  }

  function First(order: seq<int>): int {
    if order == [] then 0 else order[0]
  }

  ghost predicate KeysKept(t: seq<Node>, t': seq<Node>) {
    |t'| == |t| && forall v {:trigger t'[v]} :: 0 <= v < |t| ==> t'[v].key == t[v].key
  }

  predicate AtMost(t: seq<Node>, order: seq<int>, j: int, key: nat) {
    0 <= j < |order| && 0 <= order[j] < |t| && t[order[j]].key <= key
  }

  predicate Above(t: seq<Node>, order: seq<int>, j: int, key: nat) {
    0 <= j < |order| && 0 <= order[j] < |t| && t[order[j]].key > key
  }

  predicate AtLeast(t: seq<Node>, order: seq<int>, j: int, key: nat) {
    0 <= j < |order| && 0 <= order[j] < |t| && t[order[j]].key >= key
  }

  /** Place i is after all keys up to the given one and before all greater ones. */
  ghost predicate IsPlace(t: seq<Node>, order: seq<int>, key: nat, i: int) {
    && 0 <= i <= |order|
    && (forall j :: 0 <= j < i ==> AtMost(t, order, j, key))
    && (forall j :: i <= j < |order| ==> Above(t, order, j, key))
  }

  /** How far the loop of insert_fixup still has to climb. */
  function Climb(t: seq<Node>, order: seq<int>, sp: seq<Span>, z: int): int {
    if 0 <= z < |t| && z < |sp| && Red(t, t[z].parent) then |order| - Size(sp, z) + 1 else 0
  }

  predicate Bigger(sp: seq<Span>, u: int, v: int) {
    0 <= u < |sp| && 0 <= v < |sp| && Size(sp, u) > if v == 0 then 0 else Size(sp, v)
  }

  /** How far the loop of erase_fixup still has to climb. */
  function Lag(t: seq<Node>, root: int, order: seq<int>, sp: seq<Span>, x: int): int {
    if x == root || Red(t, x) then 0
    else if 0 < x < |sp| then |order| - Size(sp, x) + 1
    else |order| + 1
  }

  predicate IsWithout(order: seq<int>, q: int, order': seq<int>) {
    0 <= q < |order| && order' == Without(order, q)
  }

  /** What rb_transplant(u, v) leaves in memory. */
  function TransplantOf(t: seq<Node>, u: int, v: int): seq<Node>
    requires 1 <= u < |t| && 0 <= v < |t| && 0 <= t[u].parent < |t|
  {
    var p := t[u].parent;
    var t1 := if p == 0 then t else if u == t[p].left then t[p := t[p].(left := v)] else t[p := t[p].(right := v)];
    if v == 0 then t1 else t1[v := t1[v].(parent := p)]
  }

  /** z has two children and y, which has no left child, is its successor. */
  predicate Neighbours(t: seq<Node>, z: int, y: int) {
    && 1 <= z < |t| && 1 <= y < |t| && y != z
    && var a, b, x, p, q := t[z].left, t[z].right, t[y].right, t[z].parent, t[y].parent;
       && 1 <= a < |t| && 1 <= b < |t| && 0 <= x < |t| && 0 <= p < |t| && 1 <= q < |t|
       && a != b && a != y && a != z && b != z && a != p && b != p && p != z && p != y
       && q != y && q != p && q != a && x != y && x != z && x != q
       && (b == y <==> q == z) && (b != y ==> t[q].left == y)
       && IsChild(t, q, y) && t[q].left != t[q].right
       && (p != 0 ==> IsChild(t, p, z) && t[p].left != t[p].right)
       && (x != 0 ==> t[x].parent == y && x != b && x != a && x != p)
       && t[a].parent == z && t[b].parent == z
  }

  class RbTreeCached {
    /** The memory that holds the nodes, by address. */
    var nodes: seq<Node>
    var root: int
    var leftmost: int
    var size: nat
    /** The members in order, and evidence of shape and balance. */
    ghost var order: seq<int>
    ghost var spans: seq<Span>
    ghost var heights: seq<nat>

    ghost predicate Linked()
      reads this
    {
      Shape(nodes, root, order, spans)
    }

    ghost predicate Valid()
      reads this
    {
      && Linked() && Balanced(nodes, root, order, spans, heights)
      && Sorted(nodes, order) && leftmost == First(order) && size == |order|
    }

    constructor (capacity: nat)
      ensures Valid() && |nodes| == capacity + 1 && order == []
    {
      nodes := seq(capacity + 1, _ => Node(0, 0, 0, true, 0));
      root, leftmost, size := 0, 0, 0;
      order, spans, heights := [], seq(capacity + 1, _ => Span(0, 0, 0)), seq(capacity + 1, _ => 0);
    }

    method RotateLeft(n: int)
      requires CanTurn(nodes, root, order, spans, n, false)
      modifies `nodes, `root, `spans
      ensures Step(old(nodes), nodes, old(root), root, order, old(spans), n, false)
      ensures spans == TurnedSpans(old(nodes), old(spans), n, false) && Linked() && KeysKept(old(nodes), nodes)
    {
      ghost var t0, r0 := nodes, root;
      IsLocal(nodes, root, order, spans, n, false);
      var r := nodes[n].right;
      nodes := nodes[n := nodes[n].(right := nodes[r].left)];
      ghost var t1 := nodes;
      if nodes[r].left != 0 {
        var b := nodes[r].left;
        nodes := nodes[b := nodes[b].(parent := n)];
      }
      ghost var t2 := nodes;
      nodes := nodes[r := nodes[r].(parent := nodes[n].parent)];
      ghost var t3 := nodes;
      var p := nodes[n].parent;
      if p == 0 {
        root := r;
      } else if n == nodes[p].left {
        nodes := nodes[p := nodes[p].(left := r)];
      } else {
        nodes := nodes[p := nodes[p].(right := r)];
      }
      ghost var t4 := nodes;
      nodes := nodes[r := nodes[r].(left := n)];
      ghost var t5 := nodes;
      nodes := nodes[n := nodes[n].(parent := r)];
      TurnedBySteps(t0, t1, t2, t3, t4, t5, nodes, r0, root, order, spans, n, false);
      TurnedKeys(t0, nodes, r0, root, n, false);
      TurnKeeps(t0, nodes, r0, root, order, spans, n, false);
      spans := TurnedSpans(t0, spans, n, false);
    }

    method RotateRight(n: int)
      requires CanTurn(nodes, root, order, spans, n, true)
      modifies `nodes, `root, `spans
      ensures Step(old(nodes), nodes, old(root), root, order, old(spans), n, true)
      ensures spans == TurnedSpans(old(nodes), old(spans), n, true) && Linked() && KeysKept(old(nodes), nodes)
    {
      ghost var t0, r0 := nodes, root;
      IsLocal(nodes, root, order, spans, n, true);
      var l := nodes[n].left;
      nodes := nodes[n := nodes[n].(left := nodes[l].right)];
      ghost var t1 := nodes;
      if nodes[l].right != 0 {
        var b := nodes[l].right;
        nodes := nodes[b := nodes[b].(parent := n)];
      }
      ghost var t2 := nodes;
      nodes := nodes[l := nodes[l].(parent := nodes[n].parent)];
      ghost var t3 := nodes;
      var p := nodes[n].parent;
      if p == 0 {
        root := l;
      } else if n == nodes[p].right {
        nodes := nodes[p := nodes[p].(right := l)];
      } else {
        nodes := nodes[p := nodes[p].(left := l)];
      }
      ghost var t4 := nodes;
      nodes := nodes[l := nodes[l].(right := n)];
      ghost var t5 := nodes;
      nodes := nodes[n := nodes[n].(parent := l)];
      TurnedBySteps(t0, t1, t2, t3, t4, t5, nodes, r0, root, order, spans, n, true);
      TurnedKeys(t0, nodes, r0, root, n, true);
      TurnKeeps(t0, nodes, r0, root, order, spans, n, true);
      spans := TurnedSpans(t0, spans, n, true);
    }

    /** rotate_right for k, rotate_left otherwise. */
    method Rotate(n: int, k: bool)
      requires CanTurn(nodes, root, order, spans, n, k)
      modifies `nodes, `root, `spans
      ensures Step(old(nodes), nodes, old(root), root, order, old(spans), n, k)
      ensures spans == TurnedSpans(old(nodes), old(spans), n, k) && Linked() && KeysKept(old(nodes), nodes)
    {
      if k {
        RotateRight(n);
      } else {
        RotateLeft(n);
      }
    }

    /** The last step of insert_fixup: z is an outer grandchild of g with a black uncle. */
    method InsertOuter(z: int, p: int, g: int, k: bool)
      requires RedPair(nodes, root, order, spans, heights, z, p, g, k) && z == Child(nodes[p], k)
      requires In(order, spans, g) && In(order, spans, p) && p != g && !Red(nodes, Child(nodes[g], !k))
      modifies `nodes, `root, `spans, `heights
      ensures Inserting(nodes, root, order, spans, heights, z) && KeysKept(old(nodes), nodes)
      ensures !Red(nodes, nodes[z].parent)
    {
      ghost var t1, sp1, r1 := nodes, spans, root;
      nodes := nodes[p := nodes[p].(red := false)];
      nodes := nodes[g := nodes[g].(red := true)];
      ghost var t2 := nodes;
      ShapeOfLinks(t1, t2, root, order, spans);
      Rotate(g, !k);
      OuterTurn(t1, t2, nodes, r1, root, order, sp1, heights, z, p, g, k);
      heights := Raised(heights, p, g);
      KeysChain(t1, t1, t2, nodes);
    }

    /** The last two steps of insert_fixup, below a black uncle; k is the side of p below g. */
    method InsertTurn(z: int, p: int, g: int, k: bool) returns (bottom: int)
      requires RedPair(nodes, root, order, spans, heights, z, p, g, k) && In(order, spans, g) && In(order, spans, p)
      requires !Red(nodes, Child(nodes[g], !k)) && IsChild(nodes, p, z) && p != g && g != z
      modifies `nodes, `root, `spans, `heights
      ensures Inserting(nodes, root, order, spans, heights, bottom) && KeysKept(old(nodes), nodes)
      ensures !Red(nodes, nodes[bottom].parent)
    {
      if z == Child(nodes[p], !k) {
        ghost var t0, sp0 := nodes, spans;
        bottom := p;
        Rotate(bottom, k);
        InnerTurn(t0, nodes, root, root, order, sp0, heights, z, p, g, k);
        UncleKept(t0, nodes, root, order, sp0, p, g, k, z);
        ghost var t1 := nodes;
        PairFacts(nodes, root, order, spans, heights, bottom);
        InsertOuter(bottom, z, g, k);
        KeysChain(t0, t1, t1, nodes);
      } else {
        bottom := z;
        InsertOuter(z, p, g, k);
      }
    }

    /** One round of insert_fixup; k is the side of z's parent p below the grandparent g. */
    method InsertRound(z: int, p: int, g: int, k: bool) returns (next: int)
      requires RedPair(nodes, root, order, spans, heights, z, p, g, k)
      modifies `nodes, `root, `spans, `heights
      ensures Inserting(nodes, root, order, spans, heights, next) && KeysKept(old(nodes), nodes)
      ensures Climb(nodes, order, spans, next) < Climb(old(nodes), order, old(spans), z)
    {
      ParentFacts(nodes, root, order, spans, z);
      PairFacts(nodes, root, order, spans, heights, z);
      SmallChild(nodes, root, order, spans, g, !k);
      SizeBound(nodes, root, order, spans, z);
      SizeBound(nodes, root, order, spans, g);
      var y := Child(nodes[g], !k);
      if y != 0 && nodes[y].red {
        ghost var t0 := nodes;
        nodes := nodes[p := nodes[p].(red := false)];
        nodes := nodes[y := nodes[y].(red := false)];
        nodes := nodes[g := nodes[g].(red := true)];
        UncleRed(t0, nodes, root, order, spans, heights, z, p, g, y, k);
        heights := heights[p := heights[p] + 1][y := heights[y] + 1];
        next := g;
      } else {
        next := InsertTurn(z, p, g, k);
      }
    }

    method InsertFixup(start: int)
      requires Inserting(nodes, root, order, spans, heights, start)
      modifies `nodes, `root, `spans, `heights
      ensures Linked() && Balanced(nodes, root, order, spans, heights) && KeysKept(old(nodes), nodes)
    {
      var z := start;
      ParentFacts(nodes, root, order, spans, z);
      while nodes[z].parent != 0 && nodes[nodes[z].parent].red
        invariant Inserting(nodes, root, order, spans, heights, z) && KeysKept(old(nodes), nodes)
        invariant 0 <= nodes[z].parent < |nodes| && (nodes[z].parent == 0 <==> z == root)
        decreases Climb(nodes, order, spans, z)
      {
        ghost var t0 := nodes;
        var p := nodes[z].parent;
        var g := nodes[p].parent;
        PairFacts(nodes, root, order, spans, heights, z);
        SizeBound(nodes, root, order, spans, z);
        if p == nodes[g].left {
          z := InsertRound(z, p, g, false);
        } else {
          z := InsertRound(z, p, g, true);
        }
        KeysChain(old(nodes), t0, t0, nodes);
        ParentFacts(nodes, root, order, spans, z);
      }
      ghost var t1 := nodes;
      ParentFacts(nodes, root, order, spans, root);
      nodes := nodes[root := nodes[root].(red := false)];
      InsertDone(t1, nodes, root, order, spans, heights, z);
      heights := if t1[root].red then heights[root := heights[root] + 1] else heights;
    }

    /** The descent of insert: the parent of the new leaf, and whether it never went right. */
    method FindPlace(vruntime: nat) returns (y: int, onLeft: bool, ghost i: int)
      requires Valid()
      ensures IsPlace(nodes, order, vruntime, i) && (onLeft <==> i == 0)
      ensures if y == 0 then order == [] && i == 0
              else In(order, spans, y) && y < |nodes|
                   && var k := vruntime >= nodes[y].key; Child(nodes[y], k) == 0 && i == if k then spans[y].pos + 1
                          else spans[y].pos
    {
      y := 0;
      var x := root;
      onLeft := true;
      ghost var lo, hi := 0, |order|;
      if order != [] {
        ParentFacts(nodes, root, order, spans, root);
      }
      while x != 0
        invariant 0 <= lo <= hi <= |order| && (onLeft <==> lo == 0)
        invariant forall j :: 0 <= j < lo ==> AtMost(nodes, order, j, vruntime)
        invariant forall j :: hi <= j < |order| ==> Above(nodes, order, j, vruntime)
        invariant if x == 0 then lo == hi else In(order, spans, x) && spans[x].lo == lo && spans[x].hi == hi
        invariant if y == 0 then x == root && lo == 0 && hi == |order|
                  else In(order, spans, y) && y < |nodes| && var k := vruntime >= nodes[y].key;
                       x == Child(nodes[y], k) && lo == SideLo(spans, y, k) && hi == SideHi(spans, y, k)
        decreases hi - lo
      {
        Descend(nodes, root, order, spans, x, vruntime);
        y := x;
        if vruntime < nodes[x].key {
          hi := spans[x].pos;
          x := nodes[x].left;
        } else {
          lo := spans[x].pos + 1;
          x := nodes[x].right;
          onLeft := false;
        }
      }
      i := lo;
    }

    /** Adds the entity of node z: after all members with a vruntime up to its own. */
    method Insert(z: int, vruntime: nat)
      requires Valid() && 1 <= z < |nodes| && z !in order
      modifies this
      ensures Valid() && |nodes| == |old(nodes)| && nodes[z].key == vruntime
      ensures forall v :: 0 <= v < |nodes| && v != z ==> nodes[v].key == old(nodes)[v].key
      ensures exists i :: IsPlace(old(nodes), old(order), vruntime, i) && order == Inserted(old(order), i, z)
    {
      ghost var t0 := nodes;
      nodes := nodes[z := nodes[z].(key := vruntime, left := 0, right := 0, red := true)];
      Outside(t0, nodes, root, order, spans, heights, z);
      ghost var t1, r1 := nodes, root;
      var y, onLeft, i := FindPlace(vruntime);
      SamePlace(t0, t1, order, vruntime, i, z);
      nodes := nodes[z := nodes[z].(parent := y)];
      if y == 0 {
        root := z;
      } else if vruntime < nodes[y].key {
        nodes := nodes[y := nodes[y].(left := z)];
      } else {
        nodes := nodes[y := nodes[y].(right := z)];
      }
      if onLeft {
        leftmost := z;
      }
      ghost var k := y != 0 && vruntime >= t1[y].key;
      Grown(t1, nodes, r1, root, order, spans, heights, z, y, k, i);
      InsertedSorted(t1, order, vruntime, i, z);
      order, spans, heights := Inserted(order, i, z), GrownSpans(spans, z, i, k), heights[z := 0];
      InsertFixup(z);
      SortedKept(t1, nodes, order);
      size := size + 1;
    }

    // ----- deletion

    /** Case A of erase_fixup: a red sibling is rotated above xp. */
    method LowerRedSibling(x: int, xp: int, k: bool, w: int)
      requires Sibling(nodes, root, order, spans, heights, x, xp, k, w) && Red(nodes, w) && w != xp
      modifies `nodes, `root, `spans, `heights
      ensures |nodes| == |old(nodes)| && 0 <= xp < |nodes| && KeysKept(old(nodes), nodes)
      ensures Sibling(nodes, root, order, spans, heights, x, xp, k, Child(nodes[xp], !k))
      ensures nodes[xp].red && !Red(nodes, Child(nodes[xp], !k))
    {
      ghost var t0, sp0, r0 := nodes, spans, root;
      SiblingExists(nodes, root, order, spans, heights, x, xp, k);
      nodes := nodes[w := nodes[w].(red := false)];
      nodes := nodes[xp := nodes[xp].(red := true)];
      ghost var t1 := nodes;
      ShapeOfLinks(t0, t1, root, order, spans);
      Rotate(xp, k);
      RedSibling(t0, t1, nodes, r0, root, order, sp0, heights, x, xp, k, w);
      heights := Lifted(heights, w, xp, Height(heights, x) + 1);
      KeysChain(t0, t0, t1, nodes);
    }

    /** Case C: a red inner nephew is turned into an outer one. */
    method TurnInnerNephew(x: int, xp: int, k: bool, w: int, i: int)
      requires Sibling(nodes, root, order, spans, heights, x, xp, k, w) && In(order, spans, w) && !Red(nodes, w)
      requires 0 <= w < |nodes| && i == Child(nodes[w], k) && Red(nodes, i) && !Red(nodes, Child(nodes[w], !k))
      requires i != w
      modifies `nodes, `root, `spans, `heights
      ensures |nodes| == |old(nodes)| && KeysKept(old(nodes), nodes)
      ensures Sibling(nodes, root, order, spans, heights, x, xp, k, i)
      ensures 0 <= i < |nodes| && !Red(nodes, i) && Child(nodes[i], !k) == w && Red(nodes, w)
    {
      ghost var t0, sp0, r0 := nodes, spans, root;
      nodes := nodes[i := nodes[i].(red := false)];
      nodes := nodes[w := nodes[w].(red := true)];
      ghost var t1 := nodes;
      ShapeOfLinks(t0, t1, root, order, spans);
      Rotate(w, !k);
      InnerNephew(t0, t1, nodes, r0, root, order, sp0, heights, x, xp, k, w, i);
      heights := Lifted(heights, i, w, Height(heights, x));
      KeysChain(t0, t0, t1, nodes);
    }

    /** Case D: a red outer nephew; the rotation repairs the shortage. */
    method UseOuterNephew(x: int, xp: int, k: bool, w: int, o: int)
      requires Sibling(nodes, root, order, spans, heights, x, xp, k, w) && In(order, spans, w) && !Red(nodes, w)
      requires 0 <= w < |nodes| && o == Child(nodes[w], !k) && Red(nodes, o)
      modifies `nodes, `root, `spans, `heights
      ensures |nodes| == |old(nodes)| && KeysKept(old(nodes), nodes)
      ensures Linked() && Balanced(nodes, root, order, spans, heights)
    {
      ghost var t0, sp0, r0 := nodes, spans, root;
      SiblingExists(nodes, root, order, spans, heights, x, xp, k);
      NephewFacts(nodes, root, order, spans, heights, x, xp, k, w, o);
      nodes := nodes[w := nodes[w].(red := nodes[xp].red)];
      nodes := nodes[xp := nodes[xp].(red := false)];
      nodes := nodes[o := nodes[o].(red := false)];
      ghost var t1 := nodes;
      ShapeOfLinks(t0, t1, root, order, spans);
      Rotate(xp, k);
      OuterNephew(t0, t1, nodes, r0, root, order, sp0, heights, x, xp, k, w, o);
      heights := Repaired(heights, w, xp, o, Height(heights, x));
      KeysChain(t0, t0, t1, nodes);
    }

    /** The rest of a round below a black sibling w; the result is the next x and its parent. */
    method EraseBlackSibling(x: int, xp: int, k: bool, w0: int) returns (next: int, nextParent: int, ghost side: bool)
      requires Sibling(nodes, root, order, spans, heights, x, xp, k, w0) && !Red(nodes, w0)
      modifies `nodes, `root, `spans, `heights
      ensures |nodes| == |old(nodes)| && KeysKept(old(nodes), nodes)
      ensures Short(nodes, root, order, spans, heights, next, nextParent, side)
      ensures next == root || (next == xp && 0 <= xp < |nodes| && nodes[xp].red == old(nodes)[xp].red
                               && spans == old(spans) && root == old(root) && Bigger(spans, xp, x))
    {
      var w := w0;
      ShortInRange(nodes, root, order, spans, heights, x, xp, k);
      SiblingExists(nodes, root, order, spans, heights, x, xp, k);
      if !Red(nodes, nodes[w].left) && !Red(nodes, nodes[w].right) {
        ghost var t0 := nodes;
        nodes := nodes[w := nodes[w].(red := true)];
        BlackNephews(t0, nodes, root, order, spans, heights, x, xp, k, w);
        heights := heights[w := heights[w] - 1][xp := heights[xp] - 1];
        next, nextParent, side := xp, nodes[xp].parent, Side(t0, xp);
      } else {
        ghost var t0 := nodes;
        if !Red(nodes, Child(nodes[w], !k)) {
          var i := Child(nodes[w], k);
          TurnInnerNephew(x, xp, k, w, i);
          w := i;
          SiblingExists(nodes, root, order, spans, heights, x, xp, k);
        }
        ghost var t1 := nodes;
        UseOuterNephew(x, xp, k, w, Child(nodes[w], !k));
        KeysChain(t0, t1, t1, nodes);
        next, nextParent, side := root, xp, k;
        BalancedIsShort(nodes, root, order, spans, heights, xp, k);
      }
    }

    /** One round of erase_fixup; k is the side of xp that x is on. */
    method EraseRound(x: int, xp: int, k: bool) returns (next: int, nextParent: int, ghost side: bool)
      requires Short(nodes, root, order, spans, heights, x, xp, k) && x != root && !Red(nodes, x) && 0 <= x < |nodes|
      modifies `nodes, `root, `spans, `heights
      ensures |nodes| == |old(nodes)| && KeysKept(old(nodes), nodes)
      ensures Short(nodes, root, order, spans, heights, next, nextParent, side)
      ensures Lag(nodes, root, order, spans, next) < Lag(old(nodes), old(root), order, old(spans), x)
    {
      ghost var t0 := nodes;
      LagBound(nodes, root, order, spans, heights, x, xp, k);
      SiblingExists(nodes, root, order, spans, heights, x, xp, k);
      var w := Child(nodes[xp], !k);
      if nodes[w].red {
        LowerRedSibling(x, xp, k, w);
        w := Child(nodes[xp], !k);
      }
      ghost var t1 := nodes;
      next, nextParent, side := EraseBlackSibling(x, xp, k, w);
      KeysChain(t0, t1, t1, nodes);
      LagBound(nodes, root, order, spans, heights, next, nextParent, side);
    }

    method EraseFixup(start: int, startParent: int, ghost startSide: bool)
      requires Short(nodes, root, order, spans, heights, start, startParent, startSide) && 0 <= start < |nodes|
      modifies `nodes, `root, `spans, `heights
      ensures |nodes| == |old(nodes)| && KeysKept(old(nodes), nodes)
      ensures Linked() && Balanced(nodes, root, order, spans, heights)
    {
      var x, xp := start, startParent;
      ghost var k := startSide;
      while x != root && !Red(nodes, x)
        invariant |nodes| == |old(nodes)| && KeysKept(old(nodes), nodes)
        invariant Short(nodes, root, order, spans, heights, x, xp, k) && 0 <= x < |nodes|
        decreases Lag(nodes, root, order, spans, x)
      {
        ghost var t0 := nodes;
        SiblingExists(nodes, root, order, spans, heights, x, xp, k);
        LagBound(nodes, root, order, spans, heights, x, xp, k);
        if x == nodes[xp].left {
          x, xp, k := EraseRound(x, xp, false);
        } else {
          x, xp, k := EraseRound(x, xp, true);
        }
        KeysChain(old(nodes), t0, t0, nodes);
        ShortInRange(nodes, root, order, spans, heights, x, xp, k);
      }
      ghost var t1 := nodes;
      if x != 0 {
        nodes := nodes[x := nodes[x].(red := false)];
      }
      EraseDone(t1, nodes, root, order, spans, heights, x, xp, k);
      heights := if Red(t1, x) then heights[x := heights[x] + 1] else heights;
    }

    /** The first member of x's subtree. */
    method TreeMinimum(start: int) returns (x: int)
      requires Linked() && In(order, spans, start)
      ensures In(order, spans, x) && x < |nodes| && nodes[x].left == 0
      ensures spans[x].pos == spans[start].lo && x == order[spans[start].lo]
    {
      x := start;
      Member(nodes, root, order, spans, x);
      while x != 0 && nodes[x].left != 0
        invariant In(order, spans, x) && x < |nodes| && SpanOk(order, spans, x) && spans[x].lo == spans[start].lo
        decreases Size(spans, x)
      {
        ChildFacts(nodes, root, order, spans, x, nodes[x].left);
        x := nodes[x].left;
      }
      Member(nodes, root, order, spans, x);
      assert ChildOk(nodes, order, spans, x, false);
    }

    /** The node of the member to run next, 0 if there is none. */
    method PickNextTask() returns (z: int)
      requires Valid()
      ensures order == [] ==> z == 0
      ensures order != [] ==>
                z == order[0] && 0 <= z < |nodes|
                && forall j :: 0 <= j < |order| ==> AtLeast(nodes, order, j, nodes[z].key)
    {
      z := leftmost;
      if order != [] {
        MemberAt(nodes, root, order, spans, 0);
        forall j | 0 <= j < |order|
          ensures AtLeast(nodes, order, j, nodes[z].key)
        {
          MemberAt(nodes, root, order, spans, j);
          assert 0 < j ==> KeyAtMost(nodes, order, 0, j);
        }
      }
    }

    /** rb_transplant */
    method Transplant(u: int, v: int)
      requires 1 <= u < |nodes| && 0 <= v < |nodes| && 0 <= nodes[u].parent < |nodes| && nodes[u].parent != u
      modifies `nodes, `root
      ensures nodes == TransplantOf(old(nodes), u, v)
      ensures root == if old(nodes)[u].parent == 0 then v else old(root)
    {
      var p := nodes[u].parent;
      if p == 0 {
        root := v;
      } else if u == nodes[p].left {
        nodes := nodes[p := nodes[p].(left := v)];
      } else {
        nodes := nodes[p := nodes[p].(right := v)];
      }
      if v != 0 {
        nodes := nodes[v := nodes[v].(parent := nodes[u].parent)];
      }
    }

    /** Takes out a node y without a child on side m. */
    method TakeOut(y: int, m: bool)
      requires Linked() && Balanced(nodes, root, order, spans, heights) && In(order, spans, y)
      requires y < |nodes| && Child(nodes[y], m) == 0
      modifies `nodes, `root, `order, `spans
      ensures |nodes| == |old(nodes)| && KeysKept(old(nodes), nodes) && Linked()
      ensures IsWithout(old(order), old(spans)[y].pos, order)
      ensures if old(nodes)[y].red then Balanced(nodes, root, order, spans, heights)
              else Short(nodes, root, order, spans, heights, Child(old(nodes)[y], !m), old(nodes)[y].parent,
                  SideOf(old(nodes), old(nodes)[y].parent, y))
    {
      ghost var t0, r0 := nodes, root;
      TransplantReady(nodes, root, order, spans, y, m);
      Transplant(y, Child(nodes[y], !m));
      TransplantUnlinks(t0, nodes, r0, root, order, spans, y, m);
      UnlinkKeeps(t0, nodes, r0, root, order, spans, y, m);
      if t0[y].red {
        UnlinkRed(t0, nodes, r0, root, order, spans, heights, y, m);
      } else {
        UnlinkBlack(t0, nodes, r0, root, order, spans, heights, y, m);
      }
      order, spans := Without(order, spans[y].pos), ShrunkSpans(spans, spans[y].pos);
    }

    /** z has two children: its successor y, unless it is z's child, leaves its place and takes over
        z's right subtree. */
    method LeavePlace(z: int, y: int)
      requires Neighbours(nodes, z, y)
      modifies `nodes, `root
      ensures nodes == Prepared(old(nodes), z, y) && root == old(root)
    {
      if nodes[y].parent != z {
        SuccessorLeaves(nodes, z, y);
        Transplant(y, nodes[y].right);
        nodes := nodes[y := nodes[y].(right := nodes[z].right)];
        nodes := nodes[nodes[y].right := nodes[nodes[y].right].(parent := y)];
      }
    }

    /** The links of erase when z has two children: y, z's successor, leaves its place and takes z's. */
    method RelinkSuccessor(z: int, y: int)
      requires Neighbours(nodes, z, y)
      modifies `nodes, `root
      ensures Substituted(TransplantOf(old(nodes), y, old(nodes)[y].right), nodes, old(root), root, z, y)
      ensures KeysKept(old(nodes), nodes)
    {
      ghost var t0 := nodes;
      LeavePlace(z, y);
      ghost var t1 := nodes;
      SuccessorReady(t0, t1, z, y);
      Transplant(z, y);
      nodes := nodes[y := nodes[y].(left := nodes[z].left)];
      nodes := nodes[nodes[y].left := nodes[nodes[y].left].(parent := y)];
      nodes := nodes[y := nodes[y].(red := nodes[z].red)];
      SuccessorSubstituted(t0, t1, nodes, old(root), root, z, y);
    }

    /** z has two children: its successor takes its place.  The results are erase's x, x_parent
        and whether a black node left its place. */
    method ReplaceBySuccessor(z: int) returns (x: int, xp: int, black: bool, ghost side: bool)
      requires Linked() && Balanced(nodes, root, order, spans, heights) && In(order, spans, z) && z < |nodes|
      requires nodes[z].left != 0 && nodes[z].right != 0
      modifies `nodes, `root, `order, `spans, `heights
      ensures |nodes| == |old(nodes)| && KeysKept(old(nodes), nodes) && Linked() && 0 <= x < |nodes|
      ensures IsWithout(old(order), old(spans)[z].pos, order)
      ensures if black then Short(nodes, root, order, spans, heights, x, xp, side)
                else Balanced(nodes, root, order, spans, heights)
    {
      ghost var t0, r0, o0, sp0, h0 := nodes, root, order, spans, heights;
      Member(nodes, root, order, spans, z);
      ChildFacts(nodes, root, order, spans, z, nodes[z].right);
      var y := TreeMinimum(nodes[z].right);
      black := !nodes[y].red;
      x := nodes[y].right;
      SuccessorFacts(nodes, root, order, spans, z, y);
      xp := if nodes[y].parent == z then y else nodes[y].parent;
      RelinkSuccessor(z, y);
      side := SideOf(t0, t0[y].parent, y);
      heights := Moved(t0, nodes, r0, root, o0, sp0, h0, z, y);
      order, spans := Without(o0, sp0[z].pos), MovedSpans(sp0, z, y);
    }

    /** Links a member out; the results are erase's x, x_parent and whether a black node left its place. */
    method LinkOut(z: int) returns (x: int, xp: int, black: bool, ghost side: bool)
      requires Linked() && Balanced(nodes, root, order, spans, heights) && In(order, spans, z) && z < |nodes|
      modifies `nodes, `root, `order, `spans, `heights
      ensures |nodes| == |old(nodes)| && KeysKept(old(nodes), nodes) && Linked() && 0 <= x < |nodes|
      ensures IsWithout(old(order), old(spans)[z].pos, order)
      ensures if black then Short(nodes, root, order, spans, heights, x, xp, side)
                else Balanced(nodes, root, order, spans, heights)
    {
      TransplantReady(nodes, root, order, spans, z, false);
      TransplantReady(nodes, root, order, spans, z, true);
      black := !nodes[z].red;
      if nodes[z].left == 0 {
        x := nodes[z].right;
        xp := nodes[z].parent;
        side := SideOf(nodes, xp, z);
        TakeOut(z, false);
      } else if nodes[z].right == 0 {
        x := nodes[z].left;
        xp := nodes[z].parent;
        side := SideOf(nodes, xp, z);
        TakeOut(z, true);
      } else {
        x, xp, black, side := ReplaceBySuccessor(z);
      }
    }

    /** Removes a member; from an empty tree it removes nothing. */
    method Erase(z: int)
      requires Valid() && (order == [] || z in order)
      modifies this
      ensures Valid() && |nodes| == |old(nodes)| && KeysKept(old(nodes), nodes)
      ensures if old(order) == [] then order == []
              else exists q :: 0 <= q < |old(order)| && old(order)[q] == z && order == Without(old(order), q)
    {
      if root == 0 {
        return;
      }
      MemberIn(nodes, root, order, spans, z);
      Member(nodes, root, order, spans, z);
      MemberAt(nodes, root, order, spans, 0);
      ghost var t0, o0, q := nodes, order, spans[z].pos;
      if z == leftmost {
        SecondMember(nodes, root, order, spans, z);
        if nodes[z].right != 0 {
          leftmost := TreeMinimum(nodes[z].right);
        } else {
          leftmost := nodes[z].parent;
        }
      }
      var x, xp, black;
      ghost var side;
      x, xp, black, side := LinkOut(z);
      ghost var t1 := nodes;
      if black {
        EraseFixup(x, xp, side);
      }
      KeysChain(t0, t1, t1, nodes);
      size := size - 1;
      if size == 0 {
        root := 0;
        leftmost := 0;
      }
      WithoutSorted(t0, nodes, o0, q);
    }
  }

  lemma {:induction false} TurnedBySteps(t: seq<Node>, t1: seq<Node>, t2: seq<Node>, t3: seq<Node>, t4: seq<Node>,
          t5: seq<Node>, t': seq<Node>, root: int, root': int, order: seq<int>, sp: seq<Span>, n: int, k: bool)
    requires Local(t, root, order, sp, n, k)
    requires var r := Child(t[n], !k); var b := Child(t[r], k); var p := t[n].parent;
             && t1 == t[n := WithChild(t[n], !k, b)]
             && t2 == (if b != 0 then t1[b := t1[b].(parent := n)] else t1)
             && t3 == t2[r := t2[r].(parent := p)]
             && t4 == (if p == 0 then t3 else if k then t3[p := WithChild(t3[p], t3[p].right == n, r)]
                    else t3[p := WithChild(t3[p], t3[p].left != n, r)])
             && t5 == t4[r := WithChild(t4[r], k, n)]
             && t' == t5[n := t5[n].(parent := r)]
             && root' == if p == 0 then r else root
    ensures Turned(t, t', root, root', n, k)
  {
  }

  lemma {:induction false} TurnedKeys(t: seq<Node>, t': seq<Node>, root: int, root': int, n: int, k: bool)
    requires Turned(t, t', root, root', n, k)
    ensures KeysKept(t, t')
  {
    forall w | 0 <= w < |t|
      ensures t'[w].key == t[w].key
    {
      TurnedColours(t, t', root, root', n, k, w);
    }
  }

  lemma {:induction false} KeysChain(a: seq<Node>, b: seq<Node>, c: seq<Node>, d: seq<Node>)
    requires KeysKept(a, b) && KeysKept(c, d) && |c| == |b| && forall v :: 0 <= v < |b| ==> c[v].key == b[v].key
    ensures KeysKept(a, d)
  {
  }

  /** The uncle is not touched by the inner rotation. */
  lemma {:induction false} UncleKept(t: seq<Node>, t': seq<Node>, root: int, order: seq<int>, sp: seq<Span>, p: int,
          g: int, k: bool, z: int)
    requires Step(t, t', root, root, order, sp, p, k) && 0 <= g < |t| && t'[g] == WithChild(t[g], k, z)
    requires !Red(t, Child(t[g], !k))
    ensures !Red(t', Child(t'[g], !k))
  {
    if 0 <= Child(t[g], !k) < |t| {
      TurnedColours(t, t', root, root, p, k, Child(t[g], !k));
    }
  }

  lemma {:induction false} SizeBound(t: seq<Node>, root: int, order: seq<int>, sp: seq<Span>, v: int)
    requires Shape(t, root, order, sp) && In(order, sp, v)
    ensures 0 < Size(sp, v) <= |order|
  {
    Member(t, root, order, sp, v);
  }

  predicate SideGiven(t: seq<Node>, order: seq<int>, sp: seq<Span>, x: int, k: bool) {
    && 0 <= x < |t| && x < |sp|
    && var c := Child(t[x], k);
       if c == 0 then SideLo(sp, x, k) == SideHi(sp, x, k)
       else In(order, sp, c) && sp[c].lo == SideLo(sp, x, k) && sp[c].hi == SideHi(sp, x, k)
  }

  /** A key comparison with x settles all members on the other side of x. */
  lemma {:induction false} Descend(t: seq<Node>, root: int, order: seq<int>, sp: seq<Span>, x: int, key: nat)
    requires Shape(t, root, order, sp) && In(order, sp, x) && Sorted(t, order)
    ensures SpanOk(order, sp, x) && x < |t|
    ensures key < t[x].key ==> forall j :: sp[x].pos <= j < |order| ==> Above(t, order, j, key)
    ensures key >= t[x].key ==> forall j :: 0 <= j <= sp[x].pos ==> AtMost(t, order, j, key)
    ensures SideGiven(t, order, sp, x, false) && SideGiven(t, order, sp, x, true)
  {
    Member(t, root, order, sp, x);
    var q := sp[x].pos;
    forall j | 0 <= j < |order|
      ensures 0 <= order[j] < |t|
      ensures j <= q ==> t[order[j]].key <= t[x].key
      ensures j >= q ==> t[order[j]].key >= t[x].key
    {
      MemberAt(t, root, order, sp, j);
      assert j < q ==> KeyAtMost(t, order, j, q);
      assert q < j ==> KeyAtMost(t, order, q, j);
    }
    assert ChildOk(t, order, sp, x, false) && ChildOk(t, order, sp, x, true);
  }

  /** The entry of a node that is not a member does not matter. */
  lemma {:induction false} Outside(t: seq<Node>, t': seq<Node>, root: int, order: seq<int>, sp: seq<Span>,
          bh: seq<nat>, z: int)
    requires Shape(t, root, order, sp) && Balanced(t, root, order, sp, bh) && Sorted(t, order)
    requires 0 <= z < |t| && z !in order && |t'| == |t| && t' == t[z := t'[z]]
    ensures Shape(t', root, order, sp) && Balanced(t', root, order, sp, bh) && Sorted(t', order)
  {
    forall v | In(order, sp, v)
      ensures LinkOk(t', root, order, sp, v) && HeightOk(t', bh, v) && RedOk(t', v)
    {
      Member(t, root, order, sp, v);
      assert HeightOk(t, bh, v) && RedOk(t, v);
      OutsideLink(t, t', root, order, sp, z, v);
    }
    forall i, j | 0 <= i < j < |order|
      ensures KeyAtMost(t', order, i, j)
    {
      assert KeyAtMost(t, order, i, j);
    }
    if root != 0 {
      ParentFacts(t, root, order, sp, root);
      MemberAt(t, root, order, sp, sp[root].pos);
    }
  }

  lemma {:induction false} OutsideLink(t: seq<Node>, t': seq<Node>, root: int, order: seq<int>, sp: seq<Span>, z: int,
          v: int)
    requires Shape(t, root, order, sp) && 0 <= z < |t| && z !in order && |t'| == |t| && t' == t[z := t'[z]]
    requires In(order, sp, v)
    ensures LinkOk(t', root, order, sp, v) && t'[v] == t[v]
    ensures Red(t', t[v].left) == Red(t, t[v].left) && Red(t', t[v].right) == Red(t, t[v].right)
  {
    Member(t, root, order, sp, v);
    assert v != z;
    SmallChild(t, root, order, sp, v, false);
    SmallChild(t, root, order, sp, v, true);
    ParentFacts(t, root, order, sp, v);
  }

  lemma {:induction false} SamePlace(t: seq<Node>, t': seq<Node>, order: seq<int>, key: nat, i: int, z: int)
    requires IsPlace(t', order, key, i) && 0 <= z < |t| && z !in order && |t'| == |t| && t' == t[z := t'[z]]
    ensures IsPlace(t, order, key, i)
  {
    forall j | 0 <= j < i
      ensures AtMost(t, order, j, key)
    {
      assert AtMost(t', order, j, key);
    }
    forall j | i <= j < |order|
      ensures Above(t, order, j, key)
    {
      assert Above(t', order, j, key);
    }
  }

  /** The assignments of insert attach the leaf. */
  lemma {:induction false} Grown(t: seq<Node>, t': seq<Node>, root: int, root': int, order: seq<int>, sp: seq<Span>,
          bh: seq<nat>, z: int, y: int, k: bool, i: int)
    requires Shape(t, root, order, sp) && Balanced(t, root, order, sp, bh) && 1 <= z < |t| && z !in order
    requires t[z].left == 0 && t[z].right == 0 && t[z].red
    requires if y == 0 then order == [] && i == 0
             else In(order, sp, y) && y < |t| && Child(t[y], k) == 0 && i == if k then sp[y].pos + 1 else sp[y].pos
    requires root' == if y == 0 then z else root
    requires var t1 := t[z := t[z].(parent := y)]; t' == if y == 0 then t1 else t1[y := WithChild(t1[y], k, z)]
    ensures 0 <= i <= |order| && 0 <= z < |bh|
    ensures Inserting(t', root', Inserted(order, i, z), GrownSpans(sp, z, i, k), bh[z := 0], z)
    ensures forall v :: 0 <= v < |t| ==> t'[v].key == t[v].key
  {
    assert Attachable(t, root, order, sp, z, y, k, i);
    assert Attached(t, t', root, root', z, y, k);
    AttachedInserting(t, t', root, root', order, sp, bh, z, y, k, i);
  }

  lemma {:induction false} InsertedSorted(t: seq<Node>, order: seq<int>, key: nat, i: int, z: int)
    requires Sorted(t, order) && IsPlace(t, order, key, i) && 0 <= z < |t| && t[z].key == key
    ensures Sorted(t, Inserted(order, i, z)) && First(Inserted(order, i, z)) == if i == 0 then z else First(order)
  {
    var order' := Inserted(order, i, z);
    forall a, b | 0 <= a < b < |order'|
      ensures KeyAtMost(t, order', a, b)
    {
      var a', b' := if a < i then a else a - 1, if b < i then b else b - 1;
      if a != i && b != i {
        assert KeyAtMost(t, order, a', b');
      } else if a == i {
        assert Above(t, order, b', key);
      } else {
        assert AtMost(t, order, a', key);
      }
    }
  }

  lemma {:induction false} SortedKept(t: seq<Node>, t': seq<Node>, order: seq<int>)
    requires Sorted(t, order) && |t'| == |t| && forall v :: 0 <= v < |t| ==> t'[v].key == t[v].key
    ensures Sorted(t', order)
  {
    forall i, j | 0 <= i < j < |order|
      ensures KeyAtMost(t', order, i, j)
    {
      assert KeyAtMost(t, order, i, j);
    }
  }

  lemma {:induction false} BalancedIsShort(t: seq<Node>, root: int, order: seq<int>, sp: seq<Span>, bh: seq<nat>,
          xp: int, k: bool)
    requires Shape(t, root, order, sp) && Balanced(t, root, order, sp, bh)
    ensures Short(t, root, order, sp, bh, root, xp, k)
  {
    forall v | In(order, sp, v)
      ensures RedExcept(t, root, v) && HeightOk(t, bh, v)
    {
      assert RedOk(t, v);
    }
  }

  lemma {:induction false} ShortInRange(t: seq<Node>, root: int, order: seq<int>, sp: seq<Span>, bh: seq<nat>, x: int,
          xp: int, k: bool)
    requires Short(t, root, order, sp, bh, x, xp, k)
    ensures 0 <= x < |t| && (x != 0 ==> In(order, sp, x))
  {
    if x != root {
      SmallChild(t, root, order, sp, xp, k);
    }
  }

  lemma {:induction false} LagBound(t: seq<Node>, root: int, order: seq<int>, sp: seq<Span>, bh: seq<nat>, x: int,
          xp: int, k: bool)
    requires Short(t, root, order, sp, bh, x, xp, k)
    ensures 0 <= Lag(t, root, order, sp, x) && (x != root && !Red(t, x) ==> Lag(t, root, order, sp, x) > 0)
  {
    ShortInRange(t, root, order, sp, bh, x, xp, k);
    if x != 0 {
      SizeBound(t, root, order, sp, x);
    }
  }

  lemma {:induction false} TransplantReady(t: seq<Node>, root: int, order: seq<int>, sp: seq<Span>, y: int, m: bool)
    requires Shape(t, root, order, sp) && In(order, sp, y)
    ensures 1 <= y < |t| && 0 <= Child(t[y], !m) < |t| && 0 <= t[y].parent < |t| && t[y].parent != y
    ensures Child(t[y], !m) != y
    ensures Child(t[y], !m) != 0 ==> Child(t[y], !m) != t[y].parent
    ensures t[y].parent != 0 ==> IsChild(t, t[y].parent, y) && t[t[y].parent].left != t[t[y].parent].right
  {
    SmallChild(t, root, order, sp, y, !m);
    ParentFacts(t, root, order, sp, y);
    if y != root {
      ChildFacts(t, root, order, sp, t[y].parent, y);
    }
  }

  /** rb_transplant of a node's only child takes the node out. */
  lemma {:induction false} TransplantUnlinks(t: seq<Node>, t': seq<Node>, root: int, root': int, order: seq<int>,
          sp: seq<Span>, y: int, m: bool)
    requires Shape(t, root, order, sp) && In(order, sp, y) && y < |t| && Child(t[y], m) == 0
    requires 0 <= Child(t[y], !m) < |t| && 0 <= t[y].parent < |t| && t' == TransplantOf(t, y, Child(t[y], !m))
    requires root' == if t[y].parent == 0 then Child(t[y], !m) else root
    ensures Unlinked(t, t', root, root', order, sp, y, m) && KeysKept(t, t')
  {
    TransplantReady(t, root, order, sp, y, m);
  }

  /** z's successor is the first node of its right subtree. */
  lemma {:induction false} SuccessorFacts(t: seq<Node>, root: int, order: seq<int>, sp: seq<Span>, z: int, y: int)
    requires Shape(t, root, order, sp) && In(order, sp, z) && In(order, sp, y) && z < |t| && y < |t|
    requires t[z].left != 0 && t[z].right != 0 && t[y].left == 0 && sp[y].pos == sp[z].pos + 1
    ensures Neighbours(t, z, y) && y != root && In(order, sp, t[y].parent)
  {
    TransplantReady(t, root, order, sp, y, false);
    TransplantReady(t, root, order, sp, z, false);
    SmallChild(t, root, order, sp, z, false);
    SmallChild(t, root, order, sp, z, true);
    SmallChild(t, root, order, sp, y, true);
    Member(t, root, order, sp, z);
    Member(t, root, order, sp, y);
    assert ChildOk(t, order, sp, z, false) && ChildOk(t, order, sp, z, true);
    ParentFacts(t, root, order, sp, z);
    BelowRight(t, root, order, sp, z, y);
  }

  lemma {:induction false} BelowRight(t: seq<Node>, root: int, order: seq<int>, sp: seq<Span>, z: int, y: int)
    requires Shape(t, root, order, sp) && In(order, sp, z) && In(order, sp, y) && z < |t| && y < |t|
    requires t[z].left != 0 && t[z].right != 0 && t[y].left == 0 && sp[y].pos == sp[z].pos + 1
    ensures y != root && In(order, sp, t[y].parent)
    ensures t[z].right == y <==> t[y].parent == z
    ensures t[z].right != y ==> t[t[y].parent].left == y
    ensures t[y].parent != t[z].parent && t[y].parent != t[z].left && t[z].parent != y
    ensures t[y].right != 0 ==> t[y].right != z && t[y].right != t[z].parent && t[y].right != t[z].left
  {
    ChildFacts(t, root, order, sp, z, t[z].left);
    ChildFacts(t, root, order, sp, z, t[z].right);
    Member(t, root, order, sp, z);
    Member(t, root, order, sp, y);
    assert ChildOk(t, order, sp, y, false);
    Nested(t, root, order, sp, z, y);
    ParentFacts(t, root, order, sp, z);
    ParentFacts(t, root, order, sp, y);
    var p := t[y].parent;
    ChildFacts(t, root, order, sp, p, y);
    SameAt(order, sp, p, z);
    if z != root {
      ChildFacts(t, root, order, sp, t[z].parent, z);
    }
    if t[y].right != 0 {
      ChildFacts(t, root, order, sp, y, t[y].right);
    }
  }

  lemma {:induction false} SameAt(order: seq<int>, sp: seq<Span>, u: int, v: int)
    requires In(order, sp, u) && In(order, sp, v)
    ensures sp[u].pos == sp[v].pos <==> u == v
  {
  }

  /** Memory when y is about to take z's place. */
  function Prepared(t: seq<Node>, z: int, y: int): seq<Node>
    requires Neighbours(t, z, y)
  {
    if t[y].parent == z then t
    else
      SuccessorLeaves(t, z, y);
      var s1 := TransplantOf(t, y, t[y].right);
      var s2 := s1[y := s1[y].(right := s1[z].right)];
      s2[t[z].right := s2[t[z].right].(parent := y)]
  }

  lemma {:induction false} SuccessorLeaves(t: seq<Node>, z: int, y: int)
    requires Neighbours(t, z, y)
    ensures |TransplantOf(t, y, t[y].right)| == |t|
    ensures t[y].parent != z ==> TransplantOf(t, y, t[y].right)[z].right == t[z].right
  {
  }

  lemma {:induction false} SuccessorReady(t: seq<Node>, t1: seq<Node>, z: int, y: int)
    requires Neighbours(t, z, y) && t1 == Prepared(t, z, y)
    ensures |t1| == |t| && t1[z].parent == t[z].parent && t1[z].left == t[z].left
    ensures var s := TransplantOf(t1, z, y); |s| == |t| && s[z].left == t[z].left
  {
  }

  /** The assignments of erase from the second rb_transplant on. */
  predicate Placed(t: seq<Node>, t1: seq<Node>, t': seq<Node>, z: int, y: int)
    requires Neighbours(t, z, y)
  {
    && |t1| == |t| && t1[z].parent == t[z].parent
    && var s4 := TransplantOf(t1, z, y);
       && |s4| == |t| && s4[z].left == t[z].left
       && var s5 := s4[y := s4[y].(left := s4[z].left)];
          var s6 := s5[t[z].left := s5[t[z].left].(parent := y)];
          t' == s6[y := s6[y].(red := s6[z].red)]
  }

  /** What they change, entry by entry. */
  lemma {:induction false} PlacedEntries(t: seq<Node>, t1: seq<Node>, t': seq<Node>, z: int, y: int)
    requires Neighbours(t, z, y) && Placed(t, t1, t', z, y) && t1[z].red == t[z].red
    ensures var a, p := t[z].left, t[z].parent;
            && |t'| == |t| && t'[y] == t1[y].(parent := p, left := a, red := t[z].red) && t'[a] == t1[a].(parent := y)
            && (p != 0 ==> t'[p] == if t1[p].left == z then t1[p].(left := y) else t1[p].(right := y))
            && forall v {:trigger t'[v]} :: 0 <= v < |t| && v != y && v != a && !(v == p && p != 0) ==> t'[v] == t1[v]
  {
  }

  lemma {:induction false} SubstitutedNear(t: seq<Node>, t': seq<Node>, root: int, root': int, z: int, y: int)
    requires Neighbours(t, z, y) && t[y].parent == z && Placed(t, t, t', z, y)
    requires root' == if t[z].parent == 0 then y else root
    ensures Substituted(TransplantOf(t, y, t[y].right), t', root, root', z, y)
  {
    PlacedEntries(t, t, t', z, y);
  }

  lemma {:induction false} SubstitutedFar(t: seq<Node>, t1: seq<Node>, t': seq<Node>, root: int, root': int, z: int,
          y: int)
    requires Neighbours(t, z, y) && t[y].parent != z && t1 == Prepared(t, z, y) && Placed(t, t1, t', z, y)
    requires root' == if t[z].parent == 0 then y else root
    ensures Substituted(TransplantOf(t, y, t[y].right), t', root, root', z, y)
  {
    PreparedEntries(t, t1, z, y);
    PlacedEntries(t, t1, t', z, y);
  }

  lemma {:induction false} PreparedEntries(t: seq<Node>, t1: seq<Node>, z: int, y: int)
    requires Neighbours(t, z, y) && t[y].parent != z && t1 == Prepared(t, z, y)
    ensures var T := TransplantOf(t, y, t[y].right); var b := t[z].right;
            && |t1| == |T| == |t| && t1[y] == T[y].(right := b) && t1[b] == T[b].(parent := y)
            && T[z] == t[z] && T[y] == t[y]
            && forall v {:trigger t1[v]} :: 0 <= v < |t| && v != y && v != b ==> t1[v] == T[v]
  {
  }

  lemma {:induction false} SuccessorSubstituted(t: seq<Node>, t1: seq<Node>, t': seq<Node>, root: int, root': int,
          z: int, y: int)
    requires Neighbours(t, z, y) && t1 == Prepared(t, z, y) && Placed(t, t1, t', z, y)
    requires root' == if t[z].parent == 0 then y else root
    ensures Substituted(TransplantOf(t, y, t[y].right), t', root, root', z, y)
    ensures KeysKept(t, t')
  {
    if t[y].parent == z {
      SubstitutedNear(t, t', root, root', z, y);
    } else {
      SubstitutedFar(t, t1, t', root, root', z, y);
    }
    PreparedKeys(t, t1, z, y);
    PlacedKeys(t, t1, t', z, y);
  }

  lemma {:induction false} PreparedKeys(t: seq<Node>, t1: seq<Node>, z: int, y: int)
    requires Neighbours(t, z, y) && t1 == Prepared(t, z, y)
    ensures KeysKept(t, t1) && t1[z].red == t[z].red
  {
    if t[y].parent != z {
      PreparedEntries(t, t1, z, y);
    }
  }

  lemma {:induction false} PlacedKeys(t: seq<Node>, t1: seq<Node>, t': seq<Node>, z: int, y: int)
    requires Neighbours(t, z, y) && Placed(t, t1, t', z, y) && KeysKept(t, t1) && t1[z].red == t[z].red
    ensures KeysKept(t, t')
  {
    PlacedEntries(t, t1, t', z, y);
  }

  function MovedSpans(sp: seq<Span>, z: int, y: int): seq<Span>
    requires 0 <= z < |sp| && 0 <= y < |sp|
  {
    var s := ShrunkSpans(sp, sp[y].pos);
    s[y := s[z]]
  }

  /** The tree after the successor has moved: the new heights and what they satisfy. */
  lemma {:induction false} Moved(t: seq<Node>, t': seq<Node>, root: int, root': int, order: seq<int>, sp: seq<Span>,
          bh: seq<nat>, z: int, y: int) returns (bh': seq<nat>)
    requires Shape(t, root, order, sp) && Balanced(t, root, order, sp, bh) && In(order, sp, z) && In(order, sp, y)
    requires Neighbours(t, z, y) && t[y].left == 0 && sp[y].pos == sp[z].pos + 1 && y != root
    requires Substituted(TransplantOf(t, y, t[y].right), t', root, root', z, y)
    ensures 0 <= sp[z].pos < |order| && 0 <= z < |sp| && 0 <= y < |sp|
    ensures var order', sp' := Without(order, sp[z].pos), MovedSpans(sp, z, y);
            var xp := if t[y].parent == z then y else t[y].parent;
            && Shape(t', root', order', sp')
            && (if t[y].red then Balanced(t', root', order', sp', bh')
                else Short(t', root', order', sp', bh', t[y].right, xp, SideOf(t, t[y].parent, y)))
  {
    var x := t[y].right;
    var t1 := TransplantOf(t, y, x);
    var q := sp[y].pos;
    var order1, sp1 := Without(order, q), ShrunkSpans(sp, q);
    ParentFacts(t, root, order, sp, y);
    TransplantUnlinks(t, t1, root, root, order, sp, y, false);
    UnlinkKeeps(t, t1, root, root, order, sp, y, false);
    ShrunkIn(t, root, order, sp, y, z);
    NotThere(t, root, order, sp, y);
    assert CanSubstitute(t1, t', root, root', order1, sp1, z, y);
    SubstituteKeeps(t1, t', root, root', order1, sp1, z, y);
    ReplacedList(order, sp[z].pos, y);
    bh' := bh[y := bh[z]];
    if t[y].red {
      UnlinkRed(t, t1, root, root, order, sp, bh, y, false);
      SubstituteBalanced(t1, t', root, root', order1, sp1, bh, z, y);
    } else {
      UnlinkBlack(t, t1, root, root, order, sp, bh, y, false);
      OnlyChildOf(t, root, order, sp, y, false, root);
      SubstituteShort(t1, t', root, root', order1, sp1, bh, z, y, x, t[y].parent, SideOf(t, t[y].parent, y));
    }
  }

  lemma {:induction false} NotThere(t: seq<Node>, root: int, order: seq<int>, sp: seq<Span>, y: int)
    requires Shape(t, root, order, sp) && In(order, sp, y)
    ensures 0 <= sp[y].pos < |order| && y !in Without(order, sp[y].pos)
  {
    var q := sp[y].pos;
    forall j | 0 <= j < |Without(order, q)|
      ensures Without(order, q)[j] != y
    {
      MemberAt(t, root, order, sp, if j < q then j else j + 1);
    }
  }

  lemma {:induction false} ReplacedList(order: seq<int>, p: int, y: int)
    requires 0 <= p && p + 1 < |order| && order[p + 1] == y
    ensures Without(order, p + 1)[p := y] == Without(order, p)
  {
  }

  /** Where the member after the first one is found. */
  lemma {:induction false} SecondMember(t: seq<Node>, root: int, order: seq<int>, sp: seq<Span>, z: int)
    requires Shape(t, root, order, sp) && In(order, sp, z) && sp[z].pos == 0 && z < |t|
    ensures t[z].right != 0 ==> In(order, sp, t[z].right) && sp[t[z].right].lo == 1 && |order| > 1
    ensures t[z].right == 0 ==> t[z].parent == if |order| > 1 then order[1] else 0
  {
    Member(t, root, order, sp, z);
    assert ChildOk(t, order, sp, z, true);
    ParentFacts(t, root, order, sp, z);
    if t[z].right != 0 {
      ChildFacts(t, root, order, sp, z, t[z].right);
    } else if z != root {
      ChildFacts(t, root, order, sp, t[z].parent, z);
    }
  }

  lemma {:induction false} WithoutSorted(t: seq<Node>, t': seq<Node>, order: seq<int>, q: int)
    requires Sorted(t, order) && KeysKept(t, t') && 0 <= q < |order|
    ensures Sorted(t', Without(order, q))
    ensures First(Without(order, q)) == if q > 0 then order[0] else if |order| > 1 then order[1] else 0
  {
    var order' := Without(order, q);
    forall i, j | 0 <= i < j < |order'|
      ensures KeyAtMost(t', order', i, j)
    {
      assert KeyAtMost(t, order, if i < q then i else i + 1, if j < q then j else j + 1);
    }
  }
}
