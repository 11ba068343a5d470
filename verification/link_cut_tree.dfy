/**
 The link-cut tree: the program's operations, against an explicit undirected forest.
 */
module LinkCutTrees {
  import opened LctState
  import opened LctSteps
  import opened LctSplay
  import opened LctAccess
  import opened LctEdges
  import opened LctForest

  /** tree_[c].rev ^= true */
  function Toggled(t: seq<Node>, c: int): seq<Node>
    requires 0 <= c < |t|
  {
    t[c := t[c].(rev := !t[c].rev)]
  }

  class LinkCutTree {
    var tree: seq<Node>
    /** What the structure represents: a value for every node, and a set of edges. */
    ghost var vals: seq<bv64>
    ghost var edges: Edges
    /** Where the nodes are, and evidence that the represented forest has no cycle. */
    ghost var places: seq<Place>
    ghost var spans: seq<Span>
    ghost var rank: seq<nat>

    ghost predicate Stored()
      reads this
    {
      Shape(tree, places, spans) && Sums(tree, vals, places, spans)
    }

    ghost predicate Valid()
      reads this
    {
      && Stored()
      && Acyclic(Parents(places), rank) && Represents(edges, Parents(places))
    }

    /** The root of v's tree in the current rooting. */
    ghost function Root(v: int): (r: int)
      requires Valid() && InTree(tree, v)
      reads this
      ensures InTree(tree, r)
    {
      RootOf(Parents(places), rank, v)
    }

    constructor (n: nat)
      ensures Valid() && |tree| == n + 1 && edges == {}
      ensures forall v :: 1 <= v <= n ==> vals[v] == 0
    {
      var blank := seq(n + 1, _ => Node(0, 0, 0, 0, 0, false));
      var none: Edges := {};
      var zeros: seq<bv64> := seq(n + 1, _ => 0);
      var alone := seq(n + 1, v requires 0 <= v <= n => Place([v], 0, 0));
      var whole := seq(n + 1, _ => Span(0, 1, false));
      var flat: seq<nat> := seq(n + 1, _ => 0);
      tree := blank;
      vals, edges, places, spans, rank := zeros, none, alone, whole, flat;
      new;
      BlankOk(n, tree, vals, places, spans);
      forall v | 1 <= v <= n
        ensures Par(places, v) == 0
      {
      }
      forall u, v
        ensures !Joined(Parents(places), u, v)
      {
      }
      forall v | 1 <= v <= n
        ensures RankedAt(Parents(places), rank, v)
      {
      }
    }

    method PushUp(x: int)
      requires 0 <= x < |tree| && 0 <= tree[x].left < |tree| && 0 <= tree[x].right < |tree|
      requires x != 0 ==> tree[x].left != x && tree[x].right != x
      modifies `tree
      ensures x == 0 ==> tree == old(tree)
      ensures x != 0 ==>
                |tree| == |old(tree)| && tree == old(tree)[x := old(tree)[x].(agg := tree[x].agg)] && UpToDate(tree, x)
    {
      if x == 0 {
        return;
      }
      tree := tree[x := tree[x].(agg := Combine(tree[tree[x].left].agg, tree[x].val, tree[tree[x].right].agg))];
    }

    method PushDown(x: int)
      requires Stored() && 0 <= x < |tree|
      modifies `tree, `spans
      ensures Stored()
      ensures if InTree(old(tree), x) && old(tree)[x].rev
              then Pushed(old(tree), tree, x) && spans == PushedSpans(old(spans), x)
              else tree == old(tree) && spans == old(spans)
    {
      if x == 0 || !tree[x].rev {
        return;
      }
      ghost var before := tree;
      ChildrenInRange(tree, places, spans, x);
      tree := tree[x := tree[x].(left := tree[x].right, right := tree[x].left)];
      ghost var swapped := tree;
      if tree[x].left != 0 {
        tree := Toggled(tree, tree[x].left);
      }
      ghost var once := tree;
      if tree[x].right != 0 {
        tree := Toggled(tree, tree[x].right);
      }
      ghost var twice := tree;
      tree := tree[x := tree[x].(rev := false)];
      PushedBySteps(before, swapped, once, twice, tree, x);
      PushDownKeeps(before, tree, places, spans, x);
      PushDownSums(before, tree, vals, places, spans, x);
      spans := PushedSpans(spans, x);
    }

    /** The assignments of rotate before its two push_ups. */
    method Relink(x: int, y: int, z: int)
      requires Turnable(tree, x, y, z)
      modifies `tree
      ensures Relinked(old(tree), tree, x, y, z)
    {
      ghost var t0 := tree;
      var k := tree[y].right == x;
      IsRootIsChild(tree, y);
      if !IsRoot(tree, y) {
        tree := tree[z := WithChild(tree[z], tree[z].right == y, x)];
      }
      ghost var t1 := tree;
      tree := tree[x := tree[x].(p := z)];
      ghost var t2 := tree;
      tree := tree[y := WithChild(tree[y], k, Child(tree[x], !k))];
      ghost var t3 := tree;
      if Child(tree[x], !k) != 0 {
        var b := Child(tree[x], !k);
        tree := tree[b := tree[b].(p := y)];
      }
      ghost var t4 := tree;
      tree := tree[x := WithChild(tree[x], !k, y)];
      tree := tree[y := tree[y].(p := x)];
      TurnedBySteps(t0, t1, t2, t3, t4, tree, x, y, z);
    }

    method Rotate(x: int)
      requires InTree(tree, x) && InTree(tree, tree[x].p) && Turnable(tree, x, tree[x].p, tree[tree[x].p].p)
      modifies `tree
      ensures Rotated(old(tree), tree, x, old(tree)[x].p, old(tree)[old(tree)[x].p].p)
    {
      ghost var t0 := tree;
      var y := tree[x].p;
      var z := tree[y].p;
      Relink(x, y, z);
      ghost var t1 := tree;
      KidsInRange(t0, t1, x, y, z);
      PushUp(y);
      ghost var t2 := tree;
      PushUp(x);
      RotatedBySteps(t0, t1, t2, tree, x, y, z);
    }

    /** A rotation inside splay, with the stretches it leads to. */
    method TurnUp(x: int)
      requires Stored() && CanRotate(tree, places, spans, x)
      modifies `tree, `spans
      ensures Stored()
      ensures Step(old(tree), tree, places, old(spans), x)
      ensures spans == RotatedSpans(old(tree), places, old(spans), x, old(tree)[x].p)
    {
      ghost var t0 := tree;
      RotateFacts(tree, places, spans, x);
      Rotate(x);
      RotateKeeps(t0, tree, places, spans, x);
      RotateSums(t0, tree, vals, places, spans, x);
      spans := RotatedSpans(t0, places, spans, x, t0[x].p);
    }

    /** The first loop of splay: x and its ancestors up to the splay root. */
    method Ancestors(x: int) returns (stk: seq<int>)
      requires Stored() && InTree(tree, x)
      ensures Chain(tree, places, spans, stk, x)
      ensures InTree(tree, stk[|stk| - 1]) && Whole(places, spans, stk[|stk| - 1])
    {
      var curr := x;
      stk := [curr];
      ChainStarts(tree, places, spans, x);
      IsRootMeansWhole(tree, places, spans, curr);
      while !IsRoot(tree, curr)
        invariant InTree(tree, curr) && 0 <= tree[curr].p < |tree|
        invariant Chain(tree, places, spans, stk, x) && stk[|stk| - 1] == curr
        invariant IsRoot(tree, curr) <==> Whole(places, spans, curr)
        decreases |places[x].line| - Size(spans, curr)
      {
        ChainGrows(tree, places, spans, stk, x);
        SizeFits(tree, places, spans, stk, x);
        stk := stk + [tree[curr].p];
        curr := tree[curr].p;
        IsRootMeansWhole(tree, places, spans, curr);
      }
    }

    /** The second loop of splay: push_down from the splay root down to x. */
    method PushAll(stk: seq<int>, x: int)
      requires Stored() && InTree(tree, x) && Chain(tree, places, spans, stk, x)
      requires InTree(tree, stk[|stk| - 1]) && Whole(places, spans, stk[|stk| - 1])
      modifies `tree, `spans
      ensures Stored() && |tree| == |old(tree)|
      ensures Closed(tree, places, spans, Members(stk)) && x in Members(stk)
      ensures FixedOff(old(tree), tree, places, old(spans), spans, x)
    {
      var j := |stk|;
      while j > 0
        invariant 0 <= j <= |stk|
        invariant Stored() && |tree| == |old(tree)|
        invariant Chain(tree, places, spans, stk, x) && ClearFrom(tree, stk, j)
        invariant InTree(tree, stk[|stk| - 1]) && Whole(places, spans, stk[|stk| - 1])
        invariant FixedOff(old(tree), tree, places, old(spans), spans, x)
      {
        j := j - 1;
        ghost var t0, sh0 := tree, spans;
        assert ChainAt(tree, places, spans, stk, j);
        PushDown(stk[j]);
        PushClears(t0, tree, places, sh0, stk, x, j);
        if t0[stk[j]].rev {
          ChainKept(t0, tree, places, sh0, stk, x, stk[j]);
          PushedFixed(t0, tree, places, sh0, stk[j]);
          FixedTwice(old(tree), t0, tree, places, old(spans), sh0, spans, x, stk[j]);
        }
      }
      StackIsClosed(tree, places, spans, stk, x);
    }

    /** One rotation of a settled node v on x's path: v takes over its parent's stretch. */
    method TurnSettled(v: int, x: int, ghost S: set<int>)
      requires Stored() && Closed(tree, places, spans, S) && v in S
      requires InTree(tree, v) && InTree(tree, x) && SameLine(places, v, x) && !Whole(places, spans, v)
      modifies `tree, `spans
      ensures Stored() && |tree| == |old(tree)| && Closed(tree, places, spans, S)
      ensures InTree(tree, old(tree)[v].p) && spans[v] == old(spans)[old(tree)[v].p]
      ensures Size(spans, v) > Size(old(spans), v)
      ensures forall w :: InTree(tree, w) && w != v && w != old(tree)[v].p ==> spans[w] == old(spans)[w]
      ensures FixedOff(old(tree), tree, places, old(spans), spans, x)
    {
      ghost var t0, sh0 := tree, spans;
      SettledCanRotate(tree, places, spans, S, v);
      TurnUp(v);
      RotateClosed(t0, tree, places, sh0, S, v);
      RotatedFixed(t0, tree, places, sh0, v);
    }

    /** The first rotation of a double one, if x's parent y is not the splay root. */
    method TurnOnce(x: int, y: int, z: int, ghost S: set<int>)
      requires Stored() && InTree(tree, x) && Closed(tree, places, spans, S) && x in S && y in S
      requires InTree(tree, y) && InTree(tree, z) && tree[x].p == y && tree[y].p == z && SameLine(places, y, x)
      requires x != y && x != z && !Whole(places, spans, x) && !Whole(places, spans, y)
      modifies `tree, `spans
      ensures Stored() && |tree| == |old(tree)| && Closed(tree, places, spans, S)
      ensures !Whole(places, spans, x) && Size(spans, x) >= Size(old(spans), x)
      ensures FixedOff(old(tree), tree, places, old(spans), spans, x)
    {
      if (tree[y].right == x) != (tree[z].right == y) {
        TurnSettled(x, x, S);
      } else {
        TurnSettled(y, x, S);
      }
    }

    /** One round of the third loop of splay. */
    method SplayRound(x: int, ghost S: set<int>)
      requires Stored() && InTree(tree, x) && Closed(tree, places, spans, S) && x in S && !Whole(places, spans, x)
      modifies `tree, `spans
      ensures Stored() && |tree| == |old(tree)| && Closed(tree, places, spans, S)
      ensures Size(spans, x) > Size(old(spans), x)
      ensures FixedOff(old(tree), tree, places, old(spans), spans, x)
    {
      SettledCanRotate(tree, places, spans, S, x);
      var y := tree[x].p;
      var z := tree[y].p;
      IsRootMeansWhole(tree, places, spans, y);
      if !IsRoot(tree, y) {
        SettledCanRotate(tree, places, spans, S, y);
        TurnOnce(x, y, z, S);
      } else {
        FixedRefl(tree, places, spans, x);
      }
      ghost var t1, sh1 := tree, spans;
      TurnSettled(x, x, S);
      FixedTwice(old(tree), t1, tree, places, old(spans), sh1, spans, x, x);
    }

    /** The third loop of splay: rotate x up until it is the splay root. */
    method Rotations(x: int, ghost S: set<int>)
      requires Stored() && InTree(tree, x) && Closed(tree, places, spans, S) && x in S
      modifies `tree, `spans
      ensures Stored() && |tree| == |old(tree)|
      ensures Whole(places, spans, x) && !tree[x].rev
      ensures FixedOff(old(tree), tree, places, old(spans), spans, x)
    {
      IsRootMeansWhole(tree, places, spans, x);
      FixedRefl(tree, places, spans, x);
      while !IsRoot(tree, x)
        invariant Stored() && |tree| == |old(tree)| && InTree(tree, x) && 0 <= tree[x].p < |tree|
        invariant Closed(tree, places, spans, S)
        invariant IsRoot(tree, x) <==> Whole(places, spans, x)
        invariant FixedOff(old(tree), tree, places, old(spans), spans, x)
        decreases |places[x].line| - Size(spans, x)
      {
        ghost var t0, sh0 := tree, spans;
        SpanHolds(tree, places, spans, x);
        SplayRound(x, S);
        FixedTwice(old(tree), t0, tree, places, old(spans), sh0, spans, x, x);
        IsRootMeansWhole(tree, places, spans, x);
      }
      assert Settled(tree, places, spans, S, x);
    }

    /** Make x the root of its splay tree. */
    method Splay(x: int)
      requires Stored() && InTree(tree, x)
      modifies `tree, `spans
      ensures Stored() && |tree| == |old(tree)|
      ensures Whole(places, spans, x) && !tree[x].rev
      ensures FixedOff(old(tree), tree, places, old(spans), spans, x)
    {
      var stk := Ancestors(x);
      PushAll(stk, x);
      ghost var t0, sh0 := tree, spans;
      Rotations(x, Members(stk));
      FixedTwice(old(tree), t0, tree, places, old(spans), sh0, spans, x, x);
    }

    /** tree_[x].ch[1] = c; push_up(x) */
    method Attach(x: int, c: int)
      requires Stored() && CanSplice(tree, places, spans, x, c) && Acyclic(Parents(places), rank)
      modifies `tree, `places, `spans
      ensures Stored() && |tree| == |old(tree)| && Parents(places) == old(Parents(places))
      ensures Whole(places, spans, x) && tree[x].p == places[x].up == old(places)[x].up
      ensures c == 0 ==> places[x].pos == |places[x].line| - 1
      ensures forall w :: Hanging(old(places), c, w) ==> MovedBelow(old(places), places, x, w)
      ensures OtherTrees(old(tree), tree, old(places), places, old(spans), spans, rank, x)
    {
      ghost var t0, g0, sh0 := tree, places, spans;
      ChildrenInRange(tree, places, spans, x);
      tree := tree[x := tree[x].(right := c)];
      PushUp(x);
      places, spans := SplicedPlaces(g0, x, c), SplicedSpans(g0, sh0, x, c);
      SpliceAll(vals, t0, tree, g0, places, sh0, spans, rank, x, c);
    }

    /** One round of access: x's path loses its part below x and gets c's path instead. */
    method AccessRound(x: int, c: int)
      requires Valid() && InTree(tree, x)
      requires c == 0 || (InTree(tree, c) && Whole(places, spans, c) && places[c].up == x)
      modifies `tree, `places, `spans
      ensures Valid() && |tree| == |old(tree)| && Parents(places) == old(Parents(places))
      ensures Whole(places, spans, x) && tree[x].p == places[x].up == old(places)[x].up
      ensures c == 0 ==> places[x].pos == |places[x].line| - 1
      ensures forall w :: Hanging(old(places), c, w) ==> MovedBelow(old(places), places, x, w)
      ensures OtherTrees(old(tree), tree, old(places), places, old(spans), spans, rank, x)
    {
      if c != 0 {
        UpRank(places, rank, c);
      }
      Splay(x);
      ghost var t1, g1, sh1 := tree, places, spans;
      SplayOtherTrees(old(tree), tree, places, old(spans), spans, rank, x);
      assert c != 0 ==> Fixed(old(tree), tree, old(spans), spans, c);
      Attach(x, c);
      OtherTreesTwice(old(tree), t1, tree, old(places), g1, places, old(spans), sh1, spans, rank, x, x);
    }

    /** The path from the represented root to v becomes one path, with nothing below v. */
    method Access(v: int)
      requires Valid() && InTree(tree, v)
      modifies `tree, `places, `spans
      ensures Valid() && |tree| == |old(tree)| && Parents(places) == old(Parents(places))
      ensures places[v].pos == |places[v].line| - 1 && places[v].up == 0
      ensures OtherTrees(old(tree), tree, old(places), places, old(spans), spans, rank, v)
    {
      var t := 0;
      var x := v;
      OtherTreesRefl(tree, places, spans, rank, v);
      while x != 0
        invariant Valid() && |tree| == |old(tree)| && Parents(places) == old(Parents(places))
        invariant x == 0 || (InTree(tree, x) && Root(x) == Root(v))
        invariant t == 0 ==> x == v
        invariant t != 0 ==> InTree(tree, t) && Whole(places, spans, t) && places[t].up == x
        invariant t != 0 ==> SameLine(places, v, t) && places[v].pos == |places[v].line| - 1
        invariant OtherTrees(old(tree), tree, old(places), places, old(spans), spans, rank, v)
        decreases if InTree(tree, x) then rank[x] + 1 else 0
      {
        ghost var t1, g1, sh1 := tree, places, spans;
        AccessRound(x, t);
        OtherTreesTwice(old(tree), t1, tree, old(places), g1, places, old(spans), sh1, spans, rank, v, x);
        assert t != 0 ==> MovedBelow(g1, places, x, v);
        if tree[x].p != 0 {
          UpRank(places, rank, x);
          UpSameRoot(places, rank, x);
        } else {
          assert PlaceOk(places, x);
        }
        t, x := x, tree[x].p;
      }
      SameLineFacts(places, v, t);
    }

    method MakeRoot(x: int)
      requires Valid() && InTree(tree, x)
      modifies `tree, `places, `spans, `rank
      ensures Valid() && |tree| == |old(tree)|
      ensures Root(x) == x && Whole(places, spans, x) && places[x].pos == 0 && places[x].up == 0
    {
      Access(x);
      Splay(x);
      ghost var t0 := tree;
      tree := tree[x := tree[x].(rev := !tree[x].rev)];
      TurnKeeps(t0, places, spans, x);
      TurnSums(t0, vals, places, spans, x);
      TurnedForest(edges, places, rank, x);
      spans, rank, places := MirroredSpans(places, spans, x), TurnedRank(places, rank, x), MirroredPlaces(places, x);
      ParentsInRange(places, x);
    }

    /** The walk of find_root down to the first node of x's path; no push_down on it does anything. */
    method Leftmost(x: int) returns (r: int)
      requires Stored() && InTree(tree, x) && Whole(places, spans, x) && !tree[x].rev && places[x].up == 0
      modifies `tree, `spans
      ensures tree == old(tree) && spans == old(spans)
      ensures InTree(tree, r) && SameLine(places, r, x) && places[r].pos == 0
    {
      r := x;
      WholeFlip(tree, places, spans, x);
      while tree[r].left != 0
        invariant tree == old(tree) && spans == old(spans)
        invariant InTree(tree, r) && SameLine(places, r, x)
        invariant places[r].up == 0 && spans[r].lo == 0 && !tree[r].rev && !spans[r].flip
        decreases Size(spans, r)
      {
        PushDown(r);
        SpanHolds(tree, places, spans, r);
        LeftChild(tree, places, spans, r);
        r := tree[r].left;
        SpanHolds(tree, places, spans, r);
      }
      NoLeftChild(tree, places, spans, r);
    }

    method FindRoot(x: int) returns (r: int)
      requires Valid() && InTree(tree, x)
      modifies `tree, `places, `spans
      ensures Valid() && |tree| == |old(tree)| && Parents(places) == old(Parents(places))
      ensures r == Root(x) && Whole(places, spans, r) && !tree[r].rev
      ensures OtherTrees(old(tree), tree, old(places), places, old(spans), spans, rank, x)
    {
      Access(x);
      ghost var t1, g1, sh1 := tree, places, spans;
      Splay(x);
      ghost var t2, sh2 := tree, spans;
      SplayOtherTrees(t1, t2, g1, sh1, sh2, rank, x);
      r := Leftmost(x);
      SameLineFacts(places, r, x);
      ParentsInRange(places, r);
      SameLineSameRoot(places, rank, r, x);
      Splay(r);
      SplayOtherTrees(t2, tree, places, sh2, spans, rank, r);
      OtherTreesTwice(old(tree), t1, t2, old(places), g1, g1, old(spans), sh1, sh2, rank, x, x);
      OtherTreesTwice(old(tree), t2, tree, old(places), g1, places, old(spans), sh2, spans, rank, x, r);
    }

    method SetVal(x: int, val: bv64)
      requires Valid() && InTree(tree, x)
      modifies `tree, `spans, `vals
      ensures Valid() && |tree| == |old(tree)|
      ensures vals == old(vals)[x := val]
    {
      Splay(x);
      ghost var t0 := tree;
      ChildrenInRange(tree, places, spans, x);
      tree := tree[x := tree[x].(val := val)];
      ghost var t1 := tree;
      PushUp(x);
      SetValKeeps(t0, t1, tree, vals, places, spans, x, val);
      vals := vals[x := val];
    }

    method GetVal(x: int) returns (val: bv64)
      requires Valid() && InTree(tree, x)
      modifies `tree, `spans
      ensures Valid() && |tree| == |old(tree)|
      ensures val == vals[x]
    {
      Splay(x);
      assert AggOk(tree, vals, places, spans, x);
      val := tree[x].val;
    }

    method IsConnected(x: int, y: int) returns (b: bool)
      requires Valid() && InTree(tree, x) && InTree(tree, y)
      modifies `tree, `places, `spans, `rank
      ensures Valid() && |tree| == |old(tree)|
      ensures b <==> Connected(edges, x, y)
    {
      ConnectedMeansSameRoot(edges, Parents(places), rank, x, y);
      if x == y {
        return true;
      }
      MakeRoot(x);
      var r := FindRoot(y);
      ConnectedMeansSameRoot(edges, Parents(places), rank, x, y);
      b := r == x;
    }

    /** tree_[x].p = y */
    method Hang(x: int, y: int)
      requires Valid() && CanHang(tree, places, spans, x, y) && Root(x) == x && Root(y) != x
      modifies `tree, `places, `rank, `edges
      ensures Valid() && |tree| == |old(tree)|
      ensures edges == old(edges) + {(x, y), (y, x)}
    {
      ghost var t0, g0 := tree, places;
      tree := tree[x := tree[x].(p := y)];
      HangAll(t0, vals, edges, g0, spans, rank, x, y);
      places, rank := HungPlaces(g0, x, y), HungRank(Parents(g0), rank, x, y);
      edges := edges + {(x, y), (y, x)};
    }

    /** tree_[y].ch[0] = 0; tree_[x].p = 0; push_up(y) */
    method Detach(x: int, y: int)
      requires Valid() && CanCut(tree, places, spans, x, y)
      modifies `tree, `places, `spans, `edges
      ensures Valid() && |tree| == |old(tree)|
      ensures edges == old(edges) - {(x, y), (y, x)}
    {
      ghost var t0, g0, sh0 := tree, places, spans;
      TwoNodes(tree, places, spans, x, y);
      tree := tree[y := tree[y].(left := 0)];
      tree := tree[x := tree[x].(p := 0)];
      PushUp(y);
      CutAll(t0, tree, vals, edges, g0, sh0, rank, x, y);
      places, spans := CutPlaces(g0, x, y), CutSpans(sh0, x, y);
      edges := edges - {(x, y), (y, x)};
    }

    /** Joins two trees by an edge; the program's assertion never fails. */
    method Link(x: int, y: int)
      requires Valid() && InTree(tree, x) && InTree(tree, y) && !Connected(edges, x, y)
      modifies `tree, `places, `spans, `rank, `edges
      ensures Valid() && |tree| == |old(tree)|
      ensures edges == old(edges) + {(x, y), (y, x)}
    {
      MakeRoot(x);
      ghost var t1, g1, sh1 := tree, places, spans;
      var r := FindRoot(y);
      ConnectedMeansSameRoot(edges, Parents(places), rank, x, y);
      assert r != x;
      assert Untouched(t1, tree, g1, places, sh1, spans, x);
      Hang(x, y);
    }

    /** Removes an edge; the program's assertion never fails. */
    method Cut(x: int, y: int)
      requires Valid() && InTree(tree, x) && InTree(tree, y) && (x, y) in edges
      modifies `tree, `places, `spans, `rank, `edges
      ensures Valid() && |tree| == |old(tree)|
      ensures edges == old(edges) - {(x, y), (y, x)}
    {
      MakeRoot(x);
      Access(y);
      Splay(y);
      assert Joined(Parents(places), x, y);
      JoinedSameRoot(Parents(places), rank, x, y);
      CutTest(tree, places, spans, edges, rank, x, y);
      assert tree[y].left == x && tree[x].right == 0;
      Detach(x, y);
    }

    /** Joins two trees by an edge, or refuses if that would close a cycle. */
    method TryLink(x: int, y: int) returns (b: bool)
      requires Valid() && InTree(tree, x) && InTree(tree, y)
      modifies `tree, `places, `spans, `rank, `edges
      ensures Valid() && |tree| == |old(tree)|
      ensures b <==> !Connected(old(edges), x, y)
      ensures edges == if b then old(edges) + {(x, y), (y, x)} else old(edges)
    {
      MakeRoot(x);
      ghost var t1, g1, sh1 := tree, places, spans;
      var r := FindRoot(y);
      ConnectedMeansSameRoot(edges, Parents(places), rank, x, y);
      if r == x {
        return false;
      }
      assert Untouched(t1, tree, g1, places, sh1, spans, x);
      Hang(x, y);
      b := true;
    }

    /** Removes an edge, or refuses if there is none. */
    method TryCut(x: int, y: int) returns (b: bool)
      requires Valid() && InTree(tree, x) && InTree(tree, y)
      modifies `tree, `places, `spans, `rank, `edges
      ensures Valid() && |tree| == |old(tree)|
      ensures b <==> (x, y) in old(edges)
      ensures edges == if b then old(edges) - {(x, y), (y, x)} else old(edges)
    {
      MakeRoot(x);
      var r := FindRoot(y);
      if r != x {
        NoEdgeBetweenTrees(edges, Parents(places), rank, x, y);
        return false;
      }
      Access(y);
      Splay(y);
      CutTest(tree, places, spans, edges, rank, x, y);
      if tree[y].left != x || tree[x].right != 0 {
        return false;
      }
      Detach(x, y);
      b := true;
    }

    /** The exclusive or of the values on the one simple path between two connected nodes. */
    method QueryPath(x: int, y: int) returns (sum: bv64)
      requires Valid() && InTree(tree, x) && InTree(tree, y)
      modifies `tree, `places, `spans, `rank
      ensures Valid() && |tree| == |old(tree)|
      ensures Connected(edges, x, y) ==>
                exists p :: IsSimplePath(edges, p, x, y) && sum == XorOf(vals, p)
                            && forall q :: IsSimplePath(edges, q, x, y) ==> q == p
    {
      MakeRoot(x);
      Access(y);
      Splay(y);
      sum := tree[y].agg;
      if Connected(edges, x, y) {
        ConnectedMeansSameRoot(edges, Parents(places), rank, x, y);
        PathAnswer(tree, vals, places, spans, edges, rank, x, y);
      }
    }
  }

  lemma {:induction false} BlankOk(n: nat, t: seq<Node>, vals: seq<bv64>, g: seq<Place>, sh: seq<Span>)
    requires |t| == |vals| == |g| == |sh| == n + 1
    requires forall v :: 0 <= v <= n ==> t[v] == Node(0, 0, 0, 0, 0, false) && vals[v] == 0
    requires forall v :: 0 <= v <= n ==> g[v] == Place([v], 0, 0) && sh[v] == Span(0, 1, false)
    ensures Shape(t, g, sh) && Sums(t, vals, g, sh)
  {
    forall v | 1 <= v <= n
      ensures PlaceOk(g, v) && LinkOk(t, g, sh, v)
      ensures AggOk(t, vals, g, sh, v)
    {
      forall i | 0 <= i < |g[v].line|
        ensures OnLine(g, g[v], i)
      {
      }
      XorOne(vals, v);
      assert g[v].line[0..1] == [v];
    }
  }

  lemma {:induction false} ChildrenInRange(t: seq<Node>, g: seq<Place>, sh: seq<Span>, x: int)
    requires Shape(t, g, sh) && InTree(t, x)
    ensures 0 <= t[x].left < |t| && 0 <= t[x].right < |t| && t[x].left != x && t[x].right != x
    ensures t[x].left != 0 ==> t[x].left != t[x].right
  {
    assert LinkOk(t, g, sh, x);
    assert ChildOk(t, g, sh, x, false) && ChildOk(t, g, sh, x, true);
    if t[x].left != 0 {
      ChildFacts(t, g, sh, x, t[x].left);
    }
    if t[x].right != 0 {
      ChildFacts(t, g, sh, x, t[x].right);
    }
  }

  lemma {:induction false} PushedBySteps(t: seq<Node>, swapped: seq<Node>, once: seq<Node>, twice: seq<Node>,
          t': seq<Node>, x: int)
    requires InTree(t, x) && 0 <= t[x].left < |t| && 0 <= t[x].right < |t| && t[x].left != x && t[x].right != x
    requires t[x].left != 0 ==> t[x].left != t[x].right
    requires swapped == t[x := t[x].(left := t[x].right, right := t[x].left)]
    requires once == if t[x].right != 0 then Toggled(swapped, t[x].right) else swapped
    requires twice == if t[x].left != 0 then Toggled(once, t[x].left) else once
    requires t' == twice[x := twice[x].(rev := false)]
    ensures Pushed(t, t', x)
  {
  }

  lemma {:induction false} IsRootIsChild(t: seq<Node>, y: int)
    requires InTree(t, y) && 0 <= t[y].p < |t|
    ensures IsRoot(t, y) <==> !IsChild(t, t[y].p, y)
  {
  }

  /** The nodes that rotate(x) touches are in range and distinct where it matters. */
  predicate Turnable(t: seq<Node>, x: int, y: int, z: int) {
    && InTree(t, x) && InTree(t, y) && x != y && 0 <= z < |t| && t[x].p == y && t[y].p == z
    && var k := t[y].right == x;
       var b := Child(t[x], !k);
       && 0 <= b < |t| && b != x && b != y
       && 0 <= Child(t[x], k) < |t| && Child(t[x], k) != x && Child(t[x], k) != y
       && 0 <= Child(t[y], !k) < |t| && Child(t[y], !k) != x && Child(t[y], !k) != y
       && (IsChild(t, z, y) ==> InTree(t, z) && z != x && z != y && z != b)
  }

  lemma {:induction false} RotateFacts(t: seq<Node>, g: seq<Place>, sh: seq<Span>, x: int)
    requires CanRotate(t, g, sh, x)
    ensures InTree(t, t[x].p) && Turnable(t, x, t[x].p, t[t[x].p].p)
  {
    IsLocal(t, g, sh, x);
    Above(t, g, sh, x);
  }

  /** The links after the assignments of rotate, before the two push_ups. */
  ghost predicate Relinked(t: seq<Node>, s: seq<Node>, x: int, y: int, z: int) {
    && InTree(t, x) && InTree(t, y) && 0 <= z < |t| == |s|
    && var k := t[y].right == x;
       var b := Child(t[x], !k);
       && s[x] == WithChild(t[x], !k, y).(p := z)
       && s[y] == WithChild(t[y], k, b).(p := x)
       && 0 <= b < |t|
       && (b != 0 ==> s[b] == t[b].(p := y))
       && (IsChild(t, z, y) ==> s[z] == WithChild(t[z], t[z].right == y, x))
       && forall v {:trigger s[v]} ::
              0 <= v < |t| && v != x && v != y && !(v == b && b != 0) && !(v == z && IsChild(t, z, y)) ==> s[v] == t[v]
  }

  lemma {:induction false} TurnedBySteps(t0: seq<Node>, t1: seq<Node>, t2: seq<Node>, t3: seq<Node>, t4: seq<Node>,
          t5: seq<Node>, x: int, y: int, z: int)
    requires Turnable(t0, x, y, z)
    requires var k := t0[y].right == x; var b := Child(t0[x], !k);
             && t1 == (if IsChild(t0, z, y) then t0[z := WithChild(t0[z], t0[z].right == y, x)] else t0)
             && t2 == t1[x := t1[x].(p := z)]
             && t3 == t2[y := WithChild(t2[y], k, Child(t2[x], !k))]
             && t4 == (if b != 0 then t3[b := t3[b].(p := y)] else t3)
             && t5 == t4[x := WithChild(t4[x], !k, y)][y := t4[y].(p := x)]
    ensures Relinked(t0, t5, x, y, z)
  {
  }

  lemma {:induction false} RotatedBySteps(t: seq<Node>, s: seq<Node>, s1: seq<Node>, t': seq<Node>, x: int, y: int,
          z: int)
    requires Relinked(t, s, x, y, z) && Turnable(t, x, y, z)
    requires |s1| == |s| && s1 == s[y := s[y].(agg := s1[y].agg)] && UpToDate(s1, y)
    requires |t'| == |s| && t' == s1[x := s1[x].(agg := t'[x].agg)] && UpToDate(t', x)
    ensures Rotated(t, t', x, y, z)
  {
  }

  lemma {:induction false} KidsInRange(t: seq<Node>, s: seq<Node>, x: int, y: int, z: int)
    requires Turnable(t, x, y, z) && Relinked(t, s, x, y, z)
    ensures 0 <= s[y].left < |s| && 0 <= s[y].right < |s| && s[y].left != y && s[y].right != y
    ensures 0 <= s[x].left < |s| && 0 <= s[x].right < |s| && s[x].left != x && s[x].right != x
  {
  }

  lemma {:induction false} ChainStarts(t: seq<Node>, g: seq<Place>, sh: seq<Span>, x: int)
    requires |t| == |g| == |sh| && InTree(t, x)
    ensures Chain(t, g, sh, [x], x)
  {
    assert ChainAt(t, g, sh, [x], 0);
  }

  lemma {:induction false} SizeFits(t: seq<Node>, g: seq<Place>, sh: seq<Span>, stk: seq<int>, x: int)
    requires Shape(t, g, sh) && Chain(t, g, sh, stk, x)
    ensures InTree(t, x) && InTree(t, stk[|stk| - 1]) && Size(sh, stk[|stk| - 1]) <= |g[x].line|
  {
    assert ChainAt(t, g, sh, stk, 0) && ChainAt(t, g, sh, stk, |stk| - 1);
    assert LinkOk(t, g, sh, stk[|stk| - 1]);
  }

  lemma {:induction false} FixedRefl(t: seq<Node>, g: seq<Place>, sh: seq<Span>, x: int)
    requires 0 <= x < |t| == |g| == |sh|
    ensures FixedOff(t, t, g, sh, sh, x)
  {
  }

  /** w is now on x's path, as far from its end as it was from the end of its own. */
  predicate MovedBelow(g: seq<Place>, g': seq<Place>, x: int, w: int) {
    && 0 <= w < |g| == |g'| && SameLine(g', w, x)
    && |g'[w].line| - g'[w].pos == |g[w].line| - g[w].pos
  }

  lemma {:induction false} SplicedEnds(t: seq<Node>, t': seq<Node>, g: seq<Place>, g': seq<Place>, sh: seq<Span>,
          sh': seq<Span>, x: int, c: int)
    requires Splice(t, t', g, g', sh, sh', x, c)
    ensures Whole(g', sh', x) && t'[x].p == g'[x].up == g[x].up
    ensures c == 0 ==> g'[x].pos == |g'[x].line| - 1
    ensures forall w :: Hanging(g, c, w) ==> MovedBelow(g, g', x, w)
  {
    assert PlaceOk(g, x) && LinkOk(t, g, sh, x);
    forall w | Hanging(g, c, w)
      ensures MovedBelow(g, g', x, w)
    {
    }
  }

  lemma {:induction false} SpliceAll(vals: seq<bv64>, t: seq<Node>, t': seq<Node>, g: seq<Place>, g': seq<Place>,
          sh: seq<Span>, sh': seq<Span>, rank: seq<nat>, x: int, c: int)
    requires CanSplice(t, g, sh, x, c) && Sums(t, vals, g, sh) && Acyclic(Parents(g), rank)
    requires g' == SplicedPlaces(g, x, c) && sh' == SplicedSpans(g, sh, x, c)
    requires |t'| == |t| && t' == t[x := t[x].(right := c, agg := t'[x].agg)] && UpToDate(t', x)
    ensures Shape(t', g', sh') && Sums(t', vals, g', sh') && Parents(g') == Parents(g)
    ensures Whole(g', sh', x) && t'[x].p == g'[x].up == g[x].up
    ensures c == 0 ==> g'[x].pos == |g'[x].line| - 1
    ensures forall w :: Hanging(g, c, w) ==> MovedBelow(g, g', x, w)
    ensures OtherTrees(t, t', g, g', sh, sh', rank, x)
  {
    assert Spliced(t, t', x, c);
    SpliceKeeps(t, t', g, g', sh, sh', x, c);
    SpliceSums(vals, t, t', g, g', sh, sh', x, c);
    SpliceOtherTrees(t, t', g, g', sh, sh', rank, x, c);
    SplicedEnds(t, t', g, g', sh, sh', x, c);
  }

  lemma {:induction false} WholeFlip(t: seq<Node>, g: seq<Place>, sh: seq<Span>, x: int)
    requires Shape(t, g, sh) && InTree(t, x) && Whole(g, sh, x) && !t[x].rev
    ensures !sh[x].flip && sh[x].lo == 0
  {
    assert LinkOk(t, g, sh, x);
  }

  /** On the way down the left edge of a path that starts at a represented root nothing is pending. */
  lemma {:induction false} LeftChild(t: seq<Node>, g: seq<Place>, sh: seq<Span>, r: int)
    requires Shape(t, g, sh) && InTree(t, r) && t[r].left != 0
    requires sh[r].lo == 0 && g[r].up == 0 && !t[r].rev && !sh[r].flip
    ensures InTree(t, t[r].left) && SameLine(g, t[r].left, r)
    ensures sh[t[r].left].lo == 0 && !t[t[r].left].rev && !sh[t[r].left].flip && g[t[r].left].up == 0
    ensures Size(sh, t[r].left) < Size(sh, r)
  {
    var c := t[r].left;
    ChildFacts(t, g, sh, r, c);
    assert LinkOk(t, g, sh, c);
    SameLineFacts(g, c, r);
  }

  lemma {:induction false} NoLeftChild(t: seq<Node>, g: seq<Place>, sh: seq<Span>, r: int)
    requires Shape(t, g, sh) && InTree(t, r) && t[r].left == 0 && sh[r].lo == 0 && !sh[r].flip
    ensures g[r].pos == 0
  {
    assert LinkOk(t, g, sh, r) && ChildOk(t, g, sh, r, false);
  }

  lemma {:induction false} XorUnaffected(vals: seq<bv64>, x: int, val: bv64, s: seq<int>, n: int)
    requires 0 <= x < |vals| && n <= |s| && forall i :: 0 <= i < n ==> s[i] != x
    ensures XorFirst(vals[x := val], s, n) == XorFirst(vals, s, n)
    decreases n
  {
    if n > 0 {
      XorUnaffected(vals, x, val, s, n - 1);
    }
  }

  /** No other node's stretch contains the splay root. */
  lemma {:induction false} NotInStretch(t: seq<Node>, g: seq<Place>, sh: seq<Span>, x: int, v: int, i: int)
    requires Shape(t, g, sh) && InTree(t, x) && Whole(g, sh, x) && InTree(t, v) && v != x
    requires SpanOk(g, sh, v) && sh[v].lo <= i < sh[v].hi
    ensures g[v].line[i] != x
  {
    NodeAt(g, v, i);
    if SameLine(g, v, x) {
      BesideRoot(t, g, sh, x, v);
    }
  }

  lemma {:induction false} StretchWithout(t: seq<Node>, vals: seq<bv64>, g: seq<Place>, sh: seq<Span>, x: int,
          val: bv64, v: int, s: seq<int>)
    requires Shape(t, g, sh) && InTree(t, x) && Whole(g, sh, x) && InTree(t, v) && v != x && |vals| == |t|
    requires SpanOk(g, sh, v) && s == g[v].line[sh[v].lo..sh[v].hi]
    ensures XorOf(vals[x := val], s) == XorOf(vals, s)
  {
    forall i | 0 <= i < |s|
      ensures s[i] != x
    {
      NotInStretch(t, g, sh, x, v, sh[v].lo + i);
    }
    XorUnaffected(vals, x, val, s, |s|);
  }

  lemma {:induction false} SetValLinks(t: seq<Node>, t': seq<Node>, g: seq<Place>, sh: seq<Span>)
    requires Shape(t, g, sh) && |t'| == |t|
    requires forall w :: 0 <= w < |t| ==> t'[w] == t[w].(val := t'[w].val, agg := t'[w].agg)
    ensures Shape(t', g, sh)
  {
    forall v | InTree(t', v)
      ensures LinkOk(t', g, sh, v)
    {
      assert LinkOk(t, g, sh, v);
      SameLinks(t, t', g, sh, v);
    }
  }

  lemma {:induction false} SetValSums(t: seq<Node>, t': seq<Node>, vals: seq<bv64>, g: seq<Place>, sh: seq<Span>,
          x: int, val: bv64)
    requires Shape(t, g, sh) && Sums(t, vals, g, sh) && InTree(t, x) && Whole(g, sh, x)
    requires |t'| == |t| && t' == t[x := t'[x]]
    ensures forall v :: InTree(t', v) && v != x ==> AggOk(t', vals[x := val], g, sh, v)
  {
    forall v | InTree(t', v) && v != x
      ensures AggOk(t', vals[x := val], g, sh, v)
    {
      assert AggOk(t, vals, g, sh, v);
      StretchWithout(t, vals, g, sh, x, val, v, g[v].line[sh[v].lo..sh[v].hi]);
    }
  }

  lemma {:induction false} SetValKeeps(t: seq<Node>, t1: seq<Node>, t': seq<Node>, vals: seq<bv64>, g: seq<Place>,
          sh: seq<Span>, x: int, val: bv64)
    requires Shape(t, g, sh) && Sums(t, vals, g, sh) && InTree(t, x) && Whole(g, sh, x)
    requires t1 == t[x := t[x].(val := val)]
    requires |t'| == |t1| && t' == t1[x := t1[x].(agg := t'[x].agg)] && UpToDate(t', x)
    ensures Shape(t', g, sh) && Sums(t', vals[x := val], g, sh)
  {
    SetValLinks(t, t', g, sh);
    SetValSums(t, t', vals, g, sh, x, val);
    ChildrenInRange(t', g, sh, x);
    LastSum(t', vals[x := val], g, sh, x);
  }

  lemma {:induction false} LastSum(t: seq<Node>, vals: seq<bv64>, g: seq<Place>, sh: seq<Span>, x: int)
    requires Shape(t, g, sh) && InTree(t, x) && |vals| == |t| && t[0].agg == 0 && t[x].val == vals[x] && UpToDate(t, x)
    requires t[x].left != x && t[x].right != x
    requires forall v :: InTree(t, v) && v != x ==> AggOk(t, vals, g, sh, v)
    ensures Sums(t, vals, g, sh)
  {
    assert LinkOk(t, g, sh, x) && PlaceOk(g, x);
    assert ChildOk(t, g, sh, x, false) && ChildOk(t, g, sh, x, true);
    UpToDateOk(t, vals, g, sh, x);
  }

  lemma {:induction false} SameLinks(t: seq<Node>, t': seq<Node>, g: seq<Place>, sh: seq<Span>, v: int)
    requires LinkOk(t, g, sh, v) && |t'| == |t|
    requires forall w :: 0 <= w < |t| ==> t'[w] == t[w].(val := t'[w].val, agg := t'[w].agg)
    ensures LinkOk(t', g, sh, v)
  {
  }

  lemma {:induction false} HungParents(g: seq<Place>, x: int, y: int)
    requires 1 <= x < |g|
    requires forall v :: 1 <= v < |g| && v != x ==> Par(HungPlaces(g, x, y), v) == Par(g, v)
    requires Par(HungPlaces(g, x, y), x) == y
    ensures Parents(HungPlaces(g, x, y)) == Parents(g)[x := y]
  {
    assert forall v :: 0 <= v < |g| ==> Parents(HungPlaces(g, x, y))[v] == Parents(g)[x := y][v];
  }

  lemma {:induction false} CutParents(g: seq<Place>, x: int, y: int)
    requires 1 <= x < |g| && 1 <= y < |g| && x != y && g[x] == Place([x, y], 0, 0) && g[y] == Place([x, y], 1, 0)
    ensures Parents(CutPlaces(g, x, y)) == Parents(g)[y := 0] && Parents(g)[x] == 0 && Parents(g)[y] == x
  {
    assert forall v :: 0 <= v < |g| ==> Parents(CutPlaces(g, x, y))[v] == Parents(g)[y := 0][v];
  }

  lemma {:induction false} NoEdgeBetweenTrees(edges: Edges, par: seq<int>, rank: seq<nat>, x: int, y: int)
    requires Acyclic(par, rank) && Represents(edges, par) && 1 <= x < |par| && 1 <= y < |par|
    requires RootOf(par, rank, x) != RootOf(par, rank, y)
    ensures (x, y) !in edges
  {
    if Joined(par, x, y) {
      JoinedSameRoot(par, rank, x, y);
    }
  }

  /** The first node of a path that starts at a represented root is that root. */
  lemma {:induction false} FirstOfLine(g: seq<Place>, rank: seq<nat>, y: int)
    requires PlacesOk(g) && Acyclic(Parents(g), rank) && 1 <= y < |g| && g[y].up == 0
    ensures |g[y].line| > 0 && g[y].line[0] == RootOf(Parents(g), rank, y)
  {
    assert PlaceOk(g, y);
    NodeAt(g, y, 0);
    ParentsInRange(g, g[y].line[0]);
    SameLineSameRoot(g, rank, g[y].line[0], y);
  }

  /** The program's test for an edge between the root x and the end y of its path. */
  lemma {:induction false} CutTest(t: seq<Node>, g: seq<Place>, sh: seq<Span>, edges: Edges, rank: seq<nat>, x: int,
          y: int)
    requires Shape(t, g, sh) && Acyclic(Parents(g), rank) && Represents(edges, Parents(g))
    requires InTree(t, x) && InTree(t, y) && RootOf(Parents(g), rank, x) == x == RootOf(Parents(g), rank, y)
    requires Whole(g, sh, y) && !t[y].rev && g[y].up == 0 && g[y].pos == |g[y].line| - 1
    ensures t[y].left == x && t[x].right == 0 <==> (x, y) in edges
    ensures t[y].left == x && t[x].right == 0 ==> CanCut(t, g, sh, x, y)
  {
    FirstOfLine(g, rank, y);
    NodeAt(g, y, 0);
    assert PlaceOk(g, y);
    ParentsInRange(g, x);
    ParentsInRange(g, y);
    assert (x, y) in edges <==> Joined(Parents(g), x, y);
    if t[y].left == x && t[x].right == 0 {
      AdjacentInTree(t, g, sh, x, y);
      assert g[y].line == [x, y];
    }
    if (x, y) in edges {
      assert Par(g, y) == x;
      if g[y].pos > 1 {
        NodeAt(g, y, g[y].pos - 1);
      }
      AdjacentOnLine(t, g, sh, x, y);
    }
  }

  lemma {:induction false} AdjacentInTree(t: seq<Node>, g: seq<Place>, sh: seq<Span>, x: int, y: int)
    requires Shape(t, g, sh) && InTree(t, x) && InTree(t, y) && SameLine(g, x, y) && g[x].pos == 0 && g[x].up == 0
    requires Whole(g, sh, y) && !t[y].rev && t[y].left == x && t[x].right == 0
    ensures g[y].pos == 1
  {
    ChildFacts(t, g, sh, y, x);
    assert LinkOk(t, g, sh, x) && LinkOk(t, g, sh, y);
    assert ChildOk(t, g, sh, x, true) && ChildOk(t, g, sh, y, false);
  }

  lemma {:induction false} AdjacentOnLine(t: seq<Node>, g: seq<Place>, sh: seq<Span>, x: int, y: int)
    requires Shape(t, g, sh) && InTree(t, x) && InTree(t, y) && SameLine(g, x, y) && g[x].pos == 0 && g[x].up == 0
    requires Whole(g, sh, y) && !t[y].rev && g[y].pos == 1
    ensures t[y].left == x && t[x].right == 0
  {
    assert LinkOk(t, g, sh, y) && ChildOk(t, g, sh, y, false);
    var c := t[y].left;
    ChildFacts(t, g, sh, y, c);
    SameLineFacts(g, c, x);
    assert LinkOk(t, g, sh, x) && ChildOk(t, g, sh, x, true);
  }

  lemma {:induction false} HangAll(t: seq<Node>, vals: seq<bv64>, edges: Edges, g: seq<Place>, sh: seq<Span>,
          rank: seq<nat>, x: int, y: int)
    requires CanHang(t, g, sh, x, y) && Sums(t, vals, g, sh) && Acyclic(Parents(g), rank)
    requires Represents(edges, Parents(g))
    requires RootOf(Parents(g), rank, x) == x && RootOf(Parents(g), rank, y) != x
    ensures var g' := HungPlaces(g, x, y);
            && Shape(Hung(t, x, y), g', sh) && Sums(Hung(t, x, y), vals, g', sh)
            && Acyclic(Parents(g'), HungRank(Parents(g), rank, x, y))
            && Represents(edges + {(x, y), (y, x)}, Parents(g'))
  {
    HangKeeps(t, g, sh, x, y);
    HangSums(t, vals, g, sh, x, y);
    HungParents(g, x, y);
    HungForest(edges, Parents(g), rank, x, y);
  }

  lemma {:induction false} CutAll(t: seq<Node>, t': seq<Node>, vals: seq<bv64>, edges: Edges, g: seq<Place>,
          sh: seq<Span>, rank: seq<nat>, x: int, y: int)
    requires CanCut(t, g, sh, x, y) && Sums(t, vals, g, sh) && Acyclic(Parents(g), rank)
    requires Represents(edges, Parents(g))
    requires |t'| == |t| && UpToDate(t', y)
    requires t' == t[y := t[y].(left := 0)][x := t[x].(p := 0)][y := t[y].(left := 0, agg := t'[y].agg)]
    ensures var g', sh' := CutPlaces(g, x, y), CutSpans(sh, x, y);
            && Shape(t', g', sh') && Sums(t', vals, g', sh')
            && Acyclic(Parents(g'), rank) && Represents(edges - {(x, y), (y, x)}, Parents(g'))
  {
    TwoNodes(t, g, sh, x, y);
    assert CutOff(t, t', x, y);
    CutKeeps(t, t', g, sh, x, y);
    CutSums(t, t', vals, g, sh, x, y);
    CutParents(g, x, y);
    CutForest(edges, Parents(g), rank, x, y);
  }

  /** y's path, when it starts at x and ends at y, is the one simple path between them. */
  lemma {:induction false} PathAnswer(t: seq<Node>, vals: seq<bv64>, g: seq<Place>, sh: seq<Span>, edges: Edges,
          rank: seq<nat>, x: int, y: int)
    requires PlacesOk(g) && Sums(t, vals, g, sh) && Acyclic(Parents(g), rank) && Represents(edges, Parents(g))
    requires InTree(t, y) && |t| == |g| == |sh| && Whole(g, sh, y) && g[y].pos == |g[y].line| - 1 && g[y].up == 0
    requires RootOf(Parents(g), rank, y) == x
    ensures IsSimplePath(edges, g[y].line, x, y) && t[y].agg == XorOf(vals, g[y].line)
    ensures forall q :: IsSimplePath(edges, q, x, y) ==> q == g[y].line
  {
    assert AggOk(t, vals, g, sh, y);
    var line := g[y].line;
    FirstOfLine(g, rank, y);
    LineDescends(g, y);
    assert PlaceOk(g, y);
    OneSimplePath(edges, Parents(g), rank, line, x, y);
    assert line[0..|line|] == line;
  }
}
