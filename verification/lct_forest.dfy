/**
 The represented forest: an undirected graph, the rooted view of it that the paths encode, and
 the relation between the two.
 */
module LctForest {
  import opened LctState
  import opened LctAccess
  import opened LctEdges
  import opened LctSplay

  // ----- undirected graphs

  type Edges = set<(int, int)>

  predicate EdgeAt(edges: Edges, p: seq<int>, i: int) {
    0 <= i && i + 1 < |p| && (p[i], p[i + 1]) in edges
  }

  ghost predicate IsWalk(edges: Edges, p: seq<int>, x: int, y: int) {
    && |p| > 0 && p[0] == x && p[|p| - 1] == y
    && forall i :: 0 <= i < |p| - 1 ==> EdgeAt(edges, p, i)
  }

  ghost predicate Connected(edges: Edges, x: int, y: int) {
    exists p :: IsWalk(edges, p, x, y)
  }

  predicate DifferAt(p: seq<int>, i: int, j: int) {
    0 <= i < |p| && 0 <= j < |p| && p[i] != p[j]
  }

  ghost predicate IsSimplePath(edges: Edges, p: seq<int>, x: int, y: int) {
    && IsWalk(edges, p, x, y)
    && forall i, j :: 0 <= i < j < |p| ==> DifferAt(p, i, j)
  }

  // ----- rooted forests

  predicate RankedAt(par: seq<int>, rank: seq<nat>, v: int) {
    0 <= v < |par| == |rank| && 0 <= par[v] < |par| && (par[v] != 0 ==> rank[par[v]] < rank[v])
  }

  /** Parents are nodes or 0, and following them ends. */
  ghost predicate Acyclic(par: seq<int>, rank: seq<nat>) {
    0 < |par| == |rank| && forall v :: 1 <= v < |par| ==> RankedAt(par, rank, v)
  }

  ghost function RootOf(par: seq<int>, rank: seq<nat>, v: int): (r: int)
    requires Acyclic(par, rank) && 1 <= v < |par|
    ensures 1 <= r < |par| && par[r] == 0
    decreases rank[v]
  {
    assert RankedAt(par, rank, v);
    if par[v] == 0 then v else RootOf(par, rank, par[v])
  }

  predicate Joined(par: seq<int>, u: int, v: int) {
    1 <= u < |par| && 1 <= v < |par| && (par[u] == v || par[v] == u)
  }

  /** The graph has exactly the edges between nodes and their parents. */
  ghost predicate Represents(edges: Edges, par: seq<int>) {
    forall u, v :: (u, v) in edges <==> Joined(par, u, v)
  }

  lemma {:induction false} JoinedSameRoot(par: seq<int>, rank: seq<nat>, u: int, v: int)
    requires Acyclic(par, rank) && Joined(par, u, v)
    ensures RootOf(par, rank, u) == RootOf(par, rank, v)
  {
    assert RankedAt(par, rank, u) && RankedAt(par, rank, v);
  }

  lemma {:induction false} WalkSameRoot(edges: Edges, par: seq<int>, rank: seq<nat>, p: seq<int>, x: int, y: int)
    requires Acyclic(par, rank) && Represents(edges, par) && IsWalk(edges, p, x, y) && 1 <= x < |par|
    ensures 1 <= y < |par| && RootOf(par, rank, x) == RootOf(par, rank, y)
    decreases |p|
  {
    if |p| > 1 {
      var q, w := p[..|p| - 1], p[|p| - 2];
      forall i | 0 <= i < |q| - 1
        ensures EdgeAt(edges, q, i)
      {
        assert EdgeAt(edges, p, i);
      }
      WalkSameRoot(edges, par, rank, q, x, w);
      assert EdgeAt(edges, p, |p| - 2);
      JoinedSameRoot(par, rank, w, y);
    }
  }

  lemma {:induction false} WalkUp(edges: Edges, par: seq<int>, rank: seq<nat>, v: int) returns (p: seq<int>)
    requires Acyclic(par, rank) && Represents(edges, par) && 1 <= v < |par|
    ensures IsWalk(edges, p, v, RootOf(par, rank, v))
    decreases rank[v]
  {
    assert RankedAt(par, rank, v);
    if par[v] == 0 {
      p := [v];
    } else {
      var q := WalkUp(edges, par, rank, par[v]);
      p := [v] + q;
      assert Joined(par, v, par[v]);
      forall i | 0 <= i < |p| - 1
        ensures EdgeAt(edges, p, i)
      {
        assert i > 0 ==> EdgeAt(edges, q, i - 1);
      }
    }
  }

  lemma {:induction false} WalkBack(edges: Edges, par: seq<int>, p: seq<int>, x: int, y: int)
    requires Represents(edges, par) && IsWalk(edges, p, x, y)
    ensures IsWalk(edges, Reverse(p), y, x)
  {
    var r := Reverse(p);
    forall i | 0 <= i < |r| - 1
      ensures EdgeAt(edges, r, i)
    {
      var j := |p| - 2 - i;
      assert EdgeAt(edges, p, j);
      assert Joined(par, p[j], p[j + 1]);
      assert Joined(par, p[j + 1], p[j]);
    }
  }

  lemma {:induction false} WalkOn(edges: Edges, p: seq<int>, q: seq<int>, x: int, y: int, z: int)
    requires IsWalk(edges, p, x, y) && IsWalk(edges, q, y, z)
    ensures IsWalk(edges, p + q[1..], x, z)
  {
    var r := p + q[1..];
    forall i | 0 <= i < |r| - 1
      ensures EdgeAt(edges, r, i)
    {
      if i < |p| - 1 {
        assert EdgeAt(edges, p, i);
      } else {
        assert EdgeAt(edges, q, i - |p| + 1);
      }
    }
  }

  /** Two nodes are connected exactly if they have the same root. */
  lemma {:induction false} ConnectedMeansSameRoot(edges: Edges, par: seq<int>, rank: seq<nat>, x: int, y: int)
    requires Acyclic(par, rank) && Represents(edges, par) && 1 <= x < |par| && 1 <= y < |par|
    ensures Connected(edges, x, y) <==> RootOf(par, rank, x) == RootOf(par, rank, y)
  {
    if Connected(edges, x, y) {
      var p :| IsWalk(edges, p, x, y);
      WalkSameRoot(edges, par, rank, p, x, y);
    }
    if RootOf(par, rank, x) == RootOf(par, rank, y) {
      var p := WalkUp(edges, par, rank, x);
      var q := WalkUp(edges, par, rank, y);
      var r := RootOf(par, rank, x);
      WalkBack(edges, par, q, y, r);
      WalkOn(edges, p, Reverse(q), x, r, y);
    }
  }

  // ----- the path below a root

  predicate StepsDown(par: seq<int>, p: seq<int>, i: int) {
    0 <= i && i + 1 < |p| && 1 <= p[i] < |par| && 1 <= p[i + 1] < |par| && par[p[i + 1]] == p[i]
  }

  /** Each node of p is the parent of the next. */
  ghost predicate Descends(par: seq<int>, p: seq<int>) {
    && |p| > 0 && 1 <= p[0] < |par|
    && forall i :: 0 <= i < |p| - 1 ==> StepsDown(par, p, i)
  }

  /** A simple path that starts at a root only goes down. */
  lemma {:induction false} SimplePathDescends(edges: Edges, par: seq<int>, p: seq<int>, x: int, y: int, i: int)
    requires Represents(edges, par) && IsSimplePath(edges, p, x, y) && 1 <= x < |par| && par[x] == 0
    requires 0 <= i < |p| - 1
    ensures StepsDown(par, p, i)
    decreases i
  {
    assert EdgeAt(edges, p, i);
    assert Joined(par, p[i], p[i + 1]);
    if i > 0 {
      SimplePathDescends(edges, par, p, x, y, i - 1);
      assert DifferAt(p, i - 1, i + 1);
    }
  }

  lemma {:induction false} PathUnique(par: seq<int>, p: seq<int>, q: seq<int>)
    requires Descends(par, p) && Descends(par, q) && p[|p| - 1] == q[|q| - 1]
    requires par[p[0]] == 0 && par[q[0]] == 0
    ensures p == q
    decreases |p|
  {
    var m, n := |p| - 1, |q| - 1;
    if m > 0 {
      assert StepsDown(par, p, m - 1);
    }
    if n > 0 {
      assert StepsDown(par, q, n - 1);
    }
    if m > 0 && n > 0 {
      forall i | 0 <= i < m - 1
        ensures StepsDown(par, p[..m], i)
      {
        assert StepsDown(par, p, i);
      }
      forall i | 0 <= i < n - 1
        ensures StepsDown(par, q[..n], i)
      {
        assert StepsDown(par, q, i);
      }
      PathUnique(par, p[..m], q[..n]);
      assert p == p[..m] + [p[m]] && q == q[..n] + [q[n]];
    }
  }

  /** Ranks grow along a path that goes down, so it is simple. */
  lemma {:induction false} DescentRanks(par: seq<int>, rank: seq<nat>, p: seq<int>, i: int, j: int)
    requires Acyclic(par, rank) && Descends(par, p) && 0 <= i < j < |p|
    ensures 1 <= p[i] < |par| && 1 <= p[j] < |par| && rank[p[i]] < rank[p[j]]
    decreases j
  {
    assert StepsDown(par, p, j - 1) && RankedAt(par, rank, p[j]);
    if i < j - 1 {
      DescentRanks(par, rank, p, i, j - 1);
    }
  }

  /** From a root there is exactly one simple path to every node below it. */
  lemma {:induction false} OneSimplePath(edges: Edges, par: seq<int>, rank: seq<nat>, p: seq<int>, x: int, y: int)
    requires Acyclic(par, rank) && Represents(edges, par) && Descends(par, p)
    requires x == p[0] && y == p[|p| - 1] && par[x] == 0
    ensures forall q :: IsSimplePath(edges, q, x, y) <==> q == p
  {
    forall i | 0 <= i < |p| - 1
      ensures EdgeAt(edges, p, i)
    {
      assert StepsDown(par, p, i);
      assert Joined(par, p[i], p[i + 1]);
    }
    forall i, j | 0 <= i < j < |p|
      ensures DifferAt(p, i, j)
    {
      DescentRanks(par, rank, p, i, j);
    }
    forall q | IsSimplePath(edges, q, x, y)
      ensures q == p
    {
      forall i | 0 <= i < |q| - 1
        ensures StepsDown(par, q, i)
      {
        SimplePathDescends(edges, par, q, x, y, i);
      }
      PathUnique(par, q, p);
    }
  }

  // ----- paths of the link-cut tree

  function Parents(g: seq<Place>): (par: seq<int>)
    ensures |par| == |g|
  {
    seq(|g|, v requires 0 <= v < |g| => Par(g, v))
  }

  lemma {:induction false} ParentsInRange(g: seq<Place>, v: int)
    requires PlacesOk(g) && 1 <= v < |g|
    ensures 0 <= Par(g, v) < |g| && Parents(g)[v] == Par(g, v)
    ensures Par(g, v) == 0 <==> g[v].pos == 0 && g[v].up == 0
  {
    assert PlaceOk(g, v);
    if g[v].pos > 0 {
      NodeAt(g, v, g[v].pos - 1);
    }
  }

  /** A path goes down node by node. */
  lemma {:induction false} LineDescends(g: seq<Place>, v: int)
    requires PlacesOk(g) && 1 <= v < |g|
    ensures Descends(Parents(g), g[v].line)
    ensures Parents(g)[g[v].line[0]] == g[v].up
  {
    assert PlaceOk(g, v);
    NodeAt(g, v, 0);
    forall i | 0 <= i < |g[v].line| - 1
      ensures StepsDown(Parents(g), g[v].line, i)
    {
      NodeAt(g, v, i);
      NodeAt(g, v, i + 1);
    }
  }

  /** The parent of a path's first node has a smaller rank than every node on the path. */
  lemma {:induction false} UpRank(g: seq<Place>, rank: seq<nat>, v: int)
    requires PlacesOk(g) && Acyclic(Parents(g), rank) && 1 <= v < |g| && g[v].up != 0
    ensures 1 <= g[v].up < |g| && rank[g[v].up] < rank[v] && g[g[v].up].line != g[v].line
  {
    LineDescends(g, v);
    assert PlaceOk(g, v);
    var first := g[v].line[0];
    assert RankedAt(Parents(g), rank, first);
    if g[v].pos > 0 {
      DescentRanks(Parents(g), rank, g[v].line, 0, g[v].pos);
    }
    var u := g[v].up;
    assert PlaceOk(g, u);
    if g[u].line == g[v].line && g[u].pos > 0 {
      DescentRanks(Parents(g), rank, g[u].line, 0, g[u].pos);
    }
  }

  lemma {:induction false} RootOfLine(g: seq<Place>, rank: seq<nat>, v: int, i: int)
    requires PlacesOk(g) && Acyclic(Parents(g), rank) && 1 <= v < |g| && 0 <= i < |g[v].line|
    ensures 1 <= g[v].line[0] < |g| && 1 <= g[v].line[i] < |g|
    ensures RootOf(Parents(g), rank, g[v].line[i]) == RootOf(Parents(g), rank, g[v].line[0])
    decreases i
  {
    NodeAt(g, v, i);
    NodeAt(g, v, 0);
    if i > 0 {
      RootOfLine(g, rank, v, i - 1);
      LineDescends(g, v);
      assert StepsDown(Parents(g), g[v].line, i - 1);
      JoinedSameRoot(Parents(g), rank, g[v].line[i], g[v].line[i - 1]);
    }
  }

  /** All nodes of a path are in the same tree, and so is the node the path hangs below. */
  lemma {:induction false} SameLineSameRoot(g: seq<Place>, rank: seq<nat>, u: int, v: int)
    requires PlacesOk(g) && Acyclic(Parents(g), rank) && SameLine(g, u, v)
    ensures RootOf(Parents(g), rank, u) == RootOf(Parents(g), rank, v)
  {
    assert PlaceOk(g, u) && PlaceOk(g, v);
    RootOfLine(g, rank, v, g[u].pos);
    RootOfLine(g, rank, v, g[v].pos);
  }

  lemma {:induction false} UpSameRoot(g: seq<Place>, rank: seq<nat>, v: int)
    requires PlacesOk(g) && Acyclic(Parents(g), rank) && 1 <= v < |g| && g[v].up != 0
    ensures 1 <= g[v].up < |g|
    ensures RootOf(Parents(g), rank, g[v].up) == RootOf(Parents(g), rank, v)
  {
    assert PlaceOk(g, v);
    LineDescends(g, v);
    RootOfLine(g, rank, v, g[v].pos);
    JoinedSameRoot(Parents(g), rank, g[v].line[0], g[v].up);
  }

  // ----- how the steps change the forest

  /** Turning the path of a root round changes parents, not edges; its last node becomes the root. */
  lemma {:induction false} TurnedParent(g: seq<Place>, x: int, v: int)
    requires PlacesOk(g) && 1 <= x < |g| && g[x].up == 0 && 1 <= v < |g|
    ensures var line, q := g[v].line, Par(MirroredPlaces(g, x), v);
            if SameLine(g, v, x) then
              0 <= g[v].pos < |line| && line[g[v].pos] == v
              && q == if g[v].pos + 1 < |line| then line[g[v].pos + 1] else 0
            else q == Par(g, v)
  {
    assert PlaceOk(g, v);
    if SameLine(g, v, x) {
      SameLineFacts(g, v, x);
      assert g[v].pos + 1 < |g[v].line| ==> Reverse(g[v].line)[|g[v].line| - 2 - g[v].pos] == g[v].line[g[v].pos + 1];
    }
  }

  lemma {:induction false} TurnedJoined(g: seq<Place>, x: int, u: int, v: int)
    requires PlacesOk(g) && 1 <= x < |g| && g[x].up == 0
    ensures Joined(Parents(MirroredPlaces(g, x)), u, v) <==> Joined(Parents(g), u, v)
  {
    if 1 <= u < |g| && 1 <= v < |g| {
      TurnedJoinedOneWay(g, x, u, v);
      TurnedJoinedOneWay(g, x, v, u);
    }
  }

  lemma {:induction false} TurnedJoinedOneWay(g: seq<Place>, x: int, u: int, v: int)
    requires PlacesOk(g) && 1 <= x < |g| && g[x].up == 0 && 1 <= u < |g| && 1 <= v < |g|
    ensures Par(g, u) == v ==> Par(MirroredPlaces(g, x), u) == v || Par(MirroredPlaces(g, x), v) == u
    ensures Par(MirroredPlaces(g, x), u) == v ==> Par(g, u) == v || Par(g, v) == u
  {
    TurnedParent(g, x, u);
    TurnedParent(g, x, v);
    assert PlaceOk(g, u);
    if SameLine(g, u, x) {
      SameLineFacts(g, u, x);
      if g[u].pos > 0 {
        NodeAt(g, u, g[u].pos - 1);
      }
      if g[u].pos + 1 < |g[u].line| {
        NodeAt(g, u, g[u].pos + 1);
      }
    }
  }

  function TurnedRank(g: seq<Place>, rank: seq<nat>, x: int): seq<nat>
    requires 1 <= x < |g| == |rank|
  {
    seq(|g|, v requires 0 <= v < |g| =>
      if SameLine(g, v, x) && 0 <= g[v].pos < |g[v].line| then |g[v].line| - 1 - g[v].pos else |g[x].line| + rank[v])
  }

  lemma {:induction false} TurnedForest(edges: Edges, g: seq<Place>, rank: seq<nat>, x: int)
    requires PlacesOk(g) && 1 <= x < |g| && g[x].up == 0
    requires Acyclic(Parents(g), rank) && Represents(edges, Parents(g))
    ensures Represents(edges, Parents(MirroredPlaces(g, x)))
    ensures Acyclic(Parents(MirroredPlaces(g, x)), TurnedRank(g, rank, x))
  {
    var par' := Parents(MirroredPlaces(g, x));
    forall u, v
      ensures (u, v) in edges <==> Joined(par', u, v)
    {
      TurnedJoined(g, x, u, v);
    }
    forall v | 1 <= v < |g|
      ensures RankedAt(par', TurnedRank(g, rank, x), v)
    {
      TurnedParent(g, x, v);
      ParentsInRange(g, v);
      assert RankedAt(Parents(g), rank, v);
      if SameLine(g, v, x) && g[v].pos + 1 < |g[v].line| {
        NodeAt(g, v, g[v].pos + 1);
      }
    }
  }

  ghost function HungRank(par: seq<int>, rank: seq<nat>, x: int, y: int): seq<nat>
    requires Acyclic(par, rank) && 1 <= y < |par|
  {
    seq(|par|, v requires 0 <= v < |par| =>
        if 1 <= v && RootOf(par, rank, v) == x then rank[v] + rank[y] + 1 else rank[v])
  }

  lemma {:induction false} HungForest(edges: Edges, par: seq<int>, rank: seq<nat>, x: int, y: int)
    requires Acyclic(par, rank) && Represents(edges, par)
    requires 1 <= x < |par| && 1 <= y < |par| && par[x] == 0 && RootOf(par, rank, y) != x
    ensures Represents(edges + {(x, y), (y, x)}, par[x := y])
    ensures Acyclic(par[x := y], HungRank(par, rank, x, y))
  {
    forall u, v
      ensures (u, v) in edges + {(x, y), (y, x)} <==> Joined(par[x := y], u, v)
    {
      assert (u, v) in edges <==> Joined(par, u, v);
    }
    var par', rank' := par[x := y], HungRank(par, rank, x, y);
    forall v | 1 <= v < |par|
      ensures RankedAt(par', rank', v)
    {
      assert RankedAt(par, rank, v);
      assert RootOf(par, rank, x) == x;
    }
  }

  lemma {:induction false} CutForest(edges: Edges, par: seq<int>, rank: seq<nat>, x: int, y: int)
    requires Acyclic(par, rank) && Represents(edges, par)
    requires 1 <= x < |par| && 1 <= y < |par| && par[x] == 0 && par[y] == x
    ensures Represents(edges - {(x, y), (y, x)}, par[y := 0])
    ensures Acyclic(par[y := 0], rank)
  {
    forall u, v
      ensures (u, v) in edges - {(x, y), (y, x)} <==> Joined(par[y := 0], u, v)
    {
      assert (u, v) in edges <==> Joined(par, u, v);
    }
    var par' := par[y := 0];
    forall v | 1 <= v < |par|
      ensures RankedAt(par', rank, v)
    {
      assert RankedAt(par, rank, v);
    }
  }

  // ----- what a step leaves alone

  predicate Untouched(t: seq<Node>, t': seq<Node>, g: seq<Place>, g': seq<Place>, sh: seq<Span>, sh': seq<Span>,
      v: int) {
    && 0 <= v < |t| && |t| == |t'| == |g| == |g'| == |sh| == |sh'|
    && t'[v] == t[v] && g'[v] == g[v] && sh'[v] == sh[v]
  }

  /** Nothing outside the tree of x has changed. */
  ghost predicate OtherTrees(t: seq<Node>, t': seq<Node>, g: seq<Place>, g': seq<Place>, sh: seq<Span>, sh': seq<Span>,
      rank: seq<nat>, x: int)
    requires Acyclic(Parents(g), rank) && |t| == |g| && 1 <= x < |g|
  {
    forall v :: InTree(t, v) && RootOf(Parents(g), rank, v) != RootOf(Parents(g), rank, x) ==>
        Untouched(t, t', g, g', sh, sh', v)
  }

  lemma {:induction false} OtherTreesTwice(t: seq<Node>, t1: seq<Node>, t2: seq<Node>, g: seq<Place>, g1: seq<Place>,
          g2: seq<Place>, sh: seq<Span>, sh1: seq<Span>, sh2: seq<Span>, rank: seq<nat>, x: int, y: int)
    requires Acyclic(Parents(g), rank) && Parents(g1) == Parents(g)
    requires |t| == |t1| == |g| && 1 <= x < |g| && 1 <= y < |g|
    requires RootOf(Parents(g), rank, x) == RootOf(Parents(g), rank, y)
    requires OtherTrees(t, t1, g, g1, sh, sh1, rank, x) && OtherTrees(t1, t2, g1, g2, sh1, sh2, rank, y)
    ensures OtherTrees(t, t2, g, g2, sh, sh2, rank, x)
  {
    forall v | InTree(t, v) && RootOf(Parents(g), rank, v) != RootOf(Parents(g), rank, x)
      ensures Untouched(t, t2, g, g2, sh, sh2, v)
    {
      assert Untouched(t, t1, g, g1, sh, sh1, v) && Untouched(t1, t2, g1, g2, sh1, sh2, v);
    }
  }

  lemma {:induction false} OtherTreesRefl(t: seq<Node>, g: seq<Place>, sh: seq<Span>, rank: seq<nat>, x: int)
    requires Acyclic(Parents(g), rank) && |t| == |g| == |sh| && 1 <= x < |g|
    ensures OtherTrees(t, t, g, g, sh, sh, rank, x)
  {
  }

  lemma {:induction false} SplayOtherTrees(t: seq<Node>, t': seq<Node>, g: seq<Place>, sh: seq<Span>, sh': seq<Span>,
          rank: seq<nat>, x: int)
    requires PlacesOk(g) && Acyclic(Parents(g), rank) && |t| == |g| && 1 <= x < |g|
    requires FixedOff(t, t', g, sh, sh', x)
    ensures OtherTrees(t, t', g, g, sh, sh', rank, x)
  {
    forall v | InTree(t, v) && RootOf(Parents(g), rank, v) != RootOf(Parents(g), rank, x)
      ensures Untouched(t, t', g, g, sh, sh', v)
    {
      if g[v].line == g[x].line {
        SameLineSameRoot(g, rank, v, x);
      }
      assert Fixed(t, t', sh, sh', v);
    }
  }

  lemma {:induction false} SpliceOtherTrees(t: seq<Node>, t': seq<Node>, g: seq<Place>, g': seq<Place>, sh: seq<Span>,
          sh': seq<Span>, rank: seq<nat>, x: int, c: int)
    requires Splice(t, t', g, g', sh, sh', x, c) && Acyclic(Parents(g), rank)
    ensures OtherTrees(t, t', g, g', sh, sh', rank, x)
    ensures Parents(g') == Parents(g)
  {
    forall v | InTree(t, v) && RootOf(Parents(g), rank, v) != RootOf(Parents(g), rank, x)
      ensures Untouched(t, t', g, g', sh, sh', v)
    {
      if SameLine(g, v, x) {
        SameLineSameRoot(g, rank, v, x);
      }
      if Hanging(g, c, v) {
        SameLineSameRoot(g, rank, v, c);
        UpSameRoot(g, rank, c);
      }
    }
    SpliceKeeps(t, t', g, g', sh, sh', x, c);
    assert forall v :: 0 <= v < |g| ==> Parents(g')[v] == Parents(g)[v];
  }
}
