/**
 Walks in a weighted directed graph, and when a table of distances or potentials is right.
 A walk is the list of the indices of its edges.
 */
module Walks {

  datatype DirectedEdge = DirectedEdge(from: int, to: int, weight: int)

  /** A distance, Far where the program keeps its INF. */
  datatype Dist = Far | At(d: int)

  ghost predicate Digraph(n: int, edges: seq<DirectedEdge>) {
    0 <= n && forall i {:trigger edges[i]} :: 0 <= i < |edges| ==> 0 <= edges[i].from < n && 0 <= edges[i].to < n
  }

  predicate Walk(edges: seq<DirectedEdge>, p: seq<int>, u: int, v: int) {
    if p == [] then u == v
    else 0 <= p[0] < |edges| && edges[p[0]].from == u && Walk(edges, p[1..], edges[p[0]].to, v)
  }

  function Cost(edges: seq<DirectedEdge>, p: seq<int>): int {
    if p == [] then 0 else (if 0 <= p[0] < |edges| then edges[p[0]].weight else 0) + Cost(edges, p[1..])
  }

  ghost predicate NegativeCycle(edges: seq<DirectedEdge>) {
    exists p, u :: Walk(edges, p, u, u) && Cost(edges, p) < 0
  }

  /** d is the length of a shortest walk from u to v, Far when there is no walk. */
  ghost predicate IsDistance(edges: seq<DirectedEdge>, u: int, v: int, d: Dist) {
    && (d.At? ==> exists p :: Walk(edges, p, u, v) && Cost(edges, p) == d.d)
    && forall p {:trigger Walk(edges, p, u, v)} :: Walk(edges, p, u, v) ==> d.At? && d.d <= Cost(edges, p)
  }

  lemma {:induction false} WalkJoin(edges: seq<DirectedEdge>, p: seq<int>, q: seq<int>, u: int, v: int, w: int)
    requires Walk(edges, p, u, v) && Walk(edges, q, v, w)
    ensures Walk(edges, p + q, u, w) && Cost(edges, p + q) == Cost(edges, p) + Cost(edges, q)
    decreases |p|
  {
    if p == [] {
      assert p + q == q;
    } else {
      WalkJoin(edges, p[1..], q, edges[p[0]].to, v, w);
      assert (p + q)[1..] == p[1..] + q;
    }
  }

  /** The vertex a walk from u reaches after its first i edges. */
  function VertexAt(edges: seq<DirectedEdge>, p: seq<int>, u: int, i: int): int {
    if 0 < i <= |p| && 0 <= p[i - 1] < |edges| then edges[p[i - 1]].to else u
  }

  lemma {:induction false} WalkIndex(edges: seq<DirectedEdge>, p: seq<int>, u: int, v: int, k: nat)
    requires Walk(edges, p, u, v) && k < |p|
    ensures 0 <= p[k] < |edges|
    decreases k
  {
    if k == 0 {
    } else {
      WalkIndex(edges, p[1..], edges[p[0]].to, v, k - 1);
    }
  }

  lemma {:induction false} WalkSplit(edges: seq<DirectedEdge>, p: seq<int>, u: int, v: int, i: nat)
    requires Walk(edges, p, u, v) && i <= |p|
    ensures var w := VertexAt(edges, p, u, i);
            && Walk(edges, p[..i], u, w) && Walk(edges, p[i..], w, v)
            && Cost(edges, p) == Cost(edges, p[..i]) + Cost(edges, p[i..])
    decreases |p|
  {
    if i == 0 {
      assert p[..0] == [] && p[0..] == p;
    } else {
      var t := edges[p[0]].to;
      WalkSplit(edges, p[1..], t, v, i - 1);
      assert p[1..][..i - 1] == p[..i][1..] && p[1..][i - 1..] == p[i..];
      assert p[..i][0] == p[0];
      assert i > 1 ==> p[1..][i - 2] == p[i - 1];
      WalkIndex(edges, p, u, v, i - 1);
    }
  }

  lemma {:induction false} WalkVertex(n: int, edges: seq<DirectedEdge>, p: seq<int>, u: int, v: int, i: nat)
    requires Digraph(n, edges) && Walk(edges, p, u, v) && 0 <= u < n
    ensures 0 <= VertexAt(edges, p, u, i) < n
  {
    if 0 < i <= |p| && 0 <= p[i - 1] < |edges| {
      assert edges[p[i - 1]] == edges[p[i - 1]];
    }
  }

  // ----- short walks are enough

  lemma {:induction false} Pigeonhole(f: seq<int>, n: nat) returns (i: int, j: int)
    requires |f| > n && forall k {:trigger f[k]} :: 0 <= k < |f| ==> 0 <= f[k] < n
    ensures 0 <= i < j < |f| && f[i] == f[j]
    decreases n
  {
    if k :| 0 <= k < |f| - 1 && f[k] == f[|f| - 1] {
      i, j := k, |f| - 1;
    } else {
      var last := f[|f| - 1];
      var g := seq(|f| - 1, k requires 0 <= k < |f| - 1 => if f[k] == n - 1 then last else f[k]);
      i, j := Pigeonhole(g, n - 1);
    }
  }

  /** Without negative cycles, any walk can be cut down to fewer edges than there are vertices. */
  lemma {:induction false} ShortWalk(n: int, edges: seq<DirectedEdge>, p: seq<int>, u: int, v: int)
    returns (q: seq<int>)
    requires Digraph(n, edges) && !NegativeCycle(edges) && Walk(edges, p, u, v) && 0 <= u < n
    ensures Walk(edges, q, u, v) && |q| < n && Cost(edges, q) <= Cost(edges, p)
    decreases |p|
  {
    if |p| < n {
      q := p;
    } else {
      var f := seq(|p| + 1, i requires 0 <= i <= |p| => VertexAt(edges, p, u, i));
      forall k | 0 <= k < |f|
        ensures 0 <= f[k] < n
      {
        WalkVertex(n, edges, p, u, v, k);
      }
      var i, j := Pigeonhole(f, n);
      var r := Shortcut(edges, p, u, v, i, j);
      q := ShortWalk(n, edges, r, u, v);
    }
  }

  /** Cutting a closed part out of a walk. */
  lemma {:induction false} Shortcut(edges: seq<DirectedEdge>, p: seq<int>, u: int, v: int, i: int, j: int)
    returns (r: seq<int>)
    requires Walk(edges, p, u, v) && 0 <= i < j <= |p| && VertexAt(edges, p, u, i) == VertexAt(edges, p, u, j)
    requires !NegativeCycle(edges)
    ensures Walk(edges, r, u, v) && |r| < |p| && Cost(edges, r) <= Cost(edges, p)
  {
    var w := VertexAt(edges, p, u, i);
    WalkSplit(edges, p, u, v, j);
    WalkSplit(edges, p[..j], u, w, i);
    assert p[..j][..i] == p[..i];
    assert i > 0 ==> p[..j][i - 1] == p[i - 1];
    assert Walk(edges, p[..j][i..], w, w);
    WalkJoin(edges, p[..i], p[j..], u, w, v);
    r := p[..i] + p[j..];
  }

  // ----- tables that no edge improves

  /** No edge can lower the table h. */
  ghost predicate Feasible(edges: seq<DirectedEdge>, h: seq<int>) {
    forall i {:trigger edges[i]} :: 0 <= i < |edges| ==>
      0 <= edges[i].from < |h| && 0 <= edges[i].to < |h| && h[edges[i].to] <= h[edges[i].from] + edges[i].weight
  }

  /** The weights of Johnson's reweighted graph. */
  function Reweighted(edges: seq<DirectedEdge>, h: seq<int>): seq<DirectedEdge> {
    seq(|edges|, i requires 0 <= i < |edges| =>
      edges[i].(weight := edges[i].weight + Potential(h, edges[i].from) - Potential(h, edges[i].to)))
  }

  function Potential(h: seq<int>, v: int): int {
    if 0 <= v < |h| then h[v] else 0
  }

  /** Reweighting changes every walk between two given vertices by the same amount. */
  lemma {:induction false} ReweightedCost(edges: seq<DirectedEdge>, h: seq<int>, p: seq<int>, u: int, v: int)
    ensures Walk(edges, p, u, v) <==> Walk(Reweighted(edges, h), p, u, v)
    ensures Walk(edges, p, u, v) ==>
              Cost(Reweighted(edges, h), p) == Cost(edges, p) + Potential(h, u) - Potential(h, v)
    decreases |p|
  {
    if p == [] {
    } else if 0 <= p[0] < |edges| {
      ReweightedCost(edges, h, p[1..], edges[p[0]].to, v);
    }
  }

  lemma {:induction false} NonNegativeCost(edges: seq<DirectedEdge>, p: seq<int>)
    requires forall i {:trigger edges[i]} :: 0 <= i < |edges| ==> edges[i].weight >= 0
    ensures Cost(edges, p) >= 0
    decreases |p|
  {
    if p == [] {
    } else {
      NonNegativeCost(edges, p[1..]);
    }
  }

  /** A feasible table excludes negative cycles. */
  lemma {:induction false} FeasibleNoCycle(edges: seq<DirectedEdge>, h: seq<int>)
    requires Feasible(edges, h)
    ensures !NegativeCycle(edges)
  {
    forall p, u | Walk(edges, p, u, u)
      ensures Cost(edges, p) >= 0
    {
      ReweightedCost(edges, h, p, u, u);
      forall i | 0 <= i < |edges|
        ensures Reweighted(edges, h)[i].weight >= 0
      {
        assert edges[i] == edges[i];
      }
      NonNegativeCost(Reweighted(edges, h), p);
    }
  }

  function Le(d: Dist, x: int): (r: bool) {
    d.At? && d.d <= x
  }

  /** Where d reaches edge i's source, it reaches the target by no more than the edge's weight. */
  predicate Relaxed(edges: seq<DirectedEdge>, d: seq<Dist>, i: int) {
    && 0 <= i < |edges| && 0 <= edges[i].from < |d| && 0 <= edges[i].to < |d|
    && (d[edges[i].from].At? ==> Le(d[edges[i].to], d[edges[i].from].d + edges[i].weight))
  }

  /** A table that starts at 0 and that no edge improves is below every walk. */
  lemma {:induction false} RelaxedBound(edges: seq<DirectedEdge>, d: seq<Dist>, p: seq<int>, u: int, v: int)
    requires forall i {:trigger Relaxed(edges, d, i)} :: 0 <= i < |edges| ==> Relaxed(edges, d, i)
    requires Walk(edges, p, u, v) && 0 <= u < |d| && d[u].At?
    ensures 0 <= v < |d| && Le(d[v], d[u].d + Cost(edges, p))
    decreases |p|
  {
    if p == [] {
    } else {
      assert Relaxed(edges, d, p[0]);
      RelaxedBound(edges, d, p[1..], edges[p[0]].to, v);
    }
  }

  /** A table of walks' costs that no edge improves holds the distances. */
  lemma {:induction false} RelaxedIsDistance(edges: seq<DirectedEdge>, d: seq<Dist>, u: int, v: int)
    requires forall i {:trigger Relaxed(edges, d, i)} :: 0 <= i < |edges| ==> Relaxed(edges, d, i)
    requires 0 <= u < |d| && 0 <= v < |d| && d[u] == At(0)
    requires d[v].At? ==> exists p :: Walk(edges, p, u, v) && Cost(edges, p) == d[v].d
    ensures IsDistance(edges, u, v, d[v])
  {
    forall p | Walk(edges, p, u, v)
      ensures Le(d[v], Cost(edges, p))
    {
      RelaxedBound(edges, d, p, u, v);
    }
  }

  /** Undoing the reweighting turns distances into distances. */
  lemma {:induction false} DistanceBack(edges: seq<DirectedEdge>, h: seq<int>, u: int, v: int, d: Dist)
    requires IsDistance(Reweighted(edges, h), u, v, d)
    ensures IsDistance(edges, u, v, if d.At? then At(d.d - Potential(h, u) + Potential(h, v)) else Far)
  {
    if d.At? {
      var p :| Walk(Reweighted(edges, h), p, u, v) && Cost(Reweighted(edges, h), p) == d.d;
      ReweightedCost(edges, h, p, u, v);
    }
    forall p | Walk(edges, p, u, v)
      ensures d.At? && d.d - Potential(h, u) + Potential(h, v) <= Cost(edges, p)
    {
      ReweightedCost(edges, h, p, u, v);
      assert Walk(Reweighted(edges, h), p, u, v);
    }
  }
}
