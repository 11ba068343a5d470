/**
 Johnson's all-pairs shortest paths: potentials by Bellman-Ford from an added source, then one
 Dijkstra search a vertex with reweighted edges.
 */
module Johnson {
  import opened Walks
  import opened PairQueue

  // ----- Bellman-Ford

  /** The edges with a super-source n that reaches every vertex for nothing. */
  function Extended(n: nat, edges: seq<DirectedEdge>): seq<DirectedEdge> {
    edges + seq(n, v => DirectedEdge(n, v, 0))
  }

  /** A walk that does not start at the super-source never uses it. */
  lemma {:induction false} AvoidsSource(n: nat, edges: seq<DirectedEdge>, p: seq<int>, u: int, v: int)
    requires Digraph(n, edges) && Walk(Extended(n, edges), p, u, v) && u != n
    ensures Walk(edges, p, u, v) && Cost(edges, p) == Cost(Extended(n, edges), p) && v != n
    decreases |p|
  {
    if p == [] {
    } else {
      assert edges[p[0]] == edges[p[0]];
      AvoidsSource(n, edges, p[1..], edges[p[0]].to, v);
    }
  }

  lemma {:induction false} AlsoExtended(n: nat, edges: seq<DirectedEdge>, p: seq<int>, u: int, v: int)
    requires Walk(edges, p, u, v)
    ensures Walk(Extended(n, edges), p, u, v) && Cost(edges, p) == Cost(Extended(n, edges), p)
    decreases |p|
  {
    if p == [] {
    } else {
      AlsoExtended(n, edges, p[1..], edges[p[0]].to, v);
    }
  }

  lemma {:induction false} TargetsAreVertices(n: nat, edges: seq<DirectedEdge>, i: int)
    requires Digraph(n, edges) && 0 <= i < |edges| + n
    ensures 0 <= Extended(n, edges)[i].to < n
  {
    if i < |edges| {
      assert edges[i] == edges[i];
    }
  }

  lemma {:induction false} SameCycles(n: nat, edges: seq<DirectedEdge>)
    requires Digraph(n, edges)
    ensures NegativeCycle(edges) <==> NegativeCycle(Extended(n, edges))
  {
    if NegativeCycle(edges) {
      var p, u :| Walk(edges, p, u, u) && Cost(edges, p) < 0;
      AlsoExtended(n, edges, p, u, u);
    }
    if NegativeCycle(Extended(n, edges)) {
      var p, u :| Walk(Extended(n, edges), p, u, u) && Cost(Extended(n, edges), p) < 0;
      if u == n {
        var t := Extended(n, edges)[p[0]].to;
        assert t != n by {
          TargetsAreVertices(n, edges, p[0]);
        }
        AvoidsSource(n, edges, p[1..], t, u);
      }
      AvoidsSource(n, edges, p, u, u);
    }
  }

  /** Every entry of h is the cost of some walk from s. */
  ghost predicate Sound(edges: seq<DirectedEdge>, h: seq<Dist>, s: int) {
    forall v {:trigger h[v]} :: 0 <= v < |h| && h[v].At? ==> HasWalk(edges, s, v, h[v].d)
  }

  ghost predicate HasWalk(edges: seq<DirectedEdge>, s: int, v: int, x: int) {
    exists p :: Walk(edges, p, s, v) && Cost(edges, p) == x
  }

  predicate Covered(p: seq<int>, r: nat, k: int) {
    |p| <= r || (|p| == r + 1 && p[r] < k)
  }

  /** h is below every walk from s of at most r edges and, with r + 1 edges, of last edge below k. */
  ghost predicate Bounds(edges: seq<DirectedEdge>, h: seq<Dist>, s: int, r: nat, k: int) {
    forall p, v {:trigger Walk(edges, p, s, v)} ::
      Walk(edges, p, s, v) && 0 <= v < |h| && Covered(p, r, k) ==> Le(h[v], Cost(edges, p))
  }

  /** Appending edge i to walks from s. */
  lemma {:induction false} Extend(edges: seq<DirectedEdge>, s: int, i: int, x: int)
    requires 0 <= i < |edges| && HasWalk(edges, s, edges[i].from, x)
    ensures HasWalk(edges, s, edges[i].to, x + edges[i].weight)
  {
    var p :| Walk(edges, p, s, edges[i].from) && Cost(edges, p) == x;
    var one := [i];
    assert one[1..] == [];
    assert Cost(edges, one) == edges[one[0]].weight + Cost(edges, one[1..]);
    assert Walk(edges, one, edges[i].from, edges[i].to);
    WalkJoin(edges, p, one, s, edges[i].from, edges[i].to);
  }

  lemma {:induction false} LastEdge(edges: seq<DirectedEdge>, p: seq<int>, s: int, v: int)
    requires Walk(edges, p, s, v) && p != []
    ensures var i := p[|p| - 1];
            && 0 <= i < |edges| && edges[i].to == v && Walk(edges, p[..|p| - 1], s, edges[i].from)
            && Cost(edges, p) == Cost(edges, p[..|p| - 1]) + edges[i].weight
  {
    var m := |p| - 1;
    WalkIndex(edges, p, s, v, m);
    WalkSplit(edges, p, s, v, m);
    assert p[m..] == [p[m]] && p[m..][1..] == [];
  }

  /** What relaxing edge k does to the table. */
  function RelaxedTable(edges: seq<DirectedEdge>, h: seq<Dist>, k: int): seq<Dist>
    requires 0 <= k < |edges| && 0 <= edges[k].from < |h| && 0 <= edges[k].to < |h|
  {
    if h[edges[k].from].At? && !Le(h[edges[k].to], h[edges[k].from].d + edges[k].weight)
    then h[edges[k].to := At(h[edges[k].from].d + edges[k].weight)]
    else h
  }

  lemma {:induction false} RelaxSound(edges: seq<DirectedEdge>, h: seq<Dist>, s: int, k: int)
    requires 0 <= k < |edges| && 0 <= edges[k].from < |h| && 0 <= edges[k].to < |h| && Sound(edges, h, s)
    ensures Sound(edges, RelaxedTable(edges, h, k), s)
  {
    if h[edges[k].from].At? {
      Extend(edges, s, k, h[edges[k].from].d);
    }
  }

  lemma {:induction false} RelaxBounds(edges: seq<DirectedEdge>, h: seq<Dist>, s: int, r: nat, k: int)
    requires 0 <= k < |edges| && 0 <= edges[k].from < |h| && 0 <= edges[k].to < |h| && Bounds(edges, h, s, r, k)
    ensures Bounds(edges, RelaxedTable(edges, h, k), s, r, k + 1)
  {
    var h' := RelaxedTable(edges, h, k);
    forall p, v | Walk(edges, p, s, v) && 0 <= v < |h'| && Covered(p, r, k + 1)
      ensures Le(h'[v], Cost(edges, p))
    {
      if |p| == r + 1 && p[|p| - 1] == k {
        LastEdge(edges, p, s, v);
      }
    }
  }

  lemma {:induction false} RoundDone(edges: seq<DirectedEdge>, h: seq<Dist>, s: int, r: nat)
    requires Bounds(edges, h, s, r, |edges|)
    ensures Bounds(edges, h, s, r + 1, 0)
  {
    forall p, v | Walk(edges, p, s, v) && 0 <= v < |h| && Covered(p, r + 1, 0)
      ensures Le(h[v], Cost(edges, p))
    {
      if p != [] {
        WalkIndex(edges, p, s, v, |p| - 1);
      }
    }
  }

  /** Without negative cycles, as many rounds as there are vertices besides the source settle the table. */
  lemma {:induction false} RoundsSettle(n: nat, edges: seq<DirectedEdge>, h: seq<Dist>, k: int)
    requires Digraph(n + 1, edges) && |h| == n + 1 && Sound(edges, h, n) && Bounds(edges, h, n, n, 0)
    requires 0 <= k < |edges| && !NegativeCycle(edges)
    ensures Relaxed(edges, h, k)
  {
    assert edges[k] == edges[k];
    if h[edges[k].from].At? {
      Extend(edges, n, k, h[edges[k].from].d);
      var x := h[edges[k].from].d + edges[k].weight;
      var p :| Walk(edges, p, n, edges[k].to) && Cost(edges, p) == x;
      var q := ShortWalk(n + 1, edges, p, n, edges[k].to);
      assert Le(h[edges[k].to], Cost(edges, q));
    }
  }

  ghost predicate AllRelaxed(edges: seq<DirectedEdge>, h: seq<Dist>, k: int) {
    forall i {:trigger Relaxed(edges, h, i)} :: 0 <= i < k <= |edges| ==> Relaxed(edges, h, i)
  }

  /** The super-source bounds every entry by 0, so all entries are numbers. */
  lemma {:induction false} AllReached(n: nat, edges: seq<DirectedEdge>, h: seq<Dist>)
    requires Digraph(n, edges) && |h| == n + 1 && AllRelaxed(Extended(n, edges), h, |edges| + n) && Le(h[n], 0)
    ensures forall v {:trigger h[v]} :: 0 <= v <= n ==> h[v].At?
    ensures Feasible(edges, seq(n, v requires 0 <= v < n => if h[v].At? then h[v].d else 0))
  {
    var ext := Extended(n, edges);
    forall v | 0 <= v < n
      ensures h[v].At?
    {
      assert ext[|edges| + v] == DirectedEdge(n, v, 0);
      assert Relaxed(ext, h, |edges| + v);
    }
    forall i | 0 <= i < |edges|
      ensures var g := seq(n, v requires 0 <= v < n => if h[v].At? then h[v].d else 0);
              0 <= edges[i].from < |g| && 0 <= edges[i].to < |g| && g[edges[i].to] <= g[edges[i].from] + edges[i].weight
    {
      assert ext[i] == edges[i] && Relaxed(ext, h, i);
    }
  }

  /** One round over all edges; changed tells whether any entry was lowered. */
  method Round(n: nat, ext: seq<DirectedEdge>, h: array<Dist>, ghost r: nat) returns (changed: bool)
    requires Digraph(n + 1, ext) && h.Length == n + 1 && Sound(ext, h[..], n) && Bounds(ext, h[..], n, r, 0)
    requires Le(h[n], 0)
    modifies h
    ensures Sound(ext, h[..], n) && Bounds(ext, h[..], n, r + 1, 0) && Le(h[n], 0)
    ensures !changed ==> AllRelaxed(ext, h[..], |ext|)
  {
    changed := false;
    var k := 0;
    while k < |ext|
      invariant 0 <= k <= |ext| && Sound(ext, h[..], n) && Bounds(ext, h[..], n, r, k) && Le(h[n], 0)
      invariant !changed ==> AllRelaxed(ext, h[..], k)
    {
      var e := ext[k];
      ghost var before := h[..];
      if h[e.from] != Far {
        var nd := h[e.from].d + e.weight;
        if h[e.to] == Far || nd < h[e.to].d {
          h[e.to] := At(nd);
          changed := true;
        }
      }
      assert h[..] == RelaxedTable(ext, before, k);
      RelaxSound(ext, before, n, k);
      RelaxBounds(ext, before, n, r, k);
      k := k + 1;
    }
    RoundDone(ext, h[..], n, r);
  }

  /** bellman_ford_potential: false exactly when there is a negative cycle; otherwise no edge can
      improve the potentials. */
  method BellmanFordPotential(n: nat, edges: seq<DirectedEdge>) returns (ok: bool, potential: seq<int>)
    requires Digraph(n, edges)
    ensures ok <==> !NegativeCycle(edges)
    ensures ok ==> |potential| == n && Feasible(edges, potential)
  {
    var h := new Dist[n + 1](i => Far);
    h[n] := At(0);
    var ext := Extended(n, edges);
    ghost var s := n;
    Initial(n, edges, h[..]);
    ghost var settled := false;
    var i := 0;
    while i < n
      invariant 0 <= i <= n && h.Length == n + 1 && fresh(h)
      invariant Sound(ext, h[..], n) && Bounds(ext, h[..], n, i, 0) && Le(h[n], 0)
    {
      var changed := Round(n, ext, h, i);
      if !changed {
        settled := true;
        break;
      }
      i := i + 1;
    }
    SameCycles(n, edges);
    var k := 0;
    while k < |ext|
      invariant 0 <= k <= |ext| && AllRelaxed(ext, h[..], k)
      invariant Sound(ext, h[..], n) && (settled || Bounds(ext, h[..], n, n, 0))
      invariant settled ==> AllRelaxed(ext, h[..], |ext|)
    {
      var e := ext[k];
      if h[e.from] != Far && (h[e.to] == Far || h[e.from].d + e.weight < h[e.to].d) {
        assert !Relaxed(ext, h[..], k);
        if !NegativeCycle(ext) {
          RoundsSettle(n, ext, h[..], k);
        }
        return false, [];
      }
      k := k + 1;
    }
    AllReached(n, edges, h[..]);
    potential := seq(n, v requires 0 <= v < n reads h => if h[v].At? then h[v].d else 0);
    FeasibleNoCycle(edges, potential);
    ok := true;
  }

  lemma {:induction false} Initial(n: nat, edges: seq<DirectedEdge>, h: seq<Dist>)
    requires Digraph(n, edges) && |h| == n + 1 && h[n] == At(0)
    requires forall v {:trigger h[v]} :: 0 <= v < n ==> h[v] == Far
    ensures Digraph(n + 1, Extended(n, edges))
    ensures Sound(Extended(n, edges), h, n) && Bounds(Extended(n, edges), h, n, 0, 0)
  {
    var ext := Extended(n, edges);
    forall i | 0 <= i < |ext|
      ensures 0 <= ext[i].from < n + 1 && 0 <= ext[i].to < n + 1
    {
      assert i < |edges| ==> edges[i] == edges[i];
    }
    assert Walk(ext, [], n, n) && Cost(ext, []) == 0;
    forall p, v | Walk(ext, p, n, v) && 0 <= v < |h| && Covered(p, 0, 0)
      ensures Le(h[v], Cost(ext, p))
    {
      assert p == [];
    }
  }

  // ----- Dijkstra

  datatype Arc = Arc(to: int, weight: int)

  function ArcOf(e: DirectedEdge): Arc {
    Arc(e.to, e.weight)
  }

  ghost predicate FromEdge(edges: seq<DirectedEdge>, u: int, a: Arc) {
    exists i :: 0 <= i < |edges| && edges[i].from == u && ArcOf(edges[i]) == a
  }

  predicate InLists(edges: seq<DirectedEdge>, graph: seq<seq<Arc>>, i: int) {
    0 <= i < |edges| && 0 <= edges[i].from < |graph| && ArcOf(edges[i]) in graph[edges[i].from]
  }

  /** graph holds the first m edges as adjacency lists. */
  ghost predicate ListsOf(edges: seq<DirectedEdge>, graph: seq<seq<Arc>>, m: int) {
    && (forall u, j {:trigger graph[u][j]} ::
           0 <= u < |graph| && 0 <= j < |graph[u]| ==> FromEdge(edges, u, graph[u][j]))
    && (forall i {:trigger InLists(edges, graph, i)} :: 0 <= i < m <= |edges| ==> InLists(edges, graph, i))
  }

  /** Every entry is the cost of a walk and no entry is negative. */
  ghost predicate Found(edges: seq<DirectedEdge>, dist: seq<Dist>, s: int) {
    && Sound(edges, dist, s) && 0 <= s < |dist| && dist[s] == At(0)
    && forall v {:trigger dist[v]} :: 0 <= v < |dist| && dist[v].At? ==> dist[v].d >= 0
  }

  predicate FreshOrStale(dist: seq<Dist>, p: Pair) {
    0 <= p.1 < |dist| && Le(dist[p.1], p.0)
  }

  ghost predicate Entries(dist: seq<Dist>, pq: multiset<Pair>) {
    forall p {:trigger FreshOrStale(dist, p)} :: p in pq ==> FreshOrStale(dist, p)
  }

  predicate ArcRelaxed(dist: seq<Dist>, u: int, a: Arc) {
    0 <= u < |dist| && 0 <= a.to < |dist| && (dist[u].At? ==> Le(dist[a.to], dist[u].d + a.weight))
  }

  ghost predicate ListRelaxed(dist: seq<Dist>, u: int, list: seq<Arc>, j: int) {
    forall k {:trigger list[k]} :: 0 <= k < j <= |list| ==> ArcRelaxed(dist, u, list[k])
  }

  ghost predicate Settled(graph: seq<seq<Arc>>, dist: seq<Dist>, u: int) {
    0 <= u < |graph| && ListRelaxed(dist, u, graph[u], |graph[u]|)
  }

  predicate Queued(dist: seq<Dist>, pq: multiset<Pair>, u: int) {
    0 <= u < |dist| && dist[u].At? && (dist[u].d, u) in pq
  }

  /** A reached vertex waits in the heap under its present distance, or its arcs are relaxed;
      `but` is a vertex in between. */
  ghost predicate Progress(graph: seq<seq<Arc>>, dist: seq<Dist>, pq: multiset<Pair>, but: int) {
    forall u {:trigger Settled(graph, dist, u)} {:trigger Queued(dist, pq, u)} ::
      0 <= u < |dist| && dist[u].At? && u != but ==> Queued(dist, pq, u) || Settled(graph, dist, u)
  }

  ghost predicate Searching(edges: seq<DirectedEdge>, graph: seq<seq<Arc>>, dist: seq<Dist>, pq: multiset<Pair>,
          s: int, but: int) {
    |graph| == |dist| && Found(edges, dist, s) && Entries(dist, pq) && Progress(graph, dist, pq, but)
  }

  ghost predicate ReweightedGraph(n: int, edges: seq<DirectedEdge>, graph: seq<seq<Arc>>) {
    && |graph| == n && Digraph(n, edges) && ListsOf(edges, graph, |edges|)
    && forall i {:trigger edges[i]} :: 0 <= i < |edges| ==> edges[i].weight >= 0
  }

  // what is left to do, for termination

  function FarCount(dist: seq<Dist>): nat {
    if dist == [] then 0 else FarCount(dist[1..]) + if dist[0].Far? then 1 else 0
  }

  function Total(dist: seq<Dist>): nat {
    if dist == [] then 0 else Total(dist[1..]) + if dist[0].At? && dist[0].d >= 0 then dist[0].d else 0
  }

  lemma {:induction false} LowerLeavesLess(dist: seq<Dist>, v: int, x: nat)
    requires 0 <= v < |dist| && !Le(dist[v], x)
    ensures FarCount(dist[v := At(x)]) < FarCount(dist)
         || (FarCount(dist[v := At(x)]) == FarCount(dist) && Total(dist[v := At(x)]) < Total(dist))
    decreases |dist|
  {
    var dist' := dist[v := At(x)];
    if v == 0 {
      assert dist'[1..] == dist[1..];
    } else {
      assert dist'[1..] == dist[1..][v - 1 := At(x)];
      LowerLeavesLess(dist[1..], v - 1, x);
    }
  }

  predicate LessLeft(before: seq<Dist>, after: seq<Dist>) {
    FarCount(after) < FarCount(before) || (FarCount(after) == FarCount(before) && Total(after) < Total(before))
  }

  // the steps

  /** A stale entry, above its vertex's distance, can be dropped. */
  lemma {:induction false} DropStale(edges: seq<DirectedEdge>, graph: seq<seq<Arc>>, dist: seq<Dist>,
          pq: multiset<Pair>, s: int, p: Pair)
    requires Searching(edges, graph, dist, pq, s, -1) && p in pq && FreshOrStale(dist, p) && p.0 > dist[p.1].d
    ensures Searching(edges, graph, dist, pq - multiset{p}, s, -1)
  {
    forall u | 0 <= u < |dist| && dist[u].At?
      ensures Queued(dist, pq - multiset{p}, u) || Settled(graph, dist, u)
    {
      assert Queued(dist, pq, u) || Settled(graph, dist, u);
    }
  }

  lemma {:induction false} TakeFresh(edges: seq<DirectedEdge>, graph: seq<seq<Arc>>, dist: seq<Dist>,
          pq: multiset<Pair>, s: int, p: Pair)
    requires Searching(edges, graph, dist, pq, s, -1) && p in pq
    ensures Searching(edges, graph, dist, pq - multiset{p}, s, p.1)
  {
    forall u | 0 <= u < |dist| && dist[u].At? && u != p.1
      ensures Queued(dist, pq - multiset{p}, u) || Settled(graph, dist, u)
    {
      assert Queued(dist, pq, u) || Settled(graph, dist, u);
    }
  }

  lemma {:induction false} StillRelaxed(dist: seq<Dist>, v: int, x: int, u: int, list: seq<Arc>, j: int)
    requires 0 <= v < |dist| && !Le(dist[v], x) && u != v && ListRelaxed(dist, u, list, j)
    ensures ListRelaxed(dist[v := At(x)], u, list, j)
  {
    forall k | 0 <= k < j <= |list|
      ensures ArcRelaxed(dist[v := At(x)], u, list[k])
    {
      assert ArcRelaxed(dist, u, list[k]);
    }
  }

  /** Lowering the distance of a.to through u, and queueing it. */
  lemma {:induction false} LowerOne(edges: seq<DirectedEdge>, graph: seq<seq<Arc>>, dist: seq<Dist>,
          pq: multiset<Pair>, s: int, u: int, j: int)
    requires Searching(edges, graph, dist, pq, s, u) && 0 <= u < |dist| && dist[u].At?
    requires ReweightedGraph(|dist|, edges, graph)
    requires 0 <= j < |graph[u]| && ListRelaxed(dist, u, graph[u], j) && !ArcRelaxed(dist, u, graph[u][j])
    ensures var v := graph[u][j].to; var x := dist[u].d + graph[u][j].weight;
            && 0 <= v < |dist| && 0 <= x && u != v && !Le(dist[v], x)
            && Searching(edges, graph, dist[v := At(x)], pq + multiset{(x, v)}, s, u)
            && ListRelaxed(dist[v := At(x)], u, graph[u], j + 1)
  {
    var v, x := graph[u][j].to, dist[u].d + graph[u][j].weight;
    assert FromEdge(edges, u, graph[u][j]);
    var i :| 0 <= i < |edges| && edges[i].from == u && ArcOf(edges[i]) == graph[u][j];
    assert edges[i] == edges[i];
    Extend(edges, s, i, dist[u].d);
    var dist', pq' := dist[v := At(x)], pq + multiset{(x, v)};
    StillRelaxed(dist, v, x, u, graph[u], j);
    forall p | p in pq'
      ensures FreshOrStale(dist', p)
    {
      assert p in pq ==> FreshOrStale(dist, p);
    }
    forall w | 0 <= w < |dist'| && dist'[w].At? && w != u
      ensures Queued(dist', pq', w) || Settled(graph, dist', w)
    {
      if w != v {
        assert Queued(dist, pq, w) || Settled(graph, dist, w);
        if Settled(graph, dist, w) {
          StillRelaxed(dist, v, x, w, graph[w], |graph[w]|);
        }
      }
    }
  }

  lemma {:induction false} ArcTargets(n: int, edges: seq<DirectedEdge>, graph: seq<seq<Arc>>, u: int, j: int)
    requires ReweightedGraph(n, edges, graph) && 0 <= u < n && 0 <= j < |graph[u]|
    ensures 0 <= graph[u][j].to < n && graph[u][j].weight >= 0
  {
    assert FromEdge(edges, u, graph[u][j]);
    var i :| 0 <= i < |edges| && edges[i].from == u && ArcOf(edges[i]) == graph[u][j];
    assert edges[i] == edges[i];
  }

  lemma {:induction false} SearchEnds(edges: seq<DirectedEdge>, graph: seq<seq<Arc>>, dist: seq<Dist>, s: int, v: int)
    requires ReweightedGraph(|dist|, edges, graph) && Searching(edges, graph, dist, multiset{}, s, -1)
    requires 0 <= v < |dist|
    ensures IsDistance(edges, s, v, dist[v])
  {
    forall i | 0 <= i < |edges|
      ensures Relaxed(edges, dist, i)
    {
      assert InLists(edges, graph, i);
      var u := edges[i].from;
      assert edges[i] == edges[i];
      if dist[u].At? {
        assert !Queued(dist, multiset{}, u);
        assert Settled(graph, dist, u);
        var k :| 0 <= k < |graph[u]| && graph[u][k] == ArcOf(edges[i]);
        assert ArcRelaxed(dist, u, graph[u][k]);
      }
    }
    if dist[v].At? {
      assert HasWalk(edges, s, v, dist[v].d);
    }
    RelaxedIsDistance(edges, dist, s, v);
  }

  /** Relaxing all arcs of u. */
  method RelaxArcs(graph: seq<seq<Arc>>, u: int, dist: array<Dist>, pq: multiset<Pair>, s: int,
          ghost edges: seq<DirectedEdge>)
    returns (pq': multiset<Pair>)
    requires 0 <= u < dist.Length && dist[u].At? && ReweightedGraph(dist.Length, edges, graph)
    requires Searching(edges, graph, dist[..], pq, s, u)
    modifies dist
    ensures Searching(edges, graph, dist[..], pq', s, -1)
    ensures (pq' == pq && dist[..] == old(dist[..])) || LessLeft(old(dist[..]), dist[..])
  {
    pq' := pq;
    var j := 0;
    while j < |graph[u]|
      invariant 0 <= j <= |graph[u]| && dist[u] == old(dist[u])
      invariant Searching(edges, graph, dist[..], pq', s, u) && ListRelaxed(dist[..], u, graph[u], j)
      invariant (pq' == pq && dist[..] == old(dist[..])) || LessLeft(old(dist[..]), dist[..])
    {
      ArcTargets(dist.Length, edges, graph, u, j);
      var e := graph[u][j];
      var nd := dist[u].d + e.weight;
      ghost var before := dist[..];
      if dist[e.to] == Far || nd < dist[e.to].d {
        LowerOne(edges, graph, before, pq', s, u, j);
        LowerLeavesLess(before, e.to, nd);
        dist[e.to] := At(nd);
        assert dist[..] == before[e.to := At(nd)];
        pq' := pq' + multiset{(nd, e.to)};
      }
      j := j + 1;
    }
  }

  method Dijkstra(n: int, graph: seq<seq<Arc>>, source: int, ghost edges: seq<DirectedEdge>) returns (dist: array<Dist>)
    requires ReweightedGraph(n, edges, graph) && 0 <= source < n
    ensures fresh(dist) && dist.Length == n
    ensures forall v {:trigger dist[v]} :: 0 <= v < n ==> IsDistance(edges, source, v, dist[v])
  {
    dist := new Dist[n](i => Far);
    dist[source] := At(0);
    var pq: multiset<Pair> := multiset{(0, source)};
    assert Walk(edges, [], source, source) && Cost(edges, []) == 0;
    assert Queued(dist[..], pq, source);
    while |pq| > 0
      invariant dist.Length == n && Searching(edges, graph, dist[..], pq, source, -1)
      decreases FarCount(dist[..]), Total(dist[..]), |pq|
      modifies dist
    {
      var p, rest := Pop(pq);
      var d, u := p.0, p.1;
      assert FreshOrStale(dist[..], p);
      if d > dist[u].d {
        DropStale(edges, graph, dist[..], pq, source, p);
        pq := rest;
      } else {
        TakeFresh(edges, graph, dist[..], pq, source, p);
        pq := RelaxArcs(graph, u, dist, rest, source, edges);
      }
    }
    forall v | 0 <= v < n
      ensures IsDistance(edges, source, v, dist[v])
    {
      SearchEnds(edges, graph, dist[..], source, v);
    }
  }

  // ----- all pairs

  method BuildReweighted(n: nat, edges: seq<DirectedEdge>, h: seq<int>) returns (graph: seq<seq<Arc>>)
    requires Digraph(n, edges) && |h| == n && Feasible(edges, h)
    ensures ReweightedGraph(n, Reweighted(edges, h), graph)
  {
    var lists := new seq<Arc>[n](i => []);
    ghost var rw := Reweighted(edges, h);
    var k := 0;
    while k < |edges|
      invariant 0 <= k <= |edges| && ListsOf(rw, lists[..], k)
    {
      var e := edges[k];
      ghost var before := lists[..];
      assert rw[k].from == e.from && ArcOf(rw[k]) == Arc(e.to, e.weight + h[e.from] - h[e.to]);
      lists[e.from] := lists[e.from] + [Arc(e.to, e.weight + h[e.from] - h[e.to])];
      assert FromEdge(rw, e.from, ArcOf(rw[k]));
      forall i | 0 <= i < k + 1
        ensures InLists(rw, lists[..], i)
      {
        assert i < k ==> InLists(rw, before, i);
      }
      k := k + 1;
    }
    graph := lists[..];
    forall i | 0 <= i < |rw|
      ensures rw[i].weight >= 0 && 0 <= rw[i].from < n && 0 <= rw[i].to < n
    {
      assert edges[i] == edges[i];
    }
  }

  /** row[v] is the length of a shortest walk from s to v, for every v. */
  ghost predicate Distances(n: nat, edges: seq<DirectedEdge>, s: int, row: seq<Dist>) {
    |row| == n && forall v {:trigger row[v]} :: 0 <= v < n ==> IsDistance(edges, s, v, row[v])
  }

  /** A negative cycle is reported exactly when there is one, and otherwise every entry of the
      matrix is the true distance. */
  method JohnsonApsp(n: nat, edges: seq<DirectedEdge>) returns (dist: seq<seq<Dist>>, negative: bool)
    requires Digraph(n, edges)
    ensures negative <==> NegativeCycle(edges)
    ensures !negative ==> |dist| == n && forall s {:trigger dist[s]} :: 0 <= s < n ==> Distances(n, edges, s, dist[s])
  {
    var ok, h := BellmanFordPotential(n, edges);
    if !ok {
      return [], true;
    }
    var graph := BuildReweighted(n, edges, h);
    dist := [];
    var s := 0;
    while s < n
      invariant 0 <= s <= n && |dist| == s
      invariant forall r {:trigger dist[r]} :: 0 <= r < s ==> Distances(n, edges, r, dist[r])
    {
      var d := Dijkstra(n, graph, s, Reweighted(edges, h));
      var row := seq(n, v requires 0 <= v < n reads d => if d[v].At? then At(d[v].d - h[s] + h[v]) else Far);
      forall v | 0 <= v < n
        ensures IsDistance(edges, s, v, row[v])
      {
        DistanceBack(edges, h, s, v, d[v]);
      }
      dist := dist + [row];
      s := s + 1;
    }
    negative := false;
  }
}
