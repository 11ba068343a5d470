/**
 Kruskal's, Prim's and the reverse-delete algorithm.  Each returns the least total weight of any
 spanning tree, whatever the signs of the weights and however ties fall.
 */
module MinimumSpanningTrees {
  import opened SpanningTrees
  import opened DisjointSets

  // ----- what the union-find labels say about a set of edges

  ghost predicate Respects(rep: seq<int>, s: set<int>) {
    forall a, b {:trigger rep[a], rep[b]} ::
        0 <= a < |rep| && 0 <= b < |rep| && rep[a] == rep[b] ==> (a in s <==> b in s)
  }

  predicate Inside(edges: seq<Edge>, rep: seq<int>, i: int) {
    0 <= i < |edges| && 0 <= edges[i].u < |rep| && 0 <= edges[i].v < |rep| && rep[edges[i].u] == rep[edges[i].v]
  }

  /** The classes of rep are the connected components of f. */
  ghost predicate Components(n: int, edges: seq<Edge>, rep: seq<int>, f: set<int>) {
    && |rep| == n && Labelling(rep)
    && (forall i {:trigger Inside(edges, rep, i)} :: i in f ==> Inside(edges, rep, i))
    && (forall s {:trigger Uncrossed(edges, f, s)} :: Uncrossed(edges, f, s) ==> Respects(rep, s))
  }

  lemma {:induction false} StillInside(edges: seq<Edge>, rep: seq<int>, rep': seq<int>, u: int, v: int, i: int)
    requires Merged(rep, rep', u, v) && Inside(edges, rep, i)
    ensures Inside(edges, rep', i)
  {
    assert rep'[edges[i].u] == rep'[edges[i].v];
  }

  lemma {:induction false} UniteComponents(n: int, edges: seq<Edge>, rep: seq<int>, rep': seq<int>, f: set<int>, e: int)
    requires Graph(n, edges) && Components(n, edges, rep, f) && 0 <= e < |edges| && Labelling(rep')
    requires Merged(rep, rep', edges[e].u, edges[e].v)
    ensures Components(n, edges, rep', f + {e})
  {
    forall i | i in f + {e}
      ensures Inside(edges, rep', i)
    {
      if i in f {
        StillInside(edges, rep, rep', edges[e].u, edges[e].v, i);
      } else {
        assert rep'[edges[e].u] == rep'[edges[e].v];
      }
    }
    forall s | Uncrossed(edges, f + {e}, s)
      ensures Respects(rep', s)
    {
      assert forall i :: i in f ==> i in f + {e};
      assert Uncrossed(edges, f, s);
      assert !Crosses(edges, s, e);
      forall a, b | 0 <= a < |rep'| && 0 <= b < |rep'| && rep'[a] == rep'[b]
        ensures a in s <==> b in s
      {
        var ru, rv := rep[edges[e].u], rep[edges[e].v];
        assert rep[a] == rep[b] || (rep[a] == ru && rep[b] == rv) || (rep[a] == rv && rep[b] == ru);
      }
    }
  }

  /** An edge inside one class changes nothing. */
  lemma {:induction false} IdleComponents(n: int, edges: seq<Edge>, rep: seq<int>, f: set<int>, e: int)
    requires Components(n, edges, rep, f) && Inside(edges, rep, e)
    ensures Components(n, edges, rep, f + {e})
  {
    forall s | Uncrossed(edges, f + {e}, s)
      ensures Respects(rep, s)
    {
      assert forall i :: i in f ==> i in f + {e};
      assert Uncrossed(edges, f, s);
    }
  }

  lemma {:induction false} NoEdgesComponents(n: int, edges: seq<Edge>, rep: seq<int>)
    requires |rep| == n && forall i :: 0 <= i < n ==> rep[i] == i
    ensures Components(n, edges, rep, {})
  {
  }

  function ClassOf(n: int, rep: seq<int>, v: int): set<int>
    requires |rep| == n && 0 <= v < n
  {
    set w | w in Vertices(n) && rep[w] == rep[v]
  }

  lemma {:induction false} ClassUncrossed(n: int, edges: seq<Edge>, rep: seq<int>, f: set<int>, v: int)
    requires Components(n, edges, rep, f) && 0 <= v < n
    ensures Uncrossed(edges, f, ClassOf(n, rep, v)) && ClassOf(n, rep, v) <= Vertices(n)
  {
    forall i | i in f
      ensures !Crosses(edges, ClassOf(n, rep, v), i)
    {
      assert Inside(edges, rep, i);
    }
  }

  /** One class: every vertex has the label of vertex 0. */
  ghost predicate OneClass(rep: seq<int>) {
    forall v {:trigger rep[v]} :: 0 <= v < |rep| ==> rep[v] == rep[0]
  }

  lemma {:induction false} OfOne(s: set<int>, a: int, b: int)
    requires |s| == 1 && a in s && b in s
    ensures a == b
  {
    assert b !in s - {a} by {
      assert |s - {a}| == 0;
    }
  }

  lemma {:induction false} OneRoot(rep: seq<int>)
    requires Labelling(rep) && |rep| > 0
    ensures |Roots(rep)| == 1 <==> OneClass(rep)
  {
    assert rep[0] in rep && rep[rep[0]] == rep[0];
    if |Roots(rep)| == 1 {
      forall v | 0 <= v < |rep|
        ensures rep[v] == rep[0]
      {
        assert rep[rep[v]] == rep[v] && rep[v] in rep;
        OfOne(Roots(rep), rep[v], rep[0]);
      }
    }
    if OneClass(rep) {
      assert Roots(rep) == {rep[0]};
    }
  }

  lemma {:induction false} OneClassConnected(n: int, edges: seq<Edge>, rep: seq<int>, f: set<int>)
    requires Graph(n, edges) && Components(n, edges, rep, f)
    ensures OneClass(rep) <==> Connected(n, edges, f)
  {
    if OneClass(rep) {
      forall s | IsCut(n, s)
        ensures !Uncrossed(edges, f, s)
      {
        var a :| a in s;
        var b :| b in Vertices(n) && b !in s;
        assert rep[a] == rep[b];
      }
    }
    if Connected(n, edges, f) {
      ClassUncrossed(n, edges, rep, f, 0);
      assert !IsCut(n, ClassOf(n, rep, 0));
      assert 0 in ClassOf(n, rep, 0);
    }
  }

  // ----- Kruskal

  /** order lists the edges, each once; std::sort may leave equal weights in any order. */
  ghost predicate Lists(edges: seq<Edge>, order: seq<int>) {
    && (forall k {:trigger order[k]} :: 0 <= k < |order| ==> 0 <= order[k] < |edges|)
    && (forall i {:trigger i in order} :: 0 <= i < |edges| ==> i in order)
    && forall j, k {:trigger order[j], order[k]} :: 0 <= j < k < |order| ==> order[j] != order[k]
  }

  ghost predicate Ascending(edges: seq<Edge>, order: seq<int>)
    requires Lists(edges, order)
  {
    forall j, k {:trigger order[j], order[k]} ::
        0 <= j <= k < |order| ==> edges[order[j]].weight <= edges[order[k]].weight
  }

  ghost predicate Descending(edges: seq<Edge>, order: seq<int>)
    requires Lists(edges, order)
  {
    forall j, k {:trigger order[j], order[k]} ::
        0 <= j <= k < |order| ==> edges[order[j]].weight >= edges[order[k]].weight
  }

  ghost predicate DoneInside(edges: seq<Edge>, order: seq<int>, k: int, rep: seq<int>) {
    forall j {:trigger order[j]} :: 0 <= j < k <= |order| ==> Inside(edges, rep, order[j])
  }

  /** The next edge between two classes is a lightest one out of the first of them. */
  lemma {:induction false} NextIsLightest(n: int, edges: seq<Edge>, order: seq<int>, k: int, rep: seq<int>, f: set<int>)
    requires Graph(n, edges) && Lists(edges, order) && Ascending(edges, order) && 0 <= k < |order|
    requires Components(n, edges, rep, f) && DoneInside(edges, order, k, rep) && Promising(n, edges, f, Indices(edges))
    requires rep[edges[order[k]].u] != rep[edges[order[k]].v]
    ensures Promising(n, edges, f + {order[k]}, Indices(edges))
  {
    var e := order[k];
    var s := ClassOf(n, rep, edges[e].u);
    ClassUncrossed(n, edges, rep, f, edges[e].u);
    forall i | Crosses(edges, s, i)
      ensures edges[e].weight <= edges[i].weight
    {
      assert i in order;
      var m :| 0 <= m < |order| && order[m] == i;
    }
    assert edges[e].u in s && edges[e].v !in s;
    CutProperty(n, edges, f, s, e);
  }

  lemma {:induction false} AllInside(n: int, edges: seq<Edge>, order: seq<int>, rep: seq<int>, f: set<int>)
    requires Graph(n, edges) && Connected(n, edges, Indices(edges)) && Lists(edges, order)
    requires Components(n, edges, rep, f) && DoneInside(edges, order, |order|, rep)
    ensures Connected(n, edges, f)
  {
    var s := ClassOf(n, rep, 0);
    ClassUncrossed(n, edges, rep, f, 0);
    forall i | i in Indices(edges)
      ensures !Crosses(edges, s, i)
    {
      assert i in order;
      var m :| 0 <= m < |order| && order[m] == i;
      assert Inside(edges, rep, order[m]);
    }
    assert Uncrossed(edges, Indices(edges), s) && 0 in s;
    assert !IsCut(n, s);
    OneClassConnected(n, edges, rep, f);
  }

  method Kruskal(n: int, edges: seq<Edge>, order: seq<int>) returns (total: int)
    requires Graph(n, edges) && Connected(n, edges, Indices(edges))
    requires Lists(edges, order) && Ascending(edges, order)
    ensures IsMinimum(n, edges, total)
  {
    var dsu := new DSU(n);
    total := 0;
    var edgesCount := 0;
    ghost var f: set<int> := {};
    NothingIsPromising(n, edges);
    NoEdgesComponents(n, edges, dsu.rep);
    WeightOfNone(edges, |edges|);
    var k := 0;
    while k < |order|
      invariant 0 <= k <= |order| && dsu.Valid() && fresh(dsu) && fresh(dsu.parent) && fresh(dsu.rank)
      invariant Components(n, edges, dsu.rep, f) && DoneInside(edges, order, k, dsu.rep)
      invariant forall i :: i in f ==> i in order[..k]
      invariant total == Weight(edges, f) && Promising(n, edges, f, Indices(edges))
      invariant |Roots(dsu.rep)| == n - edgesCount
    {
      var e := order[k];
      ghost var rep := dsu.rep;
      var joined := dsu.Unite(edges[e].u, edges[e].v);
      dsu.ValidLabels();
      if joined {
        NextIsLightest(n, edges, order, k, rep, f);
        UniteComponents(n, edges, rep, dsu.rep, f, e);
        assert e !in order[..k];
        WeightWith(edges, f, e);
        f := f + {e};
        total := total + edges[e].weight;
        edgesCount := edgesCount + 1;
        DoneStays(edges, order, k, rep, dsu.rep, edges[e].u, edges[e].v);
        if edgesCount == n - 1 {
          OneRoot(dsu.rep);
          OneClassConnected(n, edges, dsu.rep, f);
          ConnectedIsMinimum(n, edges, f);
          break;
        }
      }
      assert Inside(edges, dsu.rep, e);
      k := k + 1;
    }
    if k == |order| {
      AllInside(n, edges, order, dsu.rep, f);
      ConnectedIsMinimum(n, edges, f);
    }
  }

  lemma {:induction false} DoneStays(edges: seq<Edge>, order: seq<int>, k: int, rep: seq<int>, rep': seq<int>, u: int,
          v: int)
    requires DoneInside(edges, order, k, rep) && Merged(rep, rep', u, v)
    ensures DoneInside(edges, order, k, rep')
  {
    forall j | 0 <= j < k <= |order|
      ensures Inside(edges, rep', order[j])
    {
      StillInside(edges, rep, rep', u, v, order[j]);
    }
  }

  // ----- reverse-delete

  /** The edges, by index, whose place among the first m of the order is active. */
  ghost function ActiveBelow(order: seq<int>, active: seq<bool>, m: nat): set<int>
    requires m <= |active| == |order|
  {
    if m == 0 then {}
    else if active[m - 1] then ActiveBelow(order, active, m - 1) + {order[m - 1]}
    else ActiveBelow(order, active, m - 1)
  }

  ghost function ActiveSet(order: seq<int>, active: seq<bool>): set<int>
    requires |active| == |order|
  {
    ActiveBelow(order, active, |order|)
  }

  lemma {:induction false} ActiveMembers(edges: seq<Edge>, order: seq<int>, active: seq<bool>, m: nat)
    requires Lists(edges, order) && m <= |active| == |order|
    ensures ActiveBelow(order, active, m) <= Indices(edges)
    ensures forall k {:trigger order[k]} ::
              0 <= k < |order| ==> (order[k] in ActiveBelow(order, active, m) <==> k < m && active[k])
    decreases m
  {
    if m == 0 {
    } else {
      ActiveMembers(edges, order, active, m - 1);
    }
  }

  /** is_connected: as many unions succeed as it takes to leave one component. */
  method IsConnected(n: int, edges: seq<Edge>, order: seq<int>, active: array<bool>) returns (yes: bool)
    requires Graph(n, edges) && Lists(edges, order) && active.Length == |order|
    ensures yes <==> Connected(n, edges, ActiveSet(order, active[..]))
  {
    var dsu := new DSU(n);
    var components := n;
    NoEdgesComponents(n, edges, dsu.rep);
    var i := 0;
    while i < |order|
      invariant 0 <= i <= |order| && dsu.Valid() && fresh(dsu) && fresh(dsu.parent) && fresh(dsu.rank)
      invariant Components(n, edges, dsu.rep, ActiveBelow(order, active[..], i))
      invariant components == |Roots(dsu.rep)|
    {
      if active[i] {
        var e := order[i];
        ghost var rep := dsu.rep;
        var joined := dsu.Unite(edges[e].u, edges[e].v);
        dsu.ValidLabels();
        if joined {
          components := components - 1;
          UniteComponents(n, edges, rep, dsu.rep, ActiveBelow(order, active[..], i), e);
        } else {
          IdleComponents(n, edges, rep, ActiveBelow(order, active[..], i), e);
        }
      }
      i := i + 1;
    }
    OneRoot(dsu.rep);
    OneClassConnected(n, edges, dsu.rep, ActiveSet(order, active[..]));
    return components == 1;
  }

  lemma {:induction false} ActiveIn(edges: seq<Edge>, order: seq<int>, active: seq<bool>, k: int)
    requires Lists(edges, order) && |active| == |order| && 0 <= k < |order|
    ensures order[k] in ActiveSet(order, active) <==> active[k]
    ensures ActiveSet(order, active) <= Indices(edges)
    ensures ActiveSet(order, active[k := false]) == ActiveSet(order, active) - {order[k]}
  {
    ActiveMembers(edges, order, active, |order|);
    ActiveMembers(edges, order, active[k := false], |order|);
    forall i | i in Indices(edges)
      ensures i in ActiveSet(order, active[k := false]) <==> i in ActiveSet(order, active) && i != order[k]
    {
      assert i in order;
      var j :| 0 <= j < |order| && order[j] == i;
    }
  }

  /** The active edges among the first m of the order cannot be spared. */
  ghost predicate Needed(n: int, edges: seq<Edge>, order: seq<int>, a: set<int>, m: int) {
    forall j {:trigger order[j]} :: 0 <= j < m <= |order| && order[j] in a ==> !Connected(n, edges, a - {order[j]})
  }

  /** Dropping the m-th edge when the rest stays connected. */
  lemma {:induction false} Drop(n: int, edges: seq<Edge>, order: seq<int>, a: set<int>, m: int)
    requires Graph(n, edges) && Lists(edges, order) && Descending(edges, order) && 0 <= m < |order|
    requires Confined(n, edges, order, a, m) && order[m] in a && Connected(n, edges, a - {order[m]})
    ensures Confined(n, edges, order, a - {order[m]}, m + 1)
  {
    var e := order[m];
    forall i | i in a && Connected(n, edges, a - {i})
      ensures edges[i].weight <= edges[e].weight
    {
      assert i in order;
      var j :| 0 <= j < |order| && order[j] == i;
      assert j >= m;
    }
    CycleProperty(n, edges, a, e);
    forall j | 0 <= j < m + 1 && order[j] in a - {e}
      ensures !Connected(n, edges, a - {e} - {order[j]})
    {
      assert !Connected(n, edges, a - {order[j]});
      if Connected(n, edges, a - {e} - {order[j]}) {
        MoreIsConnected(n, edges, a - {e} - {order[j]}, a - {order[j]});
      }
    }
  }

  lemma {:induction false} AllNeeded(n: int, edges: seq<Edge>, order: seq<int>, a: set<int>)
    requires Lists(edges, order) && a <= Indices(edges) && Needed(n, edges, order, a, |order|) && Connected(n, edges, a)
    ensures SpanningTree(n, edges, a)
  {
    forall f | f in a
      ensures !Connected(n, edges, a - {f})
    {
      assert f in order;
      var j :| 0 <= j < |order| && order[j] == f;
      assert !Connected(n, edges, a - {order[j]});
    }
  }

  lemma {:induction false} AllActive(edges: seq<Edge>, order: seq<int>, active: seq<bool>)
    requires Lists(edges, order) && |active| == |order| && forall k :: 0 <= k < |active| ==> active[k]
    ensures ActiveSet(order, active) == Indices(edges)
  {
    ActiveMembers(edges, order, active, |order|);
    forall i | i in Indices(edges)
      ensures i in ActiveSet(order, active)
    {
      assert i in order;
      var j :| 0 <= j < |order| && order[j] == i;
    }
  }

  /** What the search is confined to, with the first m edges of the order decided. */
  ghost predicate Confined(n: int, edges: seq<Edge>, order: seq<int>, a: set<int>, m: int) {
    && a <= Indices(edges) && Connected(n, edges, a) && Promising(n, edges, {}, a) && Needed(n, edges, order, a, m)
  }

  lemma {:induction false} Keep(n: int, edges: seq<Edge>, order: seq<int>, a: set<int>, m: int)
    requires Confined(n, edges, order, a, m) && 0 <= m < |order| && !Connected(n, edges, a - {order[m]})
    ensures Confined(n, edges, order, a, m + 1)
  {
  }

  method ReverseDelete(n: int, edges: seq<Edge>, order: seq<int>) returns (total: int)
    requires Graph(n, edges) && Connected(n, edges, Indices(edges))
    requires Lists(edges, order) && Descending(edges, order)
    ensures IsMinimum(n, edges, total)
  {
    var active := new bool[|order|](i => true);
    AllActive(edges, order, active[..]);
    NothingIsPromising(n, edges);
    var i := 0;
    while i < |order|
      invariant 0 <= i <= |order|
      invariant forall k :: i <= k < |order| ==> active[k]
      invariant Confined(n, edges, order, ActiveSet(order, active[..]), i)
    {
      ghost var before := active[..];
      ActiveIn(edges, order, before, i);
      active[i] := false;
      assert active[..] == before[i := false];
      var yes := IsConnected(n, edges, order, active);
      if yes {
        Drop(n, edges, order, ActiveSet(order, before), i);
      } else {
        Keep(n, edges, order, ActiveSet(order, before), i);
        active[i] := true;
        assert active[..] == before;
      }
      i := i + 1;
    }
    AllNeeded(n, edges, order, ActiveSet(order, active[..]));
    TreeIsMinimum(n, edges, ActiveSet(order, active[..]));
    total := SumActive(n, edges, order, active);
  }

  method SumActive(n: int, edges: seq<Edge>, order: seq<int>, active: array<bool>) returns (total: int)
    requires Lists(edges, order) && active.Length == |order|
    ensures total == Weight(edges, ActiveSet(order, active[..]))
  {
    total := 0;
    var i := 0;
    WeightOfNone(edges, |edges|);
    while i < |order|
      invariant 0 <= i <= |order|
      invariant total == Weight(edges, ActiveBelow(order, active[..], i))
    {
      if active[i] {
        ActiveMembers(edges, order, active[..], i);
        WeightWith(edges, ActiveBelow(order, active[..], i), order[i]);
        total := total + edges[order[i]].weight;
      }
      i := i + 1;
    }
  }
}
