/**
 Prim's algorithm: a heap of edges out of the visited set, with stale entries left in it.
 */
module PrimSearch {
  import opened SpanningTrees
  import opened PairQueue

  /** Edge i leads from s to v with weight w. */
  predicate Offers(edges: seq<Edge>, s: set<int>, i: int, w: int, v: int) {
    0 <= i < |edges| && edges[i].weight == w
    && ((edges[i].v == v && edges[i].u in s) || (edges[i].u == v && edges[i].v in s))
  }

  ghost predicate Entry(edges: seq<Edge>, s: set<int>, p: Pair) {
    exists i :: Offers(edges, s, i, p.0, p.1)
  }

  /** The heap entry that edge i puts there when its end in s is visited. */
  function EntryOf(edges: seq<Edge>, s: set<int>, i: int): Pair
    requires 0 <= i < |edges|
  {
    (edges[i].weight, if edges[i].u in s then edges[i].v else edges[i].u)
  }

  ghost predicate Waiting(edges: seq<Edge>, s: set<int>, pq: multiset<Pair>, i: int) {
    0 <= i < |edges| && EntryOf(edges, s, i) in pq
  }

  ghost predicate AllEntries(edges: seq<Edge>, s: set<int>, pq: multiset<Pair>) {
    forall p {:trigger Entry(edges, s, p)} :: p in pq ==> Entry(edges, s, p)
  }

  ghost predicate AllWaiting(edges: seq<Edge>, s: set<int>, pq: multiset<Pair>) {
    forall i {:trigger Crosses(edges, s, i)} :: Crosses(edges, s, i) ==> Waiting(edges, s, pq, i)
  }

  predicate Within(edges: seq<Edge>, s: set<int>, i: int) {
    0 <= i < |edges| && edges[i].u in s && edges[i].v in s
  }

  /** f joins exactly the vertices of s, and can be completed to a lightest tree. */
  ghost predicate Grown(n: int, edges: seq<Edge>, s: set<int>, f: set<int>) {
    && s <= Vertices(n) && 0 in s && Promising(n, edges, f, Indices(edges))
    && (forall i {:trigger Within(edges, s, i)} :: i in f ==> Within(edges, s, i))
    && (forall x {:trigger Uncrossed(edges, f, x)} :: Uncrossed(edges, f, x) ==> s <= x || s !! x)
  }

  lemma {:induction false} Start(n: int, edges: seq<Edge>)
    requires Graph(n, edges)
    ensures Grown(n, edges, {0}, {})
  {
    NothingIsPromising(n, edges);
  }

  /** The entry taken from the heap, if it leads out of s, is a lightest edge out of s. */
  lemma {:induction false} Grow(n: int, edges: seq<Edge>, s: set<int>, f: set<int>, pq: multiset<Pair>, p: Pair, i: int)
    requires Graph(n, edges) && Grown(n, edges, s, f) && AllWaiting(edges, s, pq) && IsTop(pq, p)
    requires Offers(edges, s, i, p.0, p.1) && p.1 !in s
    ensures i !in f && Grown(n, edges, s + {p.1}, f + {i})
  {
    forall j | Crosses(edges, s, j)
      ensures edges[i].weight <= edges[j].weight
    {
      assert Waiting(edges, s, pq, j);
      assert Before(p, EntryOf(edges, s, j));
    }
    forall j | j in f
      ensures !Crosses(edges, s, j)
    {
      assert Within(edges, s, j);
    }
    assert !Within(edges, s, i);
    CutProperty(n, edges, f, s, i);
    forall j | j in f + {i}
      ensures Within(edges, s + {p.1}, j)
    {
      assert j in f ==> Within(edges, s, j);
    }
    forall x | Uncrossed(edges, f + {i}, x)
      ensures s + {p.1} <= x || s + {p.1} !! x
    {
      assert forall j :: j in f ==> j in f + {i};
      assert Uncrossed(edges, f, x);
      assert !Crosses(edges, x, i);
    }
  }

  /** With everything visited f is a lightest spanning tree. */
  lemma {:induction false} Finish(n: int, edges: seq<Edge>, s: set<int>, f: set<int>)
    requires Graph(n, edges) && Connected(n, edges, Indices(edges)) && Grown(n, edges, s, f) && s == Vertices(n)
    ensures IsMinimum(n, edges, Weight(edges, f))
  {
    forall x | Uncrossed(edges, f, x)
      ensures !IsCut(n, x)
    {
      assert s <= x || s !! x;
    }
    ConnectedIsMinimum(n, edges, f);
  }

  /** On a connected graph the heap runs empty only when everything is visited. */
  lemma {:induction false} NothingWaits(n: int, edges: seq<Edge>, s: set<int>, pq: multiset<Pair>)
    requires Connected(n, edges, Indices(edges)) && s <= Vertices(n) && 0 in s && AllWaiting(edges, s, pq) && |pq| == 0
    ensures s == Vertices(n)
  {
    forall i | i in Indices(edges)
      ensures !Crosses(edges, s, i)
    {
      assert !Waiting(edges, s, pq, i);
    }
    assert Uncrossed(edges, Indices(edges), s);
    assert !IsCut(n, s);
  }

  // ----- adjacency lists

  /** Entry (v, w) of u's list stands for an edge between u and v of weight w. */
  ghost predicate Listed(edges: seq<Edge>, u: int, e: Pair) {
    exists i :: Joins(edges, i, u, e.0) && edges[i].weight == e.1
  }

  ghost predicate ListsOf(edges: seq<Edge>, adj: seq<seq<Pair>>, m: int) {
    && (forall u, j {:trigger adj[u][j]} :: 0 <= u < |adj| && 0 <= j < |adj[u]| ==> Listed(edges, u, adj[u][j]))
    && (forall i {:trigger InLists(edges, adj, i)} :: 0 <= i < m <= |edges| ==> InLists(edges, adj, i))
  }

  predicate InLists(edges: seq<Edge>, adj: seq<seq<Pair>>, i: int) {
    && 0 <= i < |edges| && 0 <= edges[i].u < |adj| && 0 <= edges[i].v < |adj|
    && (edges[i].v, edges[i].weight) in adj[edges[i].u] && (edges[i].u, edges[i].weight) in adj[edges[i].v]
  }

  method BuildLists(n: int, edges: seq<Edge>) returns (adj: array<seq<Pair>>)
    requires Graph(n, edges)
    ensures fresh(adj) && adj.Length == n && ListsOf(edges, adj[..], |edges|)
  {
    adj := new seq<Pair>[n](i => []);
    var k := 0;
    while k < |edges|
      invariant 0 <= k <= |edges| && ListsOf(edges, adj[..], k)
    {
      var e := edges[k];
      ghost var before := adj[..];
      assert Joins(edges, k, e.u, e.v) && Joins(edges, k, e.v, e.u);
      adj[e.u] := adj[e.u] + [(e.v, e.weight)];
      adj[e.v] := adj[e.v] + [(e.u, e.weight)];
      forall i | 0 <= i < k + 1
        ensures InLists(edges, adj[..], i)
      {
        assert i < k ==> InLists(edges, before, i);
      }
      k := k + 1;
    }
  }

  // ----- visiting a vertex

  /** Edges out of s' = s + {u} wait in the heap, but for those in u's list from place j on. */
  ghost predicate WaitingFrom(edges: seq<Edge>, s: set<int>, pq: multiset<Pair>, list: seq<Pair>, j: int) {
    forall i {:trigger Crosses(edges, s, i)} :: Crosses(edges, s, i) ==>
      Waiting(edges, s, pq, i) || (0 <= j <= |list| && (EntryOf(edges, s, i).1, edges[i].weight) in list[j..])
  }

  lemma {:induction false} Visit(n: int, edges: seq<Edge>, s: set<int>, pq: multiset<Pair>, rest: multiset<Pair>,
          p: Pair, adj: seq<seq<Pair>>)
    requires Graph(n, edges) && |adj| == n && ListsOf(edges, adj, |edges|) && p.1 !in s && 0 <= p.1 < n
    requires AllWaiting(edges, s, pq) && AllEntries(edges, s, pq) && p in pq && rest == pq - multiset{p}
    ensures WaitingFrom(edges, s + {p.1}, rest, adj[p.1], 0) && AllEntries(edges, s + {p.1}, rest)
  {
    forall i | Crosses(edges, s + {p.1}, i)
      ensures Waiting(edges, s + {p.1}, rest, i) || (EntryOf(edges, s + {p.1}, i).1, edges[i].weight) in adj[p.1][0..]
    {
      assert adj[p.1][0..] == adj[p.1];
      assert InLists(edges, adj, i);
      if edges[i].u != p.1 && edges[i].v != p.1 {
        assert Crosses(edges, s, i);
        assert Waiting(edges, s, pq, i);
      }
    }
    EntriesGrow(edges, s, p.1, pq, rest);
  }

  lemma {:induction false} EntriesGrow(edges: seq<Edge>, s: set<int>, u: int, pq: multiset<Pair>, rest: multiset<Pair>)
    requires AllEntries(edges, s, pq) && rest <= pq
    ensures AllEntries(edges, s + {u}, rest)
  {
    forall q | q in rest
      ensures Entry(edges, s + {u}, q)
    {
      assert Entry(edges, s, q);
      var i :| Offers(edges, s, i, q.0, q.1);
      assert Offers(edges, s + {u}, i, q.0, q.1);
    }
  }

  /** A stale entry may be dropped. */
  lemma {:induction false} Stale(edges: seq<Edge>, s: set<int>, pq: multiset<Pair>, rest: multiset<Pair>, p: Pair)
    requires AllWaiting(edges, s, pq) && AllEntries(edges, s, pq) && p in pq && rest == pq - multiset{p} && p.1 in s
    ensures AllWaiting(edges, s, rest) && AllEntries(edges, s, rest)
  {
    forall i | Crosses(edges, s, i)
      ensures Waiting(edges, s, rest, i)
    {
      assert Waiting(edges, s, pq, i);
    }
  }

  lemma {:induction false} PushOne(edges: seq<Edge>, s: set<int>, u: int, pq: multiset<Pair>, list: seq<Pair>, j: int)
    requires u in s && 0 <= j < |list| && Listed(edges, u, list[j])
    requires WaitingFrom(edges, s, pq, list, j) && AllEntries(edges, s, pq)
    ensures var pq' := if list[j].0 in s then pq else pq + multiset{(list[j].1, list[j].0)};
            WaitingFrom(edges, s, pq', list, j + 1) && AllEntries(edges, s, pq')
  {
    var i0 :| Joins(edges, i0, u, list[j].0) && edges[i0].weight == list[j].1;
    assert Offers(edges, s, i0, list[j].1, list[j].0);
    var pq' := if list[j].0 in s then pq else pq + multiset{(list[j].1, list[j].0)};
    assert list[j..] == [list[j]] + list[j + 1..];
    forall q | q in pq'
      ensures Entry(edges, s, q)
    {
      assert q in pq || q == (list[j].1, list[j].0);
    }
    forall i | Crosses(edges, s, i)
      ensures Waiting(edges, s, pq', i) || (EntryOf(edges, s, i).1, edges[i].weight) in list[j + 1..]
    {
    }
  }

  lemma {:induction false} ListedVertex(n: int, edges: seq<Edge>, u: int, e: Pair)
    requires Graph(n, edges) && Listed(edges, u, e)
    ensures 0 <= e.0 < n
  {
    var i :| Joins(edges, i, u, e.0) && edges[i].weight == e.1;
    assert edges[i] == edges[i];
  }

  lemma {:induction false} AllPushed(edges: seq<Edge>, s: set<int>, pq: multiset<Pair>, list: seq<Pair>)
    requires WaitingFrom(edges, s, pq, list, |list|)
    ensures AllWaiting(edges, s, pq)
  {
    assert list[|list|..] == [];
  }

  lemma {:induction false} FirstOrLater(n: int, edges: seq<Edge>, s: set<int>, pq: multiset<Pair>,
          rest: multiset<Pair>, p: Pair, adj: seq<seq<Pair>>)
    requires Graph(n, edges) && |adj| == n && ListsOf(edges, adj, |edges|) && p.1 !in s && 0 <= p.1 < n
    requires p in pq && rest == pq - multiset{p}
    requires s == {} ==> pq == multiset{p}
    requires s != {} ==> AllWaiting(edges, s, pq) && AllEntries(edges, s, pq)
    ensures WaitingFrom(edges, s + {p.1}, rest, adj[p.1], 0) && AllEntries(edges, s + {p.1}, rest)
  {
    if s == {} {
      forall i | Crosses(edges, s + {p.1}, i)
        ensures (EntryOf(edges, s + {p.1}, i).1, edges[i].weight) in adj[p.1][0..]
      {
        assert adj[p.1][0..] == adj[p.1];
        assert InLists(edges, adj, i);
      }
    } else {
      Visit(n, edges, s, pq, rest, p, adj);
    }
  }

  lemma {:induction false} SmallerThanAll(n: int, s: set<int>)
    requires 0 <= n && s <= Vertices(n)
    ensures |s| <= n
  {
    if s != Vertices(n) {
      Smaller(s, Vertices(n));
    }
  }

  lemma {:induction false} WholeSet(n: int, s: set<int>)
    requires 0 <= n && s <= Vertices(n) && |s| >= n
    ensures s == Vertices(n)
  {
    if s != Vertices(n) {
      Smaller(s, Vertices(n));
    }
  }

  /** What holds between two pops: nothing is visited yet, or s is. */
  ghost predicate Between(n: int, edges: seq<Edge>, s: set<int>, f: set<int>, pq: multiset<Pair>) {
    && s <= Vertices(n)
    && (s == {} ==> pq == multiset{(0, 0)} && f == {})
    && (s != {} ==> Grown(n, edges, s, f) && AllWaiting(edges, s, pq) && AllEntries(edges, s, pq))
  }

  lemma {:induction false} Skip(n: int, edges: seq<Edge>, s: set<int>, f: set<int>, pq: multiset<Pair>,
          rest: multiset<Pair>, p: Pair)
    requires Between(n, edges, s, f, pq) && p in pq && rest == pq - multiset{p} && p.1 in s
    ensures Between(n, edges, s, f, rest)
  {
    Stale(edges, s, pq, rest, p);
  }

  /** Visiting p's vertex adds its edge, if it is not the first vertex, to the tree. */
  lemma {:induction false} Take(n: int, edges: seq<Edge>, s: set<int>, f: set<int>, pq: multiset<Pair>, p: Pair)
    returns (f': set<int>)
    requires Graph(n, edges) && Between(n, edges, s, f, pq) && IsTop(pq, p) && p.1 !in s
    ensures 0 <= p.1 < n && Grown(n, edges, s + {p.1}, f') && Weight(edges, f') == Weight(edges, f) + p.0
  {
    if s == {} {
      Start(n, edges);
      assert {0} == s + {p.1};
      f' := {};
    } else {
      assert Entry(edges, s, p);
      var i :| Offers(edges, s, i, p.0, p.1);
      assert edges[i] == edges[i];
      Grow(n, edges, s, f, pq, p, i);
      WeightWith(edges, f, i);
      f' := f + {i};
    }
  }

  predicate Marks(marks: seq<bool>, n: int, s: set<int>) {
    |marks| == n && forall v {:trigger marks[v]} :: 0 <= v < n ==> (marks[v] <==> v in s)
  }

  lemma {:induction false} ListOf(edges: seq<Edge>, adj: seq<seq<Pair>>, u: int)
    requires ListsOf(edges, adj, |edges|) && 0 <= u < |adj|
    ensures forall j {:trigger adj[u][j]} :: 0 <= j < |adj[u]| ==> Listed(edges, u, adj[u][j])
  {
  }

  method PushNeighbours(n: int, edges: seq<Edge>, list: seq<Pair>, inCut: array<bool>, u: int, pq: multiset<Pair>,
          ghost s: set<int>)
    returns (pq': multiset<Pair>)
    requires Graph(n, edges) && Marks(inCut[..], n, s) && u in s
    requires forall j {:trigger list[j]} :: 0 <= j < |list| ==> Listed(edges, u, list[j])
    requires WaitingFrom(edges, s, pq, list, 0) && AllEntries(edges, s, pq)
    ensures AllWaiting(edges, s, pq') && AllEntries(edges, s, pq')
  {
    pq' := pq;
    var j := 0;
    while j < |list|
      invariant 0 <= j <= |list|
      invariant WaitingFrom(edges, s, pq', list, j) && AllEntries(edges, s, pq')
    {
      var v, weight := list[j].0, list[j].1;
      PushOne(edges, s, u, pq', list, j);
      ListedVertex(n, edges, u, list[j]);
      if !inCut[v] {
        pq' := pq' + multiset{(weight, v)};
      }
      j := j + 1;
    }
    AllPushed(edges, s, pq', list);
  }

  method Prim(n: int, edges: seq<Edge>) returns (total: int)
    requires Graph(n, edges) && Connected(n, edges, Indices(edges))
    ensures IsMinimum(n, edges, total)
  {
    var adj := BuildLists(n, edges);
    ghost var lists := adj[..];
    var inCut := new bool[n](i => false);
    var pq: multiset<Pair> := multiset{(0, 0)};
    total := 0;
    var visited := 0;
    ghost var s: set<int> := {};
    ghost var f: set<int> := {};
    WeightOfNone(edges, |edges|);
    while |pq| > 0 && visited < n
      invariant Marks(inCut[..], n, s) && visited == |s|
      invariant total == Weight(edges, f) && Between(n, edges, s, f, pq)
      decreases n - visited, |pq|
      modifies inCut
    {
      var p, rest := Pop(pq);
      var w, u := p.0, p.1;
      TopVertex(n, edges, s, f, pq, p);
      if inCut[u] {
        Skip(n, edges, s, f, pq, rest, p);
        pq := rest;
      } else {
        ghost var marks := inCut[..];
        inCut[u] := true;
        assert inCut[..] == marks[u := true];
        f := Take(n, edges, s, f, pq, p);
        total := total + w;
        FirstOrLater(n, edges, s, pq, rest, p, lists);
        s := s + {u};
        SmallerThanAll(n, s);
        visited := visited + 1;
        ListOf(edges, lists, u);
        pq := PushNeighbours(n, edges, adj[u], inCut, u, rest, s);
      }
    }
    if visited < n {
      assert s != {};
      NothingWaits(n, edges, s, pq);
    } else {
      WholeSet(n, s);
    }
    Finish(n, edges, s, f);
  }

  lemma {:induction false} TopVertex(n: int, edges: seq<Edge>, s: set<int>, f: set<int>, pq: multiset<Pair>, p: Pair)
    requires Graph(n, edges) && Between(n, edges, s, f, pq) && IsTop(pq, p)
    ensures 0 <= p.1 < n && (s == {} ==> pq == multiset{p})
  {
    if s != {} {
      assert Entry(edges, s, p);
      var i :| Offers(edges, s, i, p.0, p.1);
      assert edges[i] == edges[i];
    }
  }
}
