/**
 Spanning trees seen through cuts: a set of edges is connected when it crosses every cut, and a
 spanning tree is a connected set that no edge can leave.  Edges are named by their index, so
 parallel edges and self-loops are no special case.
 */
module SpanningTrees {

  datatype Edge = Edge(u: int, v: int, weight: int)

  ghost predicate Graph(n: int, edges: seq<Edge>) {
    1 <= n && forall i {:trigger edges[i]} :: 0 <= i < |edges| ==> 0 <= edges[i].u < n && 0 <= edges[i].v < n
  }

  /** The numbers below n. */
  function Vertices(n: int): (s: set<int>)
    ensures forall v :: v in s <==> 0 <= v < n
    ensures 0 <= n ==> |s| == n
  {
    if n <= 0 then {} else Vertices(n - 1) + {n - 1}
  }

  function Indices(edges: seq<Edge>): set<int> {
    Vertices(|edges|)
  }

  predicate Crosses(edges: seq<Edge>, s: set<int>, i: int) {
    0 <= i < |edges| && (edges[i].u in s) != (edges[i].v in s)
  }

  predicate IsCut(n: int, s: set<int>) {
    s != {} && s < Vertices(n)
  }

  ghost predicate Uncrossed(edges: seq<Edge>, a: set<int>, s: set<int>) {
    forall i {:trigger Crosses(edges, s, i)} :: i in a ==> !Crosses(edges, s, i)
  }

  ghost predicate Connected(n: int, edges: seq<Edge>, a: set<int>) {
    forall s {:trigger IsCut(n, s)} :: IsCut(n, s) ==> !Uncrossed(edges, a, s)
  }

  ghost predicate SpanningTree(n: int, edges: seq<Edge>, t: set<int>) {
    && t <= Indices(edges) && Connected(n, edges, t)
    && forall f {:trigger t - {f}} :: f in t ==> !Connected(n, edges, t - {f})
  }

  function WeightBelow(edges: seq<Edge>, a: set<int>, k: nat): int
    requires k <= |edges|
  {
    if k == 0 then 0 else WeightBelow(edges, a, k - 1) + if k - 1 in a then edges[k - 1].weight else 0
  }

  function Weight(edges: seq<Edge>, a: set<int>): int {
    WeightBelow(edges, a, |edges|)
  }

  /** w is the least total of any spanning tree. */
  ghost predicate IsMinimum(n: int, edges: seq<Edge>, w: int) {
    && (exists t :: SpanningTree(n, edges, t) && Weight(edges, t) == w)
    && forall t :: SpanningTree(n, edges, t) ==> w <= Weight(edges, t)
  }

  // ----- weights

  lemma {:induction false} WeightBelowWith(edges: seq<Edge>, a: set<int>, i: int, k: nat)
    requires k <= |edges| && 0 <= i < |edges| && i !in a
    ensures WeightBelow(edges, a + {i}, k) == WeightBelow(edges, a, k) + if i < k then edges[i].weight else 0
    decreases k
  {
    if k == 0 {
    } else {
      WeightBelowWith(edges, a, i, k - 1);
    }
  }

  lemma {:induction false} WeightWith(edges: seq<Edge>, a: set<int>, i: int)
    requires 0 <= i < |edges| && i !in a
    ensures Weight(edges, a + {i}) == Weight(edges, a) + edges[i].weight
  {
    WeightBelowWith(edges, a, i, |edges|);
  }

  lemma {:induction false} WeightWithout(edges: seq<Edge>, a: set<int>, i: int)
    requires 0 <= i < |edges| && i in a
    ensures Weight(edges, a - {i}) == Weight(edges, a) - edges[i].weight
  {
    assert a - {i} + {i} == a;
    WeightWith(edges, a - {i}, i);
  }

  lemma {:induction false} WeightOfNone(edges: seq<Edge>, k: nat)
    requires k <= |edges|
    ensures WeightBelow(edges, {}, k) == 0
    decreases k
  {
    if k == 0 {
    } else {
      WeightOfNone(edges, k - 1);
    }
  }

  // ----- cuts

  /** The symmetric difference of two sets. */
  function Xor(s: set<int>, x: set<int>): set<int> {
    (s - x) + (x - s)
  }

  lemma {:induction false} CrossesXor(edges: seq<Edge>, s: set<int>, x: set<int>, i: int)
    requires 0 <= i < |edges|
    ensures Crosses(edges, Xor(s, x), i) == (Crosses(edges, s, i) != Crosses(edges, x, i))
  {
  }

  /** A set that a connected edge set does not cross is no cut, so no edge at all crosses it. */
  lemma {:induction false} NoCut(n: int, edges: seq<Edge>, a: set<int>, s: set<int>, i: int)
    requires Graph(n, edges) && Connected(n, edges, a) && s <= Vertices(n) && Uncrossed(edges, a, s) && 0 <= i < |edges|
    ensures s == {} || s == Vertices(n)
    ensures !Crosses(edges, s, i)
  {
    assert !IsCut(n, s);
  }

  lemma {:induction false} MoreIsConnected(n: int, edges: seq<Edge>, a: set<int>, b: set<int>)
    requires Connected(n, edges, a) && a <= b
    ensures Connected(n, edges, b)
  {
    forall s | IsCut(n, s)
      ensures !Uncrossed(edges, b, s)
    {
      assert !Uncrossed(edges, a, s);
    }
  }

  /** Only f, of the edges of a, crosses x. */
  ghost predicate OnlyCrossing(n: int, edges: seq<Edge>, a: set<int>, x: set<int>, f: int) {
    IsCut(n, x) && Crosses(edges, x, f) && Uncrossed(edges, a - {f}, x)
  }

  /** Every edge of a spanning tree is alone in crossing some cut. */
  lemma {:induction false} CutOf(n: int, edges: seq<Edge>, t: set<int>, f: int) returns (x: set<int>)
    requires SpanningTree(n, edges, t) && f in t
    ensures OnlyCrossing(n, edges, t, x, f)
  {
    assert !Connected(n, edges, t - {f});
    x :| IsCut(n, x) && Uncrossed(edges, t - {f}, x);
    assert !Uncrossed(edges, t, x);
  }

  function Crossing(edges: seq<Edge>, t: set<int>, s: set<int>): set<int> {
    set i | i in t && Crosses(edges, s, i)
  }

  /** If e crosses s then some tree edge f crosses s too and e crosses f's cut x. */
  lemma {:induction false} FindExchange(n: int, edges: seq<Edge>, t: set<int>, e: int, s: set<int>)
    returns (f: int, x: set<int>)
    requires Graph(n, edges) && SpanningTree(n, edges, t) && s <= Vertices(n) && Crosses(edges, s, e)
    ensures f in t && Crosses(edges, s, f) && OnlyCrossing(n, edges, t, x, f) && Crosses(edges, x, e)
    decreases |Crossing(edges, t, s)|
  {
    if Crossing(edges, t, s) == {} {
      assert Uncrossed(edges, t, s) by {
        forall i | i in t
          ensures !Crosses(edges, s, i)
        {
          assert i !in Crossing(edges, t, s);
        }
      }
      NoCut(n, edges, t, s, e);
    }
    f :| f in Crossing(edges, t, s);
    x := CutOf(n, edges, t, f);
    if !Crosses(edges, x, e) {
      var s' := Xor(s, x);
      forall i | i in t
        ensures Crosses(edges, s', i) == (Crosses(edges, s, i) && i != f)
      {
        CrossesXor(edges, s, x, i);
        assert i != f ==> i in t - {f};
      }
      CrossesXor(edges, s, x, e);
      assert Crossing(edges, t, s') < Crossing(edges, t, s) by {
        assert f !in Crossing(edges, t, s');
      }
      Smaller(Crossing(edges, t, s'), Crossing(edges, t, s));
      f, x := FindExchange(n, edges, t, e, s');
    }
  }

  lemma {:induction false} Smaller(a: set<int>, b: set<int>)
    requires a < b
    ensures |a| < |b|
  {
    var d := b - a;
    assert a + d == b && d != {};
  }

  lemma {:induction false} ExchangeSparesNone(n: int, edges: seq<Edge>, t: set<int>, f: int, x: set<int>, e: int,
          g: int)
    requires Graph(n, edges) && SpanningTree(n, edges, t) && f in t && e !in t
    requires OnlyCrossing(n, edges, t, x, f) && Crosses(edges, x, e) && g in t - {f} + {e}
    ensures !Connected(n, edges, t - {f} + {e} - {g})
  {
    var y := ExchangedCut(n, edges, t, f, x, e, g);
    assert IsCut(n, y) && Uncrossed(edges, t - {f} + {e} - {g}, y);
  }

  /** Exchanging f for an edge that crosses f's cut gives a spanning tree. */
  lemma {:induction false} ExchangeKeepsTree(n: int, edges: seq<Edge>, t: set<int>, f: int, x: set<int>, e: int)
    requires Graph(n, edges) && SpanningTree(n, edges, t) && f in t && e !in t
    requires OnlyCrossing(n, edges, t, x, f) && Crosses(edges, x, e)
    ensures SpanningTree(n, edges, t - {f} + {e})
    ensures Weight(edges, t - {f} + {e}) == Weight(edges, t) - edges[f].weight + edges[e].weight
  {
    var t' := t - {f} + {e};
    forall y | IsCut(n, y)
      ensures !Uncrossed(edges, t', y)
    {
      ExchangeCrosses(n, edges, t, f, x, e, y);
    }
    forall g | g in t'
      ensures !Connected(n, edges, t' - {g})
    {
      ExchangeSparesNone(n, edges, t, f, x, e, g);
    }
    WeightWithout(edges, t, f);
    WeightWith(edges, t - {f}, e);
  }

  lemma {:induction false} ExchangeCrosses(n: int, edges: seq<Edge>, t: set<int>, f: int, x: set<int>, e: int,
          y: set<int>)
    requires Graph(n, edges) && SpanningTree(n, edges, t) && f in t && e !in t
    requires OnlyCrossing(n, edges, t, x, f) && Crosses(edges, x, e) && IsCut(n, y)
    ensures !Uncrossed(edges, t - {f} + {e}, y)
  {
    if Uncrossed(edges, t - {f} + {e}, y) {
      var z := Xor(y, x);
      forall i | i in t
        ensures !Crosses(edges, z, i)
      {
        CrossesXor(edges, y, x, i);
        assert !Uncrossed(edges, t, y);
        assert i != f ==> i in t - {f} && i in t - {f} + {e};
      }
      CrossesXor(edges, y, x, e);
      assert e in t - {f} + {e};
      NoCut(n, edges, t, z, e);
    }
  }

  /** A cut that g alone crosses, in the tree after the exchange. */
  lemma {:induction false} ExchangedCut(n: int, edges: seq<Edge>, t: set<int>, f: int, x: set<int>, e: int, g: int)
    returns (y: set<int>)
    requires Graph(n, edges) && SpanningTree(n, edges, t) && f in t && e !in t
    requires OnlyCrossing(n, edges, t, x, f) && Crosses(edges, x, e) && g in t - {f} + {e}
    ensures IsCut(n, y) && Uncrossed(edges, t - {f} + {e} - {g}, y)
  {
    var t' := t - {f} + {e};
    if g == e {
      y := x;
      forall i | i in t' - {g}
        ensures !Crosses(edges, y, i)
      {
        assert i in t - {f};
      }
    } else {
      var xg := CutOf(n, edges, t, g);
      if Crosses(edges, xg, e) {
        y := Xor(xg, x);
        BothCuts(n, edges, t, f, x, e, g, xg);
      } else {
        y := xg;
        forall i | i in t' - {g}
          ensures !Crosses(edges, y, i)
        {
          assert i != e ==> i in t - {g};
        }
      }
    }
  }

  /** The new edge e crosses both cuts, so it does not cross their difference; g still does. */
  lemma {:induction false} BothCuts(n: int, edges: seq<Edge>, t: set<int>, f: int, x: set<int>, e: int, g: int,
          xg: set<int>)
    requires Graph(n, edges) && t <= Indices(edges) && f in t && g in t && f != g && e !in t
    requires OnlyCrossing(n, edges, t, x, f) && OnlyCrossing(n, edges, t, xg, g)
    requires Crosses(edges, x, e) && Crosses(edges, xg, e)
    ensures IsCut(n, Xor(xg, x)) && Uncrossed(edges, t - {f} + {e} - {g}, Xor(xg, x))
  {
    forall i | i in t - {f} + {e} - {g}
      ensures !Crosses(edges, Xor(xg, x), i)
    {
      CrossesXor(edges, xg, x, i);
      assert i != e ==> i in t - {f} && i in t - {g};
    }
    assert g in t - {f};
    CrossesXor(edges, xg, x, g);
  }

  // ----- the greedy argument

  /** f can be completed to a spanning tree inside `within` that is as light as any given one. */
  ghost predicate Promising(n: int, edges: seq<Edge>, f: set<int>, within: set<int>) {
    forall t {:trigger Completable(n, edges, f, within, t)} ::
        SpanningTree(n, edges, t) ==> Completable(n, edges, f, within, t)
  }

  ghost predicate Completable(n: int, edges: seq<Edge>, f: set<int>, within: set<int>, t: set<int>) {
    exists t' :: Completes(n, edges, f, within, t, t')
  }

  ghost predicate Completes(n: int, edges: seq<Edge>, f: set<int>, within: set<int>, t: set<int>, t': set<int>) {
    SpanningTree(n, edges, t') && f <= t' <= within && Weight(edges, t') <= Weight(edges, t)
  }

  lemma {:induction false} NothingIsPromising(n: int, edges: seq<Edge>)
    ensures Promising(n, edges, {}, Indices(edges))
  {
    forall t | SpanningTree(n, edges, t)
      ensures Completable(n, edges, {}, Indices(edges), t)
    {
      assert Completes(n, edges, {}, Indices(edges), t, t);
    }
  }

  /** The cut property: a lightest edge across a cut that f does not cross may be added to f. */
  lemma {:induction false} CutProperty(n: int, edges: seq<Edge>, f: set<int>, s: set<int>, e: int)
    requires Graph(n, edges) && Promising(n, edges, f, Indices(edges)) && s <= Vertices(n)
    requires Uncrossed(edges, f, s) && Crosses(edges, s, e)
    requires forall i {:trigger Crosses(edges, s, i)} :: Crosses(edges, s, i) ==> edges[e].weight <= edges[i].weight
    ensures Promising(n, edges, f + {e}, Indices(edges))
  {
    forall t | SpanningTree(n, edges, t)
      ensures Completable(n, edges, f + {e}, Indices(edges), t)
    {
      assert Completable(n, edges, f, Indices(edges), t);
      var t1 :| Completes(n, edges, f, Indices(edges), t, t1);
      if e in t1 {
        assert Completes(n, edges, f + {e}, Indices(edges), t, t1);
      } else {
        var d, x := FindExchange(n, edges, t1, e, s);
        ExchangeKeepsTree(n, edges, t1, d, x, e);
        assert d !in f;
        assert Completes(n, edges, f + {e}, Indices(edges), t, t1 - {d} + {e});
      }
    }
  }

  /** The cycle property: an edge that a connected set can spare is not needed, if everything in
      the set that can be spared is no heavier. */
  lemma {:induction false} CycleProperty(n: int, edges: seq<Edge>, a: set<int>, e: int)
    requires Graph(n, edges) && Promising(n, edges, {}, a) && e in a && Connected(n, edges, a - {e})
    requires a <= Indices(edges)
    requires forall i {:trigger a - {i}} ::
              i in a && Connected(n, edges, a - {i}) ==> edges[i].weight <= edges[e].weight
    ensures Promising(n, edges, {}, a - {e})
  {
    forall t | SpanningTree(n, edges, t)
      ensures Completable(n, edges, {}, a - {e}, t)
    {
      assert Completable(n, edges, {}, a, t);
      var t1 :| Completes(n, edges, {}, a, t, t1);
      if e !in t1 {
        assert Completes(n, edges, {}, a - {e}, t, t1);
      } else {
        var x := CutOf(n, edges, t1, e);
        assert !Uncrossed(edges, a - {e}, x);
        var d :| d in a - {e} && Crosses(edges, x, d);
        assert d !in t1;
        ExchangeKeepsTree(n, edges, t1, e, x, d);
        MoreIsConnected(n, edges, t1, a - {d});
        assert d in a && Connected(n, edges, a - {d});
        assert Completes(n, edges, {}, a - {e}, t, t1 - {e} + {d});
      }
    }
  }

  /** A connected set contains a spanning tree. */
  lemma {:induction false} HasTree(n: int, edges: seq<Edge>, a: set<int>) returns (t: set<int>)
    requires Connected(n, edges, a) && a <= Indices(edges)
    ensures SpanningTree(n, edges, t) && t <= a
    decreases |a|
  {
    if f :| f in a && Connected(n, edges, a - {f}) {
      Smaller(a - {f}, a);
      t := HasTree(n, edges, a - {f});
    } else {
      t := a;
    }
  }

  /** A connected set inside a spanning tree is the tree. */
  lemma {:induction false} WholeTree(n: int, edges: seq<Edge>, a: set<int>, t: set<int>)
    requires SpanningTree(n, edges, t) && Connected(n, edges, a) && a <= t
    ensures a == t
  {
    if f :| f in t && f !in a {
      MoreIsConnected(n, edges, a, t - {f});
    }
  }

  /** A promising set that is itself connected is a lightest spanning tree. */
  lemma {:induction false} ConnectedIsMinimum(n: int, edges: seq<Edge>, f: set<int>)
    requires Connected(n, edges, Indices(edges)) && Promising(n, edges, f, Indices(edges)) && Connected(n, edges, f)
    ensures SpanningTree(n, edges, f) && IsMinimum(n, edges, Weight(edges, f))
  {
    forall t | SpanningTree(n, edges, t)
      ensures SpanningTree(n, edges, f) && Weight(edges, f) <= Weight(edges, t)
    {
      assert Completable(n, edges, f, Indices(edges), t);
      var t' :| Completes(n, edges, f, Indices(edges), t, t');
      WholeTree(n, edges, f, t');
    }
    var t := HasTree(n, edges, Indices(edges));
  }

  /** A set to which the whole search is confined, and which can spare nothing, is one too. */
  lemma {:induction false} TreeIsMinimum(n: int, edges: seq<Edge>, a: set<int>)
    requires SpanningTree(n, edges, a) && Promising(n, edges, {}, a)
    ensures IsMinimum(n, edges, Weight(edges, a))
  {
    forall t | SpanningTree(n, edges, t)
      ensures Weight(edges, a) <= Weight(edges, t)
    {
      assert Completable(n, edges, {}, a, t);
      var t' :| Completes(n, edges, {}, a, t, t');
      WholeTree(n, edges, t', a);
    }
  }

  lemma {:induction false} SameMinimum(n: int, edges: seq<Edge>, w1: int, w2: int)
    requires IsMinimum(n, edges, w1) && IsMinimum(n, edges, w2)
    ensures w1 == w2
  {
    var t1 :| SpanningTree(n, edges, t1) && Weight(edges, t1) == w1;
    var t2 :| SpanningTree(n, edges, t2) && Weight(edges, t2) == w2;
    assert w1 <= Weight(edges, t2) && w2 <= Weight(edges, t1);
  }

  // ----- connected means what it should: a walk between any two vertices

  predicate Joins(edges: seq<Edge>, i: int, u: int, v: int) {
    0 <= i < |edges| && ((edges[i].u == u && edges[i].v == v) || (edges[i].u == v && edges[i].v == u))
  }

  ghost predicate Adjacent(edges: seq<Edge>, a: set<int>, u: int, v: int) {
    exists i :: i in a && Joins(edges, i, u, v)
  }

  ghost predicate Walk(edges: seq<Edge>, a: set<int>, p: seq<int>, u: int, v: int) {
    && 0 < |p| && p[0] == u && p[|p| - 1] == v
    && forall k {:trigger p[k]} :: 0 < k < |p| ==> Adjacent(edges, a, p[k - 1], p[k])
  }

  ghost predicate Reaches(edges: seq<Edge>, a: set<int>, u: int, v: int) {
    exists p :: Walk(edges, a, p, u, v)
  }

  lemma {:induction false} ReachesOneMore(edges: seq<Edge>, a: set<int>, u: int, v: int, w: int)
    requires Reaches(edges, a, u, v) && Adjacent(edges, a, v, w)
    ensures Reaches(edges, a, u, w)
  {
    var p :| Walk(edges, a, p, u, v);
    assert Walk(edges, a, p + [w], u, w);
  }

  /** A walk that leaves s crosses its boundary. */
  lemma {:induction false} WalkCrosses(edges: seq<Edge>, a: set<int>, p: seq<int>, u: int, v: int, s: set<int>)
    requires Walk(edges, a, p, u, v) && u in s && v !in s
    ensures !Uncrossed(edges, a, s)
    decreases |p|
  {
    var w := p[|p| - 2];
    assert Adjacent(edges, a, w, p[|p| - 1]);
    if w in s {
      var i :| i in a && Joins(edges, i, w, v);
      assert Crosses(edges, s, i);
    } else {
      WalkCrosses(edges, a, p[..|p| - 1], u, w, s);
    }
  }

  lemma {:induction false} ConnectedReaches(n: int, edges: seq<Edge>, a: set<int>, u: int, v: int)
    requires Graph(n, edges) && a <= Indices(edges) && Connected(n, edges, a) && 0 <= u < n && 0 <= v < n
    ensures Reaches(edges, a, u, v)
  {
    var s := set w | w in Vertices(n) && Reaches(edges, a, u, w);
    assert Walk(edges, a, [u], u, u);
    forall i | i in a
      ensures !Crosses(edges, s, i)
    {
      assert Joins(edges, i, edges[i].u, edges[i].v) && Joins(edges, i, edges[i].v, edges[i].u);
      if edges[i].u in s {
        ReachesOneMore(edges, a, u, edges[i].u, edges[i].v);
      } else if edges[i].v in s {
        ReachesOneMore(edges, a, u, edges[i].v, edges[i].u);
      }
    }
    assert Uncrossed(edges, a, s) && u in s;
    assert !IsCut(n, s);
    assert v in s;
  }

  lemma {:induction false} CutSeparates(edges: seq<Edge>, a: set<int>, u: int, v: int, s: set<int>)
    requires Uncrossed(edges, a, s) && u in s && v !in s
    ensures !Reaches(edges, a, u, v)
  {
    if p :| Walk(edges, a, p, u, v) {
      WalkCrosses(edges, a, p, u, v, s);
    }
  }

  lemma {:induction false} ConnectedByWalks(n: int, edges: seq<Edge>, a: set<int>)
    requires Graph(n, edges) && a <= Indices(edges)
    ensures Connected(n, edges, a) <==> forall u, v :: 0 <= u < n && 0 <= v < n ==> Reaches(edges, a, u, v)
  {
    if Connected(n, edges, a) {
      forall u, v | 0 <= u < n && 0 <= v < n
        ensures Reaches(edges, a, u, v)
      {
        ConnectedReaches(n, edges, a, u, v);
      }
    } else {
      var s :| IsCut(n, s) && Uncrossed(edges, a, s);
      var u :| u in s;
      var v :| v in Vertices(n) && v !in s;
      CutSeparates(edges, a, u, v, s);
    }
  }
}
