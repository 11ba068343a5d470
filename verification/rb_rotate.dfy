/**
 Rotations of the red-black tree: they keep the in-order list, and change heights and colours
 only where the rebalancing rules say.
 */
module RbRotate {
  import opened RbState

  /** What rotating n down to side k does: its child r on the other side takes its place. */
  ghost predicate Turned(t: seq<Node>, t': seq<Node>, root: int, root': int, n: int, k: bool) {
    && 1 <= n < |t| == |t'| && 0 <= t[n].parent < |t|
    && var r := Child(t[n], !k);
       && 1 <= r < |t|
       && var b, p := Child(t[r], k), t[n].parent;
          && 0 <= b < |t|
          && t'[n] == WithChild(t[n], !k, b).(parent := r)
          && t'[r] == WithChild(t[r], k, n).(parent := p)
          && (b != 0 ==> t'[b] == t[b].(parent := n))
          && (p != 0 ==> t'[p] == WithChild(t[p], t[p].right == n, r))
          && root' == (if p == 0 then r else root)
          && forall v {:trigger t'[v]} ::
                 0 <= v < |t| && v != n && v != r && !(v == b && b != 0) && !(v == p && p != 0) ==> t'[v] == t[v]
  }

  function TurnedSpans(t: seq<Node>, sp: seq<Span>, n: int, k: bool): seq<Span>
    requires 0 <= n < |t| == |sp| && 0 <= Child(t[n], !k) < |t|
  {
    var r := Child(t[n], !k);
    sp[r := Span(sp[n].lo, sp[r].pos, sp[n].hi)]
      [n := if k then Span(sp[r].pos + 1, sp[n].pos, sp[n].hi) else Span(sp[n].lo, sp[n].pos, sp[r].pos)]
  }

  ghost predicate CanTurn(t: seq<Node>, root: int, order: seq<int>, sp: seq<Span>, n: int, k: bool) {
    Shape(t, root, order, sp) && In(order, sp, n) && Child(t[n], !k) != 0
  }

  /** The nodes around a rotation are distinct members. */
  predicate Local(t: seq<Node>, root: int, order: seq<int>, sp: seq<Span>, n: int, k: bool) {
    && |t| == |sp| && In(order, sp, n)
    && var r := Child(t[n], !k);
       && In(order, sp, r) && r != n && t[r].parent == n
       && SpanOk(order, sp, n) && SpanOk(order, sp, r)
       && sp[r].lo == SideLo(sp, n, !k) && sp[r].hi == SideHi(sp, n, !k)
       && ChildOk(t, order, sp, r, k) && ChildOk(t, order, sp, r, !k) && ChildOk(t, order, sp, n, k)
       && var a, b, d, p := Child(t[r], !k), Child(t[r], k), Child(t[n], k), t[n].parent;
          && 0 <= a < |t| && 0 <= b < |t| && 0 <= d < |t| && 0 <= p < |t|
          && a != n && a != r && b != n && b != r && d != n && d != r
          && (a != 0 ==> a != b && a != d) && (d != 0 ==> d != b)
          && (p == 0 <==> n == root)
          && (p != 0 ==> In(order, sp, p) && IsChild(t, p, n) && t[p].left != t[p].right)
          && (p != 0 ==> p != n && p != r && p != a && p != b && p != d)
  }

  lemma {:induction false} SmallChild(t: seq<Node>, root: int, order: seq<int>, sp: seq<Span>, u: int, k: bool)
    requires Shape(t, root, order, sp) && In(order, sp, u)
    ensures 0 <= Child(t[u], k) < |t| && Child(t[u], k) != u
    ensures Child(t[u], k) != 0 ==>
              In(order, sp, Child(t[u], k)) && t[Child(t[u], k)].parent == u && Size(sp, Child(t[u], k)) < Size(sp, u)
              && Child(t[u], k) != Child(t[u], !k)
  {
    Member(t, root, order, sp, u);
    if Child(t[u], k) != 0 {
      ChildFacts(t, root, order, sp, u, Child(t[u], k));
    }
  }

  lemma {:induction false} IsLocal(t: seq<Node>, root: int, order: seq<int>, sp: seq<Span>, n: int, k: bool)
    requires CanTurn(t, root, order, sp, n, k)
    ensures Local(t, root, order, sp, n, k)
  {
    var r := Child(t[n], !k);
    SmallChild(t, root, order, sp, n, !k);
    SmallChild(t, root, order, sp, n, k);
    SmallChild(t, root, order, sp, r, !k);
    SmallChild(t, root, order, sp, r, k);
    Member(t, root, order, sp, n);
    Member(t, root, order, sp, r);
    assert ChildOk(t, order, sp, n, !k) && ChildOk(t, order, sp, n, k);
    assert ChildOk(t, order, sp, r, !k) && ChildOk(t, order, sp, r, k);
    ParentFacts(t, root, order, sp, n);
    if n != root {
      ChildFacts(t, root, order, sp, t[n].parent, n);
    }
  }

  /** The entries by which the two turned nodes judge their children. */
  predicate NewKids(t: seq<Node>, t': seq<Node>, n: int, r: int, k: bool)
    requires 0 <= n < |t| && 0 <= r < |t|
  {
    var a, b, d := Child(t[r], !k), Child(t[r], k), Child(t[n], k);
    && |t'| == |t| && 0 <= a < |t| && 0 <= b < |t| && 0 <= d < |t|
    && Child(t'[r], !k) == a && Child(t'[r], k) == n && t'[n].parent == r
    && Child(t'[n], !k) == b && Child(t'[n], k) == d
    && (a != 0 ==> t'[a] == t[a]) && (d != 0 ==> t'[d] == t[d]) && (b != 0 ==> t'[b] == t[b].(parent := n))
  }

  lemma {:induction false} TurnedKids(t: seq<Node>, t': seq<Node>, root: int, root': int, order: seq<int>,
          sp: seq<Span>, n: int, k: bool)
    requires Local(t, root, order, sp, n, k) && Turned(t, t', root, root', n, k)
    ensures NewKids(t, t', n, Child(t[n], !k), k)
  {
  }

  lemma {:induction false} ChildrenOfR(t: seq<Node>, t': seq<Node>, root: int, order: seq<int>, sp: seq<Span>, n: int,
          k: bool)
    requires Local(t, root, order, sp, n, k) && NewKids(t, t', n, Child(t[n], !k), k)
    ensures var sp' := TurnedSpans(t, sp, n, k); var r := Child(t[n], !k);
            SpanOk(order, sp', r) && ChildOk(t', order, sp', r, k) && ChildOk(t', order, sp', r, !k)
  {
  }

  lemma {:induction false} ChildrenOfN(t: seq<Node>, t': seq<Node>, root: int, order: seq<int>, sp: seq<Span>, n: int,
          k: bool)
    requires Local(t, root, order, sp, n, k) && NewKids(t, t', n, Child(t[n], !k), k)
    ensures var sp' := TurnedSpans(t, sp, n, k);
            SpanOk(order, sp', n) && ChildOk(t', order, sp', n, k) && ChildOk(t', order, sp', n, !k)
  {
  }

  ghost predicate Step(t: seq<Node>, t': seq<Node>, root: int, root': int, order: seq<int>, sp: seq<Span>, n: int,
          k: bool) {
    CanTurn(t, root, order, sp, n, k) && Turned(t, t', root, root', n, k)
  }

  lemma {:induction false} SameIn(t: seq<Node>, order: seq<int>, sp: seq<Span>, n: int, k: bool, v: int)
    requires 0 <= n < |t| == |sp| && 0 <= Child(t[n], !k) < |t|
    ensures In(order, TurnedSpans(t, sp, n, k), v) <==> In(order, sp, v)
  {
  }

  lemma {:induction false} TurnedR(t: seq<Node>, t': seq<Node>, root: int, root': int, order: seq<int>, sp: seq<Span>,
          n: int, k: bool)
    requires Step(t, t', root, root', order, sp, n, k)
    ensures 0 <= Child(t[n], !k) < |t| && LinkOk(t', root', order, TurnedSpans(t, sp, n, k), Child(t[n], !k))
  {
    IsLocal(t, root, order, sp, n, k);
    TurnedKids(t, t', root, root', order, sp, n, k);
    ChildrenOfR(t, t', root, order, sp, n, k);
    ParentFacts(t, root, order, sp, n);
    SameIn(t, order, sp, n, k, t[n].parent);
  }

  lemma {:induction false} TurnedN(t: seq<Node>, t': seq<Node>, root: int, root': int, order: seq<int>, sp: seq<Span>,
          n: int, k: bool)
    requires Step(t, t', root, root', order, sp, n, k)
    ensures LinkOk(t', root', order, TurnedSpans(t, sp, n, k), n)
  {
    IsLocal(t, root, order, sp, n, k);
    TurnedKids(t, t', root, root', order, sp, n, k);
    ChildrenOfN(t, t', root, order, sp, n, k);
    SameIn(t, order, sp, n, k, Child(t[n], !k));
  }

  /** n's old parent has r in n's place. */
  lemma {:induction false} TurnedParentChild(t: seq<Node>, t': seq<Node>, root: int, root': int, order: seq<int>,
          sp: seq<Span>, n: int, k: bool, j: bool)
    requires Step(t, t', root, root', order, sp, n, k) && t[n].parent != 0 && In(order, sp, t[n].parent)
    ensures ChildOk(t', order, TurnedSpans(t, sp, n, k), t[n].parent, j)
  {
    var p := t[n].parent;
    IsLocal(t, root, order, sp, n, k);
    ChildFacts(t, root, order, sp, p, n);
    Member(t, root, order, sp, p);
    assert ChildOk(t, order, sp, p, j);
    if Child(t[p], j) != 0 {
      ChildFacts(t, root, order, sp, p, Child(t[p], j));
    }
  }

  lemma {:induction false} TurnedParent(t: seq<Node>, t': seq<Node>, root: int, root': int, order: seq<int>,
          sp: seq<Span>, n: int, k: bool)
    requires Step(t, t', root, root', order, sp, n, k) && t[n].parent != 0
    ensures 0 <= t[n].parent < |t| && LinkOk(t', root', order, TurnedSpans(t, sp, n, k), t[n].parent)
  {
    var p := t[n].parent;
    IsLocal(t, root, order, sp, n, k);
    TurnedParentChild(t, t', root, root', order, sp, n, k, false);
    TurnedParentChild(t, t', root, root', order, sp, n, k, true);
    Member(t, root, order, sp, p);
    ParentFacts(t, root, order, sp, p);
    ParentFacts(t, root, order, sp, n);
    if p != root {
      StillParent(t, t', root, root', order, sp, n, k, p);
      SameIn(t, order, sp, n, k, t[p].parent);
    }
  }

  /** Whoever is not one of the turned nodes keeps its parent. */
  lemma {:induction false} StillParent(t: seq<Node>, t': seq<Node>, root: int, root': int, order: seq<int>,
          sp: seq<Span>, n: int, k: bool, v: int)
    requires Step(t, t', root, root', order, sp, n, k) && In(order, sp, v) && v != root && v != n
    requires v != Child(t[n], !k)
    requires 1 <= Child(t[n], !k) < |t|
    requires v != Child(t[Child(t[n], !k)], k)
    ensures t'[v].parent == t[v].parent && IsChild(t', t[v].parent, v) && In(order, sp, t[v].parent)
  {
    IsLocal(t, root, order, sp, n, k);
    ParentFacts(t, root, order, sp, v);
    ChildFacts(t, root, order, sp, t[v].parent, v);
  }

  lemma {:induction false} EntryKept(t: seq<Node>, t': seq<Node>, root: int, root': int, n: int, k: bool, c: int)
    requires Turned(t, t', root, root', n, k) && 1 <= c < |t| && c != n && c != Child(t[n], !k)
    requires c != Child(t[Child(t[n], !k)], k)
    ensures t'[c].parent == t[c].parent
  {
  }

  lemma {:induction false} PointersKept(t: seq<Node>, t': seq<Node>, root: int, root': int, n: int, k: bool, v: int,
          j: bool)
    requires Turned(t, t', root, root', n, k) && 1 <= v < |t| && v != n && v != Child(t[n], !k) && v != t[n].parent
    ensures Child(t'[v], j) == Child(t[v], j)
  {
  }

  /** A child stays one if its entry and both stretches stay. */
  lemma {:induction false} KidStays(t: seq<Node>, t': seq<Node>, order: seq<int>, sp: seq<Span>, sp': seq<Span>,
          v: int, j: bool)
    requires |t| == |t'| == |sp| == |sp'| && 0 <= v < |t| && ChildOk(t, order, sp, v, j)
    requires Child(t'[v], j) == Child(t[v], j) && sp'[v] == sp[v]
    requires var c := Child(t[v], j); c != 0 ==> 1 <= c < |t| && t'[c].parent == t[c].parent && sp'[c] == sp[c]
    ensures ChildOk(t', order, sp', v, j)
  {
  }

  lemma {:induction false} BystanderChild(t: seq<Node>, t': seq<Node>, root: int, root': int, order: seq<int>,
          sp: seq<Span>, n: int, k: bool, v: int, j: bool)
    requires Step(t, t', root, root', order, sp, n, k) && In(order, sp, v) && v != n && v != Child(t[n], !k)
    requires v != t[n].parent
    ensures ChildOk(t', order, TurnedSpans(t, sp, n, k), v, j)
  {
    Member(t, root, order, sp, v);
    var c, r := Child(t[v], j), Child(t[n], !k);
    SmallChild(t, root, order, sp, n, !k);
    if c != 0 {
      ChildFacts(t, root, order, sp, v, c);
      SmallChild(t, root, order, sp, r, k);
      EntryKept(t, t', root, root', n, k, c);
      ParentFacts(t, root, order, sp, n);
    }
    PointersKept(t, t', root, root', n, k, v, j);
    KidStays(t, t', order, sp, TurnedSpans(t, sp, n, k), v, j);
  }

  lemma {:induction false} Bystander(t: seq<Node>, t': seq<Node>, root: int, root': int, order: seq<int>,
          sp: seq<Span>, n: int, k: bool, v: int)
    requires Step(t, t', root, root', order, sp, n, k) && In(order, sp, v) && v != n && v != Child(t[n], !k)
    requires v != t[n].parent
    ensures LinkOk(t', root', order, TurnedSpans(t, sp, n, k), v)
  {
    IsLocal(t, root, order, sp, n, k);
    BystanderChild(t, t', root, root', order, sp, n, k, v, false);
    BystanderChild(t, t', root, root', order, sp, n, k, v, true);
    Member(t, root, order, sp, v);
    ParentFacts(t, root, order, sp, v);
    ParentFacts(t, root, order, sp, n);
    if v == Child(t[Child(t[n], !k)], k) {
      ChildFacts(t, root, order, sp, Child(t[n], !k), v);
    } else if v != root {
      StillParent(t, t', root, root', order, sp, n, k, v);
      SameIn(t, order, sp, n, k, t[v].parent);
    }
  }

  /** A rotation keeps the tree a binary tree with the same in-order list. */
  lemma {:induction false} TurnKeeps(t: seq<Node>, t': seq<Node>, root: int, root': int, order: seq<int>,
          sp: seq<Span>, n: int, k: bool)
    requires Step(t, t', root, root', order, sp, n, k)
    ensures Shape(t', root', order, TurnedSpans(t, sp, n, k))
  {
    var sp' := TurnedSpans(t, sp, n, k);
    IsLocal(t, root, order, sp, n, k);
    forall i | 0 <= i < |order|
      ensures InRange(sp', order, i)
    {
      assert InRange(sp, order, i);
    }
    forall v | In(order, sp', v)
      ensures LinkOk(t', root', order, sp', v)
    {
      SameIn(t, order, sp, n, k, v);
      if v == n {
        TurnedN(t, t', root, root', order, sp, n, k);
      } else if v == Child(t[n], !k) {
        TurnedR(t, t', root, root', order, sp, n, k);
      } else if v == t[n].parent {
        TurnedParent(t, t', root, root', order, sp, n, k);
      } else {
        Bystander(t, t', root, root', order, sp, n, k, v);
      }
    }
    TurnedRoot(t, t', root, root', order, sp, n, k);
  }

  lemma {:induction false} TurnedRoot(t: seq<Node>, t': seq<Node>, root: int, root': int, order: seq<int>,
          sp: seq<Span>, n: int, k: bool)
    requires Step(t, t', root, root', order, sp, n, k)
    ensures order != [] && In(order, TurnedSpans(t, sp, n, k), root') && Whole(order, TurnedSpans(t, sp, n, k), root')
  {
    IsLocal(t, root, order, sp, n, k);
    ParentFacts(t, root, order, sp, n);
    SameIn(t, order, sp, n, k, root');
    if n != root {
      ParentFacts(t, root, order, sp, root);
      ParentFacts(t, root, order, sp, Child(t[n], !k));
    }
  }
}
