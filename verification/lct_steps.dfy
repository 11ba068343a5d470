/**
 The two local steps of a splay: pushing a pending reversal down, and a rotation.  Both keep
 the meaning of every node; neither moves a node to another path.
 */
module LctSteps {
  import opened LctState

  // ----- frames

  /** What a node's own entry says of its child c is the same in both states. */
  predicate KidKept(t: seq<Node>, sh: seq<Span>, t': seq<Node>, sh': seq<Span>, c: int) {
    && |t| == |t'| == |sh| == |sh'|
    && (InTree(t, c) ==>
          && t'[c].p == t[c].p && sh'[c].lo == sh[c].lo && sh'[c].hi == sh[c].hi
          && (t'[c].rev != sh'[c].flip) == (t[c].rev != sh[c].flip))
  }

  lemma {:induction false} ChildrenKept(t: seq<Node>, t': seq<Node>, g: seq<Place>, sh: seq<Span>, sh': seq<Span>,
          v: int, k: bool)
    requires 0 <= v < |t| == |t'| == |g| == |sh| == |sh'| && ChildOk(t, g, sh, v, k)
    requires t'[v].left == t[v].left && t'[v].right == t[v].right && sh'[v] == sh[v]
    requires KidKept(t, sh, t', sh', t[v].left) && KidKept(t, sh, t', sh', t[v].right)
    ensures ChildOk(t', g, sh', v, k)
  {
  }

  lemma {:induction false} LinkKept(t: seq<Node>, t': seq<Node>, g: seq<Place>, sh: seq<Span>, sh': seq<Span>, v: int)
    requires LinkOk(t, g, sh, v) && |t'| == |t| && |sh'| == |sh| && t'[v] == t[v] && sh'[v] == sh[v]
    requires KidKept(t, sh, t', sh', t[v].left) && KidKept(t, sh, t', sh', t[v].right)
    requires !Whole(g, sh, v) ==> t'[t[v].p].left == v || t'[t[v].p].right == v
    ensures LinkOk(t', g, sh', v)
  {
    ChildrenKept(t, t', g, sh, sh', v, false);
    ChildrenKept(t, t', g, sh, sh', v, true);
  }

  // ----- push_down

  predicate IsChild(t: seq<Node>, u: int, c: int) {
    0 <= u < |t| && c != 0 && (t[u].left == c || t[u].right == c)
  }

  /** The effect of push_down on a flagged node. */
  ghost predicate Pushed(t: seq<Node>, t': seq<Node>, x: int) {
    && InTree(t, x) && |t'| == |t|
    && t'[x] == t[x].(left := t[x].right, right := t[x].left, rev := false)
    && forall v :: 0 <= v < |t| && v != x ==> t'[v] == if IsChild(t, x, v) then t[v].(rev := !t[v].rev) else t[v]
  }

  function PushedSpans(sh: seq<Span>, x: int): seq<Span>
    requires 0 <= x < |sh|
  {
    sh[x := sh[x].(flip := !sh[x].flip)]
  }

  lemma {:induction false} PushedSelf(t: seq<Node>, t': seq<Node>, g: seq<Place>, sh: seq<Span>, x: int)
    requires Shape(t, g, sh) && InTree(t, x) && t[x].rev && Pushed(t, t', x)
    ensures LinkOk(t', g, PushedSpans(sh, x), x)
  {
    var sh' := PushedSpans(sh, x);
    assert LinkOk(t, g, sh, x);
    forall k: bool
      ensures ChildOk(t', g, sh', x, k)
    {
      assert ChildOk(t, g, sh, x, k);
      var c := Eff(t, sh, x, k);
      if c != 0 {
        ChildFacts(t, g, sh, x, c);
      }
    }
    if !Whole(g, sh, x) {
      ParentFacts(t, g, sh, x);
    }
  }

  lemma {:induction false} KidOfOther(t: seq<Node>, t': seq<Node>, g: seq<Place>, sh: seq<Span>, x: int, v: int, c: int)
    requires Shape(t, g, sh) && InTree(t, x) && t[x].rev && Pushed(t, t', x) && InTree(t, v) && v != x
    requires c == t[v].left || c == t[v].right
    ensures KidKept(t, sh, t', PushedSpans(sh, x), c)
  {
    if c != 0 {
      ChildFacts(t, g, sh, v, c);
      if IsChild(t, x, c) {
        ChildFacts(t, g, sh, x, c);
      }
    }
  }

  lemma {:induction false} PushedKid(t: seq<Node>, t': seq<Node>, g: seq<Place>, sh: seq<Span>, x: int, v: int)
    requires Shape(t, g, sh) && InTree(t, x) && t[x].rev && Pushed(t, t', x)
    requires InTree(t, v) && v != x && IsChild(t, x, v)
    ensures LinkOk(t', g, PushedSpans(sh, x), v)
  {
    var sh' := PushedSpans(sh, x);
    assert LinkOk(t, g, sh, v) && LinkOk(t, g, sh, x);
    ChildFacts(t, g, sh, x, v);
    KidOfOther(t, t', g, sh, x, v, t[v].left);
    KidOfOther(t, t', g, sh, x, v, t[v].right);
    ChildrenKept(t, t', g, sh, sh', v, false);
    ChildrenKept(t, t', g, sh, sh', v, true);
    SameLineFacts(g, v, x);
  }

  lemma {:induction false} PushedOther(t: seq<Node>, t': seq<Node>, g: seq<Place>, sh: seq<Span>, x: int, v: int)
    requires Shape(t, g, sh) && InTree(t, x) && t[x].rev && Pushed(t, t', x)
    requires InTree(t, v) && v != x && !IsChild(t, x, v)
    ensures LinkOk(t', g, PushedSpans(sh, x), v)
  {
    assert LinkOk(t, g, sh, v);
    KidOfOther(t, t', g, sh, x, v, t[v].left);
    KidOfOther(t, t', g, sh, x, v, t[v].right);
    LinkKept(t, t', g, sh, PushedSpans(sh, x), v);
  }

  /** Pushing a reversal down changes no node's meaning. */
  lemma {:induction false} PushDownKeeps(t: seq<Node>, t': seq<Node>, g: seq<Place>, sh: seq<Span>, x: int)
    requires Shape(t, g, sh) && InTree(t, x) && t[x].rev && Pushed(t, t', x)
    ensures Shape(t', g, PushedSpans(sh, x))
  {
    forall v | InTree(t', v)
      ensures LinkOk(t', g, PushedSpans(sh, x), v)
    {
      if v == x {
        PushedSelf(t, t', g, sh, x);
      } else if IsChild(t, x, v) {
        PushedKid(t, t', g, sh, x, v);
      } else {
        PushedOther(t, t', g, sh, x, v);
      }
    }
  }

  // ----- rotate

  function WithChild(n: Node, k: bool, c: int): Node {
    if k then n.(right := c) else n.(left := c)
  }

  /** What push_up stores. */
  function Combine(left: bv64, val: bv64, right: bv64): bv64 {
    Xor(Xor(left, val), right)
  }

  /** v's entry holds the result of push_up(v). */
  predicate UpToDate(t: seq<Node>, v: int) {
    && 0 <= v < |t| && 0 <= t[v].left < |t| && 0 <= t[v].right < |t|
    && t[v].agg == Combine(t[t[v].left].agg, t[v].val, t[t[v].right].agg)
  }

  /** The effect of rotate(x); y is x's parent, z is y's. */
  ghost predicate Rotated(t: seq<Node>, t': seq<Node>, x: int, y: int, z: int) {
    && InTree(t, x) && InTree(t, y) && 0 <= z < |t| == |t'| && t[x].p == y && t[y].p == z
    && var k := t[y].right == x;
       var b := Child(t[x], !k);
       && t'[x] == WithChild(t[x], !k, y).(p := z, agg := t'[x].agg)
       && t'[y] == WithChild(t[y], k, b).(p := x, agg := t'[y].agg)
       && 0 <= b < |t| && 0 <= Child(t[y], !k) < |t| && 0 <= Child(t[x], k) < |t|
       && UpToDate(t', y) && UpToDate(t', x)
       && (b != 0 ==> t'[b] == t[b].(p := y))
       && (IsChild(t, z, y) ==> t'[z] == WithChild(t[z], t[z].right == y, x))
       && forall v {:trigger t'[v]} ::
              0 <= v < |t| && v != x && v != y && !(v == b && b != 0) && !(v == z && IsChild(t, z, y)) ==> t'[v] == t[v]
  }

  /** The stretches after rotate(x): x takes over y's, y keeps what x's far side leaves it. */
  function RotatedSpans(t: seq<Node>, g: seq<Place>, sh: seq<Span>, x: int, y: int): seq<Span>
    requires 0 <= x < |t| == |g| == |sh| && 0 <= y < |t|
  {
    var k := t[y].right == x;
    sh[x := sh[y]][y := if k then Span(sh[y].lo, g[x].pos, false) else Span(g[x].pos + 1, sh[y].hi, false)]
  }

  /** What a rotation needs: x is a child, and neither x nor its parent has anything pending. */
  ghost predicate CanRotate(t: seq<Node>, g: seq<Place>, sh: seq<Span>, x: int) {
    && Shape(t, g, sh) && InTree(t, x) && !Whole(g, sh, x) && InTree(t, t[x].p)
    && !t[x].rev && !sh[x].flip && !t[t[x].p].rev && !sh[t[x].p].flip
  }

  /** The nodes around a rotation: x is y's child on side k, with children a (side k) and b. */
  predicate Local(t: seq<Node>, g: seq<Place>, sh: seq<Span>, x: int, y: int, k: bool) {
    && |t| == |g| == |sh| && InTree(t, x) && InTree(t, y) && x != y
    && t[x].p == y && k == (t[y].right == x) && Child(t[y], k) == x
    && !t[x].rev && !sh[x].flip && !t[y].rev && !sh[y].flip
    && SameLine(g, x, y) && g[x].up == g[y].up
    && SpanOk(g, sh, x) && SpanOk(g, sh, y)
    && sh[x].lo == SideLo(g, sh, y, k) && sh[x].hi == SideHi(g, sh, y, k)
    && ChildOk(t, g, sh, x, k) && ChildOk(t, g, sh, x, !k) && ChildOk(t, g, sh, y, !k)
    && Child(t[x], !k) != x && Child(t[x], !k) != y && Child(t[x], k) != x && Child(t[x], k) != y
    && Child(t[y], !k) != x && Child(t[y], !k) != y
    && 0 <= Child(t[x], k) < |t| && 0 <= Child(t[x], !k) < |t| && 0 <= Child(t[y], !k) < |t|
  }

  lemma {:induction false} IsLocal(t: seq<Node>, g: seq<Place>, sh: seq<Span>, x: int)
    requires CanRotate(t, g, sh, x)
    ensures Local(t, g, sh, x, t[x].p, t[t[x].p].right == x)
  {
    var y := t[x].p;
    var k := t[y].right == x;
    ParentFacts(t, g, sh, x);
    ChildFacts(t, g, sh, y, x);
    SameLineFacts(g, x, y);
    assert LinkOk(t, g, sh, x) && LinkOk(t, g, sh, y);
    assert ChildOk(t, g, sh, x, k) && ChildOk(t, g, sh, x, !k) && ChildOk(t, g, sh, y, !k);
    if Child(t[x], k) != 0 {
      ChildFacts(t, g, sh, x, Child(t[x], k));
    }
    if Child(t[x], !k) != 0 {
      ChildFacts(t, g, sh, x, Child(t[x], !k));
    }
    if Child(t[y], !k) != 0 {
      ChildFacts(t, g, sh, y, Child(t[y], !k));
    }
  }

  /** Whether y has a parent z on its own path, and that z is none of the other nodes moved. */
  lemma {:induction false} Above(t: seq<Node>, g: seq<Place>, sh: seq<Span>, x: int)
    requires CanRotate(t, g, sh, x)
    ensures var y := t[x].p; var z := t[y].p; var k := t[y].right == x;
            && 0 <= z < |t| && (IsChild(t, z, y) <==> !Whole(g, sh, y))
            && (IsChild(t, z, y) ==> InTree(t, z) && z != x && z != y && z != Child(t[x], !k) && z != Child(t[x], k))
  {
    var y := t[x].p;
    var z := t[y].p;
    IsRootMeansWhole(t, g, sh, y);
    IsLocal(t, g, sh, x);
    if IsChild(t, z, y) {
      ParentFacts(t, g, sh, y);
      ParentFacts(t, g, sh, x);
      AboveChild(t, g, sh, x, false, z);
      AboveChild(t, g, sh, x, true, z);
    }
  }

  lemma {:induction false} AboveChild(t: seq<Node>, g: seq<Place>, sh: seq<Span>, x: int, k: bool, z: int)
    requires Shape(t, g, sh) && InTree(t, x) && InTree(t, z) && Size(sh, z) > Size(sh, x)
    ensures z != Child(t[x], k)
  {
    if Child(t[x], k) != 0 {
      ChildFacts(t, g, sh, x, Child(t[x], k));
    }
  }

  /** What happens to the entries that the new children of x and y are judged by. */
  ghost predicate Turned(t: seq<Node>, t': seq<Node>, x: int, y: int, k: bool)
    requires InTree(t, x) && InTree(t, y)
  {
    var a, b, d := Child(t[x], k), Child(t[x], !k), Child(t[y], !k);
    && |t'| == |t| && 0 <= a < |t| && 0 <= b < |t| && 0 <= d < |t|
    && Child(t'[x], k) == a && Child(t'[x], !k) == y && !t'[x].rev
    && Child(t'[y], k) == b && Child(t'[y], !k) == d && !t'[y].rev && t'[y].p == x
    && (a != 0 ==> t'[a] == t[a]) && (d != 0 ==> t'[d] == t[d]) && (b != 0 ==> t'[b] == t[b].(p := y))
  }

  lemma {:induction false} NewChildrenOfX(t: seq<Node>, t': seq<Node>, g: seq<Place>, sh: seq<Span>, x: int, y: int,
          k: bool)
    requires Local(t, g, sh, x, y, k) && Turned(t, t', x, y, k)
    ensures var sh' := RotatedSpans(t, g, sh, x, y);
            SpanOk(g, sh', x) && ChildOk(t', g, sh', x, k) && ChildOk(t', g, sh', x, !k)
  {
  }

  lemma {:induction false} NewChildrenOfY(t: seq<Node>, t': seq<Node>, g: seq<Place>, sh: seq<Span>, x: int, y: int,
          k: bool)
    requires Local(t, g, sh, x, y, k) && Turned(t, t', x, y, k)
    ensures var sh' := RotatedSpans(t, g, sh, x, y);
            SpanOk(g, sh', y) && ChildOk(t', g, sh', y, k) && ChildOk(t', g, sh', y, !k)
  {
  }

  ghost predicate Step(t: seq<Node>, t': seq<Node>, g: seq<Place>, sh: seq<Span>, x: int) {
    CanRotate(t, g, sh, x) && Rotated(t, t', x, t[x].p, t[t[x].p].p)
  }

  lemma {:induction false} Distinct(t: seq<Node>, g: seq<Place>, sh: seq<Span>, x: int)
    requires CanRotate(t, g, sh, x)
    ensures var y := t[x].p; var z := t[y].p; var k := t[y].right == x;
            var a, b, d := Child(t[x], k), Child(t[x], !k), Child(t[y], !k);
            && (a != 0 ==> a != b) && (d != 0 ==> d != b)
            && (IsChild(t, z, y) ==> z != d)
  {
    var y := t[x].p;
    var k := t[y].right == x;
    var a, d := Child(t[x], k), Child(t[y], !k);
    IsLocal(t, g, sh, x);
    if a != 0 {
      ChildFacts(t, g, sh, x, a);
    }
    if d != 0 {
      ChildFacts(t, g, sh, y, d);
      if Child(t[x], !k) != 0 {
        ChildFacts(t, g, sh, x, Child(t[x], !k));
      }
    }
    if IsChild(t, t[y].p, y) {
      Above(t, g, sh, x);
      ParentFacts(t, g, sh, y);
      AboveChild(t, g, sh, y, !k, t[y].p);
    }
  }

  lemma {:induction false} StepTurns(t: seq<Node>, t': seq<Node>, g: seq<Place>, sh: seq<Span>, x: int)
    requires Step(t, t', g, sh, x)
    ensures Turned(t, t', x, t[x].p, t[t[x].p].right == x)
  {
    IsLocal(t, g, sh, x);
    Above(t, g, sh, x);
    Distinct(t, g, sh, x);
  }

  lemma {:induction false} RotatedX(t: seq<Node>, t': seq<Node>, g: seq<Place>, sh: seq<Span>, x: int)
    requires Step(t, t', g, sh, x)
    ensures LinkOk(t', g, RotatedSpans(t, g, sh, x, t[x].p), x)
  {
    var y := t[x].p;
    IsLocal(t, g, sh, x);
    StepTurns(t, t', g, sh, x);
    NewChildrenOfX(t, t', g, sh, x, y, t[y].right == x);
    Above(t, g, sh, x);
    assert LinkOk(t, g, sh, y);
  }

  lemma {:induction false} RotatedY(t: seq<Node>, t': seq<Node>, g: seq<Place>, sh: seq<Span>, x: int)
    requires Step(t, t', g, sh, x)
    ensures LinkOk(t', g, RotatedSpans(t, g, sh, x, t[x].p), t[x].p)
  {
    var y := t[x].p;
    IsLocal(t, g, sh, x);
    StepTurns(t, t', g, sh, x);
    NewChildrenOfY(t, t', g, sh, x, y, t[y].right == x);
  }

  lemma {:induction false} EntryKept(t: seq<Node>, t': seq<Node>, x: int, y: int, z: int, c: int)
    requires Rotated(t, t', x, y, z) && InTree(t, c) && c != x && c != y && c != Child(t[x], t[y].right != x)
    ensures t'[c].p == t[c].p && t'[c].rev == t[c].rev
  {
  }

  /** Every node but x, y and z judges its children as before. */
  lemma {:induction false} KidOfBystander(t: seq<Node>, t': seq<Node>, g: seq<Place>, sh: seq<Span>, x: int, v: int,
          c: int)
    requires Step(t, t', g, sh, x) && InTree(t, v) && v != x && v != t[x].p
    requires !(v == t[t[x].p].p && IsChild(t, v, t[x].p))
    requires c == t[v].left || c == t[v].right
    ensures KidKept(t, sh, t', RotatedSpans(t, g, sh, x, t[x].p), c)
  {
    if c != 0 {
      ChildFacts(t, g, sh, v, c);
      var b := Child(t[x], t[t[x].p].right != x);
      if b != 0 {
        ChildFacts(t, g, sh, x, b);
      }
      EntryKept(t, t', x, t[x].p, t[t[x].p].p, c);
    }
  }

  lemma {:induction false} BystanderParent(t: seq<Node>, t': seq<Node>, g: seq<Place>, sh: seq<Span>, x: int, v: int)
    requires Step(t, t', g, sh, x) && InTree(t, v) && v != x && v != t[x].p && !Whole(g, sh, v)
    ensures InTree(t', t'[v].p) && IsChild(t', t'[v].p, v)
  {
    var y := t[x].p;
    var b := Child(t[x], t[y].right != x);
    if v == b {
      IsLocal(t, g, sh, x);
    } else {
      ParentFacts(t, g, sh, v);
      ParentKept(t, t', g, sh, x, v);
      EntryKept(t, t', x, y, t[y].p, v);
    }
  }

  lemma {:induction false} BystanderKids(t: seq<Node>, t': seq<Node>, g: seq<Place>, sh: seq<Span>, x: int, v: int)
    requires Step(t, t', g, sh, x) && InTree(t, v) && v != x && v != t[x].p
    requires !(v == t[t[x].p].p && IsChild(t, v, t[x].p))
    ensures t'[v].left == t[v].left && t'[v].right == t[v].right
  {
    var b := Child(t[x], t[t[x].p].right != x);
    if v == b {
      ChildFacts(t, g, sh, x, v);
    } else {
      EntryKept(t, t', x, t[x].p, t[t[x].p].p, v);
    }
  }

  lemma {:induction false} BystanderChild(t: seq<Node>, t': seq<Node>, g: seq<Place>, sh: seq<Span>, x: int, v: int,
          k: bool)
    requires Step(t, t', g, sh, x) && InTree(t, v) && v != x && v != t[x].p
    requires !(v == t[t[x].p].p && IsChild(t, v, t[x].p))
    ensures LinkOk(t, g, sh, v) && ChildOk(t', g, RotatedSpans(t, g, sh, x, t[x].p), v, k)
  {
    assert LinkOk(t, g, sh, v) && ChildOk(t, g, sh, v, k);
    BystanderEntry(t, t', g, sh, x, v);
    BystanderKids(t, t', g, sh, x, v);
    KidOfBystander(t, t', g, sh, x, v, t[v].left);
    KidOfBystander(t, t', g, sh, x, v, t[v].right);
    ChildrenKept(t, t', g, sh, RotatedSpans(t, g, sh, x, t[x].p), v, k);
  }

  /** The entry of a bystander is as before, but for the parent of x's far child. */
  lemma {:induction false} BystanderEntry(t: seq<Node>, t': seq<Node>, g: seq<Place>, sh: seq<Span>, x: int, v: int)
    requires Step(t, t', g, sh, x) && InTree(t, v) && v != x && v != t[x].p
    ensures RotatedSpans(t, g, sh, x, t[x].p)[v] == sh[v] && t'[v].rev == t[v].rev
    ensures Whole(g, sh, v) ==> t'[v].p == t[v].p
  {
    var b := Child(t[x], t[t[x].p].right != x);
    if v == b {
      ChildFacts(t, g, sh, x, v);
    } else {
      EntryKept(t, t', x, t[x].p, t[t[x].p].p, v);
    }
  }

  lemma {:induction false} RotatedBystander(t: seq<Node>, t': seq<Node>, g: seq<Place>, sh: seq<Span>, x: int, v: int)
    requires Step(t, t', g, sh, x) && InTree(t, v) && v != x && v != t[x].p
    requires !(v == t[t[x].p].p && IsChild(t, v, t[x].p))
    ensures LinkOk(t', g, RotatedSpans(t, g, sh, x, t[x].p), v)
  {
    BystanderChild(t, t', g, sh, x, v, false);
    BystanderChild(t, t', g, sh, x, v, true);
    BystanderEntry(t, t', g, sh, x, v);
    if !Whole(g, sh, v) {
      BystanderParent(t, t', g, sh, x, v);
    }
  }

  lemma {:induction false} ParentKept(t: seq<Node>, t': seq<Node>, g: seq<Place>, sh: seq<Span>, x: int, v: int)
    requires Step(t, t', g, sh, x) && InTree(t, v) && v != x && v != t[x].p && v != Child(t[x], t[t[x].p].right != x)
    requires !Whole(g, sh, v) && InTree(t, t[v].p) && IsChild(t, t[v].p, v)
    ensures IsChild(t', t[v].p, v)
  {
    IsLocal(t, g, sh, x);
    Above(t, g, sh, x);
    var b := Child(t[x], t[t[x].p].right != x);
    if b != 0 {
      ChildFacts(t, g, sh, x, b);
    }
  }

  lemma {:induction false} NewChildrenOfZ(t: seq<Node>, t': seq<Node>, g: seq<Place>, sh: seq<Span>, sh': seq<Span>,
      x: int, y: int, z: int, k: bool)
    requires |t| == |t'| == |g| == |sh| == |sh'| && InTree(t, x) && InTree(t, y) && InTree(t, z)
    requires ChildOk(t, g, sh, z, k) && IsChild(t, z, y) && t[z].left != t[z].right
    requires t'[z] == WithChild(t[z], t[z].right == y, x) && sh'[z] == sh[z]
    requires KidKept(t, sh, t', sh', Child(t[z], t[z].right != y))
    requires t'[x].p == z && SameLine(g, x, y) && sh'[x].lo == sh[y].lo && sh'[x].hi == sh[y].hi
    requires (t'[x].rev != sh'[x].flip) == (t[y].rev != sh[y].flip)
    ensures ChildOk(t', g, sh', z, k)
  {
  }

  lemma {:induction false} RotatedZ(t: seq<Node>, t': seq<Node>, g: seq<Place>, sh: seq<Span>, x: int)
    requires Step(t, t', g, sh, x) && IsChild(t, t[t[x].p].p, t[x].p)
    ensures LinkOk(t', g, RotatedSpans(t, g, sh, x, t[x].p), t[t[x].p].p)
  {
    var y := t[x].p;
    var z := t[y].p;
    var sh' := RotatedSpans(t, g, sh, x, y);
    Above(t, g, sh, x);
    IsLocal(t, g, sh, x);
    ChildFacts(t, g, sh, z, y);
    assert LinkOk(t, g, sh, z);
    KidBesideY(t, t', g, sh, x);
    NewChildrenOfZ(t, t', g, sh, sh', x, y, z, false);
    NewChildrenOfZ(t, t', g, sh, sh', x, y, z, true);
    if !Whole(g, sh, z) {
      ParentFacts(t, g, sh, z);
      ParentFacts(t, g, sh, y);
      ParentFacts(t, g, sh, x);
      ParentKept(t, t', g, sh, x, z);
    }
  }

  lemma {:induction false} KidBesideY(t: seq<Node>, t': seq<Node>, g: seq<Place>, sh: seq<Span>, x: int)
    requires Step(t, t', g, sh, x) && IsChild(t, t[t[x].p].p, t[x].p) && InTree(t, t[t[x].p].p)
    ensures var z := t[t[x].p].p;
            KidKept(t, sh, t', RotatedSpans(t, g, sh, x, t[x].p), Child(t[z], t[z].right != t[x].p))
  {
    var y := t[x].p;
    var z := t[y].p;
    var c := Child(t[z], t[z].right != y);
    if c != 0 {
      ChildFacts(t, g, sh, z, c);
      ChildFacts(t, g, sh, z, y);
      Above(t, g, sh, x);
      var b := Child(t[x], t[y].right != x);
      if b != 0 {
        ChildFacts(t, g, sh, x, b);
      }
      EntryKept(t, t', x, y, z, c);
    }
  }

  /** A rotation changes no node's meaning but the stretches of the two nodes it turns. */
  lemma {:induction false} RotateKeeps(t: seq<Node>, t': seq<Node>, g: seq<Place>, sh: seq<Span>, x: int)
    requires Step(t, t', g, sh, x)
    ensures Shape(t', g, RotatedSpans(t, g, sh, x, t[x].p))
  {
    var y := t[x].p;
    Above(t, g, sh, x);
    IsLocal(t, g, sh, x);
    forall v | InTree(t', v)
      ensures LinkOk(t', g, RotatedSpans(t, g, sh, x, y), v)
    {
      if v == x {
        RotatedX(t, t', g, sh, x);
      } else if v == y {
        RotatedY(t, t', g, sh, x);
      } else if v == t[y].p && IsChild(t, v, y) {
        RotatedZ(t, t', g, sh, x);
      } else {
        RotatedBystander(t, t', g, sh, x, v);
      }
    }
  }

  // ----- aggregates

  lemma {:induction false} PushDownSums(t: seq<Node>, t': seq<Node>, vals: seq<bv64>, g: seq<Place>, sh: seq<Span>,
          x: int)
    requires Shape(t, g, sh) && Sums(t, vals, g, sh) && InTree(t, x) && Pushed(t, t', x)
    ensures Sums(t', vals, g, PushedSpans(sh, x))
  {
    forall v | InTree(t', v)
      ensures AggOk(t', vals, g, PushedSpans(sh, x), v)
    {
      assert AggOk(t, vals, g, sh, v);
    }
  }

  lemma {:induction false} SideAgg(t: seq<Node>, vals: seq<bv64>, g: seq<Place>, sh: seq<Span>, v: int, k: bool)
    requires 0 <= v < |t| == |g| == |sh| && SpanOk(g, sh, v) && ChildOk(t, g, sh, v, k) && t[0].agg == 0
    requires Eff(t, sh, v, k) != 0 ==> AggOk(t, vals, g, sh, Eff(t, sh, v, k))
    ensures 0 <= Eff(t, sh, v, k) < |t|
    ensures t[Eff(t, sh, v, k)].agg == XorOf(vals, g[v].line[SideLo(g, sh, v, k)..SideHi(g, sh, v, k)])
  {
  }

  lemma {:induction false} CombineSwap(a: bv64, b: bv64, c: bv64)
    ensures Combine(a, b, c) == Combine(c, b, a)
  {
    Swap(a, b, c);
  }

  lemma {:induction false} SumAround(vals: seq<bv64>, line: seq<int>, lo: int, pos: int, hi: int, a: bv64, b: bv64)
    requires 0 <= lo <= pos < hi <= |line|
    requires a == XorOf(vals, line[lo..pos]) && b == XorOf(vals, line[pos + 1..hi])
    ensures Combine(a, At(vals, line[pos]), b) == XorOf(vals, line[lo..hi])
  {
    XorAround(vals, line, lo, pos, hi);
  }

  /** What push_up stores is right once the children's aggregates are, whichever way round they lie. */
  lemma {:induction false} PushUpOk(vals: seq<bv64>, line: seq<int>, lo: int, pos: int, hi: int, left: bv64,
          right: bv64, flip: bool)
    requires 0 <= lo <= pos < hi <= |line|
    requires (if flip then right else left) == XorOf(vals, line[lo..pos])
    requires (if flip then left else right) == XorOf(vals, line[pos + 1..hi])
    ensures Combine(left, At(vals, line[pos]), right) == XorOf(vals, line[lo..hi])
  {
    if flip {
      SumAround(vals, line, lo, pos, hi, right, left);
      CombineSwap(right, At(vals, line[pos]), left);
    } else {
      SumAround(vals, line, lo, pos, hi, left, right);
    }
  }

  /** The children's aggregates in path order. */
  lemma {:induction false} SideSums(t: seq<Node>, vals: seq<bv64>, g: seq<Place>, sh: seq<Span>, v: int)
    requires 0 <= v < |t| == |g| == |sh| && SpanOk(g, sh, v) && t[0].agg == 0
    requires ChildOk(t, g, sh, v, false) && ChildOk(t, g, sh, v, true)
    requires 0 <= t[v].left < |t| && 0 <= t[v].right < |t|
    requires t[v].left != 0 ==> AggOk(t, vals, g, sh, t[v].left)
    requires t[v].right != 0 ==> AggOk(t, vals, g, sh, t[v].right)
    ensures t[if sh[v].flip then t[v].right else t[v].left].agg == XorOf(vals, g[v].line[sh[v].lo..g[v].pos])
    ensures t[if sh[v].flip then t[v].left else t[v].right].agg == XorOf(vals, g[v].line[g[v].pos + 1..sh[v].hi])
  {
    SideAgg(t, vals, g, sh, v, false);
    SideAgg(t, vals, g, sh, v, true);
  }

  lemma {:induction false} UpToDateOk(t: seq<Node>, vals: seq<bv64>, g: seq<Place>, sh: seq<Span>, v: int)
    requires 0 <= v < |t| == |g| == |sh| == |vals| && SpanOk(g, sh, v) && g[v].line[g[v].pos] == v
    requires ChildOk(t, g, sh, v, false) && ChildOk(t, g, sh, v, true) && t[0].agg == 0
    requires UpToDate(t, v) && t[v].val == vals[v]
    requires t[v].left != 0 ==> AggOk(t, vals, g, sh, t[v].left)
    requires t[v].right != 0 ==> AggOk(t, vals, g, sh, t[v].right)
    ensures AggOk(t, vals, g, sh, v)
  {
    SideSums(t, vals, g, sh, v);
    PushUpOk(vals, g[v].line, sh[v].lo, g[v].pos, sh[v].hi, t[t[v].left].agg, t[t[v].right].agg, sh[v].flip);
  }

  lemma {:induction false} AggKept(t: seq<Node>, t': seq<Node>, x: int, y: int, z: int, v: int)
    requires Rotated(t, t', x, y, z) && InTree(t, v) && v != x && v != y
    ensures t'[v].agg == t[v].agg && t'[v].val == t[v].val
  {
  }

  lemma {:induction false} BystanderSums(t: seq<Node>, t': seq<Node>, vals: seq<bv64>, g: seq<Place>, sh: seq<Span>,
          x: int, y: int, z: int)
    requires Rotated(t, t', x, y, z) && Sums(t, vals, g, sh) && |t| == |g| == |sh|
    ensures forall v :: InTree(t', v) && v != x && v != y ==> AggOk(t', vals, g, RotatedSpans(t, g, sh, x, y), v)
  {
    forall v | InTree(t', v) && v != x && v != y
      ensures AggOk(t', vals, g, RotatedSpans(t, g, sh, x, y), v)
    {
      assert AggOk(t, vals, g, sh, v);
      AggKept(t, t', x, y, z, v);
    }
  }

  lemma {:induction false} RotateSums(t: seq<Node>, t': seq<Node>, vals: seq<bv64>, g: seq<Place>, sh: seq<Span>,
          x: int)
    requires Step(t, t', g, sh, x) && Sums(t, vals, g, sh)
    ensures Sums(t', vals, g, RotatedSpans(t, g, sh, x, t[x].p))
  {
    var y := t[x].p;
    var sh' := RotatedSpans(t, g, sh, x, y);
    Above(t, g, sh, x);
    IsLocal(t, g, sh, x);
    BystanderSums(t, t', vals, g, sh, x, y, t[y].p);
    RotateKeeps(t, t', g, sh, x);
    StepTurns(t, t', g, sh, x);
    TurnedSums(t, t', vals, g, sh, x);
  }

  lemma {:induction false} TurnedSums(t: seq<Node>, t': seq<Node>, vals: seq<bv64>, g: seq<Place>, sh: seq<Span>,
          x: int)
    requires Step(t, t', g, sh, x) && Sums(t, vals, g, sh) && InTree(t, t[x].p)
    requires Shape(t', g, RotatedSpans(t, g, sh, x, t[x].p)) && Turned(t, t', x, t[x].p, t[t[x].p].right == x)
    requires forall v ::
              InTree(t', v) && v != x && v != t[x].p ==> AggOk(t', vals, g, RotatedSpans(t, g, sh, x, t[x].p), v)
    ensures AggOk(t', vals, g, RotatedSpans(t, g, sh, x, t[x].p), t[x].p)
    ensures AggOk(t', vals, g, RotatedSpans(t, g, sh, x, t[x].p), x)
  {
    var y := t[x].p;
    var sh' := RotatedSpans(t, g, sh, x, y);
    IsLocal(t, g, sh, x);
    Above(t, g, sh, x);
    assert AggOk(t, vals, g, sh, x) && AggOk(t, vals, g, sh, y);
    assert LinkOk(t', g, sh', y) && LinkOk(t', g, sh', x);
    assert PlaceOk(g, x) && PlaceOk(g, y);
    assert t'[0].agg == 0;
    UpToDateOk(t', vals, g, sh', y);
    UpToDateOk(t', vals, g, sh', x);
  }
}
