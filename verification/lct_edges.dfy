/**
 The steps of a link-cut tree that change the represented forest or its roots: the lazy
 reversal of make_root, link and cut.
 */
module LctEdges {
  import opened LctState
  import opened LctSteps
  import opened LctAccess

  // ----- make_root: the whole path is turned round by one flag

  /** x is the last node of a path that starts at a represented root, and its splay root. */
  ghost predicate CanTurn(t: seq<Node>, g: seq<Place>, sh: seq<Span>, x: int) {
    && Shape(t, g, sh) && InTree(t, x) && Whole(g, sh, x) && !t[x].rev
    && g[x].pos == |g[x].line| - 1 && g[x].up == 0
  }

  function Flagged(t: seq<Node>, x: int): seq<Node>
    requires InTree(t, x)
  {
    t[x := t[x].(rev := !t[x].rev)]
  }

  function MirroredPlaces(g: seq<Place>, x: int): seq<Place>
    requires 0 <= x < |g|
  {
    seq(|g|, v requires 0 <= v < |g| =>
      if SameLine(g, v, x) then Place(Reverse(g[v].line), |g[v].line| - 1 - g[v].pos, g[v].up) else g[v])
  }

  function MirroredSpans(g: seq<Place>, sh: seq<Span>, x: int): seq<Span>
    requires 0 <= x < |g| == |sh|
  {
    seq(|g|, v requires 0 <= v < |g| =>
      if SameLine(g, v, x) then Span(|g[v].line| - sh[v].hi, |g[v].line| - sh[v].lo, !sh[v].flip) else sh[v])
  }

  lemma {:induction false} MirroredPlacesOk(g: seq<Place>, x: int)
    requires PlacesOk(g) && 1 <= x < |g|
    ensures PlacesOk(MirroredPlaces(g, x))
  {
    var g' := MirroredPlaces(g, x);
    forall v | 1 <= v < |g|
      ensures PlaceOk(g', v)
    {
      assert PlaceOk(g, v);
      forall i | 0 <= i < |g'[v].line|
        ensures OnLine(g', g'[v], i)
      {
        if SameLine(g, v, x) {
          NodeAt(g, v, |g[v].line| - 1 - i);
        } else {
          NodeAt(g, v, i);
        }
      }
    }
  }

  lemma {:induction false} MirroredChild(t: seq<Node>, g: seq<Place>, sh: seq<Span>, x: int, v: int, k: bool)
    requires CanTurn(t, g, sh, x) && InTree(t, v) && SameLine(g, v, x)
    ensures ChildOk(Flagged(t, x), MirroredPlaces(g, x), MirroredSpans(g, sh, x), v, k)
  {
    assert LinkOk(t, g, sh, v) && ChildOk(t, g, sh, v, !k);
    var e := Eff(t, sh, v, !k);
    if e != 0 {
      ChildFacts(t, g, sh, v, e);
    }
  }

  lemma {:induction false} UnmirroredChild(t: seq<Node>, g: seq<Place>, sh: seq<Span>, x: int, v: int, k: bool)
    requires CanTurn(t, g, sh, x) && InTree(t, v) && !SameLine(g, v, x)
    ensures ChildOk(Flagged(t, x), MirroredPlaces(g, x), MirroredSpans(g, sh, x), v, k)
  {
    assert LinkOk(t, g, sh, v) && ChildOk(t, g, sh, v, k);
    var e := Eff(t, sh, v, k);
    if e != 0 {
      ChildFacts(t, g, sh, v, e);
    }
  }

  lemma {:induction false} MirroredLink(t: seq<Node>, g: seq<Place>, sh: seq<Span>, x: int, v: int)
    requires CanTurn(t, g, sh, x) && InTree(t, v)
    ensures LinkOk(Flagged(t, x), MirroredPlaces(g, x), MirroredSpans(g, sh, x), v)
  {
    assert LinkOk(t, g, sh, v);
    if SameLine(g, v, x) {
      MirroredChild(t, g, sh, x, v, false);
      MirroredChild(t, g, sh, x, v, true);
      SameLineFacts(g, v, x);
      if v != x {
        BesideRoot(t, g, sh, x, v);
      }
    } else {
      UnmirroredChild(t, g, sh, x, v, false);
      UnmirroredChild(t, g, sh, x, v, true);
    }
  }

  /** One flag on the splay root turns the whole path round. */
  lemma {:induction false} TurnKeeps(t: seq<Node>, g: seq<Place>, sh: seq<Span>, x: int)
    requires CanTurn(t, g, sh, x)
    ensures Shape(Flagged(t, x), MirroredPlaces(g, x), MirroredSpans(g, sh, x))
  {
    MirroredPlacesOk(g, x);
    forall v | InTree(t, v)
      ensures LinkOk(Flagged(t, x), MirroredPlaces(g, x), MirroredSpans(g, sh, x), v)
    {
      MirroredLink(t, g, sh, x, v);
    }
  }

  lemma {:induction false} MirroredSum(t: seq<Node>, vals: seq<bv64>, g: seq<Place>, sh: seq<Span>, x: int, v: int)
    requires 1 <= x < |t| && InTree(t, v) && AggOk(t, vals, g, sh, v)
    ensures AggOk(Flagged(t, x), vals, MirroredPlaces(g, x), MirroredSpans(g, sh, x), v)
  {
    if SameLine(g, v, x) {
      var line, lo, hi := g[v].line, sh[v].lo, sh[v].hi;
      assert Reverse(line)[|line| - hi..|line| - lo] == Reverse(line[lo..hi]);
      XorReverse(vals, line[lo..hi]);
    }
  }

  lemma {:induction false} TurnSums(t: seq<Node>, vals: seq<bv64>, g: seq<Place>, sh: seq<Span>, x: int)
    requires Sums(t, vals, g, sh) && 1 <= x < |t|
    ensures Sums(Flagged(t, x), vals, MirroredPlaces(g, x), MirroredSpans(g, sh, x))
  {
    forall v | InTree(t, v)
      ensures AggOk(Flagged(t, x), vals, MirroredPlaces(g, x), MirroredSpans(g, sh, x), v)
    {
      assert AggOk(t, vals, g, sh, v);
      MirroredSum(t, vals, g, sh, x, v);
    }
  }

  // ----- link: a represented root, splay root of its path, is hung below y

  ghost predicate CanHang(t: seq<Node>, g: seq<Place>, sh: seq<Span>, x: int, y: int) {
    && Shape(t, g, sh) && InTree(t, x) && InTree(t, y) && Whole(g, sh, x) && g[x].pos == 0
  }

  function Hung(t: seq<Node>, x: int, y: int): seq<Node>
    requires InTree(t, x)
  {
    t[x := t[x].(p := y)]
  }

  function HungPlaces(g: seq<Place>, x: int, y: int): seq<Place>
    requires 0 <= x < |g|
  {
    seq(|g|, v requires 0 <= v < |g| => if SameLine(g, v, x) then g[v].(up := y) else g[v])
  }

  lemma {:induction false} HungChild(t: seq<Node>, g: seq<Place>, sh: seq<Span>, x: int, y: int, v: int, k: bool)
    requires CanHang(t, g, sh, x, y) && InTree(t, v)
    ensures ChildOk(Hung(t, x, y), HungPlaces(g, x, y), sh, v, k)
  {
    assert LinkOk(t, g, sh, v) && ChildOk(t, g, sh, v, k);
    var e := Eff(t, sh, v, k);
    if e != 0 {
      ChildFacts(t, g, sh, v, e);
    }
  }

  lemma {:induction false} HungLink(t: seq<Node>, g: seq<Place>, sh: seq<Span>, x: int, y: int, v: int)
    requires CanHang(t, g, sh, x, y) && InTree(t, v)
    ensures LinkOk(Hung(t, x, y), HungPlaces(g, x, y), sh, v)
  {
    assert LinkOk(t, g, sh, v);
    if SameLine(g, v, x) && v != x {
      BesideRoot(t, g, sh, x, v);
    }
    HungChild(t, g, sh, x, y, v, false);
    HungChild(t, g, sh, x, y, v, true);
  }

  lemma {:induction false} HangKeeps(t: seq<Node>, g: seq<Place>, sh: seq<Span>, x: int, y: int)
    requires CanHang(t, g, sh, x, y)
    ensures Shape(Hung(t, x, y), HungPlaces(g, x, y), sh)
    ensures forall v :: 1 <= v < |g| && v != x ==> Par(HungPlaces(g, x, y), v) == Par(g, v)
    ensures Par(HungPlaces(g, x, y), x) == y
  {
    var g' := HungPlaces(g, x, y);
    forall v | 1 <= v < |g|
      ensures PlaceOk(g', v)
      ensures v != x ==> Par(g', v) == Par(g, v)
    {
      assert PlaceOk(g, v);
      forall i | 0 <= i < |g'[v].line|
        ensures OnLine(g', g'[v], i)
      {
        NodeAt(g, v, i);
      }
      if SameLine(g, v, x) {
        SameLineFacts(g, v, x);
      }
    }
    forall v | InTree(t, v)
      ensures LinkOk(Hung(t, x, y), g', sh, v)
    {
      HungLink(t, g, sh, x, y, v);
    }
  }

  lemma {:induction false} HangSums(t: seq<Node>, vals: seq<bv64>, g: seq<Place>, sh: seq<Span>, x: int, y: int)
    requires Sums(t, vals, g, sh) && 1 <= x < |t|
    ensures Sums(Hung(t, x, y), vals, HungPlaces(g, x, y), sh)
  {
    forall v | InTree(t, v)
      ensures AggOk(Hung(t, x, y), vals, HungPlaces(g, x, y), sh, v)
    {
      assert AggOk(t, vals, g, sh, v);
    }
  }

  // ----- cut: a path of two nodes falls apart

  ghost predicate CanCut(t: seq<Node>, g: seq<Place>, sh: seq<Span>, x: int, y: int) {
    && Shape(t, g, sh) && InTree(t, x) && InTree(t, y) && x != y
    && g[y] == Place([x, y], 1, 0) && Whole(g, sh, y) && !t[y].rev
  }

  ghost predicate CutOff(t: seq<Node>, t': seq<Node>, x: int, y: int) {
    && InTree(t, x) && InTree(t, y) && x != y && |t'| == |t|
    && t'[x] == t[x].(p := 0)
    && t'[y] == t[y].(left := 0, agg := t'[y].agg) && UpToDate(t', y)
    && forall v {:trigger t'[v]} :: 0 <= v < |t| && v != x && v != y ==> t'[v] == t[v]
  }

  function CutPlaces(g: seq<Place>, x: int, y: int): seq<Place>
    requires 0 <= x < |g| && 0 <= y < |g|
  {
    g[x := Place([x], 0, 0)][y := Place([y], 0, 0)]
  }

  function CutSpans(sh: seq<Span>, x: int, y: int): seq<Span>
    requires 0 <= x < |sh| && 0 <= y < |sh|
  {
    sh[x := Span(0, 1, sh[x].flip)][y := Span(0, 1, false)]
  }

  /** The two nodes and nothing else are on the path. */
  lemma {:induction false} TwoNodes(t: seq<Node>, g: seq<Place>, sh: seq<Span>, x: int, y: int)
    requires CanCut(t, g, sh, x, y)
    ensures g[x] == Place([x, y], 0, 0)
    ensures sh[x].lo == 0 && sh[x].hi == 1 && sh[x].flip == t[x].rev && !t[x].rev
    ensures t[x].left == 0 && t[x].right == 0 && t[y].left == x && t[y].right == 0 && t[x].p == y
    ensures forall v :: InTree(t, v) && SameLine(g, v, y) ==> v == x || v == y
  {
    NodeAt(g, y, 0);
    assert LinkOk(t, g, sh, x) && LinkOk(t, g, sh, y);
    assert ChildOk(t, g, sh, y, false) && ChildOk(t, g, sh, y, true);
    BesideRoot(t, g, sh, y, x);
    assert ChildOk(t, g, sh, x, false) && ChildOk(t, g, sh, x, true);
    forall v | InTree(t, v) && SameLine(g, v, y)
      ensures v == x || v == y
    {
      assert PlaceOk(g, v);
    }
  }

  lemma {:induction false} CutPlacesOk(g: seq<Place>, x: int, y: int)
    requires PlacesOk(g) && 1 <= x < |g| && 1 <= y < |g| && x != y
    requires g[x] == Place([x, y], 0, 0) && g[y] == Place([x, y], 1, 0)
    ensures PlacesOk(CutPlaces(g, x, y))
  {
    var g' := CutPlaces(g, x, y);
    forall v | 1 <= v < |g|
      ensures PlaceOk(g', v)
    {
      assert PlaceOk(g, v);
      forall i | 0 <= i < |g'[v].line|
        ensures OnLine(g', g'[v], i)
      {
        if v != x && v != y {
          NodeAt(g, v, i);
        }
      }
    }
  }

  lemma {:induction false} CutChild(t: seq<Node>, t': seq<Node>, g: seq<Place>, sh: seq<Span>, x: int, y: int, v: int,
          k: bool)
    requires CanCut(t, g, sh, x, y) && CutOff(t, t', x, y) && InTree(t, v) && v != x && v != y
    ensures ChildOk(t', CutPlaces(g, x, y), CutSpans(sh, x, y), v, k)
  {
    TwoNodes(t, g, sh, x, y);
    assert LinkOk(t, g, sh, v) && ChildOk(t, g, sh, v, k);
    var e := Eff(t, sh, v, k);
    if e != 0 {
      ChildFacts(t, g, sh, v, e);
    }
  }

  lemma {:induction false} CutBystander(t: seq<Node>, t': seq<Node>, g: seq<Place>, sh: seq<Span>, x: int, y: int,
          v: int)
    requires CanCut(t, g, sh, x, y) && CutOff(t, t', x, y) && InTree(t, v) && v != x && v != y
    ensures LinkOk(t', CutPlaces(g, x, y), CutSpans(sh, x, y), v)
  {
    var g', sh' := CutPlaces(g, x, y), CutSpans(sh, x, y);
    TwoNodes(t, g, sh, x, y);
    assert LinkOk(t, g, sh, v);
    CutChild(t, t', g, sh, x, y, v, false);
    CutChild(t, t', g, sh, x, y, v, true);
    if !Whole(g, sh, v) {
      ParentFacts(t, g, sh, v);
    }
  }

  lemma {:induction false} CutKeeps(t: seq<Node>, t': seq<Node>, g: seq<Place>, sh: seq<Span>, x: int, y: int)
    requires CanCut(t, g, sh, x, y) && CutOff(t, t', x, y)
    ensures Shape(t', CutPlaces(g, x, y), CutSpans(sh, x, y))
  {
    TwoNodes(t, g, sh, x, y);
    CutPlacesOk(g, x, y);
    var g', sh' := CutPlaces(g, x, y), CutSpans(sh, x, y);
    assert LinkOk(t, g, sh, y);
    assert LinkOk(t', g', sh', x);
    assert LinkOk(t', g', sh', y);
    forall v | InTree(t', v)
      ensures LinkOk(t', g', sh', v)
    {
      if v != x && v != y {
        CutBystander(t, t', g, sh, x, y, v);
      }
    }
  }

  lemma {:induction false} CutSums(t: seq<Node>, t': seq<Node>, vals: seq<bv64>, g: seq<Place>, sh: seq<Span>, x: int,
          y: int)
    requires CanCut(t, g, sh, x, y) && CutOff(t, t', x, y) && Sums(t, vals, g, sh)
    ensures Sums(t', vals, CutPlaces(g, x, y), CutSpans(sh, x, y))
  {
    var g', sh' := CutPlaces(g, x, y), CutSpans(sh, x, y);
    TwoNodes(t, g, sh, x, y);
    CutKeeps(t, t', g, sh, x, y);
    forall v | InTree(t', v) && v != y
      ensures AggOk(t', vals, g', sh', v)
    {
      assert AggOk(t, vals, g, sh, v);
      if v == x {
        assert g[x].line[0..1] == [x] == g'[x].line[0..1];
      }
    }
    assert AggOk(t, vals, g, sh, y);
    assert LinkOk(t', g', sh', y);
    UpToDateOk(t', vals, g', sh', y);
  }
}
