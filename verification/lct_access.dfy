/**
 The steps of a link-cut tree that move nodes between paths: the splice inside access, the
 reversal of make_root, link and cut.
 */
module LctAccess {
  import opened LctState
  import opened LctSteps

  // ----- one round of access

  /** x is about to lose the part of its path below it and to get c's whole path instead,
      which hangs below x; c is 0 if there is none. */
  ghost predicate CanSplice(t: seq<Node>, g: seq<Place>, sh: seq<Span>, x: int, c: int) {
    && Shape(t, g, sh) && InTree(t, x) && Whole(g, sh, x) && !t[x].rev
    && (c == 0 || (InTree(t, c) && Whole(g, sh, c) && g[c].up == x && g[c].line != g[x].line))
  }

  ghost predicate Spliced(t: seq<Node>, t': seq<Node>, x: int, c: int) {
    && InTree(t, x) && |t'| == |t|
    && t'[x] == t[x].(right := c, agg := t'[x].agg) && UpToDate(t', x)
    && forall v {:trigger t'[v]} :: 0 <= v < |t| && v != x ==> t'[v] == t[v]
  }

  predicate Upper(g: seq<Place>, x: int, v: int) {
    SameLine(g, v, x) && g[v].pos <= g[x].pos
  }

  predicate Lower(g: seq<Place>, x: int, v: int) {
    SameLine(g, v, x) && g[v].pos > g[x].pos
  }

  predicate Hanging(g: seq<Place>, c: int, v: int) {
    c != 0 && SameLine(g, v, c)
  }

  function UpperLine(g: seq<Place>, x: int): seq<int>
    requires 0 <= x < |g|
  {
    if 0 <= g[x].pos < |g[x].line| then g[x].line[..g[x].pos + 1] else []
  }

  function LowerLine(g: seq<Place>, x: int): seq<int>
    requires 0 <= x < |g|
  {
    if 0 <= g[x].pos < |g[x].line| then g[x].line[g[x].pos + 1..] else []
  }

  function TailLine(g: seq<Place>, c: int): seq<int> {
    if 1 <= c < |g| then g[c].line else []
  }

  function SplicedLine(g: seq<Place>, x: int, c: int): seq<int>
    requires 0 <= x < |g|
  {
    UpperLine(g, x) + TailLine(g, c)
  }

  function SplicedPlace(g: seq<Place>, x: int, c: int, v: int): Place
    requires 0 <= x < |g| && 0 <= v < |g|
  {
    if Upper(g, x, v) then Place(SplicedLine(g, x, c), g[v].pos, g[x].up)
    else if Lower(g, x, v) then Place(LowerLine(g, x), g[v].pos - g[x].pos - 1, x)
    else if Hanging(g, c, v) then Place(SplicedLine(g, x, c), g[v].pos + g[x].pos + 1, g[x].up)
    else g[v]
  }

  function SplicedPlaces(g: seq<Place>, x: int, c: int): seq<Place>
    requires 0 <= x < |g|
  {
    seq(|g|, v requires 0 <= v < |g| => SplicedPlace(g, x, c, v))
  }

  function Shift(s: Span, d: int): Span {
    s.(lo := s.lo + d, hi := s.hi + d)
  }

  function SplicedSpan(g: seq<Place>, sh: seq<Span>, x: int, c: int, v: int): Span
    requires 0 <= x < |g| == |sh| && 0 <= v < |g|
  {
    if v == x then Span(0, |SplicedLine(g, x, c)|, false)
    else if Upper(g, x, v) then sh[v]
    else if Lower(g, x, v) then Shift(sh[v], -g[x].pos - 1)
    else if Hanging(g, c, v) then Shift(sh[v], g[x].pos + 1)
    else sh[v]
  }

  function SplicedSpans(g: seq<Place>, sh: seq<Span>, x: int, c: int): seq<Span>
    requires 0 <= x < |g| == |sh|
  {
    seq(|g|, v requires 0 <= v < |g| => SplicedSpan(g, sh, x, c, v))
  }

  ghost predicate Hangs(g: seq<Place>, x: int, c: int) {
    && PlacesOk(g) && 1 <= x < |g|
    && (c == 0 || (1 <= c < |g| && g[c].up == x && g[c].line != g[x].line))
  }

  lemma {:induction false} NewLine(g: seq<Place>, x: int, c: int, q: Place, i: int)
    requires Hangs(g, x, c) && q.line == SplicedLine(g, x, c) && q.up == g[x].up && 0 <= i < |q.line|
    ensures OnLine(SplicedPlaces(g, x, c), q, i)
  {
    assert PlaceOk(g, x);
    var px := g[x].pos;
    if i <= px {
      NodeAt(g, x, i);
      assert q.line[i] == g[x].line[i];
    } else {
      NodeAt(g, c, i - px - 1);
      assert q.line[i] == g[c].line[i - px - 1];
    }
  }

  lemma {:induction false} NewLowerLine(g: seq<Place>, x: int, c: int, q: Place, i: int)
    requires Hangs(g, x, c) && q.line == LowerLine(g, x) && q.up == x && 0 <= i < |q.line|
    ensures OnLine(SplicedPlaces(g, x, c), q, i)
  {
    assert PlaceOk(g, x);
    var px := g[x].pos;
    NodeAt(g, x, px + 1 + i);
    assert q.line[i] == g[x].line[px + 1 + i];
  }

  lemma {:induction false} SplicedPar(g: seq<Place>, x: int, c: int, v: int)
    requires Hangs(g, x, c) && 1 <= v < |g|
    ensures Par(SplicedPlaces(g, x, c), v) == Par(g, v)
  {
    assert PlaceOk(g, x) && PlaceOk(g, v);
    if Upper(g, x, v) {
      SameLineFacts(g, v, x);
    } else if Hanging(g, c, v) && !Lower(g, x, v) {
      assert PlaceOk(g, c);
      SameLineFacts(g, v, c);
      var line := SplicedLine(g, x, c);
      assert line[g[x].pos] == x;
      assert g[v].pos > 0 ==> line[g[v].pos + g[x].pos] == g[c].line[g[v].pos - 1];
    } else if Lower(g, x, v) {
      assert g[x].line[g[x].pos] == x;
    }
  }

  lemma {:induction false} SplicedPlaceOk(g: seq<Place>, x: int, c: int, v: int)
    requires Hangs(g, x, c) && 1 <= v < |g|
    ensures PlaceOk(SplicedPlaces(g, x, c), v)
  {
    var g' := SplicedPlaces(g, x, c);
    assert PlaceOk(g, x) && PlaceOk(g, v);
    if c != 0 {
      assert PlaceOk(g, c);
    }
    forall i | 0 <= i < |g'[v].line|
      ensures OnLine(g', g'[v], i)
    {
      if Upper(g, x, v) || (Hanging(g, c, v) && !Lower(g, x, v)) {
        if Upper(g, x, v) {
          SameLineFacts(g, v, x);
        } else {
          SameLineFacts(g, v, c);
        }
        NewLine(g, x, c, g'[v], i);
      } else if Lower(g, x, v) {
        NewLowerLine(g, x, c, g'[v], i);
      } else {
        NodeAt(g, v, i);
      }
    }
  }

  lemma {:induction false} SplicedPlacesOk(g: seq<Place>, x: int, c: int)
    requires Hangs(g, x, c)
    ensures PlacesOk(SplicedPlaces(g, x, c))
    ensures forall v :: 1 <= v < |g| ==> Par(SplicedPlaces(g, x, c), v) == Par(g, v)
  {
    forall v | 1 <= v < |g|
      ensures PlaceOk(SplicedPlaces(g, x, c), v)
      ensures Par(SplicedPlaces(g, x, c), v) == Par(g, v)
    {
      SplicedPlaceOk(g, x, c, v);
      SplicedPar(g, x, c, v);
    }
  }

  /** A node keeps its children when it and they move along their path by the same distance. */
  predicate Moved(t: seq<Node>, t': seq<Node>, g: seq<Place>, g': seq<Place>, sh: seq<Span>, sh': seq<Span>, v: int,
          d: int) {
    && 0 <= v < |t| && |t| == |t'| == |g| == |g'| == |sh| == |sh'|
    && t'[v].p == t[v].p && t'[v].rev == t[v].rev
    && g'[v].pos == g[v].pos + d && sh'[v] == Shift(sh[v], d)
  }

  lemma {:induction false} MovedChild(t: seq<Node>, t': seq<Node>, g: seq<Place>, g': seq<Place>, sh: seq<Span>,
          sh': seq<Span>, v: int, k: bool, d: int)
    requires Moved(t, t', g, g', sh, sh', v, d) && ChildOk(t, g, sh, v, k)
    requires Child(t'[v], k != sh[v].flip) == Child(t[v], k != sh[v].flip)
    requires var c := Eff(t, sh, v, k); c != 0 ==> Moved(t, t', g, g', sh, sh', c, d) && SameLine(g', c, v)
    ensures ChildOk(t', g', sh', v, k)
  {
  }

  /** Everything the splice lemmas need about x and c. */
  ghost predicate Splice(t: seq<Node>, t': seq<Node>, g: seq<Place>, g': seq<Place>, sh: seq<Span>, sh': seq<Span>,
          x: int, c: int) {
    && CanSplice(t, g, sh, x, c) && Spliced(t, t', x, c)
    && g' == SplicedPlaces(g, x, c) && sh' == SplicedSpans(g, sh, x, c)
  }

  lemma {:induction false} UpperMoves(t: seq<Node>, t': seq<Node>, g: seq<Place>, g': seq<Place>, sh: seq<Span>,
          sh': seq<Span>, x: int, c: int, v: int)
    requires Splice(t, t', g, g', sh, sh', x, c) && InTree(t, v) && v != x && Upper(g, x, v)
    ensures Moved(t, t', g, g', sh, sh', v, 0) && t'[v] == t[v] && g'[v].line == SplicedLine(g, x, c)
  {
  }

  lemma {:induction false} UpperChild(t: seq<Node>, t': seq<Node>, g: seq<Place>, g': seq<Place>, sh: seq<Span>,
          sh': seq<Span>, x: int, c: int, v: int, k: bool)
    requires Splice(t, t', g, g', sh, sh', x, c) && InTree(t, v) && v != x && Upper(g, x, v)
    ensures ChildOk(t', g', sh', v, k)
  {
    assert LinkOk(t, g, sh, v) && ChildOk(t, g, sh, v, k);
    UpperMoves(t, t', g, g', sh, sh', x, c, v);
    var e := Eff(t, sh, v, k);
    if e != 0 {
      ChildFacts(t, g, sh, v, e);
      BesideRoot(t, g, sh, x, v);
      BesideRoot(t, g, sh, x, e);
      UpperMoves(t, t', g, g', sh, sh', x, c, e);
    }
    MovedChild(t, t', g, g', sh, sh', v, k, 0);
  }

  /** A node above x keeps its parent, and is on x's left if that is x. */
  lemma {:induction false} UpperParent(t: seq<Node>, g: seq<Place>, sh: seq<Span>, x: int, v: int)
    requires Shape(t, g, sh) && InTree(t, x) && Whole(g, sh, x) && !t[x].rev && InTree(t, v) && v != x && Upper(g, x, v)
    ensures SpanOk(g, sh, v) && sh[v].hi <= g[x].pos && !Whole(g, sh, v)
    ensures IsChild(t, t[v].p, v) && InTree(t, t[v].p) && (t[v].p == x ==> t[x].left == v)
    ensures g[v].up == g[x].up
  {
    assert LinkOk(t, g, sh, v) && LinkOk(t, g, sh, x);
    SameLineFacts(g, v, x);
    BesideRoot(t, g, sh, x, v);
    ParentFacts(t, g, sh, v);
    if t[v].p == x {
      ChildFacts(t, g, sh, x, v);
    }
  }

  lemma {:induction false} SplicedUpper(t: seq<Node>, t': seq<Node>, g: seq<Place>, g': seq<Place>, sh: seq<Span>,
          sh': seq<Span>, x: int, c: int, v: int)
    requires Splice(t, t', g, g', sh, sh', x, c) && InTree(t, v) && v != x && Upper(g, x, v)
    ensures LinkOk(t', g', sh', v)
  {
    UpperChild(t, t', g, g', sh, sh', x, c, v, false);
    UpperChild(t, t', g, g', sh, sh', x, c, v, true);
    UpperMoves(t, t', g, g', sh, sh', x, c, v);
    assert LinkOk(t, g, sh, v) && PlaceOk(g, x) && PlaceOk(g, v);
    UpperParent(t, g, sh, x, v);
  }

  lemma {:induction false} SplicedXLeft(t: seq<Node>, t': seq<Node>, g: seq<Place>, g': seq<Place>, sh: seq<Span>,
          sh': seq<Span>, x: int, c: int)
    requires Splice(t, t', g, g', sh, sh', x, c)
    ensures ChildOk(t', g', sh', x, false)
  {
    assert LinkOk(t, g, sh, x) && ChildOk(t, g, sh, x, false) && PlaceOk(g, x);
    var a := t[x].left;
    if a != 0 {
      ChildFacts(t, g, sh, x, a);
      BesideRoot(t, g, sh, x, a);
      UpperMoves(t, t', g, g', sh, sh', x, c, a);
    }
  }

  lemma {:induction false} SplicedXRight(t: seq<Node>, t': seq<Node>, g: seq<Place>, g': seq<Place>, sh: seq<Span>,
          sh': seq<Span>, x: int, c: int)
    requires Splice(t, t', g, g', sh, sh', x, c)
    ensures SpanOk(g', sh', x) && ChildOk(t', g', sh', x, true)
  {
    SpanHolds(t, g, sh, x);
    if c != 0 {
      assert LinkOk(t, g, sh, c) && PlaceOk(g, c);
    }
  }

  lemma {:induction false} SplicedX(t: seq<Node>, t': seq<Node>, g: seq<Place>, g': seq<Place>, sh: seq<Span>,
          sh': seq<Span>, x: int, c: int)
    requires Splice(t, t', g, g', sh, sh', x, c)
    ensures LinkOk(t', g', sh', x)
  {
    assert LinkOk(t, g, sh, x);
    SplicedXLeft(t, t', g, g', sh, sh', x, c);
    SplicedXRight(t, t', g, g', sh, sh', x, c);
  }

  lemma {:induction false} HangingMoves(t: seq<Node>, t': seq<Node>, g: seq<Place>, g': seq<Place>, sh: seq<Span>,
          sh': seq<Span>, x: int, c: int, v: int)
    requires Splice(t, t', g, g', sh, sh', x, c) && InTree(t, v) && Hanging(g, c, v)
    ensures Moved(t, t', g, g', sh, sh', v, g[x].pos + 1) && t'[v] == t[v] && g'[v].line == SplicedLine(g, x, c)
  {
  }

  lemma {:induction false} HangingChild(t: seq<Node>, t': seq<Node>, g: seq<Place>, g': seq<Place>, sh: seq<Span>,
          sh': seq<Span>, x: int, c: int, v: int, k: bool)
    requires Splice(t, t', g, g', sh, sh', x, c) && InTree(t, v) && Hanging(g, c, v)
    ensures ChildOk(t', g', sh', v, k)
  {
    assert LinkOk(t, g, sh, v) && ChildOk(t, g, sh, v, k);
    HangingMoves(t, t', g, g', sh, sh', x, c, v);
    var e := Eff(t, sh, v, k);
    if e != 0 {
      ChildFacts(t, g, sh, v, e);
      HangingMoves(t, t', g, g', sh, sh', x, c, e);
    }
    MovedChild(t, t', g, g', sh, sh', v, k, g[x].pos + 1);
  }

  lemma {:induction false} SplicedHanging(t: seq<Node>, t': seq<Node>, g: seq<Place>, g': seq<Place>, sh: seq<Span>,
          sh': seq<Span>, x: int, c: int, v: int)
    requires Splice(t, t', g, g', sh, sh', x, c) && InTree(t, v) && Hanging(g, c, v)
    ensures LinkOk(t', g', sh', v)
  {
    HangingChild(t, t', g, g', sh, sh', x, c, v, false);
    HangingChild(t, t', g, g', sh, sh', x, c, v, true);
    HangingMoves(t, t', g, g', sh, sh', x, c, v);
    assert LinkOk(t, g, sh, v) && PlaceOk(g, x) && PlaceOk(g, v);
    assert PlaceOk(g, c);
    if v != c {
      BesideRoot(t, g, sh, c, v);
      ParentFacts(t, g, sh, v);
    }
  }

  /** The part below x has one splay root, x's right child. */
  lemma {:induction false} LowerRoot(t: seq<Node>, g: seq<Place>, sh: seq<Span>, x: int, v: int)
    requires Shape(t, g, sh) && InTree(t, x) && Whole(g, sh, x) && !t[x].rev && InTree(t, v) && Lower(g, x, v)
    ensures v == t[x].right <==> sh[v].lo == g[x].pos + 1 && sh[v].hi == |g[x].line|
    ensures v == t[x].right ==> sh[v].flip == t[v].rev && t[v].p == x
  {
    assert LinkOk(t, g, sh, v) && LinkOk(t, g, sh, x) && ChildOk(t, g, sh, x, true);
    BesideRoot(t, g, sh, x, v);
    var r := t[x].right;
    if v != r {
      ChildFacts(t, g, sh, x, r);
      Nested(t, g, sh, r, v);
    }
  }

  lemma {:induction false} LowerMoves(t: seq<Node>, t': seq<Node>, g: seq<Place>, g': seq<Place>, sh: seq<Span>,
          sh': seq<Span>, x: int, c: int, v: int)
    requires Splice(t, t', g, g', sh, sh', x, c) && InTree(t, v) && Lower(g, x, v)
    ensures Moved(t, t', g, g', sh, sh', v, -g[x].pos - 1) && t'[v] == t[v] && g'[v].line == LowerLine(g, x)
  {
  }

  lemma {:induction false} LowerChild(t: seq<Node>, t': seq<Node>, g: seq<Place>, g': seq<Place>, sh: seq<Span>,
          sh': seq<Span>, x: int, c: int, v: int, k: bool)
    requires Splice(t, t', g, g', sh, sh', x, c) && InTree(t, v) && Lower(g, x, v)
    ensures ChildOk(t', g', sh', v, k)
  {
    assert LinkOk(t, g, sh, v) && ChildOk(t, g, sh, v, k);
    LowerMoves(t, t', g, g', sh, sh', x, c, v);
    var e := Eff(t, sh, v, k);
    if e != 0 {
      ChildFacts(t, g, sh, v, e);
      BesideRoot(t, g, sh, x, v);
      BesideRoot(t, g, sh, x, e);
      LowerMoves(t, t', g, g', sh, sh', x, c, e);
    }
    MovedChild(t, t', g, g', sh, sh', v, k, -g[x].pos - 1);
  }

  lemma {:induction false} SplicedLower(t: seq<Node>, t': seq<Node>, g: seq<Place>, g': seq<Place>, sh: seq<Span>,
          sh': seq<Span>, x: int, c: int, v: int)
    requires Splice(t, t', g, g', sh, sh', x, c) && InTree(t, v) && Lower(g, x, v)
    ensures LinkOk(t', g', sh', v)
  {
    LowerChild(t, t', g, g', sh, sh', x, c, v, false);
    LowerChild(t, t', g, g', sh, sh', x, c, v, true);
    LowerMoves(t, t', g, g', sh, sh', x, c, v);
    assert LinkOk(t, g, sh, v) && PlaceOk(g, x) && PlaceOk(g, v);
    BesideRoot(t, g, sh, x, v);
    ParentFacts(t, g, sh, v);
    LowerRoot(t, g, sh, x, v);
    if t[v].p == x {
      ChildFacts(t, g, sh, x, v);
    }
  }

  lemma {:induction false} OtherMoves(t: seq<Node>, t': seq<Node>, g: seq<Place>, g': seq<Place>, sh: seq<Span>,
          sh': seq<Span>, x: int, c: int, v: int)
    requires Splice(t, t', g, g', sh, sh', x, c) && InTree(t, v) && !SameLine(g, v, x) && !Hanging(g, c, v)
    ensures Moved(t, t', g, g', sh, sh', v, 0) && t'[v] == t[v] && g'[v].line == g[v].line
  {
  }

  lemma {:induction false} OtherChild(t: seq<Node>, t': seq<Node>, g: seq<Place>, g': seq<Place>, sh: seq<Span>,
          sh': seq<Span>, x: int, c: int, v: int, k: bool)
    requires Splice(t, t', g, g', sh, sh', x, c) && InTree(t, v) && !SameLine(g, v, x) && !Hanging(g, c, v)
    ensures ChildOk(t', g', sh', v, k)
  {
    assert LinkOk(t, g, sh, v) && ChildOk(t, g, sh, v, k);
    OtherMoves(t, t', g, g', sh, sh', x, c, v);
    var e := Eff(t, sh, v, k);
    if e != 0 {
      ChildFacts(t, g, sh, v, e);
      OtherMoves(t, t', g, g', sh, sh', x, c, e);
    }
    MovedChild(t, t', g, g', sh, sh', v, k, 0);
  }

  lemma {:induction false} SplicedOther(t: seq<Node>, t': seq<Node>, g: seq<Place>, g': seq<Place>, sh: seq<Span>,
          sh': seq<Span>, x: int, c: int, v: int)
    requires Splice(t, t', g, g', sh, sh', x, c) && InTree(t, v) && !SameLine(g, v, x) && !Hanging(g, c, v)
    ensures LinkOk(t', g', sh', v)
  {
    OtherChild(t, t', g, g', sh, sh', x, c, v, false);
    OtherChild(t, t', g, g', sh, sh', x, c, v, true);
    OtherMoves(t, t', g, g', sh, sh', x, c, v);
    assert LinkOk(t, g, sh, v) && PlaceOk(g, x) && PlaceOk(g, v);
    if !Whole(g, sh, v) {
      ParentFacts(t, g, sh, v);
    }
  }

  /** The splice gives the tree the meaning computed by SplicedPlaces and SplicedSpans. */
  lemma {:induction false} SpliceKeeps(t: seq<Node>, t': seq<Node>, g: seq<Place>, g': seq<Place>, sh: seq<Span>,
          sh': seq<Span>, x: int, c: int)
    requires Splice(t, t', g, g', sh, sh', x, c)
    ensures Shape(t', g', sh')
    ensures forall v :: 1 <= v < |g| ==> Par(g', v) == Par(g, v)
  {
    SplicedPlacesOk(g, x, c);
    forall v | InTree(t', v)
      ensures LinkOk(t', g', sh', v)
    {
      if v == x {
        SplicedX(t, t', g, g', sh, sh', x, c);
      } else if Upper(g, x, v) {
        SplicedUpper(t, t', g, g', sh, sh', x, c, v);
      } else if Lower(g, x, v) {
        SplicedLower(t, t', g, g', sh, sh', x, c, v);
      } else if Hanging(g, c, v) {
        SplicedHanging(t, t', g, g', sh, sh', x, c, v);
      } else {
        SplicedOther(t, t', g, g', sh, sh', x, c, v);
      }
    }
  }

  // ----- the aggregates after a splice

  /** v's stretch holds the same nodes as before. */
  predicate SameNodes(g: seq<Place>, g': seq<Place>, sh: seq<Span>, sh': seq<Span>, v: int) {
    && 0 <= v < |g| && |g| == |g'| == |sh| == |sh'|
    && SpanOk(g, sh, v) && SpanOk(g', sh', v)
    && g'[v].line[sh'[v].lo..sh'[v].hi] == g[v].line[sh[v].lo..sh[v].hi]
  }

  lemma {:induction false} SliceOfPrefix(a: seq<int>, n: int, b: seq<int>, lo: int, hi: int)
    requires 0 <= lo <= hi <= n <= |a|
    ensures (a[..n] + b)[lo..hi] == a[lo..hi]
  {
  }

  lemma {:induction false} SliceOfSuffix(a: seq<int>, n: int, lo: int, hi: int)
    requires 0 <= n <= lo <= hi <= |a|
    ensures a[n..][lo - n..hi - n] == a[lo..hi]
  {
  }

  lemma {:induction false} SliceOfAppended(a: seq<int>, b: seq<int>, lo: int, hi: int)
    requires 0 <= lo <= hi <= |b|
    ensures (a + b)[lo + |a|..hi + |a|] == b[lo..hi]
  {
  }

  lemma {:induction false} SpanHolds(t: seq<Node>, g: seq<Place>, sh: seq<Span>, v: int)
    requires Shape(t, g, sh) && InTree(t, v)
    ensures SpanOk(g, sh, v)
  {
    assert LinkOk(t, g, sh, v);
  }

  lemma {:induction false} PrefixStretch(g: seq<Place>, g': seq<Place>, sh: seq<Span>, sh': seq<Span>, v: int, n: int,
          b: seq<int>)
    requires 0 <= v < |g| && |g| == |g'| == |sh| == |sh'| && SpanOk(g, sh, v) && SpanOk(g', sh', v)
    requires sh[v].hi <= n <= |g[v].line| && g'[v].line == g[v].line[..n] + b && sh'[v] == sh[v]
    ensures SameNodes(g, g', sh, sh', v)
  {
    SliceOfPrefix(g[v].line, n, b, sh[v].lo, sh[v].hi);
  }

  lemma {:induction false} SuffixStretch(g: seq<Place>, g': seq<Place>, sh: seq<Span>, sh': seq<Span>, v: int, n: int)
    requires 0 <= v < |g| && |g| == |g'| == |sh| == |sh'| && SpanOk(g, sh, v) && SpanOk(g', sh', v)
    requires 0 <= n <= sh[v].lo && g'[v].line == g[v].line[n..] && sh'[v] == Shift(sh[v], -n)
    ensures SameNodes(g, g', sh, sh', v)
  {
    SliceOfSuffix(g[v].line, n, sh[v].lo, sh[v].hi);
  }

  lemma {:induction false} AppendedStretch(g: seq<Place>, g': seq<Place>, sh: seq<Span>, sh': seq<Span>, v: int,
          a: seq<int>)
    requires 0 <= v < |g| && |g| == |g'| == |sh| == |sh'| && SpanOk(g, sh, v) && SpanOk(g', sh', v)
    requires g'[v].line == a + g[v].line && sh'[v] == Shift(sh[v], |a|)
    ensures SameNodes(g, g', sh, sh', v)
  {
    SliceOfAppended(a, g[v].line, sh[v].lo, sh[v].hi);
  }

  lemma {:induction false} UpperEntry(g: seq<Place>, g': seq<Place>, sh: seq<Span>, sh': seq<Span>, x: int, c: int,
          v: int)
    requires PlacesOk(g) && |g| == |sh| && 1 <= x < |g| && v != x && Upper(g, x, v)
    requires g' == SplicedPlaces(g, x, c) && sh' == SplicedSpans(g, sh, x, c)
    ensures 0 <= g[x].pos < |g[v].line| && g'[v].line == g[v].line[..g[x].pos + 1] + TailLine(g, c) && sh'[v] == sh[v]
  {
    assert PlaceOk(g, x);
  }

  lemma {:induction false} UpperStretch(g: seq<Place>, g': seq<Place>, sh: seq<Span>, sh': seq<Span>, x: int, c: int,
          v: int)
    requires PlacesOk(g) && |g| == |sh| && 1 <= x < |g| && v != x && Upper(g, x, v)
    requires g' == SplicedPlaces(g, x, c) && sh' == SplicedSpans(g, sh, x, c)
    requires SpanOk(g, sh, v) && SpanOk(g', sh', v) && sh[v].hi <= g[x].pos
    ensures SameNodes(g, g', sh, sh', v)
  {
    UpperEntry(g, g', sh, sh', x, c, v);
    PrefixStretch(g, g', sh, sh', v, g[x].pos + 1, TailLine(g, c));
  }

  lemma {:induction false} LowerStretch(t: seq<Node>, t': seq<Node>, g: seq<Place>, g': seq<Place>, sh: seq<Span>,
          sh': seq<Span>, x: int, c: int, v: int)
    requires Splice(t, t', g, g', sh, sh', x, c) && Shape(t', g', sh') && InTree(t, v) && Lower(g, x, v)
    ensures SameNodes(g, g', sh, sh', v)
  {
    SpanHolds(t, g, sh, v);
    SpanHolds(t', g', sh', v);
    SpanHolds(t, g, sh, x);
    LowerMoves(t, t', g, g', sh, sh', x, c, v);
    BesideRoot(t, g, sh, x, v);
    SuffixStretch(g, g', sh, sh', v, g[x].pos + 1);
  }

  lemma {:induction false} HangingStretch(t: seq<Node>, t': seq<Node>, g: seq<Place>, g': seq<Place>, sh: seq<Span>,
          sh': seq<Span>, x: int, c: int, v: int)
    requires Splice(t, t', g, g', sh, sh', x, c) && Shape(t', g', sh') && InTree(t, v) && Hanging(g, c, v)
    ensures SameNodes(g, g', sh, sh', v)
  {
    SpanHolds(t, g, sh, v);
    SpanHolds(t', g', sh', v);
    SpanHolds(t, g, sh, x);
    HangingMoves(t, t', g, g', sh, sh', x, c, v);
    AppendedStretch(g, g', sh, sh', v, UpperLine(g, x));
  }

  lemma {:induction false} SpliceStretch(t: seq<Node>, t': seq<Node>, g: seq<Place>, g': seq<Place>, sh: seq<Span>,
          sh': seq<Span>, x: int, c: int, v: int)
    requires Splice(t, t', g, g', sh, sh', x, c) && Shape(t', g', sh') && InTree(t, v) && v != x
    ensures SameNodes(g, g', sh, sh', v)
  {
    if Upper(g, x, v) {
      SpanHolds(t', g', sh', v);
      UpperParent(t, g, sh, x, v);
      UpperStretch(g, g', sh, sh', x, c, v);
    } else if Lower(g, x, v) {
      LowerStretch(t, t', g, g', sh, sh', x, c, v);
    } else if Hanging(g, c, v) {
      HangingStretch(t, t', g, g', sh, sh', x, c, v);
    } else {
      OtherMoves(t, t', g, g', sh, sh', x, c, v);
      SpanHolds(t, g, sh, v);
      SpanHolds(t', g', sh', v);
    }
  }

  lemma {:induction false} AggStays(t: seq<Node>, t': seq<Node>, vals: seq<bv64>, g: seq<Place>, g': seq<Place>,
          sh: seq<Span>, sh': seq<Span>, v: int)
    requires |t'| == |t| && AggOk(t, vals, g, sh, v) && SameNodes(g, g', sh, sh', v)
    requires t'[v].agg == t[v].agg && t'[v].val == t[v].val
    ensures AggOk(t', vals, g', sh', v)
  {
  }

  lemma {:induction false} SpliceSums(vals: seq<bv64>, t: seq<Node>, t': seq<Node>, g: seq<Place>, g': seq<Place>,
          sh: seq<Span>, sh': seq<Span>, x: int, c: int)
    requires Splice(t, t', g, g', sh, sh', x, c) && Sums(t, vals, g, sh)
    ensures Sums(t', vals, g', sh')
  {
    SpliceKeeps(t, t', g, g', sh, sh', x, c);
    forall v | InTree(t', v) && v != x
      ensures AggOk(t', vals, g', sh', v)
    {
      assert AggOk(t, vals, g, sh, v);
      SpliceStretch(t, t', g, g', sh, sh', x, c, v);
      AggStays(t, t', vals, g, g', sh, sh', v);
    }
    assert LinkOk(t', g', sh', x) && PlaceOk(g', x);
    assert AggOk(t, vals, g, sh, x);
    UpToDateOk(t', vals, g', sh', x);
  }
}
