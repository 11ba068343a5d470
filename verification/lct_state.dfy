/**
 A link-cut tree as the program stores it, and what each stored node means.

 The nodes of one splay tree are the nodes of one path of the represented forest.  `Place`
 says of every node which path it is on (`line`, from the shallowest node down), where on it
 (`pos`), and the forest parent of the path's first node (`up`).  `Span` says which stretch
 [lo, hi) of the path the node's splay subtree covers and whether an odd number of pending
 reversals applies to it (`flip`).  The program stores neither.
 */
module LctState {

  /** `left` and `right` are ch[0] and ch[1]; 0 stands for no node. */
  datatype Node = Node(left: int, right: int, p: int, val: bv64, agg: bv64, rev: bool)

  datatype Place = Place(line: seq<int>, pos: int, up: int)

  datatype Span = Span(lo: int, hi: int, flip: bool)

  predicate InTree(t: seq<Node>, v: int) {
    1 <= v < |t|
  }

  // ----- exclusive or along a path

  function At(vals: seq<bv64>, v: int): bv64 {
    if 0 <= v < |vals| then vals[v] else 0
  }

  function Xor(a: bv64, b: bv64): bv64 {
    a ^ b
  }

  function XorFirst(vals: seq<bv64>, s: seq<int>, n: int): bv64
    requires n <= |s|
    decreases n
  {
    if n <= 0 then 0 else Xor(XorFirst(vals, s, n - 1), At(vals, s[n - 1]))
  }

  /** The exclusive or of the values of the nodes in s. */
  function XorOf(vals: seq<bv64>, s: seq<int>): bv64 {
    XorFirst(vals, s, |s|)
  }

  lemma {:induction false} Assoc(a: bv64, b: bv64, c: bv64)
    ensures Xor(Xor(a, b), c) == Xor(a, Xor(b, c))
  {
  }

  lemma {:induction false} Commute(a: bv64, b: bv64)
    ensures Xor(a, b) == Xor(b, a)
  {
  }

  lemma {:induction false} Swap(a: bv64, b: bv64, c: bv64)
    ensures Xor(Xor(a, b), c) == Xor(Xor(c, b), a)
  {
    Commute(Xor(a, b), c);
    Commute(a, b);
    Assoc(c, b, a);
  }

  lemma {:induction false} Zero(a: bv64)
    ensures Xor(a, 0) == a && Xor(0, a) == a
  {
  }

  lemma {:induction false} XorPrefix(vals: seq<bv64>, s: seq<int>, s': seq<int>, n: int)
    requires n <= |s| && n <= |s'| && forall i :: 0 <= i < n ==> s[i] == s'[i]
    ensures XorFirst(vals, s, n) == XorFirst(vals, s', n)
    decreases n
  {
    if n > 0 {
      XorPrefix(vals, s, s', n - 1);
    }
  }

  lemma {:induction false} XorConcatFirst(vals: seq<bv64>, a: seq<int>, b: seq<int>, n: nat)
    requires n <= |b|
    ensures XorFirst(vals, a + b, |a| + n) == Xor(XorOf(vals, a), XorFirst(vals, b, n))
    decreases n
  {
    if n == 0 {
      XorPrefix(vals, a + b, a, |a|);
      Zero(XorOf(vals, a));
    } else {
      XorConcatFirst(vals, a, b, n - 1);
      assert (a + b)[|a| + n - 1] == b[n - 1];
      Assoc(XorOf(vals, a), XorFirst(vals, b, n - 1), At(vals, b[n - 1]));
    }
  }

  lemma {:induction false} XorConcat(vals: seq<bv64>, a: seq<int>, b: seq<int>)
    ensures XorOf(vals, a + b) == Xor(XorOf(vals, a), XorOf(vals, b))
  {
    XorConcatFirst(vals, a, b, |b|);
  }

  lemma {:induction false} XorOne(vals: seq<bv64>, v: int)
    ensures XorOf(vals, [v]) == At(vals, v)
  {
    assert XorFirst(vals, [v], 0) == 0;
    Zero(At(vals, v));
  }

  /** A node's stretch is its left part, the node itself and its right part. */
  lemma {:induction false} XorAround(vals: seq<bv64>, line: seq<int>, lo: int, pos: int, hi: int)
    requires 0 <= lo <= pos < hi <= |line|
    ensures XorOf(vals, line[lo..hi]) == Xor(Xor(XorOf(vals, line[lo..pos]), At(vals, line[pos])),
              XorOf(vals, line[pos + 1..hi]))
  {
    assert line[lo..hi] == line[lo..pos] + [line[pos]] + line[pos + 1..hi];
    XorConcat(vals, line[lo..pos] + [line[pos]], line[pos + 1..hi]);
    XorConcat(vals, line[lo..pos], [line[pos]]);
    XorOne(vals, line[pos]);
  }

  function Reverse(line: seq<int>): (r: seq<int>)
    ensures |r| == |line|
    ensures forall i :: 0 <= i < |line| ==> r[i] == line[|line| - 1 - i]
  {
    seq(|line|, i requires 0 <= i < |line| => line[|line| - 1 - i])
  }

  /** Reversal does not change an exclusive or. */
  lemma {:induction false} XorReverse(vals: seq<bv64>, s: seq<int>)
    ensures XorOf(vals, Reverse(s)) == XorOf(vals, s)
    decreases |s|
  {
    if s != [] {
      var n := |s| - 1;
      assert Reverse(s) == [s[n]] + Reverse(s[..n]);
      assert s == s[..n] + [s[n]];
      XorConcat(vals, [s[n]], Reverse(s[..n]));
      XorConcat(vals, s[..n], [s[n]]);
      XorReverse(vals, s[..n]);
      Commute(XorOf(vals, [s[n]]), XorOf(vals, s[..n]));
    }
  }

  // ----- paths

  ghost predicate OnLine(g: seq<Place>, q: Place, i: int) {
    && 0 <= i < |q.line| && 1 <= q.line[i] < |g|
    && g[q.line[i]] == Place(q.line, i, q.up)
  }

  ghost predicate PlaceOk(g: seq<Place>, v: int) {
    && 0 <= v < |g|
    && 0 <= g[v].pos < |g[v].line| && g[v].line[g[v].pos] == v
    && 0 <= g[v].up < |g|
    && forall i :: 0 <= i < |g[v].line| ==> OnLine(g, g[v], i)
  }

  /** Every node is on exactly one path, at one position. */
  ghost predicate PlacesOk(g: seq<Place>) {
    |g| > 0 && forall v :: 1 <= v < |g| ==> PlaceOk(g, v)
  }

  /** The parent of v in the represented forest, 0 for a root. */
  function Par(g: seq<Place>, v: int): int {
    if 1 <= v < |g| && 0 < g[v].pos <= |g[v].line| then g[v].line[g[v].pos - 1]
    else if 1 <= v < |g| then g[v].up
    else 0
  }

  predicate SameLine(g: seq<Place>, u: int, v: int) {
    1 <= u < |g| && 1 <= v < |g| && g[u].line == g[v].line
  }

  lemma {:induction false} SameLineFacts(g: seq<Place>, u: int, v: int)
    requires PlacesOk(g) && SameLine(g, u, v)
    ensures g[u].up == g[v].up
    ensures g[u].pos == g[v].pos <==> u == v
  {
    assert PlaceOk(g, u) && PlaceOk(g, v);
    assert OnLine(g, g[u], g[v].pos);
  }

  lemma {:induction false} NodeAt(g: seq<Place>, v: int, i: int)
    requires PlacesOk(g) && 1 <= v < |g| && 0 <= i < |g[v].line|
    ensures 1 <= g[v].line[i] < |g| && SameLine(g, g[v].line[i], v) && g[g[v].line[i]] == Place(g[v].line, i, g[v].up)
  {
    assert PlaceOk(g, v);
    assert OnLine(g, g[v], i);
  }

  // ----- splay trees

  function Child(n: Node, k: bool): int {
    if k then n.right else n.left
  }

  /** v's child on side k of its path, pending reversals taken into account. */
  function Eff(t: seq<Node>, sh: seq<Span>, v: int, k: bool): int
    requires 0 <= v < |t| == |sh|
  {
    Child(t[v], k != sh[v].flip)
  }

  /** The part of v's stretch on side k of v. */
  function SideLo(g: seq<Place>, sh: seq<Span>, v: int, k: bool): int
    requires 0 <= v < |g| == |sh|
  {
    if k then g[v].pos + 1 else sh[v].lo
  }

  function SideHi(g: seq<Place>, sh: seq<Span>, v: int, k: bool): int
    requires 0 <= v < |g| == |sh|
  {
    if k then sh[v].hi else g[v].pos
  }

  /** The node covers its whole path: it is the root of its splay tree. */
  predicate Whole(g: seq<Place>, sh: seq<Span>, v: int)
    requires 0 <= v < |g| == |sh|
  {
    sh[v].lo == 0 && sh[v].hi == |g[v].line|
  }

  predicate SpanOk(g: seq<Place>, sh: seq<Span>, v: int)
    requires 0 <= v < |g| == |sh|
  {
    0 <= sh[v].lo <= g[v].pos < sh[v].hi <= |g[v].line|
  }

  /** v's child on side k covers exactly that side, or there is none if the side is empty. */
  predicate ChildOk(t: seq<Node>, g: seq<Place>, sh: seq<Span>, v: int, k: bool)
    requires 0 <= v < |t| == |g| == |sh|
  {
    var c, lo, hi := Eff(t, sh, v, k), SideLo(g, sh, v, k), SideHi(g, sh, v, k);
    if lo >= hi then c == 0
    else
      && InTree(t, c) && SameLine(g, c, v) && sh[c].lo == lo && sh[c].hi == hi
      && t[c].p == v
      && sh[c].flip == (t[c].rev != sh[v].flip)
  }

  predicate ParentOk(t: seq<Node>, g: seq<Place>, sh: seq<Span>, v: int)
    requires 0 <= v < |t| == |g| == |sh|
  {
    if Whole(g, sh, v) then sh[v].flip == t[v].rev && t[v].p == g[v].up
    else InTree(t, t[v].p) && (t[t[v].p].left == v || t[t[v].p].right == v)
  }

  /** No pending reversal lies strictly above the represented root: of the nodes whose stretch
      starts at a represented root, only that root itself may be flagged, and only as splay root. */
  predicate CleanOk(t: seq<Node>, g: seq<Place>, sh: seq<Span>, v: int)
    requires 0 <= v < |t| == |g| == |sh|
  {
    sh[v].lo == 0 && g[v].up == 0 && t[v].rev ==> Whole(g, sh, v) && g[v].pos == 0
  }

  predicate LinkOk(t: seq<Node>, g: seq<Place>, sh: seq<Span>, v: int) {
    && 0 <= v < |t| == |g| == |sh|
    && SpanOk(g, sh, v)
    && ChildOk(t, g, sh, v, false) && ChildOk(t, g, sh, v, true)
    && ParentOk(t, g, sh, v)
    && CleanOk(t, g, sh, v)
  }

  /** The links of the stored nodes agree with their places and spans. */
  ghost predicate Shape(t: seq<Node>, g: seq<Place>, sh: seq<Span>) {
    && 0 < |t| == |g| == |sh|
    && t[0].left == 0 && t[0].right == 0
    && PlacesOk(g)
    && forall v {:trigger LinkOk(t, g, sh, v)} :: InTree(t, v) ==> LinkOk(t, g, sh, v)
  }

  predicate AggOk(t: seq<Node>, vals: seq<bv64>, g: seq<Place>, sh: seq<Span>, v: int) {
    && 0 <= v < |t| == |g| == |sh| == |vals|
    && SpanOk(g, sh, v)
    && t[v].val == vals[v] && t[v].agg == XorOf(vals, g[v].line[sh[v].lo..sh[v].hi])
  }

  /** Every aggregate is the exclusive or of the values on the node's stretch. */
  ghost predicate Sums(t: seq<Node>, vals: seq<bv64>, g: seq<Place>, sh: seq<Span>) {
    && 0 < |t| == |vals| == |g| == |sh|
    && t[0].agg == 0
    && forall v {:trigger AggOk(t, vals, g, sh, v)} :: InTree(t, v) ==> AggOk(t, vals, g, sh, v)
  }

  function Size(sh: seq<Span>, v: int): int
    requires 0 <= v < |sh|
  {
    sh[v].hi - sh[v].lo
  }

  // ----- the program's own test for a splay root

  predicate IsRoot(t: seq<Node>, v: int)
    requires 0 <= v < |t| && 0 <= t[v].p < |t|
  {
    t[t[v].p].left != v && t[t[v].p].right != v
  }

  lemma {:induction false} ParentInRange(t: seq<Node>, g: seq<Place>, sh: seq<Span>, v: int)
    requires Shape(t, g, sh) && InTree(t, v)
    ensures 0 <= t[v].p < |t|
  {
    assert LinkOk(t, g, sh, v) && PlaceOk(g, v);
  }

  /** The side of u that its child c is on. */
  function SideOf(t: seq<Node>, sh: seq<Span>, u: int, c: int): bool
    requires 0 <= u < |t| == |sh|
  {
    (t[u].right == c) != sh[u].flip
  }

  /** A child of u lies on u's path and covers one side of it. */
  lemma {:induction false} ChildFacts(t: seq<Node>, g: seq<Place>, sh: seq<Span>, u: int, c: int)
    requires Shape(t, g, sh) && InTree(t, u) && (t[u].left == c || t[u].right == c) && c != 0
    ensures InTree(t, c) && SameLine(g, c, u) && t[c].p == u
    ensures SpanOk(g, sh, c) && SpanOk(g, sh, u) && |g[u].line| >= sh[u].hi
    ensures sh[c].flip == (t[c].rev != sh[u].flip)
    ensures var k := SideOf(t, sh, u, c);
            Eff(t, sh, u, k) == c && sh[c].lo == SideLo(g, sh, u, k) && sh[c].hi == SideHi(g, sh, u, k)
    ensures !Whole(g, sh, c) && Size(sh, c) < Size(sh, u)
    ensures c != u && t[u].left != t[u].right
  {
    assert LinkOk(t, g, sh, u);
    assert ChildOk(t, g, sh, u, false) && ChildOk(t, g, sh, u, true);
    assert LinkOk(t, g, sh, c);
  }

  lemma {:induction false} ParentFacts(t: seq<Node>, g: seq<Place>, sh: seq<Span>, v: int)
    requires Shape(t, g, sh) && InTree(t, v) && !Whole(g, sh, v)
    ensures InTree(t, t[v].p) && (t[t[v].p].left == v || t[t[v].p].right == v)
    ensures SameLine(g, v, t[v].p) && Size(sh, v) < Size(sh, t[v].p)
    ensures sh[v].flip == (t[v].rev != sh[t[v].p].flip)
    ensures SpanOk(g, sh, v) && SpanOk(g, sh, t[v].p)
  {
    assert LinkOk(t, g, sh, v);
    ChildFacts(t, g, sh, t[v].p, v);
  }

  /** The test is right: not being a child of its p means that a node covers its whole path. */
  lemma {:induction false} IsRootMeansWhole(t: seq<Node>, g: seq<Place>, sh: seq<Span>, v: int)
    requires Shape(t, g, sh) && InTree(t, v)
    ensures 0 <= t[v].p < |t|
    ensures IsRoot(t, v) <==> Whole(g, sh, v)
  {
    ParentInRange(t, g, sh, v);
    assert LinkOk(t, g, sh, v);
    if t[v].p != 0 && !IsRoot(t, v) {
      ChildFacts(t, g, sh, t[v].p, v);
    }
  }

  /** A node whose stretch contains another node's position has that node below it. */
  lemma {:induction false} Nested(t: seq<Node>, g: seq<Place>, sh: seq<Span>, v: int, x: int)
    requires Shape(t, g, sh) && InTree(t, v) && InTree(t, x) && SameLine(g, v, x) && v != x
    requires sh[v].lo <= g[x].pos < sh[v].hi
    ensures sh[v].lo <= sh[x].lo && sh[x].hi <= sh[v].hi && Size(sh, x) < Size(sh, v)
    ensures g[x].pos < g[v].pos ==> sh[x].hi <= g[v].pos
    ensures g[v].pos < g[x].pos ==> g[v].pos < sh[x].lo
    ensures g[x].pos != g[v].pos && !Whole(g, sh, x)
    decreases Size(sh, v)
  {
    SameLineFacts(g, v, x);
    assert LinkOk(t, g, sh, v) && LinkOk(t, g, sh, x);
    var k := g[v].pos < g[x].pos;
    assert ChildOk(t, g, sh, v, k);
    var c := Eff(t, sh, v, k);
    ChildFacts(t, g, sh, v, c);
    if c != x {
      Nested(t, g, sh, c, x);
    }
  }

  /** A path has only one splay root, and no other stretch contains its position. */
  lemma {:induction false} BesideRoot(t: seq<Node>, g: seq<Place>, sh: seq<Span>, x: int, v: int)
    requires Shape(t, g, sh) && InTree(t, v) && InTree(t, x) && SameLine(g, v, x) && v != x
    requires Whole(g, sh, x)
    ensures !Whole(g, sh, v) && SpanOk(g, sh, v) && SpanOk(g, sh, x) && g[v].pos != g[x].pos
    ensures g[v].pos < g[x].pos ==> sh[v].hi <= g[x].pos
    ensures g[x].pos < g[v].pos ==> g[x].pos < sh[v].lo
  {
    assert LinkOk(t, g, sh, v) && LinkOk(t, g, sh, x);
    Nested(t, g, sh, x, v);
  }
}
