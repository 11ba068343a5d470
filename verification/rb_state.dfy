/**
 The red-black tree as the program stores it, and what each stored node means.

 Nodes are addresses into one memory; 0 is the null pointer.  `order` lists the members from
 left to right.  `Span` says of every member where it is in that list (`pos`) and which
 stretch [lo, hi) of it the member's subtree covers.  The program stores neither.
 */
module RbState {

  datatype Node = Node(parent: int, left: int, right: int, red: bool, key: nat)

  datatype Span = Span(lo: int, pos: int, hi: int)

  function Child(n: Node, k: bool): int {
    if k then n.right else n.left
  }

  function WithChild(n: Node, k: bool, c: int): Node {
    if k then n.(right := c) else n.(left := c)
  }

  /** v is a member, and sp says where. */
  predicate In(order: seq<int>, sp: seq<Span>, v: int) {
    1 <= v < |sp| && 0 <= sp[v].pos < |order| && order[sp[v].pos] == v
  }

  predicate InRange(sp: seq<Span>, order: seq<int>, i: int) {
    0 <= i < |order| && 1 <= order[i] < |sp| && sp[order[i]].pos == i
  }

  predicate Whole(order: seq<int>, sp: seq<Span>, v: int)
    requires 0 <= v < |sp|
  {
    sp[v].lo == 0 && sp[v].hi == |order|
  }

  predicate SpanOk(order: seq<int>, sp: seq<Span>, v: int)
    requires 0 <= v < |sp|
  {
    0 <= sp[v].lo <= sp[v].pos < sp[v].hi <= |order|
  }

  function SideLo(sp: seq<Span>, v: int, k: bool): int
    requires 0 <= v < |sp|
  {
    if k then sp[v].pos + 1 else sp[v].lo
  }

  function SideHi(sp: seq<Span>, v: int, k: bool): int
    requires 0 <= v < |sp|
  {
    if k then sp[v].hi else sp[v].pos
  }

  /** v's child on side k covers exactly that side, or there is none if the side is empty. */
  predicate ChildOk(t: seq<Node>, order: seq<int>, sp: seq<Span>, v: int, k: bool)
    requires 0 <= v < |t| == |sp|
  {
    var c, lo, hi := Child(t[v], k), SideLo(sp, v, k), SideHi(sp, v, k);
    if lo >= hi then c == 0
    else In(order, sp, c) && sp[c].lo == lo && sp[c].hi == hi && t[c].parent == v
  }

  predicate IsChild(t: seq<Node>, u: int, c: int) {
    0 <= u < |t| && c != 0 && (t[u].left == c || t[u].right == c)
  }

  predicate ParentOk(t: seq<Node>, root: int, order: seq<int>, sp: seq<Span>, v: int)
    requires 0 <= v < |t| == |sp|
  {
    if Whole(order, sp, v) then v == root && t[v].parent == 0
    else In(order, sp, t[v].parent) && IsChild(t, t[v].parent, v)
  }

  predicate LinkOk(t: seq<Node>, root: int, order: seq<int>, sp: seq<Span>, v: int) {
    && 0 <= v < |t| == |sp|
    && SpanOk(order, sp, v)
    && ChildOk(t, order, sp, v, false) && ChildOk(t, order, sp, v, true)
    && ParentOk(t, root, order, sp, v)
  }

  /** The links form one binary tree whose in-order traversal is `order`. */
  ghost predicate Shape(t: seq<Node>, root: int, order: seq<int>, sp: seq<Span>) {
    && 0 < |t| == |sp|
    && (forall i {:trigger InRange(sp, order, i)} :: 0 <= i < |order| ==> InRange(sp, order, i))
    && (forall v {:trigger LinkOk(t, root, order, sp, v)} :: In(order, sp, v) ==> LinkOk(t, root, order, sp, v))
    && (if order == [] then root == 0 else In(order, sp, root) && Whole(order, sp, root))
  }

  function Size(sp: seq<Span>, v: int): int
    requires 0 <= v < |sp|
  {
    sp[v].hi - sp[v].lo
  }

  // ----- facts

  lemma {:induction false} Member(t: seq<Node>, root: int, order: seq<int>, sp: seq<Span>, v: int)
    requires Shape(t, root, order, sp) && In(order, sp, v)
    ensures LinkOk(t, root, order, sp, v) && SpanOk(order, sp, v)
    ensures ChildOk(t, order, sp, v, false) && ChildOk(t, order, sp, v, true)
  {
    assert LinkOk(t, root, order, sp, v);
  }

  lemma {:induction false} MemberAt(t: seq<Node>, root: int, order: seq<int>, sp: seq<Span>, i: int)
    requires Shape(t, root, order, sp) && 0 <= i < |order|
    ensures In(order, sp, order[i]) && sp[order[i]].pos == i
  {
    assert InRange(sp, order, i);
  }

  /** A child of u covers one side of u. */
  lemma {:induction false} ChildFacts(t: seq<Node>, root: int, order: seq<int>, sp: seq<Span>, u: int, c: int)
    requires Shape(t, root, order, sp) && In(order, sp, u) && IsChild(t, u, c)
    ensures In(order, sp, c) && t[c].parent == u && c != u && t[u].left != t[u].right
    ensures SpanOk(order, sp, c) && SpanOk(order, sp, u)
    ensures var k := t[u].right == c;
            Child(t[u], k) == c && sp[c].lo == SideLo(sp, u, k) && sp[c].hi == SideHi(sp, u, k)
    ensures !Whole(order, sp, c) && Size(sp, c) < Size(sp, u)
  {
    Member(t, root, order, sp, u);
    Member(t, root, order, sp, c);
  }

  lemma {:induction false} ParentFacts(t: seq<Node>, root: int, order: seq<int>, sp: seq<Span>, v: int)
    requires Shape(t, root, order, sp) && In(order, sp, v)
    ensures SpanOk(order, sp, v)
    ensures t[v].parent == 0 <==> v == root
    ensures v == root <==> Whole(order, sp, v)
    ensures v != root ==>
              In(order, sp, t[v].parent) && IsChild(t, t[v].parent, v) && Size(sp, v) < Size(sp, t[v].parent)
  {
    Member(t, root, order, sp, v);
    if !Whole(order, sp, v) {
      ChildFacts(t, root, order, sp, t[v].parent, v);
    } 
    if v == root {
      Member(t, root, order, sp, root);
    }
  }

  /** A node whose stretch contains another node's position has that node below it. */
  lemma {:induction false} Nested(t: seq<Node>, root: int, order: seq<int>, sp: seq<Span>, v: int, x: int)
    requires Shape(t, root, order, sp) && In(order, sp, v) && In(order, sp, x) && v != x
    requires sp[v].lo <= sp[x].pos < sp[v].hi
    ensures SpanOk(order, sp, v) && SpanOk(order, sp, x) && sp[v].pos != sp[x].pos
    ensures sp[v].lo <= sp[x].lo && sp[x].hi <= sp[v].hi && Size(sp, x) < Size(sp, v)
    ensures sp[x].pos < sp[v].pos ==> sp[x].hi <= sp[v].pos
    ensures sp[v].pos < sp[x].pos ==> sp[v].pos < sp[x].lo
    decreases Size(sp, v)
  {
    Member(t, root, order, sp, v);
    Member(t, root, order, sp, x);
    var k := sp[v].pos < sp[x].pos;
    var c := Child(t[v], k);
    ChildFacts(t, root, order, sp, v, c);
    if c != x {
      Nested(t, root, order, sp, c, x);
    }
  }

  // ----- colours

  function Height(bh: seq<nat>, c: int): nat {
    if 0 < c < |bh| then bh[c] else 0
  }

  predicate Red(t: seq<Node>, c: int) {
    0 < c < |t| && t[c].red
  }

  /** bh[v] counts the black nodes from v, inclusive, to any null pointer below. */
  predicate HeightOk(t: seq<Node>, bh: seq<nat>, v: int) {
    && 0 <= v < |t| == |bh|
    && Height(bh, t[v].left) == Height(bh, t[v].right)
    && bh[v] == Height(bh, t[v].left) + if t[v].red then 0 else 1
  }

  /** No red node has a red child. */
  predicate RedOk(t: seq<Node>, v: int) {
    0 <= v < |t| && (t[v].red ==> !Red(t, t[v].left) && !Red(t, t[v].right))
  }

  ghost predicate Balanced(t: seq<Node>, root: int, order: seq<int>, sp: seq<Span>, bh: seq<nat>) {
    && |bh| == |t|
    && (forall v {:trigger HeightOk(t, bh, v)} :: In(order, sp, v) ==> HeightOk(t, bh, v))
    && (forall v {:trigger RedOk(t, v)} :: In(order, sp, v) ==> RedOk(t, v))
    && !Red(t, root)
  }
}
