/**
 What the loops of splay keep: the stack of ancestors, and the set of nodes that have nothing
 pending on or above them.
 */
module LctSplay {
  import opened LctState
  import opened LctSteps

  // ----- frames

  predicate Fixed(t: seq<Node>, t': seq<Node>, sh: seq<Span>, sh': seq<Span>, v: int) {
    0 <= v < |t| && |t| == |t'| == |sh| == |sh'| && t'[v] == t[v] && sh'[v] == sh[v]
  }

  /** Nothing off the path of x has changed. */
  ghost predicate FixedOff(t: seq<Node>, t': seq<Node>, g: seq<Place>, sh: seq<Span>, sh': seq<Span>, x: int)
    requires 0 <= x < |t| == |g|
  {
    forall v :: InTree(t, v) && g[v].line != g[x].line ==> Fixed(t, t', sh, sh', v)
  }

  lemma {:induction false} FixedTwice(t: seq<Node>, t1: seq<Node>, t2: seq<Node>, g: seq<Place>,
      sh: seq<Span>, sh1: seq<Span>, sh2: seq<Span>, x: int, y: int)
    requires 0 <= x < |t| == |t1| == |g| && 0 <= y < |t| && g[y].line == g[x].line
    requires FixedOff(t, t1, g, sh, sh1, x) && FixedOff(t1, t2, g, sh1, sh2, y)
    ensures FixedOff(t, t2, g, sh, sh2, x)
  {
    forall v | InTree(t, v) && g[v].line != g[x].line
      ensures Fixed(t, t2, sh, sh2, v)
    {
      assert Fixed(t, t1, sh, sh1, v) && Fixed(t1, t2, sh1, sh2, v);
    }
  }

  lemma {:induction false} PushedFixed(t: seq<Node>, t': seq<Node>, g: seq<Place>, sh: seq<Span>, x: int)
    requires Shape(t, g, sh) && Pushed(t, t', x)
    ensures FixedOff(t, t', g, sh, PushedSpans(sh, x), x)
  {
    forall v | InTree(t, v) && g[v].line != g[x].line
      ensures Fixed(t, t', sh, PushedSpans(sh, x), v)
    {
      if IsChild(t, x, v) {
        ChildFacts(t, g, sh, x, v);
      }
    }
  }

  lemma {:induction false} RotatedFixed(t: seq<Node>, t': seq<Node>, g: seq<Place>, sh: seq<Span>, x: int)
    requires Step(t, t', g, sh, x)
    ensures FixedOff(t, t', g, sh, RotatedSpans(t, g, sh, x, t[x].p), x)
  {
    var y := t[x].p;
    var z := t[y].p;
    var b := Child(t[x], t[y].right != x);
    ParentFacts(t, g, sh, x);
    forall v | InTree(t, v) && g[v].line != g[x].line
      ensures Fixed(t, t', sh, RotatedSpans(t, g, sh, x, y), v)
    {
      if b != 0 {
        ChildFacts(t, g, sh, x, b);
      }
      if IsChild(t, z, y) {
        Above(t, g, sh, x);
        ChildFacts(t, g, sh, z, y);
      }
    }
  }

  // ----- the stack

  /** stk[i] is a node on x's path, and stk[i + 1], if any, is its parent in the splay tree. */
  predicate ChainAt(t: seq<Node>, g: seq<Place>, sh: seq<Span>, stk: seq<int>, i: int) {
    && 0 <= i < |stk| && |t| == |g| == |sh| && InTree(t, stk[i]) && SameLine(g, stk[i], stk[0])
    && (i + 1 < |stk| ==> t[stk[i]].p == stk[i + 1] && !Whole(g, sh, stk[i]))
  }

  predicate Bigger(sh: seq<Span>, stk: seq<int>, i: int, j: int) {
    0 <= i < |stk| && 0 <= j < |stk| && 0 <= stk[i] < |sh| && 0 <= stk[j] < |sh| && Size(sh, stk[i]) < Size(sh, stk[j])
  }

  ghost predicate Chain(t: seq<Node>, g: seq<Place>, sh: seq<Span>, stk: seq<int>, x: int) {
    && |stk| > 0 && stk[0] == x
    && (forall i :: 0 <= i < |stk| ==> ChainAt(t, g, sh, stk, i))
    && (forall i, j :: 0 <= i < j < |stk| ==> Bigger(sh, stk, i, j))
  }

  lemma {:induction false} ChainLonger(t: seq<Node>, g: seq<Place>, sh: seq<Span>, stk: seq<int>, x: int,
          more: seq<int>)
    requires Chain(t, g, sh, stk, x) && |t| == |g| == |sh|
    requires InTree(t, stk[|stk| - 1]) && !Whole(g, sh, stk[|stk| - 1])
    requires InTree(t, t[stk[|stk| - 1]].p) && SameLine(g, stk[|stk| - 1], t[stk[|stk| - 1]].p)
    requires more == stk + [t[stk[|stk| - 1]].p]
    ensures forall i :: 0 <= i < |more| ==> ChainAt(t, g, sh, more, i)
  {
    var n := |stk| - 1;
    forall i | 0 <= i < |more|
      ensures ChainAt(t, g, sh, more, i)
    {
      assert ChainAt(t, g, sh, stk, if i <= n then i else n);
    }
  }

  /** One more ancestor. */
  lemma {:induction false} ChainGrows(t: seq<Node>, g: seq<Place>, sh: seq<Span>, stk: seq<int>, x: int)
    requires Shape(t, g, sh) && Chain(t, g, sh, stk, x) && InTree(t, stk[|stk| - 1]) && !Whole(g, sh, stk[|stk| - 1])
    ensures Chain(t, g, sh, stk + [t[stk[|stk| - 1]].p], x)
    ensures InTree(t, t[stk[|stk| - 1]].p)
    ensures Size(sh, t[stk[|stk| - 1]].p) > Size(sh, stk[|stk| - 1])
  {
    var n := |stk| - 1;
    var more := stk + [t[stk[n]].p];
    ParentFacts(t, g, sh, stk[n]);
    ChainLonger(t, g, sh, stk, x, more);
    forall i, j | 0 <= i < j < |more|
      ensures Bigger(sh, more, i, j)
    {
      if j <= n {
        assert Bigger(sh, stk, i, j);
      } else if i < n {
        assert Bigger(sh, stk, i, n);
      }
    }
  }

  predicate Clear(t: seq<Node>, stk: seq<int>, i: int) {
    0 <= i < |stk| && InTree(t, stk[i]) && !t[stk[i]].rev
  }

  /** The nodes from position j upwards have nothing pending. */
  ghost predicate ClearFrom(t: seq<Node>, stk: seq<int>, j: int) {
    forall i :: j <= i < |stk| && 0 <= i ==> Clear(t, stk, i)
  }

  /** Pushing the reversal of stk[j] down clears it and no ancestor gets one. */
  lemma {:induction false} PushClears(t: seq<Node>, t': seq<Node>, g: seq<Place>, sh: seq<Span>, stk: seq<int>,
          x: int, j: nat)
    requires Shape(t, g, sh) && Chain(t, g, sh, stk, x) && j < |stk| && ClearFrom(t, stk, j + 1)
    requires if InTree(t, stk[j]) && t[stk[j]].rev then Pushed(t, t', stk[j]) else t' == t
    ensures ClearFrom(t', stk, j)
  {
    assert ChainAt(t, g, sh, stk, j);
    forall i | j <= i < |stk|
      ensures Clear(t', stk, i)
    {
      if i > j {
        assert Clear(t, stk, i) && Bigger(sh, stk, j, i);
        if IsChild(t, stk[j], stk[i]) {
          ChildFacts(t, g, sh, stk[j], stk[i]);
        }
      }
    }
  }

  lemma {:induction false} ChainKept(t: seq<Node>, t': seq<Node>, g: seq<Place>, sh: seq<Span>, stk: seq<int>, x: int,
          v: int)
    requires Shape(t, g, sh) && Chain(t, g, sh, stk, x) && Pushed(t, t', v)
    ensures Chain(t', g, PushedSpans(sh, v), stk, x)
  {
    var sh' := PushedSpans(sh, v);
    forall i | 0 <= i < |stk|
      ensures ChainAt(t', g, sh', stk, i)
    {
      assert ChainAt(t, g, sh, stk, i);
    }
    forall i, j | 0 <= i < j < |stk|
      ensures Bigger(sh', stk, i, j)
    {
      assert Bigger(sh, stk, i, j);
    }
  }

  // ----- the settled nodes

  /** v has nothing pending, and neither has anything above it: its parent is settled too. */
  predicate Settled(t: seq<Node>, g: seq<Place>, sh: seq<Span>, S: set<int>, v: int) {
    && |t| == |g| == |sh| && InTree(t, v) && !t[v].rev && (Whole(g, sh, v) || t[v].p in S)
  }

  ghost predicate Closed(t: seq<Node>, g: seq<Place>, sh: seq<Span>, S: set<int>) {
    forall v :: v in S ==> Settled(t, g, sh, S, v)
  }

  function Members(s: seq<int>): (r: set<int>)
    ensures forall v :: v in r <==> v in s
  {
    set v | v in s
  }

  lemma {:induction false} StackIsClosed(t: seq<Node>, g: seq<Place>, sh: seq<Span>, stk: seq<int>, x: int)
    requires Shape(t, g, sh) && Chain(t, g, sh, stk, x) && ClearFrom(t, stk, 0)
    requires InTree(t, stk[|stk| - 1]) && Whole(g, sh, stk[|stk| - 1])
    ensures Closed(t, g, sh, Members(stk)) && x in Members(stk)
  {
    forall v | v in Members(stk)
      ensures Settled(t, g, sh, Members(stk), v)
    {
      var i :| 0 <= i < |stk| && stk[i] == v;
      assert ChainAt(t, g, sh, stk, i) && Clear(t, stk, i);
      if i + 1 < |stk| {
        assert stk[i + 1] in stk;
      }
    }
  }

  lemma {:induction false} SettledFlip(t: seq<Node>, g: seq<Place>, sh: seq<Span>, S: set<int>, v: int)
    requires Shape(t, g, sh) && Closed(t, g, sh, S) && v in S
    ensures InTree(t, v) && !sh[v].flip
    decreases if InTree(t, v) then |g[v].line| - Size(sh, v) else 0
  {
    assert Settled(t, g, sh, S, v);
    assert LinkOk(t, g, sh, v);
    if !Whole(g, sh, v) {
      ParentFacts(t, g, sh, v);
      assert Settled(t, g, sh, S, t[v].p);
      SettledFlip(t, g, sh, S, t[v].p);
    }
  }

  /** A settled node that is not a splay root can be rotated. */
  lemma {:induction false} SettledCanRotate(t: seq<Node>, g: seq<Place>, sh: seq<Span>, S: set<int>, x: int)
    requires Shape(t, g, sh) && Closed(t, g, sh, S) && x in S && InTree(t, x) && !Whole(g, sh, x)
    ensures CanRotate(t, g, sh, x) && t[x].p in S
    ensures SameLine(g, t[x].p, x) && Size(sh, t[x].p) > Size(sh, x) && x != t[x].p
  {
    assert Settled(t, g, sh, S, x);
    assert Settled(t, g, sh, S, t[x].p);
    SettledFlip(t, g, sh, S, x);
    SettledFlip(t, g, sh, S, t[x].p);
    ParentFacts(t, g, sh, x);
  }

  lemma {:induction false} RotatedSettled(t: seq<Node>, t': seq<Node>, g: seq<Place>, sh: seq<Span>, S: set<int>,
          x: int, y: int, z: int, v: int)
    requires Rotated(t, t', x, y, z) && |t| == |g| == |sh| && x in S && y in S
    requires Settled(t, g, sh, S, v) && Settled(t, g, sh, S, y) && x != y
    requires (Whole(g, sh, y) && SameLine(g, x, y)) || z in S
    ensures Settled(t', g, RotatedSpans(t, g, sh, x, y), S, v)
  {
    if v != x && v != y && v != Child(t[x], t[y].right != x) {
      EntryKept(t, t', x, y, z, v);
    }
  }

  lemma {:induction false} RotateClosed(t: seq<Node>, t': seq<Node>, g: seq<Place>, sh: seq<Span>, S: set<int>, x: int)
    requires Step(t, t', g, sh, x) && Closed(t, g, sh, S) && x in S && t[x].p in S
    ensures Closed(t', g, RotatedSpans(t, g, sh, x, t[x].p), S)
  {
    var y := t[x].p;
    ParentFacts(t, g, sh, x);
    forall v | v in S
      ensures Settled(t', g, RotatedSpans(t, g, sh, x, y), S, v)
    {
      assert Settled(t, g, sh, S, v);
      assert Settled(t, g, sh, S, y);
      RotatedSettled(t, t', g, sh, S, x, y, t[y].p, v);
    }
  }
}
