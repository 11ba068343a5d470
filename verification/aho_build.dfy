/**
 The invariant of the breadth-first construction.  `order` lists the nodes in the order in
 which they entered the queue; the first `h` of them, and the root, are finished.
 */
module AhoBuild {
  import opened AhoWords
  import opened AhoTrie

  predicate Finished(order: seq<int>, h: nat, u: int)
    requires h <= |order|
  {
    u == 0 || u in order[..h]
  }

  predicate Seen(order: seq<int>, u: int) {
    u == 0 || u in order
  }

  /** p is the node of v's word without its last letter. */
  ghost predicate ParentOf(words: seq<Word>, p: int, v: int) {
    0 <= p < |words| && 0 <= v < |words| && words[v] != [] && words[p] == words[v][..|words[v]| - 1]
  }

  /** A finished node: transitions complete and leading to nodes already seen, outputs complete. */
  ghost predicate FinishedOk(trie: seq<Node>, words: seq<Word>, patterns: seq<string>, order: seq<int>, u: int)
    requires [] in words
  {
    && (forall c :: 0 <= c < SIGMA ==> GotoOk(trie, words, u, c) && Seen(order, trie[u].next[c]))
    && OutOk(trie, words, patterns, u)
  }

  /** A node in the queue or finished: it came after its failure node and after its parent. */
  ghost predicate QueuedOk(trie: seq<Node>, words: seq<Word>, order: seq<int>, h: nat, i: int)
    requires [] in words && h <= |order|
  {
    && 0 <= i < |order|
    && 0 < order[i] < |trie| == |words| && words[order[i]] != []
    && 0 <= trie[order[i]].fail < |trie|
    && words[trie[order[i]].fail] == Fail(words, words[order[i]])
    && (trie[order[i]].fail == 0 || trie[order[i]].fail in order[..i])
    && (forall p :: ParentOf(words, p, order[i]) ==> Finished(order, h, p))
  }

  predicate OrderDiffer(order: seq<int>, i: int, j: int) {
    0 <= i < |order| && 0 <= j < |order| && order[i] != order[j]
  }

  /** A node that is not finished still has the edges and the outputs of the trie. */
  ghost predicate Untouched(start: seq<Node>, trie: seq<Node>, order: seq<int>, h: nat, u: int)
    requires h <= |order|
  {
    0 <= u < |trie| == |start| && (!Finished(order, h, u) ==>
        trie[u].next == start[u].next && trie[u].out == start[u].out)
  }

  ghost predicate BfsOk(start: seq<Node>, trie: seq<Node>, words: seq<Word>, patterns: seq<string>, order: seq<int>,
          h: nat) {
    && TrieOk(start, words, patterns)
    && h <= |order| && |trie| == |start|
    && (forall i, j :: 0 <= i < j < |order| ==> OrderDiffer(order, i, j))
    && (forall i :: 0 <= i < |order| ==> QueuedOk(trie, words, order, h, i))
    && (forall u :: 0 <= u < |trie| && Finished(order, h, u) ==> FinishedOk(trie, words, patterns, order, u))
    && (forall u :: 0 <= u < |trie| ==> Untouched(start, trie, order, h, u))
  }

  // ----- one node

  /** The children of a node for the letters before c. */
  function Kids(next: seq<int>, c: nat): seq<int>
    requires c <= |next|
  {
    if c == 0 then [] else Kids(next, c - 1) + if next[c - 1] != -1 then [next[c - 1]] else []
  }

  lemma {:induction false} KidsMembers(next: seq<int>, c: nat, v: int)
    requires c <= |next|
    ensures v in Kids(next, c) <==> v != -1 && exists d :: 0 <= d < c && next[d] == v
  {
    if c > 0 {
      KidsMembers(next, c - 1, v);
      if v in Kids(next, c - 1) {
        var d :| 0 <= d < c - 1 && next[d] == v;
      }
    }
  }

  /** What finishing node u with failure node f does to the trie. */
  ghost predicate Expanded(trie: seq<Node>, trie': seq<Node>, u: nat, f: nat)
    requires u < |trie| && f < |trie|
    requires |trie[u].next| == SIGMA == |trie[f].next|
  {
    && |trie'| == |trie|
    && |trie'[u].next| == SIGMA
    && (forall x :: 0 <= x < |trie| && x != u ==> trie'[x].next == trie[x].next && trie'[x].out == trie[x].out)
    && (forall c ::
           0 <= c < SIGMA ==> trie'[u].next[c] == if trie[u].next[c] == -1 then trie[f].next[c] else trie[u].next[c])
    && (forall c :: 0 <= c < SIGMA && 0 <= trie[u].next[c] < |trie| ==> trie'[trie[u].next[c]].fail == trie[f].next[c])
    && (forall x :: 0 <= x < |trie| && x !in Kids(trie[u].next, SIGMA) ==> trie'[x].fail == trie[x].fail)
    && trie'[u].out == trie[u].out + trie[f].out
  }

  /** The facts about the node u at the front of the queue. */
  lemma {:induction false} FrontFacts(start: seq<Node>, trie: seq<Node>, words: seq<Word>, patterns: seq<string>,
          order: seq<int>, h: nat)
    requires BfsOk(start, trie, words, patterns, order, h) && h < |order|
    ensures var u := order[h];
            && 0 < u < |trie| && !Finished(order, h, u) && words[u] != []
            && trie[u].next == start[u].next && trie[u].out == Own(patterns, words[u])
            && |trie[u].next| == SIGMA
            && 0 <= trie[u].fail < |trie| && trie[u].fail != u
            && Finished(order, h, trie[u].fail) && FinishedOk(trie, words, patterns, order, trie[u].fail)
            && words[trie[u].fail] == Fail(words, words[u])
            && |trie[trie[u].fail].next| == SIGMA
  {
    var u := order[h];
    assert QueuedOk(trie, words, order, h, h);
    forall i | 0 <= i < h
      ensures order[i] != u
    {
      assert OrderDiffer(order, i, h);
    }
    assert Untouched(start, trie, order, h, u);
    assert OwnOut(start, words, patterns, u);
    var f := trie[u].fail;
    assert FinishedOk(trie, words, patterns, order, f);
    assert GotoOk(trie, words, f, 0);
  }

  /** The transitions of u after it has been expanded. */
  lemma {:induction false} ExpandedGoto(start: seq<Node>, trie: seq<Node>, trie': seq<Node>, words: seq<Word>,
          patterns: seq<string>, order: seq<int>, h: nat, c: nat)
    requires BfsOk(start, trie, words, patterns, order, h) && h < |order| && c < SIGMA
    requires 0 <= order[h] < |trie| && 0 <= trie[order[h]].fail < |trie|
    requires |trie[order[h]].next| == SIGMA == |trie[trie[order[h]].fail].next|
    requires Expanded(trie, trie', order[h], trie[order[h]].fail)
    ensures GotoOk(trie', words, order[h], c)
    ensures Seen(order + Kids(trie[order[h]].next, SIGMA), trie'[order[h]].next[c])
  {
    FrontFacts(start, trie, words, patterns, order, h);
    var u := order[h];
    var f := trie[u].fail;
    assert EdgeOk(start, words, u, c);
    assert GotoOk(trie, words, f, c) && Seen(order, trie[f].next[c]);
    var v := trie[u].next[c];
    if v == -1 {
      StepThroughFail(words, words[u], c as Letter);
    } else {
      KidsMembers(trie[u].next, SIGMA, v);
      assert words[v] in words;
    }
  }

  /** A child of u: a new node whose failure node has been seen. */
  lemma {:induction false} KidFacts(start: seq<Node>, trie: seq<Node>, trie': seq<Node>, words: seq<Word>,
          patterns: seq<string>, order: seq<int>, h: nat, v: int)
    requires BfsOk(start, trie, words, patterns, order, h) && h < |order|
    requires 0 <= order[h] < |trie| && 0 <= trie[order[h]].fail < |trie|
    requires |trie[order[h]].next| == SIGMA == |trie[trie[order[h]].fail].next|
    requires Expanded(trie, trie', order[h], trie[order[h]].fail)
    requires v in Kids(trie[order[h]].next, SIGMA)
    ensures 0 < v < |trie| && v !in order && words[v] != []
    ensures ParentOf(words, order[h], v)
    ensures 0 <= trie'[v].fail < |trie| && words[trie'[v].fail] == Fail(words, words[v]) && Seen(order, trie'[v].fail)
  {
    FrontFacts(start, trie, words, patterns, order, h);
    var u := order[h];
    var f := trie[u].fail;
    KidsMembers(trie[u].next, SIGMA, v);
    var c :| 0 <= c < SIGMA && trie[u].next[c] == v;
    assert EdgeOk(start, words, u, c);
    assert words[v] == words[u] + [c as Letter];
    assert words[v][..|words[v]| - 1] == words[u];
    assert ParentOf(words, u, v);
    forall i | 0 <= i < |order|
      ensures order[i] != v
    {
      assert QueuedOk(trie, words, order, h, i);
    }
    assert GotoOk(trie, words, f, c) && Seen(order, trie[f].next[c]);
    FailOfChild(words, words[u], c as Letter);
  }

  /** The letter of an edge can be read off the node it leads to. */
  lemma {:induction false} EdgeLetter(start: seq<Node>, words: seq<Word>, u: nat, c: nat)
    requires Shape(start, words) && u < |start| && c < SIGMA
    requires start[u].next[c] != -1
    ensures 0 <= start[u].next[c] < |words| && words[start[u].next[c]] == words[u] + [c as Letter]
  {
    assert EdgeOk(start, words, u, c);
  }

  lemma {:induction false} DifferentEdges(start: seq<Node>, words: seq<Word>, u: nat, c: nat, d: nat)
    requires Shape(start, words) && u < |start| && c < d < SIGMA && start[u].next[c] != -1
    ensures start[u].next[c] != start[u].next[d]
  {
    if start[u].next[d] != -1 {
      EdgeLetter(start, words, u, c);
      EdgeLetter(start, words, u, d);
      var x, y := words[u] + [c as Letter], words[u] + [d as Letter];
      assert x[|words[u]|] != y[|words[u]|];
    }
  }

  lemma {:induction false} KidsDiffer(start: seq<Node>, words: seq<Word>, u: nat, c: nat)
    requires Shape(start, words) && u < |start| && c <= SIGMA
    ensures forall i, j :: 0 <= i < j < |Kids(start[u].next, c)| ==> OrderDiffer(Kids(start[u].next, c), i, j)
  {
    if c > 0 {
      KidsDiffer(start, words, u, c - 1);
      var before := Kids(start[u].next, c - 1);
      var v := start[u].next[c - 1];
      assert EdgeOk(start, words, u, c - 1);
      if v != -1 {
        KidsMembers(start[u].next, c - 1, v);
        forall d: nat | d < c - 1 && start[u].next[d] != -1
          ensures start[u].next[d] != v
        {
          DifferentEdges(start, words, u, d, c - 1);
        }
      }
      forall i, j | 0 <= i < j < |Kids(start[u].next, c)|
        ensures OrderDiffer(Kids(start[u].next, c), i, j)
      {
        if j < |before| {
          assert OrderDiffer(before, i, j);
        }
      }
    }
  }

  lemma {:induction false} JoinDiffer(a: seq<int>, b: seq<int>)
    requires forall i, j :: 0 <= i < j < |a| ==> OrderDiffer(a, i, j)
    requires forall i, j :: 0 <= i < j < |b| ==> OrderDiffer(b, i, j)
    requires forall v :: v in b ==> v !in a
    ensures forall i, j :: 0 <= i < j < |a + b| ==> OrderDiffer(a + b, i, j)
  {
    forall i, j | 0 <= i < j < |a + b|
      ensures OrderDiffer(a + b, i, j)
    {
      if j < |a| {
        assert OrderDiffer(a, i, j);
      } else if i >= |a| {
        assert OrderDiffer(b, i - |a|, j - |a|);
      } else {
        assert (a + b)[i] in a && (a + b)[j] in b;
      }
    }
  }

  lemma {:induction false} FinishedGrows(order: seq<int>, kids: seq<int>, h: nat, x: int)
    requires h < |order|
    ensures Finished(order + kids, h + 1, x) <==> Finished(order, h, x) || x == order[h]
  {
    assert (order + kids)[..h + 1] == order[..h] + [order[h]];
  }

  /** A node that was finished before stays finished. */
  lemma {:induction false} StaysFinished(start: seq<Node>, trie: seq<Node>, trie': seq<Node>, words: seq<Word>,
          patterns: seq<string>, order: seq<int>, kids: seq<int>, u: int, f: nat, x: int)
    requires [] in words && 0 <= u < |trie| && f < |trie| && |trie[u].next| == SIGMA == |trie[f].next|
    requires Expanded(trie, trie', u, f) && FinishedOk(trie, words, patterns, order, x) && x != u
    ensures FinishedOk(trie', words, patterns, order + kids, x)
  {
    assert OutOk(trie, words, patterns, x);
    forall c | 0 <= c < SIGMA
      ensures GotoOk(trie', words, x, c) && Seen(order + kids, trie'[x].next[c])
    {
      assert GotoOk(trie, words, x, c) && Seen(order, trie[x].next[c]);
    }
  }

  /** Finishing the front node keeps the invariant. */
  lemma {:induction false} ExpandKeepsBfs(start: seq<Node>, trie: seq<Node>, trie': seq<Node>, words: seq<Word>,
          patterns: seq<string>, order: seq<int>, h: nat)
    requires BfsOk(start, trie, words, patterns, order, h) && h < |order|
    requires 0 <= order[h] < |trie| && 0 <= trie[order[h]].fail < |trie|
    requires |trie[order[h]].next| == SIGMA == |trie[trie[order[h]].fail].next|
    requires Expanded(trie, trie', order[h], trie[order[h]].fail)
    ensures BfsOk(start, trie', words, patterns, order + Kids(trie[order[h]].next, SIGMA), h + 1)
  {
    var u := order[h];
    var f := trie[u].fail;
    var kids := Kids(trie[u].next, SIGMA);
    var order' := order + kids;
    FrontFacts(start, trie, words, patterns, order, h);
    KidsDiffer(start, words, u, SIGMA);
    forall v | v in kids ensures v !in order { KidFacts(start, trie, trie', words, patterns, order, h, v); }
    JoinDiffer(order, kids);
    var done := h + 1;
    forall i | 0 <= i < |order'|
      ensures QueuedOk(trie', words, order', done, i)
    {
      ExpandQueued(start, trie, trie', words, patterns, order, h, i);
    }
    forall x | 0 <= x < |trie'| && Finished(order', h + 1, x)
      ensures FinishedOk(trie', words, patterns, order', x)
    {
      FinishedGrows(order, kids, h, x);
      if x == u {
        forall c | 0 <= c < SIGMA
          ensures GotoOk(trie', words, u, c) && Seen(order', trie'[u].next[c])
        {
          ExpandedGoto(start, trie, trie', words, patterns, order, h, c);
        }
      } else {
        StaysFinished(start, trie, trie', words, patterns, order, kids, u, f, x);
      }
    }
    forall x | 0 <= x < |trie'|
      ensures Untouched(start, trie', order', done, x)
    {
      FinishedGrows(order, kids, h, x);
      assert Untouched(start, trie, order, h, x);
    }
  }

  lemma {:induction false} ExpandQueued(start: seq<Node>, trie: seq<Node>, trie': seq<Node>, words: seq<Word>,
          patterns: seq<string>, order: seq<int>, h: nat, i: nat)
    requires BfsOk(start, trie, words, patterns, order, h) && h < |order|
    requires 0 <= order[h] < |trie| && 0 <= trie[order[h]].fail < |trie|
    requires |trie[order[h]].next| == SIGMA == |trie[trie[order[h]].fail].next|
    requires Expanded(trie, trie', order[h], trie[order[h]].fail)
    requires i < |order + Kids(trie[order[h]].next, SIGMA)|
    ensures QueuedOk(trie', words, order + Kids(trie[order[h]].next, SIGMA), h + 1, i)
  {
    var u := order[h];
    var kids := Kids(trie[u].next, SIGMA);
    var order' := order + kids;
    FrontFacts(start, trie, words, patterns, order, h);
    if i < |order| {
      assert QueuedOk(trie, words, order, h, i);
      assert order'[..i] == order[..i];
      if order[i] in kids {
        KidFacts(start, trie, trie', words, patterns, order, h, order[i]);
      }
      forall p | ParentOf(words, p, order[i])
        ensures Finished(order', h + 1, p)
      {
        FinishedGrows(order, kids, h, p);
      }
    } else {
      var v := order'[i];
      assert v in kids;
      KidFacts(start, trie, trie', words, patterns, order, h, v);
      assert order'[..|order|] == order;
      forall x | x in order
        ensures x in order'[..i]
      {
        var j :| 0 <= j < |order| && order[j] == x;
        assert order'[..i][j] == x;
      }
      forall p | ParentOf(words, p, v)
        ensures Finished(order', h + 1, p)
      {
        SameNode(words, p, u);
        FinishedGrows(order, kids, h, p);
      }
    }
  }

  /** When the queue is empty every node has been finished. */
  lemma {:induction false} AllFinished(start: seq<Node>, trie: seq<Node>, words: seq<Word>, patterns: seq<string>,
          order: seq<int>, u: nat)
    requires BfsOk(start, trie, words, patterns, order, |order|) && u < |trie|
    ensures Finished(order, |order|, u)
    decreases |words[u]|
  {
    var w := words[u];
    if w == [] {
      SameNode(words, u, 0);
    } else {
      PrefixOfWord(words, w);
      var p := WordAt(words, w[..|w| - 1]);
      AllFinished(start, trie, words, patterns, order, p);
      var c := w[|w| - 1] as int;
      assert FinishedOk(trie, words, patterns, order, p);
      assert GotoOk(trie, words, p, c);
      assert words[p] + [c as Letter] == w;
      SameNode(words, trie[p].next[c], u);
      assert order[..|order|] == order;
    }
  }

  lemma {:induction false} OutNamesSuffixes(trie: seq<Node>, words: seq<Word>, patterns: seq<string>, u: int)
    requires [] in words && OutOk(trie, words, patterns, u)
    requires forall id :: 0 <= id < |patterns| ==> PatternIn(patterns, words, id)
    ensures NamesSuffixes(trie, words, patterns, u)
  {
    OutsOnce(patterns, words, words[u]);
    forall id: nat
      ensures id in trie[u].out <==> id < |patterns| && IsSuffix(Letters(patterns[id]), words[u])
    {
      OutsAreSuffixes(patterns, words, words[u], id);
    }
  }

  lemma {:induction false} BfsEnds(start: seq<Node>, trie: seq<Node>, words: seq<Word>, patterns: seq<string>,
          order: seq<int>)
    requires BfsOk(start, trie, words, patterns, order, |order|)
    ensures AutomatonOk(trie, words, patterns)
  {
    forall u | 0 <= u < |trie|
      ensures FinishedOk(trie, words, patterns, order, u)
    {
      AllFinished(start, trie, words, patterns, order, u);
    }
    forall u, c | 0 <= u < |trie| && 0 <= c < SIGMA
      ensures GotoOk(trie, words, u, c)
    {
      assert FinishedOk(trie, words, patterns, order, u);
    }
    forall u | 0 <= u < |trie|
      ensures |trie[u].next| == SIGMA && NamesSuffixes(trie, words, patterns, u)
    {
      assert FinishedOk(trie, words, patterns, order, u);
      assert GotoOk(trie, words, u, 0);
      OutNamesSuffixes(trie, words, patterns, u);
    }
  }

  // ----- the root

  /** What the loop before the queue does to the trie. */
  ghost predicate RootExpanded(trie: seq<Node>, trie': seq<Node>)
    requires 0 < |trie| && |trie[0].next| == SIGMA
  {
    && |trie'| == |trie|
    && |trie'[0].next| == SIGMA
    && (forall x :: 0 <= x < |trie| ==> trie'[x].out == trie[x].out && (x != 0 ==> trie'[x].next == trie[x].next))
    && (forall c :: 0 <= c < SIGMA ==> trie'[0].next[c] == if trie[0].next[c] == -1 then 0 else trie[0].next[c])
    && (forall c :: 0 <= c < SIGMA && 0 <= trie[0].next[c] < |trie| ==> trie'[trie[0].next[c]].fail == 0)
  }

  lemma {:induction false} RootKid(trie: seq<Node>, words: seq<Word>, v: int)
    requires Shape(trie, words) && v in Kids(trie[0].next, SIGMA)
    ensures 0 < v < |trie| && |words[v]| == 1
    ensures exists c :: 0 <= c < SIGMA && trie[0].next[c] == v
  {
    KidsMembers(trie[0].next, SIGMA, v);
    var c :| 0 <= c < SIGMA && trie[0].next[c] == v;
    assert EdgeOk(trie, words, 0, c);
  }

  lemma {:induction false} BfsStarts(trie: seq<Node>, trie': seq<Node>, words: seq<Word>, patterns: seq<string>)
    requires TrieOk(trie, words, patterns) && RootExpanded(trie, trie')
    ensures BfsOk(trie, trie', words, patterns, Kids(trie[0].next, SIGMA), 0)
  {
    var order := Kids(trie[0].next, SIGMA);
    KidsDiffer(trie, words, 0, SIGMA);
    forall i | 0 <= i < |order|
      ensures QueuedOk(trie', words, order, 0, i)
    {
      RootQueued(trie, trie', words, i);
    }
    forall c | 0 <= c < SIGMA
      ensures GotoOk(trie', words, 0, c) && Seen(order, trie'[0].next[c])
    {
      RootGoto(trie, trie', words, c);
    }
    assert OwnOut(trie, words, patterns, 0);
    assert OutOk(trie', words, patterns, 0);
    forall u | 0 <= u < |trie'|
      ensures Untouched(trie, trie', order, 0, u)
    {
    }
  }

  lemma {:induction false} RootQueued(trie: seq<Node>, trie': seq<Node>, words: seq<Word>, i: nat)
    requires Shape(trie, words) && RootExpanded(trie, trie') && i < |Kids(trie[0].next, SIGMA)|
    ensures QueuedOk(trie', words, Kids(trie[0].next, SIGMA), 0, i)
  {
    var order := Kids(trie[0].next, SIGMA);
    assert order[i] in order;
    RootKid(trie, words, order[i]);
    assert words[order[i]][1..] == [];
    forall p | ParentOf(words, p, order[i])
      ensures Finished(order, 0, p)
    {
      assert words[p] == [];
      SameNode(words, p, 0);
    }
  }

  lemma {:induction false} RootGoto(trie: seq<Node>, trie': seq<Node>, words: seq<Word>, c: nat)
    requires Shape(trie, words) && RootExpanded(trie, trie') && c < SIGMA
    ensures GotoOk(trie', words, 0, c) && Seen(Kids(trie[0].next, SIGMA), trie'[0].next[c])
  {
    assert EdgeOk(trie, words, 0, c);
    var w: Word := [c as Letter];
    assert [] + w == w;
    if trie[0].next[c] == -1 {
      assert w[1..] == [];
    } else {
      KidsMembers(trie[0].next, SIGMA, trie[0].next[c]);
      assert words[trie[0].next[c]] in words;
    }
  }
}
