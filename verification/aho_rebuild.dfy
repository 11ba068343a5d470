/**
 A second build: once every letter has a transition, each node taken from the queue puts all
 26 of its targets there, so the queue never runs empty and the call never returns.
 */
module AhoRebuild {
  import opened AhoWords
  import opened AhoTrie

  predicate RowInRange(trie: seq<Node>, u: int) {
    && 0 <= u < |trie| && |trie[u].next| == SIGMA
    && forall c {:trigger trie[u].next[c]} :: 0 <= c < SIGMA ==> -1 <= trie[u].next[c] < |trie|
  }

  predicate InRange(trie: seq<Node>) {
    forall u {:trigger RowInRange(trie, u)} :: 0 <= u < |trie| ==> RowInRange(trie, u)
  }

  /** The loop over the letters from c on, for node u with failure node f. */
  function Link(trie: seq<Node>, u: nat, f: nat, c: nat, queue: seq<int>): (r: (seq<Node>, seq<int>))
    requires InRange(trie) && u < |trie| && f < |trie| && c <= SIGMA
    ensures InRange(r.0) && |r.0| == |trie|
    decreases SIGMA - c
  {
    assert RowInRange(trie, u) && RowInRange(trie, f);
    if c == SIGMA then (trie, queue)
    else
      var v := trie[u].next[c];
      if v != -1 then
        var trie' := trie[v := trie[v].(fail := trie[f].next[c])];
        assert forall x {:trigger RowInRange(trie', x)} :: RowInRange(trie, x) ==> RowInRange(trie', x);
        Link(trie', u, f, c + 1, queue + [v])
      else
        var trie' := trie[u := trie[u].(next := trie[u].next[c := trie[f].next[c]])];
        assert forall x {:trigger RowInRange(trie', x)} :: RowInRange(trie, x) ==> RowInRange(trie', x);
        Link(trie', u, f, c + 1, queue)
  }

  /** One round of the queue loop. */
  function Round(trie: seq<Node>, queue: seq<int>): (seq<Node>, seq<int>)
    requires InRange(trie) && queue != [] && 0 <= queue[0] < |trie| && 0 <= trie[queue[0]].fail < |trie|
  {
    var u := queue[0];
    var f := trie[u].fail;
    var trie' := trie[u := trie[u].(out := trie[u].out + trie[f].out)];
    assert forall x {:trigger RowInRange(trie', x)} :: RowInRange(trie, x) ==> RowInRange(trie', x);
    Link(trie', u, f, 0, queue[1..])
  }

  /** The loop before the queue, from letter c on. */
  function RootLink(trie: seq<Node>, c: nat, queue: seq<int>): (r: (seq<Node>, seq<int>))
    requires InRange(trie) && 0 < |trie| && c <= SIGMA
    ensures InRange(r.0) && |r.0| == |trie|
    decreases SIGMA - c
  {
    assert RowInRange(trie, 0);
    if c == SIGMA then (trie, queue)
    else
      var v := trie[0].next[c];
      if v != -1 then
        var trie' := trie[v := trie[v].(fail := 0)];
        assert forall x {:trigger RowInRange(trie', x)} :: RowInRange(trie, x) ==> RowInRange(trie', x);
        RootLink(trie', c + 1, queue + [v])
      else
        var trie' := trie[0 := trie[0].(next := trie[0].next[c := 0])];
        assert forall x {:trigger RowInRange(trie', x)} :: RowInRange(trie, x) ==> RowInRange(trie', x);
        RootLink(trie', c + 1, queue)
  }

  // ----- with no edge missing

  predicate RowFull(trie: seq<Node>, u: int) {
    && RowInRange(trie, u)
    && forall c {:trigger trie[u].next[c]} :: 0 <= c < SIGMA ==> trie[u].next[c] != -1
  }

  /** No edge is missing, and the queued nodes have failure nodes. */
  predicate Full(trie: seq<Node>, queue: seq<int>) {
    && (forall u {:trigger RowFull(trie, u)} :: 0 <= u < |trie| ==> RowFull(trie, u))
    && (forall i {:trigger queue[i]} ::
           0 <= i < |queue| ==> 0 <= queue[i] < |trie| && 0 <= trie[queue[i]].fail < |trie|)
  }

  lemma {:induction false} FullInRange(trie: seq<Node>, queue: seq<int>)
    requires Full(trie, queue)
    ensures InRange(trie)
  {
    forall u | 0 <= u < |trie|
      ensures RowInRange(trie, u)
    {
      assert RowFull(trie, u);
    }
  }

  lemma {:induction false} RefailFull(trie: seq<Node>, queue: seq<int>, v: int, f: int)
    requires Full(trie, queue) && 0 <= v < |trie| && 0 <= f < |trie|
    ensures Full(trie[v := trie[v].(fail := f)], queue + [v])
  {
    var trie' := trie[v := trie[v].(fail := f)];
    forall u | 0 <= u < |trie'|
      ensures RowFull(trie', u)
    {
      assert RowFull(trie, u);
    }
  }

  lemma {:induction false} LinkFull(trie: seq<Node>, u: nat, f: nat, c: nat, queue: seq<int>)
    requires InRange(trie) && Full(trie, queue) && u < |trie| && f < |trie| && c <= SIGMA
    ensures var r := Link(trie, u, f, c, queue); Full(r.0, r.1) && |r.1| == |queue| + (SIGMA - c)
    decreases SIGMA - c
  {
    if c < SIGMA {
      assert RowFull(trie, u) && RowFull(trie, f);
      var v := trie[u].next[c];
      RefailFull(trie, queue, v, trie[f].next[c]);
      FullInRange(trie[v := trie[v].(fail := trie[f].next[c])], queue + [v]);
      LinkFull(trie[v := trie[v].(fail := trie[f].next[c])], u, f, c + 1, queue + [v]);
    }
  }

  lemma {:induction false} RootLinkFull(trie: seq<Node>, c: nat, queue: seq<int>)
    requires InRange(trie) && Full(trie, queue) && 0 < |trie| && c <= SIGMA
    ensures var r := RootLink(trie, c, queue); Full(r.0, r.1) && |r.1| == |queue| + (SIGMA - c)
    decreases SIGMA - c
  {
    if c < SIGMA {
      assert RowFull(trie, 0);
      var v := trie[0].next[c];
      RefailFull(trie, queue, v, 0);
      FullInRange(trie[v := trie[v].(fail := 0)], queue + [v]);
      RootLinkFull(trie[v := trie[v].(fail := 0)], c + 1, queue + [v]);
    }
  }

  lemma {:induction false} RoundFull(trie: seq<Node>, queue: seq<int>)
    requires InRange(trie) && Full(trie, queue) && queue != []
    ensures 0 <= queue[0] < |trie| && 0 <= trie[queue[0]].fail < |trie|
    ensures var r := Round(trie, queue); InRange(r.0) && Full(r.0, r.1) && |r.1| == |queue| + 25
  {
    var u := queue[0];
    var f := trie[u].fail;
    var trie' := trie[u := trie[u].(out := trie[u].out + trie[f].out)];
    forall x | 0 <= x < |trie'|
      ensures RowFull(trie', x)
    {
      assert RowFull(trie, x);
    }
    FullInRange(trie', queue[1..]);
    LinkFull(trie', u, f, 0, queue[1..]);
    FullInRange(Link(trie', u, f, 0, queue[1..]).0, Link(trie', u, f, 0, queue[1..]).1);
  }

  /** Trie and queue after k rounds; there is always another round to run. */
  function AfterRounds(trie: seq<Node>, k: nat): (r: (seq<Node>, seq<int>))
    requires 0 < |trie| && InRange(trie) && Full(trie, [])
    ensures InRange(r.0) && Full(r.0, r.1) && |r.1| == 26 + 25 * k
  {
    if k == 0 then
      RootLinkFull(trie, 0, []);
      RootLink(trie, 0, [])
    else
      var before := AfterRounds(trie, k - 1);
      RoundFull(before.0, before.1);
      Round(before.0, before.1)
  }

  /** After build, another build never finishes: after any number of rounds the queue has grown. */
  lemma {:induction false} SecondBuildNeverEnds(trie: seq<Node>, words: seq<Word>, k: nat)
    requires GotosOk(trie, words)
    ensures InRange(trie) && Full(trie, [])
    ensures |AfterRounds(trie, k).1| == 26 + 25 * k
  {
    forall u | 0 <= u < |trie|
      ensures RowFull(trie, u)
    {
      forall c | 0 <= c < SIGMA
        ensures 0 <= trie[u].next[c] < |trie|
      {
        assert GotoOk(trie, words, u, c);
      }
    }
    FullInRange(trie, []);
  }
}
