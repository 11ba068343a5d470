/**
 The trie, the breadth-first construction of failure links, transitions and output lists, and
 the invariants that make them right.
 */
module AhoTrie {
  import opened AhoWords

  datatype Node = Node(next: seq<int>, fail: int, out: seq<nat>)

  function EmptyNode(): Node {
    Node(seq(SIGMA, _ => -1), 0, [])
  }

  // ----- the trie that add_pattern grows

  /** Node u's edge for letter c leads to the word one letter longer, if that is a word. */
  ghost predicate EdgeOk(trie: seq<Node>, words: seq<Word>, u: int, c: int) {
    && 0 <= u < |trie| == |words| && 0 <= c < SIGMA == |trie[u].next|
    && var v := trie[u].next[c];
       if v == -1 then words[u] + [c as Letter] !in words
       else 0 <= v < |trie| && words[v] == words[u] + [c as Letter]
  }

  predicate Differ(words: seq<Word>, i: int, j: int) {
    0 <= i < |words| && 0 <= j < |words| && words[i] != words[j]
  }

  /** One node per word, and the words are closed under prefixes. */
  ghost predicate Shape(trie: seq<Node>, words: seq<Word>) {
    && 0 < |trie| == |words|
    && words[0] == []
    && PrefixClosed(words)
    && (forall i, j :: 0 <= i < j < |words| ==> Differ(words, i, j))
    && (forall u :: 0 <= u < |trie| ==> |trie[u].next| == SIGMA)
    && (forall u, c :: 0 <= u < |trie| && 0 <= c < SIGMA ==> EdgeOk(trie, words, u, c))
  }

  /** The ids of the patterns that are exactly w, in increasing order. */
  function Own(patterns: seq<string>, w: Word): seq<nat> {
    if patterns == [] then []
    else
      var n := |patterns| - 1;
      Own(patterns[..n], w) + if Letters(patterns[n]) == w then [n] else []
  }

  ghost predicate PatternIn(patterns: seq<string>, words: seq<Word>, id: int) {
    0 <= id < |patterns| && patterns[id] != "" && Letters(patterns[id]) in words
  }

  ghost predicate OwnOut(trie: seq<Node>, words: seq<Word>, patterns: seq<string>, u: int) {
    0 <= u < |trie| == |words| && trie[u].out == Own(patterns, words[u])
  }

  ghost predicate TrieOk(trie: seq<Node>, words: seq<Word>, patterns: seq<string>) {
    && Shape(trie, words)
    && (forall u :: 0 <= u < |trie| ==> OwnOut(trie, words, patterns, u))
    && (forall id :: 0 <= id < |patterns| ==> PatternIn(patterns, words, id))
  }

  lemma {:induction false} OwnMembers(patterns: seq<string>, w: Word, id: nat)
    ensures id in Own(patterns, w) <==> id < |patterns| && Letters(patterns[id]) == w
  {
    if patterns != [] {
      OwnMembers(patterns[..|patterns| - 1], w, id);
    }
  }

  lemma {:induction false} OwnBounded(patterns: seq<string>, w: Word)
    ensures forall i :: 0 <= i < |Own(patterns, w)| ==> Own(patterns, w)[i] < |patterns|
    ensures forall i, j :: 0 <= i < j < |Own(patterns, w)| ==> Own(patterns, w)[i] < Own(patterns, w)[j]
  {
    if patterns != [] {
      OwnBounded(patterns[..|patterns| - 1], w);
    }
  }

  lemma {:induction false} OwnAdd(patterns: seq<string>, p: string, w: Word)
    ensures Own(patterns + [p], w) == Own(patterns, w) + if Letters(p) == w then [|patterns|] else []
  {
    assert (patterns + [p])[..|patterns|] == patterns;
  }

  lemma {:induction false} OwnUnmatched(patterns: seq<string>, w: Word)
    requires forall id :: 0 <= id < |patterns| ==> Letters(patterns[id]) != w
    ensures Own(patterns, w) == []
  {
    if patterns != [] {
      OwnUnmatched(patterns[..|patterns| - 1], w);
    }
  }

  lemma {:induction false} OwnNone(patterns: seq<string>, words: seq<Word>, w: Word)
    requires w !in words && forall id :: 0 <= id < |patterns| ==> PatternIn(patterns, words, id)
    ensures Own(patterns, w) == []
  {
    forall id | 0 <= id < |patterns|
      ensures Letters(patterns[id]) != w
    {
      assert PatternIn(patterns, words, id);
    }
    OwnUnmatched(patterns, w);
  }

  lemma {:induction false} WordAt(words: seq<Word>, w: Word) returns (u: nat)
    requires w in words
    ensures u < |words| && words[u] == w
  {
    u :| 0 <= u < |words| && words[u] == w;
  }

  lemma {:induction false} NodesDiffer(words: seq<Word>, i: int, j: int)
    requires forall i, j :: 0 <= i < j < |words| ==> Differ(words, i, j)
    requires 0 <= i < |words| && 0 <= j < |words| && i != j
    ensures words[i] != words[j]
  {
    if i < j {
      assert Differ(words, i, j);
    } else {
      assert Differ(words, j, i);
    }
  }

  lemma {:induction false} SameNode(words: seq<Word>, i: int, j: int)
    requires forall i, j :: 0 <= i < j < |words| ==> Differ(words, i, j)
    requires 0 <= i < |words| && 0 <= j < |words| && words[i] == words[j]
    ensures i == j
  {
    if i != j {
      NodesDiffer(words, i, j);
    }
  }

  /** A fresh node below u for letter c. */
  function Grow(trie: seq<Node>, u: nat, c: nat): seq<Node>
    requires u < |trie| && c < |trie[u].next|
  {
    trie[u := trie[u].(next := trie[u].next[c := |trie|])] + [EmptyNode()]
  }

  lemma {:induction false} GrowShape(trie: seq<Node>, words: seq<Word>, u: nat, c: nat)
    requires Shape(trie, words) && u < |trie| && c < SIGMA && trie[u].next[c] == -1
    ensures Shape(Grow(trie, u, c), words + [words[u] + [c as Letter]])
  {
    var w := words[u] + [c as Letter];
    var trie', words' := Grow(trie, u, c), words + [w];
    assert EdgeOk(trie, words, u, c);
    assert w[..|w| - 1] == words[u];
    GrowPrefixClosed(words, u, w);
    forall i, j | 0 <= i < j < |words'|
      ensures Differ(words', i, j)
    {
      assert j < |words| ==> Differ(words, i, j);
    }
    forall x, d | 0 <= x < |trie'| && 0 <= d < SIGMA
      ensures EdgeOk(trie', words', x, d)
    {
      GrowEdge(trie, words, u, c, x, d);
    }
  }

  lemma {:induction false} GrowPrefixClosed(words: seq<Word>, u: nat, w: Word)
    requires PrefixClosed(words) && u < |words| && w != [] && w[..|w| - 1] == words[u]
    ensures PrefixClosed(words + [w])
  {
    forall i | 0 <= i < |words + [w]|
      ensures PrefixIn(words + [w], i)
    {
      assert i < |words| ==> PrefixIn(words, i);
    }
  }

  lemma {:induction false} GrowEdge(trie: seq<Node>, words: seq<Word>, u: nat, c: nat, x: nat, d: nat)
    requires Shape(trie, words) && u < |trie| && c < SIGMA && trie[u].next[c] == -1
    requires x <= |trie| && d < SIGMA
    ensures EdgeOk(Grow(trie, u, c), words + [words[u] + [c as Letter]], x, d)
  {
    var w := words[u] + [c as Letter];
    assert EdgeOk(trie, words, u, c);
    if x < |trie| {
      assert EdgeOk(trie, words, x, d);
      if x != u {
        NodesDiffer(words, x, u);
      }
      AppendInjective(words[x], d as Letter, words[u], c as Letter);
    } else {
      NoLongerWord(words, w, d as Letter);
      assert |w + [d as Letter]| > |w|;
    }
  }

  lemma {:induction false} AppendInjective(x: Word, c: Letter, y: Word, d: Letter)
    ensures x + [c] == y + [d] <==> x == y && c == d
  {
    if x + [c] == y + [d] {
      assert (x + [c])[..|x|] == (y + [d])[..|y|];
      assert (x + [c])[|x|] == (y + [d])[|y|];
    }
  }

  // ----- what build has to establish

  /** The ids of all patterns that are suffixes of w: its own, then those of its failure word. */
  function Outs(patterns: seq<string>, words: seq<Word>, w: Word): seq<nat>
    requires [] in words
    decreases |w|
  {
    if w == [] then Own(patterns, [])
    else
      FailShorter(words, w);
      Own(patterns, w) + Outs(patterns, words, Fail(words, w))
  }

  /** Node u's transitions go to the longest suffix of its word and the letter. */
  ghost predicate GotoOk(trie: seq<Node>, words: seq<Word>, u: int, c: int)
    requires [] in words
  {
    && 0 <= u < |trie| == |words| && 0 <= c < SIGMA == |trie[u].next|
    && 0 <= trie[u].next[c] < |trie|
    && words[trie[u].next[c]] == Longest(words, words[u] + [c as Letter])
  }

  ghost predicate OutOk(trie: seq<Node>, words: seq<Word>, patterns: seq<string>, u: int)
    requires [] in words
  {
    0 <= u < |trie| == |words| && trie[u].out == Outs(patterns, words, words[u])
  }

  /** Node u's output list names the patterns that its word ends with, each once. */
  ghost predicate NamesSuffixes(trie: seq<Node>, words: seq<Word>, patterns: seq<string>, u: int) {
    && 0 <= u < |trie| == |words|
    && (forall id: nat :: id in trie[u].out <==> id < |patterns| && IsSuffix(Letters(patterns[id]), words[u]))
    && (forall i, j :: 0 <= i < j < |trie[u].out| ==> trie[u].out[i] != trie[u].out[j])
  }

  /** The transitions of a finished automaton. */
  ghost predicate GotosOk(trie: seq<Node>, words: seq<Word>) {
    && 0 < |trie| == |words| && words[0] == [] && PrefixClosed(words)
    && (forall i, j :: 0 <= i < j < |words| ==> Differ(words, i, j))
    && (forall u :: 0 <= u < |trie| ==> |trie[u].next| == SIGMA)
    && (forall u, c :: 0 <= u < |trie| && 0 <= c < SIGMA ==> GotoOk(trie, words, u, c))
  }

  /** The automaton that search relies on. */
  ghost predicate AutomatonOk(trie: seq<Node>, words: seq<Word>, patterns: seq<string>) {
    && GotosOk(trie, words)
    && (forall u :: 0 <= u < |trie| ==> NamesSuffixes(trie, words, patterns, u))
    && (forall id :: 0 <= id < |patterns| ==> PatternIn(patterns, words, id))
  }

  /** The output list of a word names exactly the patterns that are suffixes of it. */
  lemma {:induction false} OutsAreSuffixes(patterns: seq<string>, words: seq<Word>, w: Word, id: nat)
    requires [] in words && forall id :: 0 <= id < |patterns| ==> PatternIn(patterns, words, id)
    ensures id in Outs(patterns, words, w) <==> id < |patterns| && IsSuffix(Letters(patterns[id]), w)
    decreases |w|
  {
    OwnMembers(patterns, w, id);
    if w != [] {
      FailShorter(words, w);
      var f := Fail(words, w);
      OutsAreSuffixes(patterns, words, f, id);
      if id < |patterns| {
        assert PatternIn(patterns, words, id);
        var p := Letters(patterns[id]);
        if IsSuffix(p, f) {
          SuffixTransitive(p, f, w);
        }
        if IsSuffix(p, w) && p != w {
          WholeSuffix(p, w);
          SuffixOfTail(p, w);
          LongestIsLongest(words, w[1..], p);
        }
      }
    } else if id < |patterns| {
      assert PatternIn(patterns, words, id);
    }
  }

  /** ... and each of them once. */
  lemma {:induction false} OutsOnce(patterns: seq<string>, words: seq<Word>, w: Word)
    requires [] in words && forall id :: 0 <= id < |patterns| ==> PatternIn(patterns, words, id)
    ensures forall i, j ::
              0 <= i < j < |Outs(patterns, words, w)| ==> Outs(patterns, words, w)[i] != Outs(patterns, words, w)[j]
    decreases |w|
  {
    OwnBounded(patterns, w);
    if w != [] {
      FailShorter(words, w);
      var f := Fail(words, w);
      OutsOnce(patterns, words, f);
      var own, rest := Own(patterns, w), Outs(patterns, words, f);
      forall i, j | 0 <= i < |own| && 0 <= j < |rest|
        ensures own[i] != rest[j]
      {
        OwnMembers(patterns, w, own[i]);
        OutsAreSuffixes(patterns, words, f, rest[j]);
        assert own[i] in own && rest[j] in rest;
      }
    }
  }
}
