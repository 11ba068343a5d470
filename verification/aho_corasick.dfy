/**
 The Aho-Corasick matcher as the program runs it: patterns are added to a trie, build turns
 the trie into an automaton, and search reports every occurrence exactly once.
 */
module AhoCorasick {
  import opened AhoWords
  import opened AhoTrie
  import opened AhoBuild

  datatype Match = Match(start: int, id: nat)

  /** Pattern id occurs in the text at the given place (letters compared as the trie does). */
  ghost predicate Occurs(patterns: seq<string>, text: string, m: Match) {
    && m.id < |patterns| && 0 <= m.start && m.start + |patterns[m.id]| <= |text|
    && Letters(text)[m.start..m.start + |patterns[m.id]|] == Letters(patterns[m.id])
  }

  /** The list names every occurrence that ends within the first n letters, each once, in the
      order in which they end. */
  ghost predicate Complete(patterns: seq<string>, text: string, found: seq<Match>, n: nat) {
    && (forall m :: m in found <==> Occurs(patterns, text, m) && m.start + |patterns[m.id]| <= n)
    && InOrder(patterns, found)
  }

  ghost predicate InOrder(patterns: seq<string>, found: seq<Match>) {
    forall i, j {:trigger found[i], found[j]} :: 0 <= i < j < |found| ==>
      found[i] != found[j] && EndsBy(patterns, found[i], found[j])
  }

  /** The first match ends no later than the second. */
  predicate EndsBy(patterns: seq<string>, a: Match, b: Match) {
    a.id < |patterns| && b.id < |patterns| && a.start + |patterns[a.id]| <= b.start + |patterns[b.id]|
  }

  predicate EndsWithin(patterns: seq<string>, m: Match, n: nat) {
    m.id < |patterns| && m.start + |patterns[m.id]| <= n
  }

  /** Matches that end later may follow. */
  lemma {:induction false} JoinInOrder(patterns: seq<string>, a: seq<Match>, b: seq<Match>, n: nat)
    requires InOrder(patterns, a) && InOrder(patterns, b)
    requires forall m {:trigger m in a} :: m in a ==> EndsWithin(patterns, m, n)
    requires forall m {:trigger m in b} :: m in b ==> m.id < |patterns| && !EndsWithin(patterns, m, n)
    ensures InOrder(patterns, a + b)
  {
    forall i, j | 0 <= i < j < |a + b|
      ensures (a + b)[i] != (a + b)[j] && EndsBy(patterns, (a + b)[i], (a + b)[j])
    {
      var x, y := (a + b)[i], (a + b)[j];
      if i < |a| <= j {
        assert x in a && y in b;
      }
    }
  }

  lemma {:induction false} LettersOfPrefix(text: string, i: nat)
    requires i < |text|
    ensures Letters(text)[..i + 1] == Letters(text)[..i] + [CharToIndex(text[i])]
  {
  }

  /** A pattern ends right after the first n letters exactly if it is a suffix of them. */
  lemma {:induction false} OccursAtEnd(patterns: seq<string>, text: string, n: nat, id: nat)
    requires n <= |text| && id < |patterns|
    ensures IsSuffix(Letters(patterns[id]), Letters(text)[..n]) <==>
              Occurs(patterns, text, Match(n - |patterns[id]|, id))
  {
    var k := |patterns[id]|;
    if k <= n {
      assert Letters(text)[..n][n - k..] == Letters(text)[n - k..n];
    }
  }

  /** The state after reading n letters. */
  ghost predicate AtState(trie: seq<Node>, words: seq<Word>, text: string, n: nat, state: int) {
    n <= |text| && 0 <= state < |trie| == |words| && [] in words && words[state] == Longest(words, Letters(text)[..n])
  }

  lemma {:induction false} NextState(trie: seq<Node>, words: seq<Word>, text: string, n: nat, state: int)
    requires GotosOk(trie, words) && n < |text| && AtState(trie, words, text, n, state)
    ensures AtState(trie, words, text, n + 1, trie[state].next[CharToIndex(text[n]) as int])
  {
    var c := CharToIndex(text[n]);
    assert GotoOk(trie, words, state, c as int);
    LettersOfPrefix(text, n);
    LongestStep(words, Letters(text)[..n], c);
  }

  lemma {:induction false} FirstState(trie: seq<Node>, words: seq<Word>, text: string)
    requires GotosOk(trie, words)
    ensures AtState(trie, words, text, 0, 0)
  {
    assert Letters(text)[..0] == [];
  }

  /** The list names the patterns that end after n letters, each once. */
  ghost predicate EndsHere(patterns: seq<string>, text: string, n: nat, out: seq<nat>) {
    && (forall id: nat :: id in out <==> id < |patterns| && Occurs(patterns, text, Match(n - |patterns[id]|, id)))
    && (forall i, j :: 0 <= i < j < |out| ==> out[i] != out[j])
  }

  /** The output list of a state names the patterns that end here, each once. */
  lemma {:induction false} OutputsHere(trie: seq<Node>, words: seq<Word>, patterns: seq<string>, text: string, n: nat,
          state: int)
    requires AutomatonOk(trie, words, patterns) && AtState(trie, words, text, n, state)
    ensures EndsHere(patterns, text, n, trie[state].out)
  {
    assert NamesSuffixes(trie, words, patterns, state);
    var read := Letters(text)[..n];
    LongestIsSuffix(words, read);
    forall id: nat
      ensures id in trie[state].out <==> id < |patterns| && Occurs(patterns, text, Match(n - |patterns[id]|, id))
    {
      if id < |patterns| {
        OccursAtEnd(patterns, text, n, id);
        assert PatternIn(patterns, words, id);
        if IsSuffix(Letters(patterns[id]), words[state]) {
          SuffixTransitive(Letters(patterns[id]), words[state], read);
        }
        if IsSuffix(Letters(patterns[id]), read) {
          LongestIsLongest(words, read, Letters(patterns[id]));
        }
      }
    }
  }

  /** The matches that end after n letters, for the first k ids of a state's output list. */
  function Report(patterns: seq<string>, out: seq<nat>, n: nat, k: nat): seq<Match>
    requires k <= |out|
    requires forall i :: 0 <= i < |out| ==> out[i] < |patterns|
  {
    seq(k, i requires 0 <= i < k => Match(n - |patterns[out[i]]|, out[i]))
  }

  lemma {:induction false} ReportKeepsComplete(trie: seq<Node>, words: seq<Word>, patterns: seq<string>, text: string,
          n: nat, state: int, found: seq<Match>)
    requires AutomatonOk(trie, words, patterns) && AtState(trie, words, text, n + 1, state)
    requires Complete(patterns, text, found, n)
    requires forall i :: 0 <= i < |trie[state].out| ==> trie[state].out[i] < |patterns|
    ensures Complete(patterns, text, found + Report(patterns, trie[state].out, n + 1, |trie[state].out|), n + 1)
  {
    OutputsHere(trie, words, patterns, text, n + 1, state);
    JoinComplete(patterns, text, found, trie[state].out, n);
  }

  /** Occurrences that end after n + 1 letters join those that ended before. */
  lemma {:induction false} JoinComplete(patterns: seq<string>, text: string, found: seq<Match>, out: seq<nat>, n: nat)
    requires Complete(patterns, text, found, n)
    requires forall i :: 0 <= i < |out| ==> out[i] < |patterns|
    requires EndsHere(patterns, text, n + 1, out)
    ensures Complete(patterns, text, found + Report(patterns, out, n + 1, |out|), n + 1)
  {
    var report := Report(patterns, out, n + 1, |out|);
    forall m
      ensures m in report <==> Occurs(patterns, text, m) && m.start + |patterns[m.id]| == n + 1
    {
      ReportMembers(patterns, out, n + 1, m);
      if m.id < |patterns| && m.start + |patterns[m.id]| == n + 1 {
        assert m == Match(n + 1 - |patterns[m.id]|, m.id);
      }
    }
    ReportInOrder(patterns, out, n + 1);
    JoinInOrder(patterns, found, report, n);
  }

  lemma {:induction false} ReportInOrder(patterns: seq<string>, out: seq<nat>, n: nat)
    requires forall i :: 0 <= i < |out| ==> out[i] < |patterns|
    requires forall i, j :: 0 <= i < j < |out| ==> out[i] != out[j]
    ensures InOrder(patterns, Report(patterns, out, n, |out|))
  {
  }

  lemma {:induction false} ReportMembers(patterns: seq<string>, out: seq<nat>, n: nat, m: Match)
    requires forall i :: 0 <= i < |out| ==> out[i] < |patterns|
    ensures m in Report(patterns, out, n, |out|) <==>
              m.id in out && m.id < |patterns| && m.start == n - |patterns[m.id]|
  {
    var report := Report(patterns, out, n, |out|);
    if m in report {
      var i :| 0 <= i < |report| && report[i] == m;
      assert out[i] in out;
    }
    if m.id in out && m.id < |patterns| && m.start == n - |patterns[m.id]| {
      var i :| 0 <= i < |out| && out[i] == m.id;
      assert report[i] == m;
    }
  }

  // ----- patterns added after build

  /** w is a prefix of some pattern and no longer prefix of a pattern ends with it. */
  ghost predicate FitsLate(words: seq<Word>, w: Word) {
    w in words && forall x :: 0 <= x < |words| && IsSuffix(w, words[x]) ==> words[x] == w
  }

  function WithOut(trie: seq<Node>, u: int, id: nat): seq<Node>
    requires 0 <= u < |trie|
  {
    trie[u := trie[u].(out := trie[u].out + [id])]
  }

  lemma {:induction false} LateGotos(trie: seq<Node>, words: seq<Word>, u: int, id: nat)
    requires GotosOk(trie, words) && 0 <= u < |trie|
    ensures GotosOk(WithOut(trie, u, id), words)
  {
    forall v, c | 0 <= v < |trie| && 0 <= c < SIGMA
      ensures GotoOk(WithOut(trie, u, id), words, v, c)
    {
      assert GotoOk(trie, words, v, c);
    }
  }

  /** The output list of state x is right after the late addition. */
  lemma {:induction false} LateOutput(trie: seq<Node>, words: seq<Word>, patterns: seq<string>, p: string, u: int,
          x: int)
    requires AutomatonOk(trie, words, patterns) && 0 <= u < |trie| && 0 <= x < |trie|
    requires words[u] == Longest(words, Letters(p))
    ensures NamesSuffixes(WithOut(trie, u, |patterns|), words, patterns + [p], x) <==>
              (IsSuffix(Letters(p), words[x]) <==> x == u)
  {
    assert NamesSuffixes(trie, words, patterns, x);
    var trie', patterns' := WithOut(trie, u, |patterns|), patterns + [p];
    assert |patterns| !in trie[x].out;
    forall id: nat | id != |patterns|
      ensures id in trie'[x].out <==> id < |patterns'| && IsSuffix(Letters(patterns'[id]), words[x])
    {
      assert id in trie'[x].out <==> id in trie[x].out;
    }
    assert trie'[u].out[|trie[u].out|] == |patterns|;
    assert |patterns| in trie'[x].out <==> x == u;
  }

  /** The automaton stays right exactly if the pattern fits. */
  lemma {:induction false} LateAdd(trie: seq<Node>, words: seq<Word>, patterns: seq<string>, p: string, u: int)
    requires AutomatonOk(trie, words, patterns) && p != "" && 0 <= u < |trie| && words[u] == Longest(words, Letters(p))
    ensures AutomatonOk(WithOut(trie, u, |patterns|), words, patterns + [p]) <==> FitsLate(words, Letters(p))
  {
    var trie', patterns', w := WithOut(trie, u, |patterns|), patterns + [p], Letters(p);
    LateGotos(trie, words, u, |patterns|);
    LongestIsSuffix(words, w);
    if FitsLate(words, w) {
      forall x | 0 <= x < |trie'|
        ensures NamesSuffixes(trie', words, patterns', x)
      {
        LateOutput(trie, words, patterns, p, u, x);
        assert x < u ==> Differ(words, x, u);
        assert u < x ==> Differ(words, u, x);
      }
      forall id | 0 <= id < |patterns'|
        ensures PatternIn(patterns', words, id)
      {
        assert id < |patterns| ==> PatternIn(patterns, words, id);
      }
    }
    if AutomatonOk(trie', words, patterns') {
      assert PatternIn(patterns', words, |patterns|);
      forall x | 0 <= x < |words| && IsSuffix(w, words[x])
        ensures words[x] == w
      {
        assert NamesSuffixes(trie', words, patterns', x);
        LateOutput(trie, words, patterns, p, u, x);
      }
    }
  }

  /** A text with the given letters. */
  function Spell(w: Word): (s: string)
    ensures Letters(s) == w
  {
    seq(|w|, i requires 0 <= i < |w| => ('a' as int + w[i] as int) as char)
  }

  /** Whatever is read, the state reached lists what ends there. */
  ghost predicate AlwaysRight(trie: seq<Node>, words: seq<Word>, patterns: seq<string>) {
    forall text, n: nat, state {:trigger AtState(trie, words, text, n, state)} ::
      AtState(trie, words, text, n, state) ==> EndsHere(patterns, text, n, trie[state].out)
  }

  /** A pattern that does not fit makes some text be answered wrongly: its id is reported where it
      does not occur, or missed where it does. */
  lemma {:induction false} LateAddExactly(trie: seq<Node>, words: seq<Word>, patterns: seq<string>, p: string, u: int)
    requires AutomatonOk(trie, words, patterns) && p != "" && 0 <= u < |trie| && words[u] == Longest(words, Letters(p))
    ensures AlwaysRight(WithOut(trie, u, |patterns|), words, patterns + [p]) <==> FitsLate(words, Letters(p))
  {
    var trie', patterns', w := WithOut(trie, u, |patterns|), patterns + [p], Letters(p);
    LateAdd(trie, words, patterns, p, u);
    forall text, n: nat, state | FitsLate(words, w) && AtState(trie', words, text, n, state)
      ensures EndsHere(patterns', text, n, trie'[state].out)
    {
      OutputsHere(trie', words, patterns', text, n, state);
    }
    if AlwaysRight(trie', words, patterns') {
      LongestIsSuffix(words, w);
      StateText(trie, words, patterns, p, u, u);
      forall x | 0 <= x < |words| && IsSuffix(w, words[x])
        ensures x == u
      {
        StateText(trie, words, patterns, p, u, x);
      }
      WholeSuffix(words[u], w);
    }
  }

  /** The text that spells state x's word shows whether x lists the added pattern rightly. */
  lemma {:induction false} StateText(trie: seq<Node>, words: seq<Word>, patterns: seq<string>, p: string, u: int,
          x: int)
    requires AutomatonOk(trie, words, patterns) && 0 <= u < |trie| && 0 <= x < |trie|
    requires AlwaysRight(WithOut(trie, u, |patterns|), words, patterns + [p])
    ensures IsSuffix(Letters(p), words[x]) <==> x == u
  {
    var trie', patterns', text := WithOut(trie, u, |patterns|), patterns + [p], Spell(words[x]);
    var n := |text|;
    assert Letters(text)[..n] == words[x] && words[x] in words;
    assert AtState(trie', words, text, n, x);
    assert EndsHere(patterns', text, n, trie'[x].out);
    OccursAtEnd(patterns', text, n, |patterns|);
    assert NamesSuffixes(trie, words, patterns, x);
    assert trie'[u].out[|trie[u].out|] == |patterns|;
    assert |patterns| in trie'[x].out <==> x == u;
  }

  lemma {:induction false} OutInRange(out: seq<nat>, patterns: seq<string>)
    requires forall id: nat :: id in out ==> id < |patterns|
    ensures forall k :: 0 <= k < |out| ==> out[k] < |patterns|
  {
    assert forall k :: 0 <= k < |out| ==> out[k] in out;
  }

  /** The inner loop of search: report the ids of one state. */
  method AppendReport(patterns: seq<string>, out: seq<nat>, n: nat, before: seq<Match>) returns (found: seq<Match>)
    requires forall k :: 0 <= k < |out| ==> out[k] < |patterns|
    ensures found == before + Report(patterns, out, n, |out|)
  {
    found := before;
    for k := 0 to |out|
      invariant found == before + Report(patterns, out, n, k)
    {
      found := found + [Match(n - |patterns[out[k]]|, out[k])];
    }
  }

  /** A node, its failure node and its children are different places of the trie. */
  predicate ReadyToExpand(trie: seq<Node>, u: int) {
    && 0 <= u < |trie| && 0 <= trie[u].fail < |trie| && trie[u].fail != u
    && |trie[u].next| == SIGMA == |trie[trie[u].fail].next|
    && (forall c :: 0 <= c < SIGMA ==> trie[u].next[c] == -1 || (0 <= trie[u].next[c] < |trie| && trie[u].next[c] != u))
    && (forall c, d :: 0 <= c < d < SIGMA && trie[u].next[c] == trie[u].next[d] ==> trie[u].next[c] == -1)
  }

  lemma {:induction false} QueueShift(order: seq<int>, kids: seq<int>, h: nat)
    requires h < |order|
    ensures (order + kids)[h + 1..] == order[h..][1..] + kids
    ensures order[h..][0] == order[h]
  {
  }

  predicate RootReady(trie: seq<Node>) {
    && 0 < |trie| && |trie[0].next| == SIGMA
    && (forall c :: 0 <= c < SIGMA ==> trie[0].next[c] == -1 || 0 < trie[0].next[c] < |trie|)
  }

  lemma {:induction false} RootInRange(trie: seq<Node>, words: seq<Word>)
    requires Shape(trie, words)
    ensures RootReady(trie)
  {
    forall c | 0 <= c < SIGMA
      ensures trie[0].next[c] == -1 || 0 < trie[0].next[c] < |trie|
    {
      assert EdgeOk(trie, words, 0, c);
    }
  }

  class Matcher {
    var trie: seq<Node>
    var patterns: seq<string>
    ghost var words: seq<Word>
    ghost var built: bool

    ghost predicate Valid()
      reads this
    {
      if built then AutomatonOk(trie, words, patterns) else TrieOk(trie, words, patterns)
    }

    constructor ()
      ensures Valid() && !built && patterns == []
    {
      trie := [EmptyNode()];
      patterns := [];
      words := [[]];
      built := false;
      new;
      forall u, c | 0 <= u < |trie| && 0 <= c < SIGMA
        ensures EdgeOk(trie, words, u, c)
      {
      }
    }

    /** Insert the pattern's path in the trie; the empty pattern is refused with -1.  After build
        no edge is missing, so nothing grows: the id goes to the state that the automaton reaches
        on the pattern, which is right exactly if the pattern fits. */
    method AddPattern(pattern: string) returns (id: int)
      requires Valid()
      modifies this
      ensures built == old(built)
      ensures pattern == "" ==> id == -1 && patterns == old(patterns) && Valid()
      ensures pattern != "" ==> id == |old(patterns)| && patterns == old(patterns) + [pattern]
      ensures !built ==> Valid()
      ensures built ==> words == old(words) && (Valid() <==> pattern == "" || FitsLate(words, Letters(pattern)))
    {
      if pattern == "" {
        return -1;
      }
      var u := 0;
      var w := Letters(pattern);
      if built {
        FirstState(trie, words, pattern);
      }
      for i := 0 to |pattern|
        invariant built == old(built) && patterns == old(patterns) && Valid()
        invariant !built ==> 0 <= u < |trie| && words[u] == w[..i]
        invariant built ==> trie == old(trie) && words == old(words) && AtState(trie, words, pattern, i, u)
      {
        var c := CharToIndex(pattern[i]) as int;
        if built {
          assert GotoOk(trie, words, u, c);
          NextState(trie, words, pattern, i, u);
        } else {
          assert EdgeOk(trie, words, u, c);
          assert w[..i + 1] == w[..i] + [CharToIndex(pattern[i])];
        }
        if trie[u].next[c] == -1 {
          GrowKeepsTrie(trie, words, patterns, u, c);
          words := words + [words[u] + [c as Letter]];
          trie := Grow(trie, u, c);
        }
        u := trie[u].next[c];
      }
      assert w[..|pattern|] == w;
      id := |patterns|;
      if built {
        LateAdd(trie, words, patterns, pattern, u);
      } else {
        AppendKeepsTrie(trie, words, patterns, pattern, u);
      }
      patterns := patterns + [pattern];
      trie := trie[u := trie[u].(out := trie[u].out + [id])];
    }

    /** The queue loop that computes failure links, outputs and all transitions. */
    method Build()
      requires Valid() && !built
      modifies this
      ensures Valid() && built && patterns == old(patterns) && words == old(words)
    {
      ghost var start := trie;
      RootInRange(trie, words);
      var queue := ExpandRoot();
      BfsStarts(start, trie, words, patterns);
      ghost var order := queue;
      ghost var h := 0;
      while queue != []
        invariant patterns == old(patterns) && words == old(words) && !built
        invariant BfsOk(start, trie, words, patterns, order, h)
        invariant queue == order[h..]
        decreases |trie| - h, |queue|
      {
        queue, order := VisitFront(queue, start, order, h);
        h := h + 1;
      }
      BfsEnds(start, trie, words, patterns, order);
      built := true;
    }

    /** One round of the queue loop: take the front node, finish it and queue its children. */
    method VisitFront(queue: seq<int>, ghost start: seq<Node>, ghost order: seq<int>, ghost h: nat)
      returns (rest: seq<int>, ghost grown: seq<int>)
      requires BfsOk(start, trie, words, patterns, order, h) && queue != [] && queue == order[h..]
      modifies this`trie
      ensures BfsOk(start, trie, words, patterns, grown, h + 1) && rest == grown[h + 1..]
      ensures h < |trie| == |old(trie)|
    {
      HeadInRange(start, trie, words, patterns, order, h);
      ghost var before := trie;
      var kids := ExpandNode(queue[0]);
      rest := queue[1..] + kids;
      grown := order + kids;
      ExpandKeepsBfs(start, before, trie, words, patterns, order, h);
      QueueShift(order, kids, h);
    }

    /** The first loop of build: the root's children fail to the root, its missing edges loop. */
    method ExpandRoot() returns (queue: seq<int>)
      requires RootReady(trie)
      modifies this`trie
      ensures RootExpanded(old(trie), trie) && queue == Kids(old(trie)[0].next, SIGMA)
    {
      ghost var start := trie;
      queue := [];
      for c := 0 to SIGMA
        invariant |trie| == |start| && |trie[0].next| == SIGMA
        invariant queue == Kids(start[0].next, c)
        invariant forall x ::
                  0 <= x < |trie| ==> trie[x].out == start[x].out && (x != 0 ==> trie[x].next == start[x].next)
        invariant forall d ::
                  0 <= d < SIGMA ==> trie[0].next[d] == if d < c && start[0].next[d] == -1 then 0 else start[0].next[d]
        invariant forall d :: 0 <= d < c && 0 <= start[0].next[d] < |trie| ==> trie[start[0].next[d]].fail == 0
      {
        var v := trie[0].next[c];
        if v != -1 {
          trie := trie[v := trie[v].(fail := 0)];
          queue := queue + [v];
        } else {
          trie := trie[0 := trie[0].(next := trie[0].next[c := 0])];
        }
      }
    }

    /** The body of the queue loop for one node. */
    method ExpandNode(u: int) returns (kids: seq<int>)
      requires ReadyToExpand(trie, u)
      modifies this`trie
      ensures Expanded(old(trie), trie, u, old(trie)[u].fail)
      ensures kids == Kids(old(trie)[u].next, SIGMA)
    {
      ghost var start := trie;
      var f := trie[u].fail;
      trie := trie[u := trie[u].(out := trie[u].out + trie[f].out)];
      kids := [];
      for c := 0 to SIGMA
        invariant |trie| == |start| && |trie[u].next| == SIGMA
        invariant kids == Kids(start[u].next, c)
        invariant trie[u].out == start[u].out + start[f].out
        invariant forall x :: 0 <= x < |trie| && x != u ==> trie[x].next == start[x].next && trie[x].out == start[x].out
        invariant forall d :: 0 <= d < SIGMA ==>
                    trie[u].next[d] == if d < c && start[u].next[d] == -1 then start[f].next[d] else start[u].next[d]
        invariant forall d ::
                  0 <= d < c && 0 <= start[u].next[d] < |trie| ==> trie[start[u].next[d]].fail == start[f].next[d]
        invariant forall x :: 0 <= x < |trie| && x !in kids ==> trie[x].fail == start[x].fail
      {
        var v := trie[u].next[c];
        if v != -1 {
          trie := trie[v := trie[v].(fail := trie[f].next[c])];
          kids := kids + [v];
        } else {
          trie := trie[u := trie[u].(next := trie[u].next[c := trie[f].next[c]])];
        }
      }
    }

    /** All occurrences of all patterns in the text, each exactly once. */
    method Search(text: string) returns (found: seq<Match>)
      requires Valid() && built
      ensures Complete(patterns, text, found, |text|)
    {
      found := [];
      var state := 0;
      FirstState(trie, words, text);
      NothingEndsAtStart(words, patterns, text);
      for i := 0 to |text|
        invariant AtState(trie, words, text, i, state)
        invariant Complete(patterns, text, found, i)
      {
        NextState(trie, words, text, i, state);
        state := trie[state].next[CharToIndex(text[i]) as int];
        OutputsHere(trie, words, patterns, text, i + 1, state);
        OutInRange(trie[state].out, patterns);
        ReportKeepsComplete(trie, words, patterns, text, i, state, found);
        found := AppendReport(patterns, trie[state].out, i + 1, found);
      }
    }

    /** The number of occurrences: what search would report. */
    method CountMatches(text: string) returns (total: nat)
      requires Valid() && built
      ensures exists found :: Complete(patterns, text, found, |text|) && total == |found|
    {
      total := 0;
      var state := 0;
      FirstState(trie, words, text);
      NothingEndsAtStart(words, patterns, text);
      ghost var found: seq<Match> := [];
      for i := 0 to |text|
        invariant AtState(trie, words, text, i, state)
        invariant Complete(patterns, text, found, i) && total == |found|
      {
        NextState(trie, words, text, i, state);
        state := trie[state].next[CharToIndex(text[i]) as int];
        OutputsHere(trie, words, patterns, text, i + 1, state);
        OutInRange(trie[state].out, patterns);
        ReportKeepsComplete(trie, words, patterns, text, i, state, found);
        found := found + Report(patterns, trie[state].out, i + 1, |trie[state].out|);
        total := total + |trie[state].out|;
      }
    }

    /** Whether any pattern occurs, decided at the first one met. */
    method ContainsAny(text: string) returns (any: bool)
      requires Valid() && built
      ensures any <==> exists m :: Occurs(patterns, text, m)
    {
      var state := 0;
      FirstState(trie, words, text);
      NothingEndsAtStart(words, patterns, text);
      for i := 0 to |text|
        invariant AtState(trie, words, text, i, state)
        invariant Complete(patterns, text, [], i)
      {
        NextState(trie, words, text, i, state);
        state := trie[state].next[CharToIndex(text[i]) as int];
        OutputsHere(trie, words, patterns, text, i + 1, state);
        if trie[state].out != [] {
          var id := trie[state].out[0];
          assert id in trie[state].out;
          assert Occurs(patterns, text, Match(i + 1 - |patterns[id]|, id));
          return true;
        }
        ReportKeepsComplete(trie, words, patterns, text, i, state, []);
        assert [] + Report(patterns, [], i + 1, 0) == [];
      }
      return false;
    }
  }

  lemma {:induction false} GrowKeepsTrie(trie: seq<Node>, words: seq<Word>, patterns: seq<string>, u: nat, c: nat)
    requires TrieOk(trie, words, patterns) && u < |trie| && c < SIGMA && trie[u].next[c] == -1
    ensures TrieOk(Grow(trie, u, c), words + [words[u] + [c as Letter]], patterns)
  {
    var w := words[u] + [c as Letter];
    var trie', words' := Grow(trie, u, c), words + [w];
    GrowShape(trie, words, u, c);
    assert EdgeOk(trie, words, u, c);
    forall x | 0 <= x < |trie'|
      ensures OwnOut(trie', words', patterns, x)
    {
      if x < |trie| {
        assert OwnOut(trie, words, patterns, x);
      } else {
        OwnNone(patterns, words, w);
      }
    }
    forall id | 0 <= id < |patterns|
      ensures PatternIn(patterns, words', id)
    {
      assert PatternIn(patterns, words, id);
    }
  }

  lemma {:induction false} AppendKeepsTrie(trie: seq<Node>, words: seq<Word>, patterns: seq<string>, p: string, u: nat)
    requires TrieOk(trie, words, patterns) && p != "" && u < |trie| && words[u] == Letters(p)
    ensures TrieOk(trie[u := trie[u].(out := trie[u].out + [|patterns|])], words, patterns + [p])
  {
    var trie' := trie[u := trie[u].(out := trie[u].out + [|patterns|])];
    forall x, c | 0 <= x < |trie'| && 0 <= c < SIGMA
      ensures EdgeOk(trie', words, x, c)
    {
      assert EdgeOk(trie, words, x, c);
    }
    forall x | 0 <= x < |trie'|
      ensures OwnOut(trie', words, patterns + [p], x)
    {
      assert OwnOut(trie, words, patterns, x);
      OwnAdd(patterns, p, words[x]);
      if x != u && words[x] == words[u] {
        SameNode(words, x, u);
      }
    }
    forall id | 0 <= id < |patterns + [p]|
      ensures PatternIn(patterns + [p], words, id)
    {
      if id < |patterns| {
        assert PatternIn(patterns, words, id);
      }
    }
  }

  /** The node at the front meets the preconditions of the loop body. */
  lemma {:induction false} HeadInRange(start: seq<Node>, trie: seq<Node>, words: seq<Word>, patterns: seq<string>,
          order: seq<int>, h: nat)
    requires BfsOk(start, trie, words, patterns, order, h) && h < |order|
    ensures ReadyToExpand(trie, order[h]) && h < |trie|
  {
    FrontFacts(start, trie, words, patterns, order, h);
    var u := order[h];
    forall c | 0 <= c < SIGMA
      ensures trie[u].next[c] == -1 || (0 <= trie[u].next[c] < |trie| && trie[u].next[c] != u)
    {
      assert EdgeOk(start, words, u, c);
    }
    forall c, d | 0 <= c < d < SIGMA && trie[u].next[c] == trie[u].next[d]
      ensures trie[u].next[c] == -1
    {
      if trie[u].next[c] != -1 {
        DifferentEdges(start, words, u, c, d);
      }
    }
    assert forall i :: 0 <= i < |order| ==> 0 <= order[i] < |trie| by {
      forall i | 0 <= i < |order| ensures 0 <= order[i] < |trie| { assert QueuedOk(trie, words, order, h, i); }
    }
    OrderFits(order, |trie|, |order|);
  }

  /** Distinct node numbers are at most as many as there are nodes. */
  lemma {:induction false} OrderFits(order: seq<int>, n: nat, k: nat)
    requires k <= |order| && forall i :: 0 <= i < |order| ==> 0 <= order[i] < n
    requires forall i, j :: 0 <= i < j < |order| ==> OrderDiffer(order, i, j)
    ensures k <= n
  {
    NodeCount(n);
    DistinctCount(order, k, Below(n));
  }

  function Below(n: nat): set<int> {
    if n == 0 then {} else Below(n - 1) + {n - 1}
  }

  lemma {:induction false} NodeCount(n: nat)
    ensures |Below(n)| == n && forall i :: i in Below(n) <==> 0 <= i < n
  {
    if n > 0 {
      NodeCount(n - 1);
    }
  }

  lemma {:induction false} DistinctCount(order: seq<int>, k: nat, nodes: set<int>)
    requires k <= |order| && forall i :: 0 <= i < k ==> order[i] in nodes
    requires forall i, j :: 0 <= i < j < |order| ==> OrderDiffer(order, i, j)
    ensures k <= |nodes|
  {
    if k > 0 {
      forall i | 0 <= i < k - 1
        ensures order[i] in nodes - {order[k - 1]}
      {
        assert OrderDiffer(order, i, k - 1);
      }
      DistinctCount(order, k - 1, nodes - {order[k - 1]});
    }
  }

  /** No pattern is empty, so nothing ends before the first letter. */
  lemma {:induction false} NothingEndsAtStart(words: seq<Word>, patterns: seq<string>, text: string)
    requires forall id :: 0 <= id < |patterns| ==> PatternIn(patterns, words, id)
    ensures Complete(patterns, text, [], 0)
  {
    forall m | Occurs(patterns, text, m)
      ensures m.start + |patterns[m.id]| > 0
    {
      assert PatternIn(patterns, words, m.id);
    }
  }
}
