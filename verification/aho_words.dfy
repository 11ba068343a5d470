/**
 Words, suffixes, and the longest suffix that is a word: the theory behind failure links.
 */
module AhoWords {

  const SIGMA: nat := 26

  newtype Letter = x: int | 0 <= x < 26

  type Word = seq<Letter>

  /** Upper case counts as lower case, everything else as 'a'. */
  function CharToIndex(c: char): Letter {
    if 'a' <= c <= 'z' then (c as int - 'a' as int) as Letter
    else if 'A' <= c <= 'Z' then (c as int - 'A' as int) as Letter
    else 0
  }

  function Letters(s: string): (w: Word)
    ensures |w| == |s|
  {
    seq(|s|, i requires 0 <= i < |s| => CharToIndex(s[i]))
  }

  predicate IsSuffix(x: Word, w: Word) {
    |x| <= |w| && w[|w| - |x|..] == x
  }

  ghost predicate PrefixIn(words: seq<Word>, i: int) {
    0 <= i < |words| && (words[i] != [] ==> words[i][..|words[i]| - 1] in words)
  }

  ghost predicate PrefixClosed(words: seq<Word>) {
    [] in words && forall i :: 0 <= i < |words| ==> PrefixIn(words, i)
  }

  lemma {:induction false} PrefixOfWord(words: seq<Word>, w: Word)
    requires PrefixClosed(words) && w in words && w != []
    ensures w[..|w| - 1] in words
  {
    var i :| 0 <= i < |words| && words[i] == w;
    assert PrefixIn(words, i);
  }

  lemma {:induction false} NoLongerWord(words: seq<Word>, w: Word, c: Letter)
    requires PrefixClosed(words) && w !in words
    ensures w + [c] !in words
  {
    assert (w + [c])[..|w + [c]| - 1] == w;
    if w + [c] in words {
      PrefixOfWord(words, w + [c]);
    }
  }

  /** The longest suffix of w that is a word. */
  function Longest(words: seq<Word>, w: Word): (x: Word)
    requires [] in words
    ensures x in words
    decreases |w|
  {
    if w in words then w else Longest(words, w[1..])
  }

  lemma {:induction false} LongestIsSuffix(words: seq<Word>, w: Word)
    requires [] in words
    ensures IsSuffix(Longest(words, w), w)
    ensures w !in words ==> |Longest(words, w)| < |w|
    decreases |w|
  {
    if w !in words {
      LongestIsSuffix(words, w[1..]);
      SuffixOfTail(Longest(words, w), w);
    }
  }

  lemma {:induction false} SuffixOfTail(x: Word, w: Word)
    requires w != []
    ensures IsSuffix(x, w[1..]) <==> IsSuffix(x, w) && |x| < |w|
  {
    if |x| < |w| {
      assert w[1..][|w| - 1 - |x|..] == w[|w| - |x|..];
    }
  }

  lemma {:induction false} WholeSuffix(x: Word, w: Word)
    requires IsSuffix(x, w)
    ensures |x| == |w| ==> x == w
  {
  }

  /** Nothing longer qualifies. */
  lemma {:induction false} LongestIsLongest(words: seq<Word>, w: Word, x: Word)
    requires [] in words && x in words && IsSuffix(x, w)
    ensures |x| <= |Longest(words, w)| && IsSuffix(x, Longest(words, w))
    decreases |w|
  {
    if w !in words {
      WholeSuffix(x, w);
      SuffixOfTail(x, w);
      LongestIsLongest(words, w[1..], x);
    }
  }

  lemma {:induction false} SuffixTransitive(x: Word, y: Word, z: Word)
    requires IsSuffix(x, y) && IsSuffix(y, z)
    ensures IsSuffix(x, z)
  {
    assert z[|z| - |y|..][|y| - |x|..] == z[|z| - |x|..];
  }

  /** Reading one more letter needs only the longest suffix read so far. */
  lemma {:induction false} LongestStep(words: seq<Word>, w: Word, c: Letter)
    requires PrefixClosed(words)
    ensures Longest(words, w + [c]) == Longest(words, Longest(words, w) + [c])
    decreases |w|
  {
    if w !in words {
      NoLongerWord(words, w, c);
      assert (w + [c])[1..] == w[1..] + [c];
      LongestStep(words, w[1..], c);
    }
  }

  /** The failure word: the longest proper suffix that is a word. */
  function Fail(words: seq<Word>, w: Word): Word
    requires [] in words && w != []
  {
    Longest(words, w[1..])
  }

  lemma {:induction false} FailShorter(words: seq<Word>, w: Word)
    requires [] in words && w != []
    ensures |Fail(words, w)| < |w| && IsSuffix(Fail(words, w), w)
  {
    LongestIsSuffix(words, w[1..]);
    SuffixOfTail(Fail(words, w), w);
  }

  /** A transition that leaves the trie continues from the failure word. */
  lemma {:induction false} StepThroughFail(words: seq<Word>, w: Word, c: Letter)
    requires PrefixClosed(words) && w != [] && w + [c] !in words
    ensures Longest(words, w + [c]) == Longest(words, Fail(words, w) + [c])
  {
    assert (w + [c])[1..] == w[1..] + [c];
    LongestStep(words, w[1..], c);
  }

  /** The failure word of a child is reached from the parent's failure word. */
  lemma {:induction false} FailOfChild(words: seq<Word>, w: Word, c: Letter)
    requires PrefixClosed(words) && w != []
    ensures Fail(words, w + [c]) == Longest(words, Fail(words, w) + [c])
  {
    assert (w + [c])[1..] == w[1..] + [c];
    LongestStep(words, w[1..], c);
  }
}
