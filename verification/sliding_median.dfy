/**
 The median of a sliding window: two heaps whose deletions are delayed until they reach the top.
 */
module Medians {

  ghost predicate Sorted(s: seq<int>) {
    forall i, j {:trigger s[i], s[j]} :: 0 <= i <= j < |s| ==> s[i] <= s[j]
  }

  /** One copy more of x, and one less. */
  function With(h: multiset<int>, x: int): multiset<int> {
    h[x := h[x] + 1]
  }

  function Less(h: multiset<int>, x: int): multiset<int> {
    h[x := if h[x] > 0 then h[x] - 1 else 0]
  }

  ghost predicate AllUpTo(h: multiset<int>, x: int) {
    forall y {:trigger h[y]} :: h[y] > 0 ==> y <= x
  }

  ghost predicate AllFrom(h: multiset<int>, x: int) {
    forall y {:trigger h[y]} :: h[y] > 0 ==> x <= y
  }

  ghost predicate IsMax(h: multiset<int>, x: int) {
    h[x] > 0 && AllUpTo(h, x)
  }

  ghost predicate IsMin(h: multiset<int>, x: int) {
    h[x] > 0 && AllFrom(h, x)
  }

  /** Nothing in a exceeds anything in b. */
  ghost predicate Below(a: multiset<int>, b: multiset<int>) {
    forall y {:trigger AllUpTo(a, y)} :: b[y] > 0 ==> AllUpTo(a, y)
  }

  /** m is the median of w: the middle of its sorted list, or the mean of the two middle values. */
  ghost predicate IsMedian(w: multiset<int>, m: real) {
    forall s {:trigger Sorted(s)} :: Sorted(s) && multiset(s) == w && |s| > 0 ==>
      m == if |s| % 2 == 1 then s[|s| / 2] as real else (s[|s| / 2 - 1] as real + s[|s| / 2] as real) / 2.0
  }

  lemma {:induction false} HasMember(h: multiset<int>)
    requires |h| > 0
    ensures exists z: int :: z in h
  {
    if forall z: int :: z !in h {
      assert false;
    }
  }

  lemma {:induction false} MaxExists(h: multiset<int>) returns (x: int)
    requires |h| > 0
    ensures IsMax(h, x)
    decreases |h|
  {
    HasMember(h);
    x :| x in h;
    var rest := Less(h, x);
    if |rest| > 0 {
      var y := MaxExists(rest);
      x := if x > y then x else y;
    }
    forall z | h[z] > 0
      ensures z <= x
    {
      assert z == x || rest[z] > 0 || rest[x] > 0;
    }
  }

  lemma {:induction false} MinExists(h: multiset<int>) returns (x: int)
    requires |h| > 0
    ensures IsMin(h, x)
    decreases |h|
  {
    HasMember(h);
    x :| x in h;
    var rest := Less(h, x);
    if |rest| > 0 {
      var y := MinExists(rest);
      x := if x < y then x else y;
    }
    forall z | h[z] > 0
      ensures x <= z
    {
      assert z == x || rest[z] > 0 || rest[x] > 0;
    }
  }

  /** top() of the max-heap and of the min-heap. */
  method TopMax(h: multiset<int>) returns (x: int)
    requires |h| > 0
    ensures IsMax(h, x)
  {
    ghost var g := MaxExists(h);
    assert forall z :: z in h ==> z <= g;
    var y :| y in h && forall z :: z in h ==> z <= y;
    x := y;
  }

  method TopMin(h: multiset<int>) returns (x: int)
    requires |h| > 0
    ensures IsMin(h, x)
  {
    ghost var g := MinExists(h);
    assert forall z :: z in h ==> g <= z;
    var y :| y in h && forall z :: z in h ==> y <= z;
    x := y;
  }

  // ----- keeping one heap below the other

  lemma {:induction false} BelowLess(a: multiset<int>, b: multiset<int>, a': multiset<int>, b': multiset<int>)
    requires Below(a, b) && a' <= a && b' <= b
    ensures Below(a', b')
  {
    forall y | b'[y] > 0
      ensures AllUpTo(a', y)
    {
      assert b[y] > 0;
      assert AllUpTo(a, y);
      forall z | a'[z] > 0
        ensures z <= y
      {
        assert a[z] > 0;
      }
    }
  }

  lemma {:induction false} BelowPair(a: multiset<int>, b: multiset<int>, x: int, y: int)
    requires Below(a, b) && a[x] > 0 && b[y] > 0
    ensures x <= y
  {
    assert AllUpTo(a, y);
  }

  lemma {:induction false} BelowAddLow(a: multiset<int>, b: multiset<int>, x: int)
    requires Below(a, b) && AllFrom(b, x)
    ensures Below(With(a, x), b)
  {
    forall y | b[y] > 0
      ensures AllUpTo(With(a, x), y)
    {
      assert AllUpTo(a, y);
      forall z | With(a, x)[z] > 0
        ensures z <= y
      {
        assert a[z] > 0 || z == x;
      }
    }
  }

  lemma {:induction false} BelowAddHigh(a: multiset<int>, b: multiset<int>, x: int)
    requires Below(a, b) && AllUpTo(a, x)
    ensures Below(a, With(b, x))
  {
    forall y | With(b, x)[y] > 0
      ensures AllUpTo(a, y)
    {
      assert b[y] > 0 || y == x;
    }
  }

  /** What is no greater than a's top is no greater than anything in b. */
  lemma {:induction false} UnderTop(a: multiset<int>, b: multiset<int>, top: int, x: int)
    requires Below(a, b) && a[top] > 0 && x <= top
    ensures AllFrom(b, x)
  {
    forall y | b[y] > 0
      ensures x <= y
    {
      BelowPair(a, b, top, y);
    }
  }

  lemma {:induction false} OverTop(a: multiset<int>, b: multiset<int>, top: int, x: int)
    requires Below(a, b) && b[top] > 0 && top <= x
    ensures AllUpTo(a, x)
  {
    forall y | a[y] > 0
      ensures y <= x
    {
      BelowPair(a, b, y, top);
    }
  }

  // ----- the median from two halves

  /** Every multiset has a sorted listing, so a median means something. */
  lemma {:induction false} SortedListing(w: multiset<int>) returns (s: seq<int>)
    ensures Sorted(s) && multiset(s) == w
    decreases |w|
  {
    if |w| == 0 {
      s := [];
    } else {
      var x := MaxExists(w);
      var init := SortedListing(Less(w, x));
      s := init + [x];
      forall i | 0 <= i < |init|
        ensures init[i] <= x
      {
        assert init[i] in multiset(init);
      }
    }
  }

  /** A window that is not empty has one median. */
  lemma {:induction false} OneMedian(w: multiset<int>, m: real, m': real)
    requires |w| > 0 && IsMedian(w, m) && IsMedian(w, m')
    ensures m == m'
  {
    var s := SortedListing(w);
    assert |multiset(s)| == |s|;
  }

  /** The last element of a sorted list of a + b comes from b, if b has any. */
  lemma {:induction false} LastIsHigh(s: seq<int>, a: multiset<int>, b: multiset<int>)
    requires Sorted(s) && multiset(s) == a + b && Below(a, b) && |b| > 0
    ensures |s| > 0 && b[s[|s| - 1]] > 0
  {
    var y := MaxExists(b);
    assert multiset(s)[y] == a[y] + b[y];
    assert y in multiset(s);
    assert y in s;
    var i :| 0 <= i < |s| && s[i] == y;
    var last := s[|s| - 1];
    assert last in multiset(s);
    if b[last] == 0 {
      BelowPair(a, b, last, y);
    }
  }

  lemma {:induction false} TakenOff(m: multiset<int>, a: multiset<int>, b: multiset<int>, x: int)
    requires With(m, x) == a + b && b[x] > 0
    ensures m == a + Less(b, x) && |Less(b, x)| == |b| - 1
  {
    forall y
      ensures m[y] == (a + Less(b, x))[y]
    {
      assert With(m, x)[y] == (a + b)[y];
    }
  }

  lemma {:induction false} Appended(s: seq<int>, init: seq<int>, last: int, k: nat)
    requires s == init + [last] && k <= |init|
    ensures multiset(s) == With(multiset(init), last)
    ensures s[..k] == init[..k] && multiset(s[k..]) == multiset(init[k..]) + multiset{last}
  {
    assert s[k..] == init[k..] + [last];
  }

  /** In a sorted list of a + b, with a below b, the first |a| elements are a's. */
  lemma {:induction false} LowerPart(s: seq<int>, a: multiset<int>, b: multiset<int>)
    requires Sorted(s) && multiset(s) == a + b && Below(a, b)
    ensures |s| == |a| + |b| && multiset(s[..|a|]) == a && multiset(s[|a|..]) == b
    decreases |b|
  {
    assert |s| == |multiset(s)| == |a| + |b|;
    if |b| == 0 {
      assert s[..|a|] == s;
    } else {
      LastIsHigh(s, a, b);
      var last := s[|s| - 1];
      var init := s[..|s| - 1];
      var less := Less(b, last);
      Appended(s, init, last, |a|);
      TakenOff(multiset(init), a, b, last);
      BelowLess(a, b, a, less);
      LowerPart(init, a, less);
      assert With(less, last) == b;
    }
  }

  lemma {:induction false} LastIsMax(s: seq<int>, a: multiset<int>, top: int)
    requires Sorted(s) && multiset(s) == a && IsMax(a, top)
    ensures |s| > 0 && s[|s| - 1] == top
  {
    assert top in s;
    var i :| 0 <= i < |s| && s[i] == top;
    assert s[|s| - 1] in multiset(s);
  }

  lemma {:induction false} FirstIsMin(s: seq<int>, b: multiset<int>, y: int)
    requires Sorted(s) && multiset(s) == b && IsMin(b, y)
    ensures |s| > 0 && s[0] == y
  {
    assert y in s;
    var i :| 0 <= i < |s| && s[i] == y;
    assert s[0] in multiset(s);
  }

  lemma {:induction false} OddMedian(a: multiset<int>, b: multiset<int>, top: int)
    requires Below(a, b) && |a| == |b| + 1 && IsMax(a, top)
    ensures IsMedian(a + b, top as real)
  {
    forall s | Sorted(s) && multiset(s) == a + b && |s| > 0
      ensures |s| % 2 == 1 && s[|s| / 2] == top
    {
      LowerPart(s, a, b);
      LastIsMax(s[..|a|], a, top);
    }
  }

  lemma {:induction false} EvenMedian(a: multiset<int>, b: multiset<int>, top: int, next: int)
    requires Below(a, b) && |a| == |b| && IsMax(a, top) && IsMin(b, next)
    ensures IsMedian(a + b, (top as real + next as real) / 2.0)
  {
    forall s | Sorted(s) && multiset(s) == a + b && |s| > 0
      ensures |s| % 2 == 0 && s[|s| / 2 - 1] == top && s[|s| / 2] == next
    {
      LowerPart(s, a, b);
      LastIsMax(s[..|a|], a, top);
      FirstIsMin(s[|a|..], b, next);
    }
  }
}

module SlidingMedian {
  import opened Medians

  function Delays(delayed: map<int, nat>, x: int): nat {
    if x in delayed then delayed[x] else 0
  }

  function Undelayed(delayed: map<int, nat>, x: int): map<int, nat> {
    if Delays(delayed, x) <= 1 then delayed - {x} else delayed[x := Delays(delayed, x) - 1]
  }

  /** Every delayed deletion is charged to one heap. */
  ghost predicate Charged(delayed: map<int, nat>, staleLow: multiset<int>, staleHigh: multiset<int>) {
    forall x {:trigger Delays(delayed, x)} :: Delays(delayed, x) == staleLow[x] + staleHigh[x]
  }

  /** No stale copy is at the top. */
  ghost predicate LiveMax(h: multiset<int>, stale: multiset<int>) {
    forall x {:trigger IsMax(h, x)} :: IsMax(h, x) ==> stale[x] == 0
  }

  ghost predicate LiveMin(h: multiset<int>, stale: multiset<int>) {
    forall x {:trigger IsMin(h, x)} :: IsMin(h, x) ==> stale[x] == 0
  }

  lemma {:induction false} LiveMaxMore(h: multiset<int>, stale: multiset<int>, x: int)
    requires LiveMax(h, stale) && stale <= h && |h| > 0
    ensures LiveMax(With(h, x), stale)
  {
    var top := MaxExists(h);
    forall y | IsMax(With(h, x), y)
      ensures stale[y] == 0
    {
      assert With(h, x)[top] > 0;
      if stale[y] > 0 {
        assert h[y] > 0;
        assert y == top;
      }
    }
  }

  lemma {:induction false} LiveMinMore(h: multiset<int>, stale: multiset<int>, x: int)
    requires LiveMin(h, stale) && stale <= h && |h| > 0
    ensures LiveMin(With(h, x), stale)
  {
    var top := MinExists(h);
    forall y | IsMin(With(h, x), y)
      ensures stale[y] == 0
    {
      assert With(h, x)[top] > 0;
      if stale[y] > 0 {
        assert h[y] > 0;
        assert y == top;
      }
    }
  }

  /** A delayed deletion of low's top is charged to low, one of high's top to high. */
  lemma {:induction false} ChargedHere(low: multiset<int>, high: multiset<int>, x: int, staleLow: multiset<int>,
          staleHigh: multiset<int>)
    requires Below(low, high) && staleLow <= low && staleHigh <= high
    ensures IsMax(low, x) && LiveMin(high, staleHigh) ==> staleHigh[x] == 0
    ensures IsMin(high, x) && LiveMax(low, staleLow) ==> staleLow[x] == 0
  {
    if IsMax(low, x) && staleHigh[x] > 0 {
      UnderTop(low, high, x, x);
      assert high[x] > 0;
      assert IsMin(high, x);
    }
    if IsMin(high, x) && staleLow[x] > 0 {
      OverTop(low, high, x, x);
      assert low[x] > 0;
      assert IsMax(low, x);
    }
  }

  lemma {:induction false} NothingLive(h: multiset<int>, live: multiset<int>, stale: multiset<int>)
    requires h == live + stale && |live| == 0 && LiveMin(h, stale)
    ensures h == multiset{}
  {
    if |h| > 0 {
      var x := MinExists(h);
    }
  }

  lemma {:induction false} Discharge(delayed: map<int, nat>, stale: multiset<int>, other: multiset<int>, x: int)
    requires stale[x] > 0 && (Charged(delayed, stale, other) || Charged(delayed, other, stale))
    ensures var d := Undelayed(delayed, x);
            Charged(d, Less(stale, x), other) && Charged(d, other, Less(stale, x))
  {
    var d := Undelayed(delayed, x);
    assert Delays(delayed, x) > 0;
    forall y
      ensures Delays(d, y) == Less(stale, x)[y] + other[y]
    {
      assert Delays(d, y) == Delays(delayed, y) - if y == x then 1 else 0;
    }
  }

  lemma {:induction false} OnlyMax(h: multiset<int>, stale: multiset<int>, x: int)
    requires IsMax(h, x) && stale[x] == 0
    ensures LiveMax(h, stale)
  {
  }

  lemma {:induction false} OnlyMin(h: multiset<int>, stale: multiset<int>, x: int)
    requires IsMin(h, x) && stale[x] == 0
    ensures LiveMin(h, stale)
  {
  }

  lemma {:induction false} HasLive(h: multiset<int>, live: multiset<int>, stale: multiset<int>)
    requires h == live + stale && |live| > 0
    ensures |h| > 0
  {
    assert |h| == |live| + |stale|;
  }

  lemma {:induction false} LiveTop(h: multiset<int>, live: multiset<int>, stale: multiset<int>, x: int)
    requires h == live + stale && IsMax(h, x) && LiveMax(h, stale)
    ensures IsMax(live, x)
  {
    forall y | live[y] > 0
      ensures y <= x
    {
      assert h[y] > 0;
    }
  }

  lemma {:induction false} LiveFirst(h: multiset<int>, live: multiset<int>, stale: multiset<int>, x: int)
    requires h == live + stale && IsMin(h, x) && LiveMin(h, stale)
    ensures IsMin(live, x)
  {
    forall y | live[y] > 0
      ensures x <= y
    {
      assert h[y] > 0;
    }
  }

  lemma {:induction false} PushedMax(h: multiset<int>, stale: multiset<int>, x: int)
    requires LiveMax(h, stale) && stale <= h
    ensures LiveMax(With(h, x), stale)
  {
    if |h| > 0 {
      LiveMaxMore(h, stale, x);
    } else {
      assert h == multiset{};
    }
  }

  lemma {:induction false} PushedMin(h: multiset<int>, stale: multiset<int>, x: int)
    requires LiveMin(h, stale) && stale <= h
    ensures LiveMin(With(h, x), stale)
  {
    if |h| > 0 {
      LiveMinMore(h, stale, x);
    } else {
      assert h == multiset{};
    }
  }

  lemma {:induction false} StillLiveMax(h: multiset<int>, stale: multiset<int>, top: int, x: int)
    requires LiveMax(h, stale) && IsMax(h, top) && x != top
    ensures LiveMax(h, With(stale, x))
  {
    OnlyMax(h, With(stale, x), top);
  }

  lemma {:induction false} StillLiveMin(h: multiset<int>, stale: multiset<int>, top: int, x: int)
    requires LiveMin(h, stale) && IsMin(h, top) && x != top
    ensures LiveMin(h, With(stale, x))
  {
    OnlyMin(h, With(stale, x), top);
  }

  lemma {:induction false} NotEmpty(h: multiset<int>, x: int)
    requires h[x] > 0
    ensures |h| > 0
  {
    assert x in h;
  }

  lemma {:induction false} NothingHere(h: multiset<int>, live: multiset<int>, stale: multiset<int>)
    requires h == live + stale && |h| == 0
    ensures |live| == 0 && |stale| == 0
  {
    assert |h| == |live| + |stale|;
  }

  // ----- the books: what the heaps hold and which copies count

  datatype Books = Books(low: multiset<int>, high: multiset<int>, delayed: map<int, nat>,
                         liveLow: multiset<int>, liveHigh: multiset<int>, staleLow: multiset<int>,
                             staleHigh: multiset<int>)

  /** The heaps hold the live and the stale copies, one below the other. */
  ghost predicate Accounted(b: Books) {
    && b.low == b.liveLow + b.staleLow && b.high == b.liveHigh + b.staleHigh
    && Charged(b.delayed, b.staleLow, b.staleHigh) && Below(b.low, b.high)
  }

  ghost predicate LowOk(b: Books) {
    LiveMax(b.low, b.staleLow)
  }

  ghost predicate HighOk(b: Books) {
    LiveMin(b.high, b.staleHigh)
  }

  function DroppedLow(b: Books, x: int): Books {
    b.(low := Less(b.low, x), staleLow := Less(b.staleLow, x), delayed := Undelayed(b.delayed, x))
  }

  function DroppedHigh(b: Books, x: int): Books {
    b.(high := Less(b.high, x), staleHigh := Less(b.staleHigh, x), delayed := Undelayed(b.delayed, x))
  }

  lemma {:induction false} DropLow(b: Books, x: int)
    requires Accounted(b) && HighOk(b) && IsMax(b.low, x)
    ensures Delays(b.delayed, x) > 0 ==> Accounted(DroppedLow(b, x))
    ensures Delays(b.delayed, x) == 0 ==> LowOk(b)
  {
    ChargedHere(b.low, b.high, x, b.staleLow, b.staleHigh);
    assert Delays(b.delayed, x) == b.staleLow[x];
    if Delays(b.delayed, x) > 0 {
      BelowLess(b.low, b.high, Less(b.low, x), b.high);
      Discharge(b.delayed, b.staleLow, b.staleHigh, x);
      TakeStale(b.low, b.liveLow, b.staleLow, x);
    } else {
      OnlyMax(b.low, b.staleLow, x);
    }
  }

  lemma {:induction false} DropHigh(b: Books, x: int)
    requires Accounted(b) && LowOk(b) && IsMin(b.high, x)
    ensures Delays(b.delayed, x) > 0 ==> Accounted(DroppedHigh(b, x))
    ensures Delays(b.delayed, x) == 0 ==> HighOk(b)
  {
    ChargedHere(b.low, b.high, x, b.staleLow, b.staleHigh);
    assert Delays(b.delayed, x) == b.staleHigh[x];
    if Delays(b.delayed, x) > 0 {
      BelowLess(b.low, b.high, b.low, Less(b.high, x));
      Discharge(b.delayed, b.staleHigh, b.staleLow, x);
      TakeStale(b.high, b.liveHigh, b.staleHigh, x);
    } else {
      OnlyMin(b.high, b.staleHigh, x);
    }
  }

  lemma {:induction false} TakeStale(h: multiset<int>, live: multiset<int>, stale: multiset<int>, x: int)
    requires h == live + stale && stale[x] > 0
    ensures Less(h, x) == live + Less(stale, x)
  {
  }

  lemma {:induction false} TakeLive(h: multiset<int>, live: multiset<int>, stale: multiset<int>, x: int)
    requires h == live + stale && live[x] > 0
    ensures Less(h, x) == Less(live, x) + stale && |Less(live, x)| == |live| - 1
    ensures h == Less(live, x) + With(stale, x)
  {
  }

  lemma {:induction false} AddLive(h: multiset<int>, live: multiset<int>, stale: multiset<int>, x: int)
    requires h == live + stale
    ensures With(h, x) == With(live, x) + stale && |With(live, x)| == |live| + 1
  {
  }

  function MovedUp(b: Books, x: int): Books {
    b.(low := Less(b.low, x), liveLow := Less(b.liveLow, x), high := With(b.high, x), liveHigh := With(b.liveHigh, x))
  }

  function MovedDown(b: Books, x: int): Books {
    b.(low := With(b.low, x), liveLow := With(b.liveLow, x), high := Less(b.high, x), liveHigh := Less(b.liveHigh, x))
  }

  lemma {:induction false} MoveUp(b: Books, x: int)
    requires Accounted(b) && LowOk(b) && HighOk(b) && IsMax(b.low, x)
    ensures Accounted(MovedUp(b, x)) && HighOk(MovedUp(b, x))
    ensures |MovedUp(b, x).liveLow| == |b.liveLow| - 1 && |MovedUp(b, x).liveHigh| == |b.liveHigh| + 1
    ensures MovedUp(b, x).liveLow + MovedUp(b, x).liveHigh == b.liveLow + b.liveHigh
  {
    assert b.liveLow[x] > 0;
    TakeLive(b.low, b.liveLow, b.staleLow, x);
    AddLive(b.high, b.liveHigh, b.staleHigh, x);
    BelowAddHigh(b.low, b.high, x);
    BelowLess(b.low, With(b.high, x), Less(b.low, x), With(b.high, x));
    PushedMin(b.high, b.staleHigh, x);
  }

  lemma {:induction false} MoveDown(b: Books, x: int)
    requires Accounted(b) && LowOk(b) && HighOk(b) && IsMin(b.high, x)
    ensures Accounted(MovedDown(b, x)) && LowOk(MovedDown(b, x))
    ensures |MovedDown(b, x).liveLow| == |b.liveLow| + 1 && |MovedDown(b, x).liveHigh| == |b.liveHigh| - 1
    ensures MovedDown(b, x).liveLow + MovedDown(b, x).liveHigh == b.liveLow + b.liveHigh
  {
    assert b.liveHigh[x] > 0;
    TakeLive(b.high, b.liveHigh, b.staleHigh, x);
    AddLive(b.low, b.liveLow, b.staleLow, x);
    BelowAddLow(b.low, b.high, x);
    BelowLess(With(b.low, x), b.high, With(b.low, x), Less(b.high, x));
    PushedMax(b.low, b.staleLow, x);
  }

  function AddedLow(b: Books, x: int): Books {
    b.(low := With(b.low, x), liveLow := With(b.liveLow, x))
  }

  function AddedHigh(b: Books, x: int): Books {
    b.(high := With(b.high, x), liveHigh := With(b.liveHigh, x))
  }

  lemma {:induction false} AddLow(b: Books, x: int)
    requires Accounted(b) && LowOk(b) && AllFrom(b.high, x)
    ensures Accounted(AddedLow(b, x)) && LowOk(AddedLow(b, x)) && |AddedLow(b, x).liveLow| == |b.liveLow| + 1
    ensures AddedLow(b, x).liveLow + b.liveHigh == With(b.liveLow + b.liveHigh, x)
  {
    BelowAddLow(b.low, b.high, x);
    PushedMax(b.low, b.staleLow, x);
    AddLive(b.low, b.liveLow, b.staleLow, x);
  }

  lemma {:induction false} AddHigh(b: Books, x: int)
    requires Accounted(b) && HighOk(b) && AllUpTo(b.low, x)
    ensures Accounted(AddedHigh(b, x)) && HighOk(AddedHigh(b, x)) && |AddedHigh(b, x).liveHigh| == |b.liveHigh| + 1
    ensures b.liveLow + AddedHigh(b, x).liveHigh == With(b.liveLow + b.liveHigh, x)
  {
    BelowAddHigh(b.low, b.high, x);
    PushedMin(b.high, b.staleHigh, x);
    AddLive(b.high, b.liveHigh, b.staleHigh, x);
  }

  function Delayed(delayed: map<int, nat>, x: int): map<int, nat> {
    delayed[x := Delays(delayed, x) + 1]
  }

  function MarkedLow(b: Books, x: int): Books {
    b.(delayed := Delayed(b.delayed, x), liveLow := Less(b.liveLow, x), staleLow := With(b.staleLow, x))
  }

  function MarkedHigh(b: Books, x: int): Books {
    b.(delayed := Delayed(b.delayed, x), liveHigh := Less(b.liveHigh, x), staleHigh := With(b.staleHigh, x))
  }

  /** Marking a copy deleted leaves the top live unless the copy is the top. */
  lemma {:induction false} MarkLow(b: Books, x: int, top: int)
    requires Accounted(b) && LowOk(b) && b.liveLow[x] > 0 && IsMax(b.low, top)
    ensures Accounted(MarkedLow(b, x)) && (x != top ==> LowOk(MarkedLow(b, x)))
    ensures |MarkedLow(b, x).liveLow| == |b.liveLow| - 1
    ensures MarkedLow(b, x).liveLow + b.liveHigh == Less(b.liveLow + b.liveHigh, x)
  {
    TakeLive(b.low, b.liveLow, b.staleLow, x);
    ChargeOne(b.delayed, b.staleLow, b.staleHigh, x);
    if x != top {
      StillLiveMax(b.low, b.staleLow, top, x);
    }
  }

  lemma {:induction false} MarkHigh(b: Books, x: int, top: int)
    requires Accounted(b) && HighOk(b) && b.liveHigh[x] > 0 && IsMin(b.high, top)
    ensures Accounted(MarkedHigh(b, x)) && (x != top ==> HighOk(MarkedHigh(b, x)))
    ensures |MarkedHigh(b, x).liveHigh| == |b.liveHigh| - 1
    ensures b.liveLow + MarkedHigh(b, x).liveHigh == Less(b.liveLow + b.liveHigh, x)
  {
    TakeLive(b.high, b.liveHigh, b.staleHigh, x);
    ChargeOne(b.delayed, b.staleHigh, b.staleLow, x);
    if x != top {
      StillLiveMin(b.high, b.staleHigh, top, x);
    }
  }

  lemma {:induction false} ChargeOne(delayed: map<int, nat>, stale: multiset<int>, other: multiset<int>, x: int)
    requires Charged(delayed, stale, other) || Charged(delayed, other, stale)
    ensures Charged(Delayed(delayed, x), With(stale, x), other) && Charged(Delayed(delayed, x), other, With(stale, x))
  {
    var d := Delayed(delayed, x);
    forall y
      ensures Delays(d, y) == With(stale, x)[y] + other[y]
    {
      assert Delays(d, y) == Delays(delayed, y) + if y == x then 1 else 0;
    }
  }

  /** A live copy of x is in the heap that the comparison with low's top names. */
  lemma {:induction false} WhichHeap(b: Books, x: int, top: int)
    requires Accounted(b) && LowOk(b) && b.liveLow[x] + b.liveHigh[x] > 0 && (|b.low| > 0 ==> IsMax(b.low, top))
    ensures |b.low| > 0 && x <= top ==> b.liveLow[x] > 0
    ensures !(|b.low| > 0 && x <= top) ==> b.liveHigh[x] > 0 && b.high[x] > 0
  {
    if |b.low| > 0 && x <= top {
      if b.liveLow[x] == 0 {
        assert b.high[x] > 0;
        BelowPair(b.low, b.high, top, x);
      }
    } else {
      assert b.low[x] == 0;
    }
  }

  lemma {:induction false} WhereToAdd(b: Books, top: int, x: int)
    requires Accounted(b) && IsMax(b.low, top)
    ensures if x <= top then AllFrom(b.high, x) else AllUpTo(b.low, x)
  {
    if x <= top {
      UnderTop(b.low, b.high, top, x);
    }
  }

  /** With low empty nothing is live in high either, so high is empty too. */
  lemma {:induction false} EmptyLow(b: Books)
    requires Accounted(b) && HighOk(b) && |b.low| == 0 && |b.liveHigh| <= |b.liveLow|
    ensures forall x {:trigger AllFrom(b.high, x)} :: AllFrom(b.high, x)
  {
    NothingHere(b.low, b.liveLow, b.staleLow);
    NothingLive(b.high, b.liveHigh, b.staleHigh);
  }

  // ----- the structure

  class SlidingWindowMedian {
    var low: multiset<int>
    var high: multiset<int>
    var delayed: map<int, nat>
    var lowValid: nat
    var highValid: nat
    // which copies in each heap count, and which wait there to be dropped
    ghost var liveLow: multiset<int>
    ghost var liveHigh: multiset<int>
    ghost var staleLow: multiset<int>
    ghost var staleHigh: multiset<int>

    ghost function Now(): Books
      reads this
    {
      Books(low, high, delayed, liveLow, liveHigh, staleLow, staleHigh)
    }

    ghost function Window(): multiset<int>
      reads this
    {
      liveLow + liveHigh
    }

    ghost predicate Counted()
      reads this
    {
      Accounted(Now()) && lowValid == |liveLow| && highValid == |liveHigh|
    }

    ghost predicate Valid()
      reads this
    {
      Counted() && LowOk(Now()) && HighOk(Now()) && highValid <= lowValid <= highValid + 1
    }

    constructor ()
      ensures Valid() && Window() == multiset{}
    {
      low, high := multiset{}, multiset{};
      delayed := map[];
      lowValid, highValid := 0, 0;
      liveLow, liveHigh, staleLow, staleHigh := multiset{}, multiset{}, multiset{}, multiset{};
    }

    /** pop() of low's top, whose delayed deletion is thereby done. */
    method PopLow(x: int)
      requires Delays(delayed, x) > 0 && x in low
      modifies this`low, this`delayed, this`staleLow
      ensures Now() == DroppedLow(old(Now()), x) && |low| < old(|low|)
    {
      delayed := if delayed[x] - 1 == 0 then delayed - {x} else delayed[x := delayed[x] - 1];
      low := Less(low, x);
      staleLow := Less(staleLow, x);
    }

    method PopHigh(x: int)
      requires Delays(delayed, x) > 0 && x in high
      modifies this`high, this`delayed, this`staleHigh
      ensures Now() == DroppedHigh(old(Now()), x) && |high| < old(|high|)
    {
      delayed := if delayed[x] - 1 == 0 then delayed - {x} else delayed[x := delayed[x] - 1];
      high := Less(high, x);
      staleHigh := Less(staleHigh, x);
    }

    method PruneLow()
      requires Counted() && HighOk(Now())
      modifies this`low, this`delayed, this`staleLow
      ensures Counted() && HighOk(Now()) && LowOk(Now())
    {
      while |low| > 0
        invariant Counted() && HighOk(Now())
        decreases |low|
      {
        var x := TopMax(low);
        DropLow(Now(), x);
        if x in delayed && delayed[x] > 0 {
          PopLow(x);
        } else {
          return;
        }
      }
    }

    method PruneHigh()
      requires Counted() && LowOk(Now())
      modifies this`high, this`delayed, this`staleHigh
      ensures Counted() && LowOk(Now()) && HighOk(Now())
    {
      while |high| > 0
        invariant Counted() && LowOk(Now())
        decreases |high|
      {
        var x := TopMin(high);
        DropHigh(Now(), x);
        if x in delayed && delayed[x] > 0 {
          PopHigh(x);
        } else {
          return;
        }
      }
    }

    /** Low's top x is pushed on high and popped; the reverse; and the counts follow. */
    method ShiftUp(x: int)
      requires lowValid > 0
      modifies this`low, this`high, this`liveLow, this`liveHigh, this`lowValid, this`highValid
      ensures Now() == MovedUp(old(Now()), x)
      ensures lowValid == old(lowValid) - 1 && highValid == old(highValid) + 1
    {
      high, low := With(high, x), Less(low, x);
      liveHigh, liveLow := With(liveHigh, x), Less(liveLow, x);
      lowValid, highValid := lowValid - 1, highValid + 1;
    }

    method ShiftDown(x: int)
      requires highValid > 0
      modifies this`low, this`high, this`liveLow, this`liveHigh, this`lowValid, this`highValid
      ensures Now() == MovedDown(old(Now()), x)
      ensures lowValid == old(lowValid) + 1 && highValid == old(highValid) - 1
    {
      low, high := With(low, x), Less(high, x);
      liveLow, liveHigh := With(liveLow, x), Less(liveHigh, x);
      highValid, lowValid := highValid - 1, lowValid + 1;
    }

    /** With one value too many on one side, that side's top moves over. */
    method Balance()
      requires Counted() && LowOk(Now()) && HighOk(Now())
      requires highValid <= lowValid + 1 && lowValid <= highValid + 2
      modifies this
      ensures Valid() && Window() == old(Window())
    {
      if lowValid > highValid + 1 {
        HasLive(low, liveLow, staleLow);
        var x := TopMax(low);
        MoveUp(Now(), x);
        ShiftUp(x);
        PruneLow();
      } else if highValid > lowValid {
        HasLive(high, liveHigh, staleHigh);
        var x := TopMin(high);
        MoveDown(Now(), x);
        ShiftDown(x);
        PruneHigh();
      }
    }

    method PushLow(x: int)
      modifies this`low, this`liveLow, this`lowValid
      ensures Now() == AddedLow(old(Now()), x) && lowValid == old(lowValid) + 1
    {
      low := With(low, x);
      liveLow := With(liveLow, x);
      lowValid := lowValid + 1;
    }

    method PushHigh(x: int)
      modifies this`high, this`liveHigh, this`highValid
      ensures Now() == AddedHigh(old(Now()), x) && highValid == old(highValid) + 1
    {
      high := With(high, x);
      liveHigh := With(liveHigh, x);
      highValid := highValid + 1;
    }

    method Add(x: int)
      requires Valid()
      modifies this
      ensures Valid() && Window() == With(old(Window()), x)
    {
      var toLow := true;
      if |low| > 0 {
        var top := TopMax(low);
        toLow := x <= top;
        WhereToAdd(Now(), top, x);
      } else {
        EmptyLow(Now());
      }
      if toLow {
        AddLow(Now(), x);
        PushLow(x);
      } else {
        AddHigh(Now(), x);
        PushHigh(x);
      }
      Balance();
    }

    /** ++delayed_[x], and one valid copy fewer in low, or in high. */
    method DelayLow(x: int)
      requires lowValid > 0
      modifies this`delayed, this`liveLow, this`staleLow, this`lowValid
      ensures Now() == MarkedLow(old(Now()), x) && lowValid == old(lowValid) - 1
    {
      delayed := Delayed(delayed, x);
      liveLow := Less(liveLow, x);
      staleLow := With(staleLow, x);
      lowValid := lowValid - 1;
    }

    method DelayHigh(x: int)
      requires highValid > 0
      modifies this`delayed, this`liveHigh, this`staleHigh, this`highValid
      ensures Now() == MarkedHigh(old(Now()), x) && highValid == old(highValid) - 1
    {
      delayed := Delayed(delayed, x);
      liveHigh := Less(liveHigh, x);
      staleHigh := With(staleHigh, x);
      highValid := highValid - 1;
    }

    /** Removes a value that is in the window. */
    method Remove(x: int)
      requires Valid() && liveLow[x] + liveHigh[x] > 0
      modifies this
      ensures Valid() && Window() == Less(old(Window()), x)
    {
      var fromLow := false;
      var top := 0;
      if |low| > 0 {
        top := TopMax(low);
        fromLow := x <= top;
      }
      WhichHeap(Now(), x, top);
      if fromLow {
        MarkLow(Now(), x, top);
        DelayLow(x);
        if x == top {
          PruneLow();
        }
      } else {
        NotEmpty(high, x);
        var first := TopMin(high);
        MarkHigh(Now(), x, first);
        DelayHigh(x);
        if |high| > 0 && x == first {
          PruneHigh();
        }
      }
      Balance();
    }

    /** The caller must not ask for the median of an empty window. */
    method FindMedian() returns (m: real)
      requires Valid() && |Window()| > 0
      modifies this
      ensures Valid() && Window() == old(Window()) && IsMedian(Window(), m)
    {
      PruneLow();
      PruneHigh();
      assert |Window()| == |liveLow| + |liveHigh|;
      HasLive(low, liveLow, staleLow);
      var x := TopMax(low);
      BelowLess(low, high, liveLow, liveHigh);
      LiveTop(low, liveLow, staleLow, x);
      if lowValid > highValid {
        m := x as real;
        OddMedian(liveLow, liveHigh, x);
      } else {
        HasLive(high, liveHigh, staleHigh);
        var y := TopMin(high);
        LiveFirst(high, liveHigh, staleHigh, y);
        m := (x as real + y as real) / 2.0;
        EvenMedian(liveLow, liveHigh, x, y);
      }
    }
  }
}
