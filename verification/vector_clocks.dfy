/**
 Vector clocks, and why comparing two of them decides which event happened before the other.
 */
module VectorClocks {

  type NodeId = string

  type Clock = map<NodeId, nat>

  datatype CausalityOrder = BEFORE | AFTER | EQUAL | CONCURRENT

  function Get(c: Clock, n: NodeId): nat {
    if n in c then c[n] else 0
  }

  function Max(x: nat, y: nat): nat {
    if x >= y then x else y
  }

  function Ticked(c: Clock, n: NodeId): Clock {
    c[n := Get(c, n) + 1]
  }

  function Merged(c: Clock, d: Clock): Clock {
    map n | n in c.Keys + d.Keys :: Max(Get(c, n), Get(d, n))
  }

  ghost predicate Leq(c: Clock, d: Clock) {
    forall n {:trigger Get(c, n)} {:trigger Get(d, n)} :: Get(c, n) <= Get(d, n)
  }

  ghost function Compared(c: Clock, d: Clock): CausalityOrder {
    if !Leq(c, d) && !Leq(d, c) then CONCURRENT
    else if !Leq(c, d) then AFTER
    else if !Leq(d, c) then BEFORE
    else EQUAL
  }

  class VectorClock {
    var clock: Clock

    constructor ()
      ensures clock == map[]
    {
      clock := map[];
    }

    method Tick(n: NodeId)
      modifies this
      ensures clock == Ticked(old(clock), n)
    {
      clock := clock[n := (if n in clock then clock[n] else 0) + 1];
    }

    method Merge(other: VectorClock)
      modifies this
      ensures clock == Merged(old(clock), old(other.clock))
      ensures forall n :: Get(clock, n) == Max(Get(old(clock), n), Get(old(other.clock), n))
    {
      var theirs := other.clock;
      var left := theirs.Keys;
      while left != {}
        invariant left <= theirs.Keys
        invariant clock.Keys == old(clock).Keys + (theirs.Keys - left)
        invariant forall n {:trigger Get(clock, n)} ::
                  Get(clock, n) == if n in left then Get(old(clock), n) else Max(Get(old(clock), n), Get(theirs, n))
        decreases left
      {
        var n :| n in left;
        ghost var before := clock;
        clock := clock[n := Max(Get(clock, n), theirs[n])];
        left := left - {n};
        assert forall k :: k != n ==> Get(clock, k) == Get(before, k);
      }
      forall n | n in clock
        ensures n in Merged(old(clock), theirs) && clock[n] == Merged(old(clock), theirs)[n]
      {
        assert Get(clock, n) == Max(Get(old(clock), n), Get(theirs, n));
      }
      assert clock == Merged(old(clock), theirs);
    }

    method Compare(other: VectorClock) returns (order: CausalityOrder)
      ensures order == Compared(clock, other.clock)
    {
      var thisGreater, otherGreater := false, false;
      var all := clock.Keys + other.clock.Keys;
      var left := all;
      while left != {}
        invariant left <= all
        invariant thisGreater <==> exists n :: n in all - left && Get(clock, n) > Get(other.clock, n)
        invariant otherGreater <==> exists n :: n in all - left && Get(clock, n) < Get(other.clock, n)
        decreases left
      {
        var n :| n in left;
        var v1, v2 := Get(clock, n), Get(other.clock, n);
        if v1 > v2 { thisGreater := true; }
        if v2 > v1 { otherGreater := true; }
        ghost var before := left;
        left := left - {n};
        assert all - left == (all - before) + {n};
      }
      FlagsDecide(clock, other.clock, all, thisGreater, otherGreater);
      if thisGreater && otherGreater { return CONCURRENT; }
      if thisGreater { return AFTER; }
      if otherGreater { return BEFORE; }
      return EQUAL;
    }
  }

  lemma {:induction false} FlagsDecide(c: Clock, d: Clock, all: set<NodeId>, cGreater: bool, dGreater: bool)
    requires all == c.Keys + d.Keys
    requires cGreater <==> exists n :: n in all - {} && Get(c, n) > Get(d, n)
    requires dGreater <==> exists n :: n in all - {} && Get(c, n) < Get(d, n)
    ensures cGreater <==> !Leq(c, d)
    ensures dGreater <==> !Leq(d, c)
  {
    if !Leq(c, d) {
      var n :| Get(c, n) > Get(d, n);
      assert n in all - {};
    }
    if !Leq(d, c) {
      var n :| Get(d, n) > Get(c, n);
      assert n in all - {};
    }
  }

  // ----- runs

  /** An event on a node; `from` is the event that sent the message received, or -1 if none is. */
  datatype Event = Event(node: NodeId, from: int)

  ghost predicate Run(run: seq<Event>) {
    forall k {:trigger run[k]} :: 0 <= k < |run| ==> -1 <= run[k].from < k
  }

  /** The clock a node holds after the first k events. */
  function StateAfter(run: seq<Event>, k: nat, n: NodeId): Clock
    requires Run(run) && k <= |run|
    decreases k, 0
  {
    if k == 0 then map[]
    else if run[k - 1].node == n then Stamp(run, k - 1)
    else StateAfter(run, k - 1, n)
  }

  /** The clock of event k: its node's clock, merged with the message's if one is received, then
      ticked. */
  function Stamp(run: seq<Event>, k: nat): Clock
    requires Run(run) && k < |run|
    decreases k, 2
  {
    Ticked(Heard(run, k), run[k].node)
  }

  function Heard(run: seq<Event>, k: nat): Clock
    requires Run(run) && k < |run|
    decreases k, 1
  {
    if run[k].from == -1 then StateAfter(run, k, run[k].node)
    else Merged(StateAfter(run, k, run[k].node), Stamp(run, run[k].from))
  }

  /** Same node and earlier, or sender and receiver. */
  predicate Direct(run: seq<Event>, a: int, b: int) {
    0 <= a < b < |run| && (run[a].node == run[b].node || run[b].from == a)
  }

  ghost predicate Path(run: seq<Event>, p: seq<int>, a: int, b: int) {
    && |p| >= 2 && p[0] == a && p[|p| - 1] == b
    && forall i {:trigger p[i]} :: 0 < i < |p| ==> Direct(run, p[i - 1], p[i])
  }

  /** The happened-before relation: the transitive closure of the direct one. */
  ghost predicate HappenedBefore(run: seq<Event>, a: int, b: int) {
    exists p :: Path(run, p, a, b)
  }

  lemma {:induction false} DirectHappened(run: seq<Event>, a: int, b: int)
    requires Direct(run, a, b)
    ensures HappenedBefore(run, a, b)
  {
    assert Path(run, [a, b], a, b);
  }

  lemma {:induction false} HappenedThenDirect(run: seq<Event>, a: int, b: int, c: int)
    requires (a == b || HappenedBefore(run, a, b)) && Direct(run, b, c)
    ensures HappenedBefore(run, a, c)
  {
    if a == b {
      DirectHappened(run, b, c);
    } else {
      var p :| Path(run, p, a, b);
      assert Path(run, p + [c], a, c);
    }
  }

  /** The last step of a path. */
  lemma {:induction false} LastStep(run: seq<Event>, a: int, b: int) returns (d: int)
    requires HappenedBefore(run, a, b)
    ensures Direct(run, d, b) && (a == d || HappenedBefore(run, a, d))
  {
    var p :| Path(run, p, a, b);
    d := p[|p| - 2];
    assert Direct(run, p[|p| - 2], p[|p| - 1]);
    if |p| > 2 {
      assert Path(run, p[..|p| - 1], a, d);
    }
  }

  lemma {:induction false} HappenedEarlier(run: seq<Event>, a: int, b: int)
    requires HappenedBefore(run, a, b)
    ensures 0 <= a < b < |run|
    decreases b
  {
    var d := LastStep(run, a, b);
    if a != d {
      HappenedEarlier(run, a, d);
    }
  }

  // ----- what the clocks count

  function Count(run: seq<Event>, n: NodeId, k: nat): nat
    requires k <= |run|
  {
    if k == 0 then 0 else Count(run, n, k - 1) + if run[k - 1].node == n then 1 else 0
  }

  lemma {:induction false} CountGrows(run: seq<Event>, n: NodeId, j: nat, k: nat)
    requires j <= k <= |run|
    ensures Count(run, n, j) <= Count(run, n, k)
    ensures j < k && run[j].node == n ==> Count(run, n, j) < Count(run, n, k)
    decreases k
  {
    if j < k {
      CountGrows(run, n, j, k - 1);
    }
  }

  /** No clock is ahead of what has happened, and a node's own entry is exact. */
  lemma {:induction false} StampBound(run: seq<Event>, k: nat, n: NodeId)
    requires Run(run) && k < |run|
    ensures Get(Stamp(run, k), n) <= Count(run, n, k + 1)
    ensures n == run[k].node ==> Get(Stamp(run, k), n) == Count(run, n, k + 1)
    decreases k, 1
  {
    StateBound(run, k, run[k].node, n);
    if run[k].from != -1 {
      StampBound(run, run[k].from, n);
      CountGrows(run, n, run[k].from + 1, k);
    }
  }

  lemma {:induction false} StateBound(run: seq<Event>, k: nat, m: NodeId, n: NodeId)
    requires Run(run) && k <= |run|
    ensures Get(StateAfter(run, k, m), n) <= Count(run, n, k)
    ensures n == m ==> Get(StateAfter(run, k, m), n) == Count(run, n, k)
    decreases k, 0
  {
    if k == 0 {
    } else if run[k - 1].node == m {
      StampBound(run, k - 1, n);
    } else {
      StateBound(run, k - 1, m, n);
    }
  }

  /** Later events of a node know no less. */
  lemma {:induction false} StateGrows(run: seq<Event>, d: nat, k: nat, n: NodeId)
    requires Run(run) && d < k <= |run|
    ensures Get(Stamp(run, d), n) <= Get(StateAfter(run, k, run[d].node), n)
    decreases k
  {
    if d < k - 1 {
      StateGrows(run, d, k - 1, n);
      if run[k - 1].node == run[d].node {
        assert Get(Heard(run, k - 1), n) <= Get(Stamp(run, k - 1), n);
      }
    }
  }

  lemma {:induction false} DirectGrows(run: seq<Event>, d: int, b: int, n: NodeId)
    requires Run(run) && Direct(run, d, b)
    ensures Get(Stamp(run, d), n) <= Get(Stamp(run, b), n)
  {
    if run[d].node == run[b].node {
      StateGrows(run, d, b, n);
    }
  }

  /** What a node knows it learnt from one of its own earlier events. */
  lemma {:induction false} StateSource(run: seq<Event>, k: nat, m: NodeId) returns (d: int)
    requires Run(run) && k <= |run| && StateAfter(run, k, m) != map[]
    ensures 0 <= d < k && run[d].node == m && StateAfter(run, k, m) == Stamp(run, d)
    decreases k
  {
    if run[k - 1].node == m {
      d := k - 1;
    } else {
      d := StateSource(run, k - 1, m);
    }
  }

  /** An entry of b's clock that counts a's event: a happened before b, or is b. */
  lemma {:induction false} CountedHappened(run: seq<Event>, a: int, b: int)
    requires Run(run) && 0 <= a < |run| && 0 <= b < |run|
    requires Get(Stamp(run, b), run[a].node) >= Count(run, run[a].node, a + 1)
    ensures a == b || HappenedBefore(run, a, b)
    decreases b
  {
    var n := run[a].node;
    if n == run[b].node {
      StampBound(run, b, n);
      if a < b {
        DirectHappened(run, a, b);
      } else if b < a {
        CountGrows(run, n, b + 1, a);
      }
    } else {
      var own := StateAfter(run, b, run[b].node);
      if Get(own, n) >= Count(run, n, a + 1) {
        var d := StateSource(run, b, run[b].node);
        CountedHappened(run, a, d);
        HappenedThenDirect(run, a, d, b);
      } else {
        CountedHappened(run, a, run[b].from);
        HappenedThenDirect(run, a, run[b].from, b);
      }
    }
  }

  lemma {:induction false} HappenedLeq(run: seq<Event>, a: int, b: int, n: NodeId)
    requires Run(run) && HappenedBefore(run, a, b)
    ensures 0 <= a < b < |run| && Get(Stamp(run, a), n) <= Get(Stamp(run, b), n)
    decreases b
  {
    HappenedEarlier(run, a, b);
    var d := LastStep(run, a, b);
    DirectGrows(run, d, b, n);
    if a != d {
      HappenedLeq(run, a, d, n);
    }
  }

  lemma {:induction false} LeqIffHappened(run: seq<Event>, a: int, b: int)
    requires Run(run) && 0 <= a < |run| && 0 <= b < |run|
    ensures Leq(Stamp(run, a), Stamp(run, b)) <==> a == b || HappenedBefore(run, a, b)
  {
    if HappenedBefore(run, a, b) {
      forall n
        ensures Get(Stamp(run, a), n) <= Get(Stamp(run, b), n)
      {
        HappenedLeq(run, a, b, n);
      }
    }
    if Leq(Stamp(run, a), Stamp(run, b)) {
      StampBound(run, a, run[a].node);
      assert Get(Stamp(run, a), run[a].node) <= Get(Stamp(run, b), run[a].node);
      CountedHappened(run, a, b);
    }
  }

  /** The order that compare reports is the order in which things happened. */
  lemma {:induction false} CompareIsCausality(run: seq<Event>, a: int, b: int)
    requires Run(run) && 0 <= a < |run| && 0 <= b < |run|
    ensures var order := Compared(Stamp(run, a), Stamp(run, b));
            && (order == BEFORE <==> HappenedBefore(run, a, b))
            && (order == AFTER <==> HappenedBefore(run, b, a))
            && (order == EQUAL <==> a == b)
            && (order == CONCURRENT <==> a != b && !HappenedBefore(run, a, b) && !HappenedBefore(run, b, a))
  {
    LeqIffHappened(run, a, b);
    LeqIffHappened(run, b, a);
    if HappenedBefore(run, a, b) {
      HappenedEarlier(run, a, b);
    }
    if HappenedBefore(run, b, a) {
      HappenedEarlier(run, b, a);
    }
  }
}
