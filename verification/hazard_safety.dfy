/**
 Memory safety of the hazard-pointer stack: an invariant that every step keeps, from which
 no dereference and no delete ever meets an address that is not allocated, and no
 compare-and-swap of a pop is fooled by a reused address.
 */
module HazardSafety {
  import opened HazardMachine

  ghost predicate NoDup(q: seq<Addr>) {
    forall i, j :: 0 <= i < j < |q| ==> Differ(q, i, j)
  }

  predicate Differ(q: seq<Addr>, i: int, j: int)
    requires 0 <= i < j < |q|
  {
    q[i] != q[j]
  }

  lemma {:induction false} NoDupAppend(q: seq<Addr>, a: Addr)
    requires a !in q
    ensures NoDup(q + [a]) <==> NoDup(q)
    ensures forall b :: b in q + [a] <==> b in q || b == a
  {
    var q' := q + [a];
    assert q'[|q|] == a;
    if NoDup(q') {
      forall i, j | 0 <= i < j < |q|
        ensures Differ(q, i, j)
      {
        assert Differ(q', i, j);
      }
    }
    if NoDup(q) {
      forall i, j | 0 <= i < j < |q'|
        ensures Differ(q', i, j)
      {
        assert j < |q| ==> Differ(q, i, j);
      }
    }
  }

  lemma {:induction false} NoDupRemove(front: seq<Addr>, a: Addr, back: seq<Addr>)
    requires NoDup(front + [a] + back)
    ensures NoDup(front + back)
    ensures a in front + [a] + back
    ensures forall b :: b in front + back <==> b in front + [a] + back && b != a
  {
    var q := front + [a] + back;
    var q' := front + back;
    var n := |front|;
    assert q[n] == a;
    forall i, j | 0 <= i < j < |q'|
      ensures Differ(q', i, j)
    {
      assert Differ(q, if i < n then i else i + 1, if j < n then j else j + 1);
    }
    forall i | 0 <= i < |q| && i != n
      ensures q[i] in q' && q[i] != a
    {
      assert q[i] == if i < n then q'[i] else q'[i - 1];
      assert if i < n then Differ(q, i, n) else Differ(q, n, i);
    }
    forall i | 0 <= i < |q'|
      ensures q'[i] in q && q'[i] != a
    {
      assert q'[i] == if i < n then q[i] else q[i + 1];
    }
  }

  lemma {:induction false} NoDupLast(q: seq<Addr>, a: Addr)
    requires NoDup(q + [a])
    ensures NoDup(q)
    ensures forall b :: b in q <==> b in q + [a] && b != a
  {
    assert q + [a] == q + [a] + [] && q == q + [];
    NoDupRemove(q, a, []);
  }

  lemma {:induction false} NoDupPrepend(a: Addr, q: seq<Addr>)
    requires a !in q && NoDup(q)
    ensures NoDup([a] + q)
  {
    forall i, j | 0 <= i < j < |[a] + q|
      ensures Differ([a] + q, i, j)
    {
      assert i > 0 ==> Differ(q, i - 1, j - 1);
    }
  }

  lemma {:induction false} TailMembers(q: seq<Addr>)
    requires NoDup(q) && q != []
    ensures NoDup(q[1..])
    ensures forall b :: b in q[1..] <==> b in q && b != q[0]
  {
    assert q == [] + [q[0]] + q[1..];
    assert q[1..] == [] + q[1..];
    NoDupRemove([], q[0], q[1..]);
  }

  /** The addresses only this thread may free or publish. */
  function Owned(l: Local): seq<Addr> {
    match l.pc
    case PushLoad(a) => l.retired + [a]
    case PushCas(a) => l.retired + [a]
    case ClearDone(h, _) => l.retired + [h]
    case ReadData(h, _) => l.retired + [h]
    case Retire(h, _, _) => l.retired + [h]
    case Reclaim(k, _, rem, _, _) => if k <= |l.retired| then rem + l.retired[k..] else []
    case _ => l.retired
  }

  predicate NeedsId(pc: Pc) {
    !pc.Idle? && !pc.PushLoad? && !pc.PushCas? && !pc.PopLoad? && !pc.Acquire? && !pc.Stuck?
  }

  ghost predicate Ids(s: State) {
    && |s.records| == MAX_THREADS
    && (forall r :: 0 <= r < MAX_THREADS ==> |s.records[r].slots| == SLOTS_PER_THREAD)
    && (forall t :: 0 <= t < |s.threads| ==> IdOk(s, s.threads[t]))
    && (forall t, u :: 0 <= t < u < |s.threads| && s.threads[t].myId < MAX_THREADS
          ==> s.threads[t].myId != s.threads[u].myId)
  }

  ghost predicate IdOk(s: State, l: Local)
    requires |s.records| == MAX_THREADS
  {
    && l.myId <= MAX_THREADS
    && (l.myId < MAX_THREADS ==> s.records[l.myId].inUse)
    && (NeedsId(l.pc) ==> l.myId < MAX_THREADS)
    && (l.pc.Acquire? ==> l.myId == MAX_THREADS)
  }

  function HeadOf(spine: seq<Addr>): Addr {
    if spine == [] then NULL else spine[0]
  }

  function After(spine: seq<Addr>, i: int): Addr {
    if 0 <= i && i + 1 < |spine| then spine[i + 1] else NULL
  }

  /** `spine` is the list that starts at `head` and follows `next`. */
  ghost predicate SpineOk(s: State) {
    && s.head == HeadOf(s.spine)
    && NoDup(s.spine)
    && (forall i :: 0 <= i < |s.spine| ==> Linked(s.heap, s.spine, i))
  }

  ghost predicate Linked(heap: map<Addr, Node>, spine: seq<Addr>, i: int) {
    0 <= i < |spine| && spine[i] in heap && heap[spine[i]].next == After(spine, i)
  }

  ghost predicate HasThread(s: State, a: Addr, t: nat) {
    t < |s.threads| && a in Owned(s.threads[t])
  }

  /** The recorded owner of an address does hold it. */
  ghost predicate Accounted(s: State, a: Addr) {
    a in s.owner ==>
      match s.owner[a]
      case Stack => a in s.spine
      case Of(t) => HasThread(s, a, t)
  }

  ghost predicate OwnsOnce(l: Local) {
    NoDup(Owned(l))
  }

  /** Every allocated address is on the stack or with exactly one thread, never both. */
  ghost predicate Owners(s: State) {
    && s.owner.Keys == s.heap.Keys
    && NULL !in s.heap
    && (forall a :: a in s.spine ==> a in s.owner && s.owner[a] == Stack)
    && (forall a :: Accounted(s, a))
    && (forall t, a :: HasThread(s, a, t) ==> a in s.owner && s.owner[a] == Of(t))
    && (forall t :: 0 <= t < |s.threads| ==> OwnsOnce(s.threads[t]))
  }

  predicate Validated(pc: Pc) {
    pc.ReadNext? || pc.PopCas?
  }

  ghost predicate Pushing(l: Local, a: Addr) {
    (l.pc.PushLoad? || l.pc.PushCas?) && l.pc.node == a
  }

  predicate Shows(s: State, l: Local, h: Addr)
    requires |s.records| == MAX_THREADS
  {
    l.myId < MAX_THREADS && |s.records[l.myId].slots| > 0 && s.records[l.myId].slots[0] == h
  }

  /** What a validated pop may rely on: its node is allocated, is the one it validated, and
      its slot shows the node. */
  ghost predicate Holds(s: State, l: Local)
    requires |s.records| == MAX_THREADS
  {
    && (l.pc.Acquire? || l.pc.Publish? ==> l.pc.h != NULL)
    && (l.pc.Validate? ==> l.pc.h != NULL && Shows(s, l, l.pc.h))
    && (Validated(l.pc) ==>
      && Shows(s, l, l.pc.h)
      && l.pc.h in s.heap
      && s.heap[l.pc.h].birth == l.pc.birth
      && (l.pc.PopCas? ==> l.pc.next == s.heap[l.pc.h].next))
  }

  ghost predicate AllHold(s: State)
    requires |s.records| == MAX_THREADS
  {
    forall t :: 0 <= t < |s.threads| ==> Holds(s, s.threads[t])
  }

  /** No push is still writing to a node that a pop has validated. */
  ghost predicate Settled(s: State) {
    forall t, u :: 0 <= t < |s.threads| && 0 <= u < |s.threads| && Validated(s.threads[t].pc)
      ==> !Pushing(s.threads[u], s.threads[t].pc.h)
  }

  /** A scan that could still free the address `h` has not yet passed record `r`'s slot 0, or
      it has seen `h`. */
  ghost predicate Covered(l: Local, h: Addr, r: nat) {
    h in l.retired ==>
      match l.pc
      case ScanInUse(i, hz, _, _) => i > r ==> h in hz
      case ScanSlot(i, j, hz, _, _) => i > r || (i == r && j > 0) ==> h in hz
      case Reclaim(k, hz, _, _, _) => (forall m :: k <= m < |l.retired| && l.retired[m] == h ==> h in hz)
      case _ => true
  }

  ghost predicate Protected(s: State) {
    forall t, u :: 0 <= t < |s.threads| && 0 <= u < |s.threads| && Validated(s.threads[t].pc)
      ==> Covered(s.threads[u], s.threads[t].pc.h, s.threads[t].myId)
  }

  /** The size of what a scan has collected and of what it leaves behind. */
  ghost predicate Bounded(l: Local) {
    match l.pc
    case ScanInUse(i, hz, _, _) =>
      i <= MAX_THREADS && |hz| <= SLOTS_PER_THREAD * i && |l.retired| <= MAX_THREADS * SLOTS_PER_THREAD + 1
    case ScanSlot(i, j, hz, _, _) =>
      i < MAX_THREADS && j < SLOTS_PER_THREAD && |hz| <= SLOTS_PER_THREAD * i + j
      && |l.retired| <= MAX_THREADS * SLOTS_PER_THREAD + 1
    case Reclaim(k, hz, rem, _, _) =>
      k <= |l.retired| && |hz| <= MAX_THREADS * SLOTS_PER_THREAD
      && |l.retired| <= MAX_THREADS * SLOTS_PER_THREAD + 1
      && (forall m :: 0 <= m < |rem| ==> rem[m] in hz)
    case _ => |l.retired| <= MAX_THREADS * SLOTS_PER_THREAD
  }

  ghost predicate Counts(s: State) {
    && s.allocCount == s.freeCount + |s.heap|
    && (forall a :: a in s.heap ==> s.heap[a].birth < s.births)
  }

  ghost predicate Safe(s: State) {
    && !s.fault
    && Ids(s)
    && SpineOk(s)
    && Owners(s)
    && AllHold(s)
    && Settled(s)
    && Protected(s)
    && (forall t :: 0 <= t < |s.threads| ==> Bounded(s.threads[t]))
    && Counts(s)
  }

  lemma {:induction false} InitSafe(n: nat)
    ensures Safe(Init(n))
  {
  }

  lemma {:induction false} SpineFrame(s: State, s': State)
    requires SpineOk(s) && s'.spine == s.spine && s'.head == s.head
    requires forall a :: a in s.spine && a in s.heap ==> a in s'.heap && s'.heap[a] == s.heap[a]
    ensures SpineOk(s')
  {
    forall i | 0 <= i < |s'.spine|
      ensures Linked(s'.heap, s'.spine, i)
    {
      assert Linked(s.heap, s.spine, i);
    }
  }

  // ----- framing: what a step must show when only thread `t` moved

  ghost predicate OthersSame(s: State, s': State, t: nat) {
    && t < |s.threads| == |s'.threads|
    && (forall u :: 0 <= u < |s.threads| && u != t ==> s'.threads[u] == s.threads[u])
  }

  lemma {:induction false} OwnersFrame(s: State, s': State, t: nat)
    requires Owners(s) && OthersSame(s, s', t)
    requires s'.owner.Keys == s'.heap.Keys && NULL !in s'.heap
    requires forall a :: a in s'.spine ==> a in s'.owner && s'.owner[a] == Stack
    requires forall a :: Accounted(s', a)
    requires forall a :: a in s.owner && s.owner[a].Of? && s.owner[a].thread != t
               ==> a in s'.owner && s'.owner[a] == s.owner[a]
    requires forall a :: a in Owned(s'.threads[t]) ==> a in s'.owner && s'.owner[a] == Of(t)
    requires OwnsOnce(s'.threads[t])
    ensures Owners(s')
  {
    forall u, a | HasThread(s', a, u)
      ensures a in s'.owner && s'.owner[a] == Of(u)
    {
      if u != t {
        assert HasThread(s, a, u);
      }
    }
  }

  /** Nothing changes but thread `t`'s own variables, its record and the history. */
  ghost predicate SharedSame(s: State, s': State, t: nat) {
    && OthersSame(s, s', t)
    && s'.heap == s.heap && s'.head == s.head && s'.spine == s.spine && s'.owner == s.owner
    && s'.allocCount == s.allocCount && s'.freeCount == s.freeCount && s'.births == s.births
    && s'.fault == s.fault
  }

  lemma {:induction false} HoldsFrame(s: State, s': State, t: nat)
    requires Ids(s) && Ids(s') && AllHold(s) && OthersSame(s, s', t)
    requires forall r :: 0 <= r < MAX_THREADS && r != s.threads[t].myId ==> s'.records[r].slots == s.records[r].slots
    requires forall u :: 0 <= u < |s.threads| && u != t && Validated(s.threads[u].pc)
               ==> s.threads[u].pc.h in s'.heap && s'.heap[s.threads[u].pc.h] == s.heap[s.threads[u].pc.h]
    requires Holds(s', s'.threads[t])
    ensures AllHold(s')
  {
    forall u | 0 <= u < |s.threads|
      ensures Holds(s', s'.threads[u])
    {
      if u != t {
        assert Holds(s, s.threads[u]);
        assert u < t ==> s.threads[u].myId < MAX_THREADS ==> s.threads[u].myId != s.threads[t].myId;
        assert t < u ==> s.threads[t].myId < MAX_THREADS ==> s.threads[u].myId != s.threads[t].myId;
      }
    }
  }

  lemma {:induction false} SettledFrame(s: State, s': State, t: nat)
    requires Settled(s) && OthersSame(s, s', t)
    requires Validated(s'.threads[t].pc) ==> forall u ::
              0 <= u < |s.threads| && u != t ==> !Pushing(s.threads[u], s'.threads[t].pc.h)
    requires forall u :: 0 <= u < |s.threads| && u != t && Validated(s.threads[u].pc) ==>
              !Pushing(s'.threads[t], s.threads[u].pc.h)
    ensures Settled(s')
  {
  }

  lemma {:induction false} ProtectedFrame(s: State, s': State, t: nat)
    requires Protected(s) && OthersSame(s, s', t)
    requires forall u :: 0 <= u < |s.threads| && u != t && Validated(s.threads[u].pc)
               ==> Covered(s'.threads[t], s.threads[u].pc.h, s.threads[u].myId)
    requires Validated(s'.threads[t].pc) ==>
               forall u ::
                   0 <= u < |s.threads| && u != t ==> Covered(s.threads[u], s'.threads[t].pc.h, s'.threads[t].myId)
    ensures Protected(s')
  {
    forall u, w | 0 <= u < |s.threads| && 0 <= w < |s.threads| && Validated(s'.threads[u].pc)
      ensures Covered(s'.threads[w], s'.threads[u].pc.h, s'.threads[u].myId)
    {
      if w != t && u != t {
        assert Covered(s.threads[w], s.threads[u].pc.h, s.threads[u].myId);
      }
    }
  }

  /** The common case: the step changes only thread `t`'s own variables, its hazard slot and
      the history, and keeps what the thread owns. */
  lemma {:induction false} LocalStep(s: State, s': State, t: nat)
    requires Safe(s) && SharedSame(s, s', t)
    requires Ids(s')
    requires forall r :: 0 <= r < MAX_THREADS && r != s.threads[t].myId ==> s'.records[r].slots == s.records[r].slots
    requires Owned(s'.threads[t]) == Owned(s.threads[t])
    requires Bounded(s'.threads[t])
    requires |s'.records| == MAX_THREADS && Holds(s', s'.threads[t])
    requires !s'.threads[t].pc.PushLoad? && !s'.threads[t].pc.PushCas?
    requires forall u :: 0 <= u < |s.threads| && u != t && Validated(s.threads[u].pc)
               ==> Covered(s'.threads[t], s.threads[u].pc.h, s.threads[u].myId)
    requires Validated(s'.threads[t].pc) ==>
               forall u :: 0 <= u < |s.threads| && u != t ==>
                 Covered(s.threads[u], s'.threads[t].pc.h, s'.threads[t].myId)
                 && !Pushing(s.threads[u], s'.threads[t].pc.h)
    ensures Safe(s')
  {
    LocalOwners(s, s', t);
    LocalHolds(s, s', t);
    SettledFrame(s, s', t);
    ProtectedFrame(s, s', t);
  }

  lemma {:induction false} IdsFrame(s: State, s': State, t: nat)
    requires Ids(s) && OthersSame(s, s', t)
    requires s'.records == s.records && s'.threads[t].myId == s.threads[t].myId
    requires IdOk(s', s'.threads[t])
    ensures Ids(s')
  {
    forall u | 0 <= u < |s.threads|
      ensures IdOk(s', s'.threads[u]) && s'.threads[u].myId == s.threads[u].myId
    {
      assert IdOk(s, s.threads[u]);
    }
  }

  /** As LocalStep, for a step that leaves all the records alone. */
  lemma {:induction false} PcStep(s: State, s': State, t: nat)
    requires Safe(s) && SharedSame(s, s', t)
    requires s'.records == s.records && s'.threads[t].myId == s.threads[t].myId
    requires IdOk(s', s'.threads[t])
    requires Owned(s'.threads[t]) == Owned(s.threads[t])
    requires Bounded(s'.threads[t])
    requires |s'.records| == MAX_THREADS && Holds(s', s'.threads[t])
    requires !s'.threads[t].pc.PushLoad? && !s'.threads[t].pc.PushCas?
    requires forall u :: 0 <= u < |s.threads| && u != t && Validated(s.threads[u].pc)
               ==> Covered(s'.threads[t], s.threads[u].pc.h, s.threads[u].myId)
    requires Validated(s'.threads[t].pc) ==>
               forall u :: 0 <= u < |s.threads| && u != t ==>
                 Covered(s.threads[u], s'.threads[t].pc.h, s'.threads[t].myId)
                 && !Pushing(s.threads[u], s'.threads[t].pc.h)
    ensures Safe(s')
  {
    IdsFrame(s, s', t);
    LocalStep(s, s', t);
  }

  lemma {:induction false} LocalOwners(s: State, s': State, t: nat)
    requires Owners(s) && SharedSame(s, s', t)
    requires Owned(s'.threads[t]) == Owned(s.threads[t])
    ensures Owners(s')
  {
    assert forall a :: a in Owned(s.threads[t]) ==> HasThread(s, a, t);
    assert OwnsOnce(s.threads[t]);
    forall a: Addr
      ensures Accounted(s', a)
    {
      assert Accounted(s, a);
    }
    OwnersFrame(s, s', t);
  }

  lemma {:induction false} LocalHolds(s: State, s': State, t: nat)
    requires Ids(s) && Ids(s') && AllHold(s) && SharedSame(s, s', t)
    requires forall r :: 0 <= r < MAX_THREADS && r != s.threads[t].myId ==> s'.records[r].slots == s.records[r].slots
    requires Holds(s', s'.threads[t])
    ensures AllHold(s')
  {
    forall u | 0 <= u < |s.threads| && u != t && Validated(s.threads[u].pc)
      ensures s.threads[u].pc.h in s'.heap && s'.heap[s.threads[u].pc.h] == s.heap[s.threads[u].pc.h]
    {
      assert Holds(s, s.threads[u]);
    }
    HoldsFrame(s, s', t);
  }

  // ----- push

  predicate NamesHead(pc: Pc) {
    Validated(pc) || pc.Validate? || pc.Acquire? || pc.Publish?
  }

  /** Frames for a step that changes the heap, given the effect on the owners. */
  lemma {:induction false} HeapStep(s: State, s': State, t: nat)
    requires Safe(s) && OthersSame(s, s', t) && Owners(s') && SpineOk(s') && Counts(s') && !s'.fault
    requires s'.records == s.records && s'.threads[t].myId == s.threads[t].myId
    requires IdOk(s', s'.threads[t])
    requires Bounded(s'.threads[t]) && !NamesHead(s'.threads[t].pc)
    requires forall u :: 0 <= u < |s.threads| && u != t && Validated(s.threads[u].pc)
               ==> Undisturbed(s, s', t, s.threads[u].pc.h, s.threads[u].myId)
    ensures Safe(s')
  {
    IdsFrame(s, s', t);
    HoldsFrame(s, s', t);
    SettledFrame(s, s', t);
    ProtectedFrame(s, s', t);
  }

  /** Thread `t`'s step leaves alone the node `h` that another thread has validated. */
  ghost predicate Undisturbed(s: State, s': State, t: nat, h: Addr, r: nat)
    requires t < |s'.threads|
  {
    && (h in s.heap ==> h in s'.heap && s'.heap[h] == s.heap[h])
    && !Pushing(s'.threads[t], h)
    && Covered(s'.threads[t], h, r)
  }

  lemma {:induction false} StartPushOwners(s: State, s': State, t: nat, a: Addr)
    requires Owners(s) && OthersSame(s, s', t) && a != NULL && a !in s.heap
    requires Owned(s'.threads[t]) == Owned(s.threads[t]) + [a]
    requires s'.heap.Keys == s.heap.Keys + {a} && s'.owner == s.owner[a := Of(t)] && s'.spine == s.spine
    ensures Owners(s')
  {
    assert forall b :: b in Owned(s.threads[t]) ==> HasThread(s, b, t) && b != a;
    assert OwnsOnce(s.threads[t]);
    NoDupAppend(Owned(s.threads[t]), a);
    forall a: Addr
      ensures Accounted(s', a)
    {
      assert Accounted(s, a);
    }
    OwnersFrame(s, s', t);
  }

  lemma {:induction false} StartPushSafe(s: State, t: nat, v: Value, a: Addr)
    requires Safe(s) && t < |s.threads| && s.threads[t].pc.Idle?
    ensures Safe(StartPush(s, t, v, a))
  {
    if a != NULL && a !in s.heap {
      var s' := StartPush(s, t, v, a);
      StartPushOwners(s, s', t, a);
      forall u | 0 <= u < |s.threads| && u != t && Validated(s.threads[u].pc)
        ensures Undisturbed(s, s', t, s.threads[u].pc.h, s.threads[u].myId)
      {
        assert Holds(s, s.threads[u]) && Covered(s.threads[t], s.threads[u].pc.h, s.threads[u].myId);
      }
      assert IdOk(s, s.threads[t]);
      SpineFrame(s, s');
      assert Counts(s') by {
        assert s'.heap.Keys == s.heap.Keys + {a};
      }
      HeapStep(s, s', t);
    }
  }

  lemma {:induction false} StartPopSafe(s: State, t: nat)
    requires Safe(s) && t < |s.threads| && s.threads[t].pc.Idle?
    ensures Safe(StartPop(s, t))
  {
    PcStep(s, StartPop(s, t), t);
  }

  /** A push writes to its own node, which no other thread can be relying on. */
  lemma {:induction false} WriteOwnNode(s: State, s': State, t: nat, node: Addr)
    requires Safe(s) && OthersSame(s, s', t) && Pushing(s.threads[t], node) && Pushing(s'.threads[t], node)
    requires node in s.heap && s' == s.(heap := s.heap[node := s.heap[node].(next := s.head)], threads := s'.threads)
    requires s'.threads[t] == s.threads[t].(pc := s'.threads[t].pc)
    ensures Safe(s')
  {
    assert Owned(s'.threads[t]) == Owned(s.threads[t]);
    assert HasThread(s, node, t);
    WriteOwners(s, s', t);
    forall u | 0 <= u < |s.threads| && u != t && Validated(s.threads[u].pc)
      ensures Undisturbed(s, s', t, s.threads[u].pc.h, s.threads[u].myId)
    {
      assert !Pushing(s.threads[t], s.threads[u].pc.h);
    }
    SpineFrame(s, s');
    assert Counts(s') by {
      assert s'.heap.Keys == s.heap.Keys;
      assert |s'.heap| == |s.heap| by {
        assert |s'.heap| == |s'.heap.Keys| && |s.heap| == |s.heap.Keys|;
      }
    }
    assert IdOk(s, s.threads[t]);
    HeapStep(s, s', t);
  }

  lemma {:induction false} WriteOwners(s: State, s': State, t: nat)
    requires Owners(s) && OthersSame(s, s', t)
    requires s'.heap.Keys == s.heap.Keys && s'.owner == s.owner && s'.spine == s.spine
    requires Owned(s'.threads[t]) == Owned(s.threads[t])
    ensures Owners(s')
  {
    assert forall b :: b in Owned(s.threads[t]) ==> HasThread(s, b, t);
    assert OwnsOnce(s.threads[t]);
    forall a: Addr
      ensures Accounted(s', a)
    {
      assert Accounted(s, a);
    }
    OwnersFrame(s, s', t);
  }

  lemma {:induction false} PushLoadSafe(s: State, t: nat)
    requires Safe(s) && t < |s.threads| && s.threads[t].pc.PushLoad?
    ensures Safe(DoPushLoad(s, t, s.threads[t].pc.node))
  {
    var node := s.threads[t].pc.node;
    assert HasThread(s, node, t);
    WriteOwnNode(s, DoPushLoad(s, t, node), t, node);
  }

  lemma {:induction false} PushCasOwners(s: State, s': State, t: nat, node: Addr)
    requires Owners(s) && OthersSame(s, s', t) && Pushing(s.threads[t], node)
    requires Owned(s.threads[t]) == Owned(s'.threads[t]) + [node]
    requires s'.heap == s.heap && s'.owner == s.owner[node := Stack] && s'.spine == [node] + s.spine
    ensures Owners(s')
  {
    assert HasThread(s, node, t);
    assert OwnsOnce(s.threads[t]);
    NoDupLast(Owned(s'.threads[t]), node);
    MoveToStack(s, s', t, node);
  }

  lemma {:induction false} MoveToStack(s: State, s': State, t: nat, node: Addr)
    requires Owners(s) && OthersSame(s, s', t) && HasThread(s, node, t)
    requires forall b :: b in Owned(s'.threads[t]) <==> b in Owned(s.threads[t]) && b != node
    requires OwnsOnce(s'.threads[t])
    requires forall b :: b in s'.spine <==> b in s.spine || b == node
    requires s'.heap == s.heap && s'.owner == s.owner[node := Stack]
    ensures Owners(s')
  {
    assert node in s.owner && s.owner[node] == Of(t);
    assert s'.owner.Keys == s.owner.Keys;
    assert forall b :: b in Owned(s.threads[t]) ==> HasThread(s, b, t);
    forall a: Addr
      ensures Accounted(s', a)
    {
      assert Accounted(s, a);
    }
    OwnersFrame(s, s', t);
  }

  lemma {:induction false} SameHeapStep(s: State, s': State, t: nat)
    requires Safe(s) && OthersSame(s, s', t) && Owners(s') && SpineOk(s')
    requires s'.heap == s.heap && s'.records == s.records && s'.births == s.births && s'.fault == s.fault
    requires s'.allocCount == s.allocCount && s'.freeCount == s.freeCount
    requires s'.threads[t] == s.threads[t].(pc := s'.threads[t].pc)
    requires s'.threads[t].pc.Idle? || (s'.threads[t].pc.ClearDone? && s.threads[t].pc.PopCas?)
    requires !s.threads[t].pc.ScanInUse? && !s.threads[t].pc.ScanSlot? && !s.threads[t].pc.Reclaim?
    ensures Safe(s')
  {
    assert IdOk(s, s.threads[t]) && Bounded(s.threads[t]);
    HeapStep(s, s', t);
  }

  lemma {:induction false} PushCasSucceeds(s: State, s': State, t: nat, node: Addr)
    requires Safe(s) && t < |s.threads| && s.threads[t].pc == PushCas(node) && node in s.heap
    requires s.head == s.heap[node].next && s' == DoPushCas(s, t, node, false)
    ensures Safe(s')
  {
    PushCasOwners(s, s', t, node);
    assert HasThread(s, node, t);
    PushCasSpine(s, s', node);
    SameHeapStep(s, s', t);
  }

  lemma {:induction false} PushCasSpine(s: State, s': State, node: Addr)
    requires SpineOk(s) && node in s.heap && node !in s.spine && s.head == s.heap[node].next
    requires s'.heap == s.heap && s'.head == node && s'.spine == [node] + s.spine
    ensures SpineOk(s')
  {
    NoDupPrepend(node, s.spine);
    forall i | 0 <= i < |s'.spine|
      ensures Linked(s'.heap, s'.spine, i)
    {
      assert i > 0 ==> Linked(s.heap, s.spine, i - 1);
    }
  }

  lemma {:induction false} PushCasSafe(s: State, t: nat, spurious: bool)
    requires Safe(s) && t < |s.threads| && s.threads[t].pc.PushCas?
    ensures Safe(DoPushCas(s, t, s.threads[t].pc.node, spurious))
  {
    var node := s.threads[t].pc.node;
    assert HasThread(s, node, t);
    var s' := DoPushCas(s, t, node, spurious);
    if s.head == s.heap[node].next && !spurious {
      PushCasSucceeds(s, s', t, node);
    } else {
      WriteOwnNode(s, s', t, node);
    }
  }

  // ----- pop

  lemma {:induction false} PopLoadSafe(s: State, t: nat)
    requires Safe(s) && t < |s.threads| && s.threads[t].pc.PopLoad?
    ensures Safe(DoPopLoad(s, t))
  {
    assert IdOk(s, s.threads[t]);
    if s.head == NULL || s.threads[t].myId < MAX_THREADS {
      PcStep(s, DoPopLoad(s, t), t);
    } else {
      PcStep(s, DoPopLoad(s, t), t);
    }
  }

  lemma {:induction false} AcquireSafe(s: State, t: nat)
    requires Safe(s) && t < |s.threads| && s.threads[t].pc.Acquire?
    ensures Safe(DoAcquire(s, t, s.threads[t].pc.h, s.threads[t].pc.i))
  {
    var h, i := s.threads[t].pc.h, s.threads[t].pc.i;
    var s' := DoAcquire(s, t, h, i);
    assert IdOk(s, s.threads[t]);
    if i < |s.records| && !s.records[i].inUse {
      AcquireIds(s, s', t, h, i);
      LocalStep(s, s', t);
    } else {
      PcStep(s, s', t);
    }
  }

  lemma {:induction false} AcquireIds(s: State, s': State, t: nat, h: Addr, i: nat)
    requires Ids(s) && t < |s.threads| && i < |s.records| && !s.records[i].inUse && s' == DoAcquire(s, t, h, i)
    ensures Ids(s')
  {
    forall u | 0 <= u < |s.threads|
      ensures IdOk(s', s'.threads[u])
      ensures u != t ==> s'.threads[u].myId != s'.threads[t].myId
    {
      assert IdOk(s, s.threads[u]);
    }
  }

  lemma {:induction false} SlotIds(s: State, s': State, t: nat, p: Addr, pc: Pc)
    requires Ids(s) && t < |s.threads| && NeedsId(s.threads[t].pc)
    requires s' == Goto(SetSlot(s, s.threads[t].myId, p), t, pc) && !pc.Acquire?
    ensures Ids(s')
    ensures s'.records[s.threads[t].myId].slots[0] == p
    ensures forall r :: 0 <= r < MAX_THREADS && r != s.threads[t].myId ==> s'.records[r].slots == s.records[r].slots
  {
    assert IdOk(s, s.threads[t]);
    forall u | 0 <= u < |s.threads|
      ensures IdOk(s', s'.threads[u])
    {
      assert IdOk(s, s.threads[u]);
    }
  }

  lemma {:induction false} PublishSafe(s: State, t: nat)
    requires Safe(s) && t < |s.threads| && s.threads[t].pc.Publish?
    ensures Safe(DoPublish(s, t, s.threads[t].pc.h))
  {
    var s' := DoPublish(s, t, s.threads[t].pc.h);
    SlotIds(s, s', t, s.threads[t].pc.h, Validate(s.threads[t].pc.h));
    LocalStep(s, s', t);
  }

  lemma {:induction false} ClearRetrySafe(s: State, t: nat)
    requires Safe(s) && t < |s.threads| && s.threads[t].pc.ClearRetry?
    ensures Safe(DoClearRetry(s, t))
  {
    SlotIds(s, DoClearRetry(s, t), t, NULL, PopLoad);
    LocalStep(s, DoClearRetry(s, t), t);
  }

  lemma {:induction false} ClearDoneSafe(s: State, t: nat)
    requires Safe(s) && t < |s.threads| && s.threads[t].pc.ClearDone?
    ensures Safe(DoClearDone(s, t, s.threads[t].pc.h, s.threads[t].pc.at))
  {
    var s' := DoClearDone(s, t, s.threads[t].pc.h, s.threads[t].pc.at);
    SlotIds(s, s', t, NULL, ReadData(s.threads[t].pc.h, s.threads[t].pc.at));
    LocalStep(s, s', t);
  }

  lemma {:induction false} ValidateSafe(s: State, t: nat)
    requires Safe(s) && t < |s.threads| && s.threads[t].pc.Validate?
    ensures Safe(DoValidate(s, t, s.threads[t].pc.h))
  {
    var h := s.threads[t].pc.h;
    assert IdOk(s, s.threads[t]) && Holds(s, s.threads[t]);
    if s.head == h {
      assert s.spine[0] == h && s.owner[h] == Stack;
      forall u | 0 <= u < |s.threads| && u != t
        ensures Covered(s.threads[u], h, s.threads[t].myId) && !Pushing(s.threads[u], h)
      {
        NotOwned(s, h, u);
      }
      PcStep(s, DoValidate(s, t, h), t);
    } else {
      PcStep(s, DoValidate(s, t, h), t);
    }
  }

  /** What a thread could free or write to is never on the stack. */
  lemma {:induction false} NotOwned(s: State, h: Addr, u: nat)
    requires Owners(s) && u < |s.threads| && h in s.owner && s.owner[h] != Of(u)
    ensures !Pushing(s.threads[u], h)
    ensures forall r :: Covered(s.threads[u], h, r)
  {
    assert !HasThread(s, h, u);
    var l := s.threads[u];
    if l.pc.Reclaim? && l.pc.k <= |l.retired| {
      forall m | l.pc.k <= m < |l.retired|
        ensures l.retired[m] != h
      {
        assert Owned(l)[|l.pc.remaining| + m - l.pc.k] == l.retired[m];
      }
    }
  }

  lemma {:induction false} ReadNextSafe(s: State, t: nat)
    requires Safe(s) && t < |s.threads| && s.threads[t].pc.ReadNext?
    ensures Safe(DoReadNext(s, t, s.threads[t].pc.h, s.threads[t].pc.birth))
  {
    assert IdOk(s, s.threads[t]) && Holds(s, s.threads[t]);
    PcStep(s, DoReadNext(s, t, s.threads[t].pc.h, s.threads[t].pc.birth), t);
  }

  lemma {:induction false} ReadDataSafe(s: State, t: nat)
    requires Safe(s) && t < |s.threads| && s.threads[t].pc.ReadData?
    ensures Safe(DoReadData(s, t, s.threads[t].pc.h, s.threads[t].pc.at))
  {
    assert IdOk(s, s.threads[t]);
    assert HasThread(s, s.threads[t].pc.h, t);
    PcStep(s, DoReadData(s, t, s.threads[t].pc.h, s.threads[t].pc.at), t);
  }

  lemma {:induction false} PopCasOwners(s: State, s': State, t: nat, h: Addr)
    requires Owners(s) && OthersSame(s, s', t) && NoDup(s.spine) && s.spine != [] && s.spine[0] == h
    requires Owned(s'.threads[t]) == Owned(s.threads[t]) + [h]
    requires s'.heap == s.heap && s'.owner == s.owner[h := Of(t)] && s'.spine == s.spine[1..]
    ensures Owners(s')
  {
    assert !HasThread(s, h, t);
    assert OwnsOnce(s.threads[t]);
    NoDupAppend(Owned(s.threads[t]), h);
    TailMembers(s.spine);
    MoveToThread(s, s', t, h);
  }

  lemma {:induction false} MoveToThread(s: State, s': State, t: nat, h: Addr)
    requires Owners(s) && OthersSame(s, s', t) && h in s.owner && s.owner[h] == Stack
    requires forall b :: b in Owned(s'.threads[t]) <==> b in Owned(s.threads[t]) || b == h
    requires OwnsOnce(s'.threads[t])
    requires forall b :: b in s'.spine <==> b in s.spine && b != h
    requires s'.heap == s.heap && s'.owner == s.owner[h := Of(t)]
    ensures Owners(s')
  {
    assert forall b :: b in Owned(s.threads[t]) ==> HasThread(s, b, t);
    assert OwnsOnce(s.threads[t]);
    forall a: Addr
      ensures Accounted(s', a)
    {
      assert Accounted(s, a);
    }
    OwnersFrame(s, s', t);
  }

  lemma {:induction false} PopCasSpine(s: State, s': State)
    requires SpineOk(s) && s.spine != []
    requires Linked(s.heap, s.spine, 0) && s'.heap == s.heap && s'.head == s.heap[s.spine[0]].next
    requires s'.spine == s.spine[1..]
    ensures SpineOk(s')
  {
    TailMembers(s.spine);
    assert Linked(s.heap, s.spine, 0);
    forall i | 0 <= i < |s'.spine|
      ensures Linked(s'.heap, s'.spine, i)
    {
      assert Linked(s.heap, s.spine, i + 1);
    }
  }

  lemma {:induction false} PopCasSucceeds(s: State, s': State, t: nat)
    requires Safe(s) && t < |s.threads| && s.threads[t].pc.PopCas? && s.head == s.threads[t].pc.h
    requires s' == DoPopCas(s, t, s.threads[t].pc.h, s.threads[t].pc.next, false)
    ensures Safe(s')
  {
    var h := s.threads[t].pc.h;
    assert IdOk(s, s.threads[t]) && Holds(s, s.threads[t]);
    assert h != NULL && Linked(s.heap, s.spine, 0);
    PopCasSpine(s, s');
    PopCasOwners(s, s', t, h);
    SameHeapStep(s, s', t);
  }

  lemma {:induction false} PopCasSafe(s: State, t: nat, spurious: bool)
    requires Safe(s) && t < |s.threads| && s.threads[t].pc.PopCas?
    ensures Safe(DoPopCas(s, t, s.threads[t].pc.h, s.threads[t].pc.next, spurious))
  {
    var s' := DoPopCas(s, t, s.threads[t].pc.h, s.threads[t].pc.next, spurious);
    if s.head == s.threads[t].pc.h && !spurious {
      PopCasSucceeds(s, s', t);
    } else {
      assert IdOk(s, s.threads[t]);
      PcStep(s, s', t);
    }
  }

  // ----- retire and scan

  lemma {:induction false} RetireSafe(s: State, t: nat)
    requires Safe(s) && t < |s.threads| && s.threads[t].pc.Retire?
    ensures Safe(DoRetire(s, t, s.threads[t].pc.h, s.threads[t].pc.at, s.threads[t].pc.result))
  {
    var s' := DoRetire(s, t, s.threads[t].pc.h, s.threads[t].pc.at, s.threads[t].pc.result);
    assert IdOk(s, s.threads[t]);
    if |s'.threads[t].retired| >= RECLAIM_THRESHOLD {
      PcStep(s, s', t);
    } else {
      PcStep(s, s', t);
    }
  }

  lemma {:induction false} ScanInUseCovers(l: Local, l': Local, h: Addr, r: nat, inUse: bool)
    requires l.pc.ScanInUse? && Covered(l, h, r)
    requires l.pc.i == r ==> inUse
    requires l' == l.(pc := if inUse then ScanSlot(l.pc.i, 0, l.pc.hazards, l.pc.at, l.pc.result)
                            else ScanInUse(l.pc.i + 1, l.pc.hazards, l.pc.at, l.pc.result))
    ensures Covered(l', h, r)
  {
  }

  /** All slots have been read: every validated node this thread could free has been seen. */
  lemma {:induction false} ScanDoneSafe(s: State, s': State, t: nat)
    requires Safe(s) && t < |s.threads| && s.threads[t].pc.ScanInUse? && s.threads[t].pc.i >= |s.records|
    requires var l := s.threads[t]; s' == Goto(s, t, Reclaim(0, l.pc.hazards, [], l.pc.at, l.pc.result))
    ensures Safe(s')
  {
    var l := s.threads[t];
    assert IdOk(s, l) && Bounded(l);
    forall u | 0 <= u < |s.threads| && u != t && Validated(s.threads[u].pc)
      ensures Covered(s'.threads[t], s.threads[u].pc.h, s.threads[u].myId)
    {
      assert Covered(l, s.threads[u].pc.h, s.threads[u].myId);
      assert Holds(s, s.threads[u]);
    }
    assert Owned(s'.threads[t]) == l.retired;
    PcStep(s, s', t);
  }

  lemma {:induction false} ScanInUseSafe(s: State, t: nat)
    requires Safe(s) && t < |s.threads| && s.threads[t].pc.ScanInUse?
    ensures var pc := s.threads[t].pc; Safe(DoScanInUse(s, t, pc.i, pc.hazards, pc.at, pc.result))
  {
    var l := s.threads[t];
    var s' := DoScanInUse(s, t, l.pc.i, l.pc.hazards, l.pc.at, l.pc.result);
    assert IdOk(s, l) && Bounded(l);
    if l.pc.i >= |s.records| {
      ScanDoneSafe(s, s', t);
    } else {
      forall u | 0 <= u < |s.threads| && u != t && Validated(s.threads[u].pc)
        ensures Covered(s'.threads[t], s.threads[u].pc.h, s.threads[u].myId)
      {
        assert IdOk(s, s.threads[u]);
        ScanInUseCovers(l, s'.threads[t], s.threads[u].pc.h, s.threads[u].myId, s.records[l.pc.i].inUse);
      }
      PcStep(s, s', t);
    }
  }

  /** The slot of a validated pop shows its node, so the load of that slot sees the node. */
  lemma {:induction false} ScanSlotCovers(l: Local, l': Local, h: Addr, r: nat, p: Addr)
    requires l.pc.ScanSlot? && Covered(l, h, r) && l.pc.j < SLOTS_PER_THREAD && h != NULL
    requires l.pc.i == r && l.pc.j == 0 ==> p == h
    requires var seen := if p != NULL then l.pc.hazards + {p} else l.pc.hazards;
             l' == l.(pc := if l.pc.j + 1 < SLOTS_PER_THREAD 
                            then ScanSlot(l.pc.i, l.pc.j + 1, seen, l.pc.at, l.pc.result)
                            else ScanInUse(l.pc.i + 1, seen, l.pc.at, l.pc.result))
    ensures Covered(l', h, r)
  {
  }

  lemma {:induction false} ScanSlotSafe(s: State, t: nat)
    requires Safe(s) && t < |s.threads| && s.threads[t].pc.ScanSlot?
    ensures var pc := s.threads[t].pc; Safe(DoScanSlot(s, t, pc.i, pc.j, pc.hazards, pc.at, pc.result))
  {
    var l := s.threads[t];
    var s' := DoScanSlot(s, t, l.pc.i, l.pc.j, l.pc.hazards, l.pc.at, l.pc.result);
    assert IdOk(s, l) && Bounded(l);
    ScanSlotAllCovered(s, s', t);
    ScanSlotBounded(l, s'.threads[t], s.records[l.pc.i].slots[l.pc.j]);
    assert Owned(s'.threads[t]) == l.retired;
    PcStep(s, s', t);
  }

  lemma {:induction false} ScanSlotBounded(l: Local, l': Local, p: Addr)
    requires l.pc.ScanSlot? && Bounded(l)
    requires var seen := if p != NULL then l.pc.hazards + {p} else l.pc.hazards;
             l' == l.(pc := if l.pc.j + 1 < SLOTS_PER_THREAD 
                            then ScanSlot(l.pc.i, l.pc.j + 1, seen, l.pc.at, l.pc.result)
                            else ScanInUse(l.pc.i + 1, seen, l.pc.at, l.pc.result))
    ensures Bounded(l')
  {
    SeenBound(l.pc.hazards, p);
  }

  lemma {:induction false} ScanSlotAllCovered(s: State, s': State, t: nat)
    requires Ids(s) && AllHold(s) && Protected(s) && Owners(s) && t < |s.threads| && s.threads[t].pc.ScanSlot?
    requires Bounded(s.threads[t])
    requires var pc := s.threads[t].pc; s' == DoScanSlot(s, t, pc.i, pc.j, pc.hazards, pc.at, pc.result)
    ensures forall u :: 0 <= u < |s.threads| && u != t && Validated(s.threads[u].pc)
              ==> Covered(s'.threads[t], s.threads[u].pc.h, s.threads[u].myId)
  {
    var l := s.threads[t];
    forall u | 0 <= u < |s.threads| && u != t && Validated(s.threads[u].pc)
      ensures Covered(s'.threads[t], s.threads[u].pc.h, s.threads[u].myId)
    {
      assert Holds(s, s.threads[u]);
      ScanSlotCovers(l, s'.threads[t], s.threads[u].pc.h, s.threads[u].myId, s.records[l.pc.i].slots[l.pc.j]);
    }
  }

  lemma {:induction false} SeenBound(hz: set<Addr>, p: Addr)
    ensures |hz + {p}| <= |hz| + 1
  {
    if p in hz {
      assert hz + {p} == hz;
    }
  }

  // ----- freeing

  lemma {:induction false} DistinctWithin(q: seq<Addr>, hz: set<Addr>)
    requires NoDup(q) && forall m :: 0 <= m < |q| ==> q[m] in hz
    ensures |q| <= |hz|
  {
    if q != [] {
      var last := q[|q| - 1];
      var front := q[..|q| - 1];
      assert q == front + [last];
      NoDupLast(front, last);
      assert forall m :: 0 <= m < |front| ==> front[m] in front && front[m] == q[m];
      DistinctWithin(front, hz - {last});
    }
  }

  /** The scan is over: what it keeps is a duplicate-free list of hazards it has seen. */
  lemma {:induction false} ReclaimDoneSafe(s: State, t: nat)
    requires Safe(s) && t < |s.threads| && s.threads[t].pc.Reclaim? && s.threads[t].pc.k >= |s.threads[t].retired|
    ensures var pc := s.threads[t].pc; Safe(DoReclaim(s, t, pc.k, pc.hazards, pc.remaining, pc.at, pc.result))
  {
    var l := s.threads[t];
    assert IdOk(s, l) && Bounded(l) && OwnsOnce(l);
    assert Owned(l) == l.pc.remaining;
    DistinctWithin(l.pc.remaining, l.pc.hazards);
    PcStep(s, DoReclaim(s, t, l.pc.k, l.pc.hazards, l.pc.remaining, l.pc.at, l.pc.result), t);
  }

  lemma {:induction false} ReclaimKeepSafe(s: State, t: nat)
    requires Safe(s) && t < |s.threads| && s.threads[t].pc.Reclaim?
    requires s.threads[t].pc.k < |s.threads[t].retired|
    requires s.threads[t].retired[s.threads[t].pc.k] in s.threads[t].pc.hazards
    ensures var pc := s.threads[t].pc; Safe(DoReclaim(s, t, pc.k, pc.hazards, pc.remaining, pc.at, pc.result))
  {
    var l := s.threads[t];
    var s' := DoReclaim(s, t, l.pc.k, l.pc.hazards, l.pc.remaining, l.pc.at, l.pc.result);
    assert IdOk(s, l) && Bounded(l);
    OwnedInReclaim(l);
    forall u | 0 <= u < |s.threads| && u != t && Validated(s.threads[u].pc)
      ensures Covered(s'.threads[t], s.threads[u].pc.h, s.threads[u].myId)
    {
      ReclaimCovers(l, s'.threads[t], s.threads[u].pc.h, s.threads[u].myId);
    }
    PcStep(s, s', t);
  }

  lemma {:induction false} FreeOwners(s: State, s': State, t: nat, a: Addr, front: seq<Addr>, back: seq<Addr>)
    requires Owners(s) && OthersSame(s, s', t)
    requires Owned(s.threads[t]) == front + [a] + back && Owned(s'.threads[t]) == front + back
    requires s'.heap == s.heap - {a} && s'.owner == s.owner - {a} && s'.spine == s.spine
    ensures Owners(s')
  {
    assert OwnsOnce(s.threads[t]);
    NoDupRemove(front, a, back);
    assert forall b :: b in Owned(s.threads[t]) ==> HasThread(s, b, t);
    assert OwnsOnce(s.threads[t]);
    forall a: Addr
      ensures Accounted(s', a)
    {
      assert Accounted(s, a);
    }
    OwnersFrame(s, s', t);
  }

  lemma {:induction false} OwnedInReclaim(l: Local)
    requires l.pc.Reclaim? && l.pc.k < |l.retired|
    ensures Owned(l) == l.pc.remaining + [l.retired[l.pc.k]] + l.retired[l.pc.k + 1..]
    ensures l.retired[l.pc.k] in Owned(l)
    ensures Owned(l.(pc := l.pc.(k := l.pc.k + 1))) == l.pc.remaining + l.retired[l.pc.k + 1..]
  {
    assert l.retired[l.pc.k..] == [l.retired[l.pc.k]] + l.retired[l.pc.k + 1..];
    assert Owned(l)[|l.pc.remaining|] == l.retired[l.pc.k];
  }

  lemma {:induction false} ReclaimCovers(l: Local, l': Local, h: Addr, r: nat)
    requires l.pc.Reclaim? && Covered(l, h, r) && l.pc.k < |l.retired|
    requires l'.retired == l.retired && l'.pc.Reclaim? && l'.pc.k == l.pc.k + 1 && l'.pc.hazards == l.pc.hazards
    ensures Covered(l', h, r)
    ensures l.retired[l.pc.k] !in l.pc.hazards ==> l.retired[l.pc.k] != h
  {
  }

  /** A node that the scan did not see is validated by no one, so freeing it disturbs no one. */
  lemma {:induction false} ReclaimFreeSafe(s: State, t: nat)
    requires Safe(s) && t < |s.threads| && s.threads[t].pc.Reclaim?
    requires s.threads[t].pc.k < |s.threads[t].retired|
    requires s.threads[t].retired[s.threads[t].pc.k] !in s.threads[t].pc.hazards
    ensures var pc := s.threads[t].pc; Safe(DoReclaim(s, t, pc.k, pc.hazards, pc.remaining, pc.at, pc.result))
  {
    var l := s.threads[t];
    var a := l.retired[l.pc.k];
    OwnedInReclaim(l);
    assert HasThread(s, a, t);
    var s' := DoReclaim(s, t, l.pc.k, l.pc.hazards, l.pc.remaining, l.pc.at, l.pc.result);
    assert s'.threads[t] == l.(pc := l.pc.(k := l.pc.k + 1));
    FreeOneNode(s, s', t, a, l.pc.remaining, l.retired[l.pc.k + 1..]);
  }

  lemma {:induction false} FreeOneNode(s: State, s': State, t: nat, a: Addr, front: seq<Addr>, back: seq<Addr>)
    requires Safe(s) && OthersSame(s, s', t) && s.threads[t].pc.Reclaim? && HasThread(s, a, t)
    requires s.threads[t].pc.k < |s.threads[t].retired|
    requires a == s.threads[t].retired[s.threads[t].pc.k] && a !in s.threads[t].pc.hazards
    requires s'.threads[t] == s.threads[t].(pc := s.threads[t].pc.(k := s.threads[t].pc.k + 1))
    requires Owned(s.threads[t]) == front + [a] + back && Owned(s'.threads[t]) == front + back
    requires s' == s.(heap := s.heap - {a}, owner := s.owner - {a}, freeCount := s.freeCount + 1, threads := s'.threads)
    ensures Safe(s')
  {
    FreeOwners(s, s', t, a, front, back);
    FreeSpine(s, s', a);
    FreeUndisturbed(s, s', t, a);
    FreeStep(s, s', t);
  }

  lemma {:induction false} FreeStep(s: State, s': State, t: nat)
    requires Safe(s) && OthersSame(s, s', t) && Owners(s') && SpineOk(s') && Counts(s') && !s'.fault
    requires s.threads[t].pc.Reclaim? && s.threads[t].pc.k < |s.threads[t].retired|
    requires s'.records == s.records
    requires s'.threads[t] == s.threads[t].(pc := s.threads[t].pc.(k := s.threads[t].pc.k + 1))
    requires forall u :: 0 <= u < |s.threads| && u != t && Validated(s.threads[u].pc)
               ==> Undisturbed(s, s', t, s.threads[u].pc.h, s.threads[u].myId)
    ensures Safe(s')
  {
    assert IdOk(s, s.threads[t]) && Bounded(s.threads[t]);
    HeapStep(s, s', t);
  }

  lemma {:induction false} FreeUndisturbed(s: State, s': State, t: nat, a: Addr)
    requires |s.records| == MAX_THREADS && AllHold(s) && Protected(s) && OthersSame(s, s', t) && s'.heap == s.heap - {a}
    requires var l := s.threads[t];
             l.pc.Reclaim? && l.pc.k < |l.retired| && a == l.retired[l.pc.k] && a !in l.pc.hazards
             && s'.threads[t] == l.(pc := l.pc.(k := l.pc.k + 1))
    ensures forall u :: 0 <= u < |s.threads| && u != t && Validated(s.threads[u].pc)
              ==> Undisturbed(s, s', t, s.threads[u].pc.h, s.threads[u].myId)
  {
    forall u | 0 <= u < |s.threads| && u != t && Validated(s.threads[u].pc)
      ensures Undisturbed(s, s', t, s.threads[u].pc.h, s.threads[u].myId)
    {
      assert Holds(s, s.threads[u]);
      ReclaimCovers(s.threads[t], s'.threads[t], s.threads[u].pc.h, s.threads[u].myId);
    }
  }

  lemma {:induction false} FreeSpine(s: State, s': State, a: Addr)
    requires SpineOk(s) && Counts(s) && a in s.heap && a !in s.spine
    requires s'.heap == s.heap - {a} && s'.spine == s.spine && s'.head == s.head && s'.births == s.births
    requires s'.allocCount == s.allocCount && s'.freeCount == s.freeCount + 1
    ensures SpineOk(s') && Counts(s')
  {
    assert s'.heap.Keys == s.heap.Keys - {a};
    assert |s'.heap| == |s'.heap.Keys| && |s.heap| == |s.heap.Keys|;
    SpineFrame(s, s');
  }
}
