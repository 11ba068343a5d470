/**
 Linearisability of the hazard-pointer stack.  The log of successful compare-and-swaps, read
 as a sequential LIFO history, always yields the values now on the stack, and every finished
 call can point at its own place in that log, inside the time it ran.
 */
module HazardHistory {
  import opened HazardMachine
  import opened HazardSafety

  /** The sequential stack, top first; None when the history is not one of a stack. */
  function Replay(log: seq<Event>): Option<seq<Value>>
    decreases |log|
  {
    if log == [] then Some([])
    else
      match Replay(log[..|log| - 1])
      case None => None
      case Some(stack) => Apply(stack, log[|log| - 1])
  }

  function Apply(stack: seq<Value>, e: Event): Option<seq<Value>> {
    match e
    case Pushed(_, _, v) => Some([v] + stack)
    case Popped(_, _, v) => if stack != [] && stack[0] == v then Some(stack[1..]) else None
  }

  /** What a finished call must be able to show. */
  ghost predicate Justified(log: seq<Event>, c: Completed) {
    && c.since <= c.at <= c.until <= |log|
    && match c
       case PushReturned(t, n, v, _, at, until) => at < until && log[at] == Pushed(t, n, v)
       case PopReturned(t, n, Some(v), _, at, until) => at < until && log[at] == Popped(t, n, v)
       case PopReturned(_, _, None, _, at, _) => Replay(log[..at]) == Some([])
  }

  function Values(heap: map<Addr, Node>, spine: seq<Addr>): seq<Value> {
    seq(|spine|, i requires 0 <= i < |spine| => if spine[i] in heap then heap[spine[i]].data else 0)
  }

  /** The call in progress has not taken effect yet. */
  predicate Early(pc: Pc) {
    pc.PushLoad? || pc.PushCas? || pc.PopLoad? || pc.Acquire? || pc.Publish? || pc.Validate? || pc.ClearRetry?
    || pc.ReadNext? || pc.PopCas? || pc.Stuck?
  }

  /** A pop that has taken effect still carries the value it took. */
  ghost predicate Receipt(s: State, t: nat)
    requires t < |s.threads|
  {
    var l := s.threads[t];
    && (!l.pc.Idle? ==> l.since <= |s.log|)
    && match l.pc
       case ClearDone(h, at) => h in s.heap && l.since <= at < |s.log| && s.log[at] == Popped(t, l.call, s.heap[h].data)
       case ReadData(h, at) => h in s.heap && l.since <= at < |s.log| && s.log[at] == Popped(t, l.call, s.heap[h].data)
       case Retire(_, at, r) => l.since <= at < |s.log| && s.log[at] == Popped(t, l.call, r)
       case ScanInUse(_, _, at, r) => l.since <= at < |s.log| && s.log[at] == Popped(t, l.call, r)
       case ScanSlot(_, _, _, at, r) => l.since <= at < |s.log| && s.log[at] == Popped(t, l.call, r)
       case Reclaim(_, _, _, at, r) => l.since <= at < |s.log| && s.log[at] == Popped(t, l.call, r)
       case _ => true
  }

  ghost predicate EventOk(s: State, e: Event) {
    && e.thread < |s.threads|
    && e.call <= s.threads[e.thread].call
    && (e.call == s.threads[e.thread].call ==> !Early(s.threads[e.thread].pc))
  }

  ghost predicate FinishedOk(s: State, c: Completed) {
    && Justified(s.log, c)
    && c.thread < |s.threads|
    && c.call <= s.threads[c.thread].call
    && (c.call == s.threads[c.thread].call ==> s.threads[c.thread].pc.Idle?)
  }

  predicate SameCall(a: Event, b: Event) {
    a.thread == b.thread && a.call == b.call
  }

  ghost predicate OncePerCall(log: seq<Event>) {
    forall i, j :: 0 <= i < j < |log| ==> !SameCall(log[i], log[j])
  }

  ghost predicate FinishedOnce(finished: seq<Completed>) {
    forall i, j ::
        0 <= i < j < |finished| ==> finished[i].thread != finished[j].thread || finished[i].call != finished[j].call
  }

  ghost predicate History(s: State) {
    && Replay(s.log) == Some(Values(s.heap, s.spine))
    && (forall t :: 0 <= t < |s.threads| ==> Receipt(s, t))
    && (forall i :: 0 <= i < |s.log| ==> EventOk(s, s.log[i]))
    && OncePerCall(s.log)
    && (forall i :: 0 <= i < |s.finished| ==> FinishedOk(s, s.finished[i]))
    && FinishedOnce(s.finished)
  }

  // ----- one step

  lemma {:induction false} ValuesSame(heap: map<Addr, Node>, heap': map<Addr, Node>, spine: seq<Addr>)
    requires forall i :: 0 <= i < |spine| ==>
               (spine[i] in heap <==> spine[i] in heap')
               && (spine[i] in heap ==> heap'[spine[i]].data == heap[spine[i]].data)
    ensures Values(heap', spine) == Values(heap, spine)
  {
  }

  lemma {:induction false} JustifiedExtends(log: seq<Event>, e: Event, c: Completed)
    requires Justified(log, c)
    ensures Justified(log + [e], c)
  {
    assert (log + [e])[..c.at] == log[..c.at];
  }

  lemma {:induction false} ReplayExtends(log: seq<Event>, e: Event)
    requires Replay(log).Some?
    ensures Replay(log + [e]) == Apply(Replay(log).value, e)
  {
    assert (log + [e])[..|log|] == log;
  }

  /** A popped node keeps its value until its thread has read it. */
  ghost predicate DataKept(s: State, s': State, t: nat) {
    forall u :: 0 <= u < |s.threads| && u != t && (s.threads[u].pc.ClearDone? || s.threads[u].pc.ReadData?)
      && s.threads[u].pc.h in s.heap
      ==> s.threads[u].pc.h in s'.heap && s'.heap[s.threads[u].pc.h].data == s.heap[s.threads[u].pc.h].data
  }

  /** A step of thread `t` that writes no event. */
  lemma {:induction false} QuietStep(s: State, s': State, t: nat)
    requires History(s) && OthersSame(s, s', t) && s'.log == s.log && s'.spine == s.spine
    requires Values(s'.heap, s.spine) == Values(s.heap, s.spine)
    requires DataKept(s, s', t)
    requires Receipt(s', t)
    requires s'.threads[t].call >= s.threads[t].call
    requires Early(s'.threads[t].pc) ==> Early(s.threads[t].pc) || s'.threads[t].call > s.threads[t].call
    requires s'.finished == s.finished || Finishes(s, s', t)
    requires s.threads[t].pc.Idle? ==> s'.threads[t] == s.threads[t] || s'.threads[t].call > s.threads[t].call
    ensures History(s')
  {
    forall u | 0 <= u < |s.threads|
      ensures Receipt(s', u)
    {
      assert Receipt(s, u);
    }
    forall i | 0 <= i < |s'.log|
      ensures EventOk(s', s'.log[i])
    {
      assert EventOk(s, s.log[i]);
    }
    FinishedFrame(s, s', t);
  }

  /** The step is the return of thread `t`'s call. */
  ghost predicate Finishes(s: State, s': State, t: nat)
    requires OthersSame(s, s', t)
  {
    && |s'.finished| == |s.finished| + 1 && s'.finished[..|s.finished|] == s.finished
    && s'.finished[|s.finished|].thread == t && s'.finished[|s.finished|].call == s.threads[t].call
    && Justified(s'.log, s'.finished[|s.finished|])
    && !s.threads[t].pc.Idle? && s'.threads[t].pc.Idle? && s'.threads[t].call == s.threads[t].call
  }

  lemma {:induction false} FinishedFrame(s: State, s': State, t: nat)
    requires OthersSame(s, s', t)
    requires forall i :: 0 <= i < |s.finished| ==> FinishedOk(s, s.finished[i])
    requires FinishedOnce(s.finished)
    requires forall i :: 0 <= i < |s.finished| ==> Justified(s'.log, s.finished[i])
    requires s'.threads[t].call >= s.threads[t].call
    requires s.threads[t].pc.Idle? ==> s'.threads[t] == s.threads[t] || s'.threads[t].call > s.threads[t].call
    requires s'.finished == s.finished || Finishes(s, s', t)
    ensures forall i :: 0 <= i < |s'.finished| ==> FinishedOk(s', s'.finished[i])
    ensures FinishedOnce(s'.finished)
  {
    var n := |s.finished|;
    forall i | 0 <= i < n
      ensures s'.finished[i] == s.finished[i] && FinishedOk(s', s.finished[i])
      ensures Finishes(s, s', t) ==> s.finished[i].thread != t || s.finished[i].call != s.threads[t].call
    {
      assert s'.finished[..n] == s.finished;
      assert FinishedOk(s, s.finished[i]);
    }
  }

  /** A step of thread `t` that takes effect: a push or a pop changes the top of the stack. */
  lemma {:induction false} EventStep(s: State, s': State, t: nat, e: Event)
    requires History(s) && OthersSame(s, s', t) && s'.log == s.log + [e] && s'.heap == s.heap
    requires e.thread == t && e.call == s.threads[t].call && Early(s.threads[t].pc)
    requires s'.threads[t].call == s.threads[t].call && !Early(s'.threads[t].pc)
    requires Apply(Values(s.heap, s.spine), e) == Some(Values(s'.heap, s'.spine))
    requires Receipt(s', t)
    requires s'.finished == s.finished || Finishes(s, s', t)
    ensures History(s')
  {
    ReplayExtends(s.log, e);
    forall u | 0 <= u < |s.threads|
      ensures Receipt(s', u)
    {
      assert Receipt(s, u);
    }
    forall i | 0 <= i < |s.log|
      ensures EventOk(s', s.log[i]) && !SameCall(s.log[i], e)
    {
      assert EventOk(s, s.log[i]);
    }
    forall i | 0 <= i < |s.finished|
      ensures Justified(s'.log, s.finished[i])
    {
      assert FinishedOk(s, s.finished[i]);
      JustifiedExtends(s.log, e, s.finished[i]);
    }
    FinishedFrame(s, s', t);
  }

  lemma {:induction false} InitHistory(n: nat)
    ensures History(Init(n))
  {
    assert Values(Init(n).heap, Init(n).spine) == [];
  }

  lemma {:induction false} StartPushHistory(s: State, t: nat, v: Value, a: Addr)
    requires Safe(s) && History(s) && t < |s.threads| && s.threads[t].pc.Idle?
    ensures History(StartPush(s, t, v, a))
  {
    if a != NULL && a !in s.heap {
      var s' := StartPush(s, t, v, a);
      SpineAllocated(s);
      ValuesSame(s.heap, s'.heap, s.spine);
      QuietStep(s, s', t);
    }
  }

  lemma {:induction false} SpineAllocated(s: State)
    requires Owners(s)
    ensures forall i :: 0 <= i < |s.spine| ==> s.spine[i] in s.heap && s.owner[s.spine[i]] == Stack
  {
  }

  /** The stores of a push change `next` only. */
  lemma {:induction false} PushWriteHistory(s: State, s': State, t: nat, node: Addr)
    requires Safe(s) && History(s) && OthersSame(s, s', t) && Early(s.threads[t].pc) && Early(s'.threads[t].pc)
    requires s'.threads[t].pc.PushCas? && s'.threads[t] == s.threads[t].(pc := s'.threads[t].pc)
    requires node in s.heap && s'.heap == s.heap[node := s.heap[node].(next := s.head)]
    requires s'.log == s.log && s'.spine == s.spine && s'.finished == s.finished
    ensures History(s')
  {
    ValuesSame(s.heap, s'.heap, s.spine);
    assert Receipt(s, t);
    QuietStep(s, s', t);
  }

  lemma {:induction false} PushCasHistory(s: State, t: nat, spurious: bool)
    requires Safe(s) && History(s) && t < |s.threads| && s.threads[t].pc.PushCas?
    ensures History(DoPushCas(s, t, s.threads[t].pc.node, spurious))
  {
    var node := s.threads[t].pc.node;
    assert HasThread(s, node, t);
    var s' := DoPushCas(s, t, node, spurious);
    if s.head == s.heap[node].next && !spurious {
      assert Receipt(s, t);
      var e := Pushed(t, s.threads[t].call, s.heap[node].data);
      assert Values(s'.heap, s'.spine) == [s.heap[node].data] + Values(s.heap, s.spine);
      EventStep(s, s', t, e);
    } else {
      PushWriteHistory(s, s', t, node);
    }
  }

  lemma {:induction false} PopCasHistory(s: State, t: nat, spurious: bool)
    requires Safe(s) && History(s) && t < |s.threads| && s.threads[t].pc.PopCas?
    ensures History(DoPopCas(s, t, s.threads[t].pc.h, s.threads[t].pc.next, spurious))
  {
    var h := s.threads[t].pc.h;
    var s' := DoPopCas(s, t, h, s.threads[t].pc.next, spurious);
    assert Receipt(s, t) && Holds(s, s.threads[t]);
    if s.head == h && !spurious {
      assert h != NULL;
      assert Values(s.heap, s.spine)[0] == s.heap[h].data;
      assert Values(s'.heap, s'.spine) == Values(s.heap, s.spine)[1..];
      EventStep(s, s', t, Popped(t, s.threads[t].call, s.heap[h].data));
    } else {
      QuietStep(s, s', t);
    }
  }

  /** A pop that finds the head null returns at an instant when the stack is empty. */
  lemma {:induction false} PopLoadHistory(s: State, t: nat)
    requires Safe(s) && History(s) && t < |s.threads| && s.threads[t].pc.PopLoad?
    ensures History(DoPopLoad(s, t))
  {
    var s' := DoPopLoad(s, t);
    assert Receipt(s, t);
    if s.head == NULL {
      SpineAllocated(s);
      assert s.spine == [];
      assert Values(s.heap, s.spine) == [];
      assert s.log[..|s.log|] == s.log;
      QuietStep(s, s', t);
    } else {
      QuietStep(s, s', t);
    }
  }

  lemma {:induction false} PopDoneHistory(s: State, s': State, t: nat, at: nat, result: Value, retired: seq<Addr>)
    requires History(s) && t < |s.threads| && !s.threads[t].pc.Idle?
    requires s.threads[t].since <= at < |s.log| && s.log[at] == Popped(t, s.threads[t].call, result)
    requires s' == PopDone(s.(threads := s.threads[t := s.threads[t].(retired := retired)]), t, at, result)
    ensures History(s')
  {
    QuietStep(s, s', t);
  }

  lemma {:induction false} RetireHistory(s: State, t: nat)
    requires Safe(s) && History(s) && t < |s.threads| && s.threads[t].pc.Retire?
    ensures History(DoRetire(s, t, s.threads[t].pc.h, s.threads[t].pc.at, s.threads[t].pc.result))
  {
    var l := s.threads[t];
    var s' := DoRetire(s, t, l.pc.h, l.pc.at, l.pc.result);
    assert Receipt(s, t);
    if |l.retired + [l.pc.h]| >= RECLAIM_THRESHOLD {
      QuietStep(s, s', t);
    } else {
      PopDoneHistory(s, s', t, l.pc.at, l.pc.result, l.retired + [l.pc.h]);
    }
  }

  lemma {:induction false} ReclaimHistory(s: State, t: nat)
    requires Safe(s) && History(s) && t < |s.threads| && s.threads[t].pc.Reclaim?
    ensures var pc := s.threads[t].pc; History(DoReclaim(s, t, pc.k, pc.hazards, pc.remaining, pc.at, pc.result))
  {
    var l := s.threads[t];
    var s' := DoReclaim(s, t, l.pc.k, l.pc.hazards, l.pc.remaining, l.pc.at, l.pc.result);
    assert Receipt(s, t);
    if l.pc.k >= |l.retired| {
      PopDoneHistory(s, s', t, l.pc.at, l.pc.result, l.pc.remaining);
    } else if l.retired[l.pc.k] in l.pc.hazards {
      QuietStep(s, s', t);
    } else {
      OwnedInReclaim(l);
      assert HasThread(s, l.retired[l.pc.k], t);
      FreeHistory(s, s', t, l.retired[l.pc.k]);
    }
  }

  lemma {:induction false} FreeHistory(s: State, s': State, t: nat, a: Addr)
    requires Owners(s) && History(s) && OthersSame(s, s', t) && HasThread(s, a, t)
    requires s'.heap == s.heap - {a} && s'.log == s.log && s'.spine == s.spine && s'.finished == s.finished
    requires s.threads[t].pc.Reclaim? && s'.threads[t].pc.Reclaim? && Receipt(s', t)
    requires s'.threads[t].call == s.threads[t].call
    ensures History(s')
  {
    SpineAllocated(s);
    ValuesSame(s.heap, s'.heap, s.spine);
    forall u | 0 <= u < |s.threads| && u != t && (s.threads[u].pc.ClearDone? || s.threads[u].pc.ReadData?)
      ensures s.threads[u].pc.h != a
    {
      assert Owned(s.threads[u])[|s.threads[u].retired|] == s.threads[u].pc.h;
      assert HasThread(s, s.threads[u].pc.h, u);
    }
    QuietStep(s, s', t);
  }

  lemma {:induction false} SlotHistory(s: State, p: Addr, t: nat, pc: Pc)
    requires Safe(s) && History(s) && t < |s.threads| && !s.threads[t].pc.Idle? && !pc.Idle?
    requires Early(pc) ==> Early(s.threads[t].pc)
    requires Receipt(Goto(SetSlot(s, s.threads[t].myId, p), t, pc), t)
    ensures History(Goto(SetSlot(s, s.threads[t].myId, p), t, pc))
  {
    QuietStep(s, Goto(SetSlot(s, s.threads[t].myId, p), t, pc), t);
  }
}
