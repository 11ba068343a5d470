/**
 The lock-free stack that reclaims its nodes through hazard pointers, as a machine whose
 steps are the single atomic accesses of the program.

 Every thread runs push and pop; a pop publishes the head it has read in its hazard slot,
 validates it, and only then follows `next`.  A popped node goes to the thread's retired
 list; when that list reaches the threshold the thread scans every hazard slot, one load at
 a time, and frees the retired nodes it did not see.  The allocator may hand out any address
 that is not allocated at that moment, so addresses are reused.

 A run is a schedule: a list of (thread, choice) pairs.  `choice` resolves what the program
 leaves open: which operation an idle thread starts, the address `new` returns, and whether
 a weak compare-and-swap fails spuriously.
 */
module HazardMachine {

  const MAX_THREADS: nat := 32
  const SLOTS_PER_THREAD: nat := 2
  const RECLAIM_THRESHOLD: nat := 16

  type Value = int

  /** A machine address; NULL is never allocated. */
  type Addr = nat
  const NULL: Addr := 0

  datatype Option<+T> = None | Some(value: T)

  /** `birth` numbers the allocation: two nodes that live one after the other at the same
      address have different births.  No step of the program reads it. */
  datatype Node = Node(data: Value, next: Addr, birth: nat)

  datatype Record = Record(inUse: bool, slots: seq<Addr>)

  /** Where a thread stands; each constructor is the point just before one atomic access.
      `at` is the position of the call's own event in the log. */
  datatype Pc =
    | Idle
    | PushLoad(node: Addr)
    | PushCas(node: Addr)
    | PopLoad
    | Acquire(h: Addr, i: nat)
    | Publish(h: Addr)
    | Validate(h: Addr)
    | ClearRetry
    | ReadNext(h: Addr, birth: nat)
    | PopCas(h: Addr, next: Addr, birth: nat)
    | ClearDone(h: Addr, at: nat)
    | ReadData(h: Addr, at: nat)
    | Retire(h: Addr, at: nat, result: Value)
    | ScanInUse(i: nat, hazards: set<Addr>, at: nat, result: Value)
    | ScanSlot(i: nat, j: nat, hazards: set<Addr>, at: nat, result: Value)
    | Reclaim(k: nat, hazards: set<Addr>, remaining: seq<Addr>, at: nat, result: Value)
    | Stuck

  /** A thread's own variables.  `call` counts the calls it has started and `since` is the
      length of the log when the current call began. */
  datatype Local = Local(myId: nat, retired: seq<Addr>, pc: Pc, call: nat, since: nat)

  /** The successful compare-and-swaps on the head, in the order they happened. */
  datatype Event =
    | Pushed(thread: nat, call: nat, v: Value)
    | Popped(thread: nat, call: nat, v: Value)

  /** A finished call: it ran while the log grew from `since` to `until` events, and it claims
      to have taken effect at position `at`. */
  datatype Completed =
    | PushReturned(thread: nat, call: nat, v: Value, since: nat, at: nat, until: nat)
    | PopReturned(thread: nat, call: nat, result: Option<Value>, since: nat, at: nat, until: nat)

  /** Who is responsible for an allocated address. */
  datatype Owner = Stack | Of(thread: nat)

  /** The shared memory, the threads, and the bookkeeping that the theorems talk about:
      `spine` lists the stack from the top, `owner` says who holds each allocated address,
      `log` and `finished` are the history, and `fault` is set by a dereference or a delete of
      an address that is not allocated.  No step depends on the bookkeeping. */
  datatype State = State(
    heap: map<Addr, Node>,
    head: Addr,
    records: seq<Record>,
    threads: seq<Local>,
    allocCount: nat,
    freeCount: nat,
    fault: bool,
    births: nat,
    spine: seq<Addr>,
    owner: map<Addr, Owner>,
    log: seq<Event>,
    finished: seq<Completed>)

  datatype Choice = Choice(push: bool, v: Value, addr: Addr, spurious: bool)

  function Init(n: nat): State {
    State(map[], NULL,
          seq(MAX_THREADS, i => Record(false, [NULL, NULL])),
          seq(n, i => Local(MAX_THREADS, [], Idle, 0, 0)),
          0, 0, false, 0, [], map[], [], [])
  }

  // ----- helpers for writing steps

  function Goto(s: State, t: nat, pc: Pc): State
    requires t < |s.threads|
  {
    s.(threads := s.threads[t := s.threads[t].(pc := pc)])
  }

  function Fault(s: State): State {
    s.(fault := true)
  }

  /** Store into this thread's hazard slot 0. */
  function SetSlot(s: State, r: nat, p: Addr): State {
    if r < |s.records| && |s.records[r].slots| > 0
    then s.(records := s.records[r := s.records[r].(slots := s.records[r].slots[0 := p])])
    else s
  }

  function Return(s: State, t: nat, c: Completed): State
    requires t < |s.threads|
  {
    Goto(s, t, Idle).(finished := s.finished + [c])
  }

  // ----- push

  /** `new Node(val)` and the allocation counter. */
  function StartPush(s: State, t: nat, v: Value, a: Addr): State
    requires t < |s.threads|
  {
    if a == NULL || a in s.heap then s  // the allocator never returns such an address
    else
      s.(heap := s.heap[a := Node(v, NULL, s.births)], births := s.births + 1,
         allocCount := s.allocCount + 1, owner := s.owner[a := Of(t)],
         threads := s.threads[t := s.threads[t].(pc := PushLoad(a), call := s.threads[t].call + 1, since := |s.log|)])
  }

  function StartPop(s: State, t: nat): State
    requires t < |s.threads|
  {
    s.(threads := s.threads[t := s.threads[t].(pc := PopLoad, call := s.threads[t].call + 1, since := |s.log|)])
  }

  function DoPushLoad(s: State, t: nat, node: Addr): State
    requires t < |s.threads|
  {
    if node !in s.heap then Fault(s)
    else Goto(s.(heap := s.heap[node := s.heap[node].(next := s.head)]), t, PushCas(node))
  }

  /** The loop of weak compare-and-swaps; a failure leaves the current head in `next`. */
  function DoPushCas(s: State, t: nat, node: Addr, spurious: bool): State
    requires t < |s.threads|
  {
    if node !in s.heap then Fault(s)
    else if s.head == s.heap[node].next && !spurious then
      var l := s.threads[t];
      var v := s.heap[node].data;
      Return(s.(head := node, spine := [node] + s.spine, owner := s.owner[node := Stack],
                log := s.log + [Pushed(t, l.call, v)]),
             t, PushReturned(t, l.call, v, l.since, |s.log|, |s.log| + 1))
    else s.(heap := s.heap[node := s.heap[node].(next := s.head)])
  }

  // ----- pop

  function DoPopLoad(s: State, t: nat): State
    requires t < |s.threads|
  {
    var l := s.threads[t];
    if s.head == NULL then Return(s, t, PopReturned(t, l.call, None, l.since, |s.log|, |s.log|))
    else if l.myId < MAX_THREADS then Goto(s, t, Publish(s.head))
    else Goto(s, t, Acquire(s.head, 0))
  }

  /** One compare-and-swap of the search for a free record; running out of records is an
      assertion failure, after which the thread does nothing. */
  function DoAcquire(s: State, t: nat, h: Addr, i: nat): State
    requires t < |s.threads|
  {
    if i >= |s.records| then Goto(s, t, Stuck)
    else if s.records[i].inUse then Goto(s, t, Acquire(h, i + 1))
    else s.(records := s.records[i := s.records[i].(inUse := true)],
            threads := s.threads[t := s.threads[t].(myId := i, pc := Publish(h))])
  }

  function DoPublish(s: State, t: nat, h: Addr): State
    requires t < |s.threads|
  {
    Goto(SetSlot(s, s.threads[t].myId, h), t, Validate(h))
  }

  function DoValidate(s: State, t: nat, h: Addr): State
    requires t < |s.threads|
  {
    if s.head != h then Goto(s, t, ClearRetry)
    else Goto(s, t, ReadNext(h, if h in s.heap then s.heap[h].birth else 0))
  }

  function DoClearRetry(s: State, t: nat): State
    requires t < |s.threads|
  {
    Goto(SetSlot(s, s.threads[t].myId, NULL), t, PopLoad)
  }

  function DoReadNext(s: State, t: nat, h: Addr, birth: nat): State
    requires t < |s.threads|
  {
    if h !in s.heap then Fault(s) else Goto(s, t, PopCas(h, s.heap[h].next, birth))
  }

  function DoPopCas(s: State, t: nat, h: Addr, next: Addr, spurious: bool): State
    requires t < |s.threads|
  {
    if s.head == h && !spurious then
      var v := if h in s.heap then s.heap[h].data else 0;
      Goto(s.(head := next, spine := if s.spine == [] then [] else s.spine[1..],
              owner := s.owner[h := Of(t)],
              log := s.log + [Popped(t, s.threads[t].call, v)]),
           t, ClearDone(h, |s.log|))
    else Goto(s, t, ClearRetry)
  }

  function DoClearDone(s: State, t: nat, h: Addr, at: nat): State
    requires t < |s.threads|
  {
    Goto(SetSlot(s, s.threads[t].myId, NULL), t, ReadData(h, at))
  }

  function DoReadData(s: State, t: nat, h: Addr, at: nat): State
    requires t < |s.threads|
  {
    if h !in s.heap then Fault(s) else Goto(s, t, Retire(h, at, s.heap[h].data))
  }

  function PopDone(s: State, t: nat, at: nat, result: Value): State
    requires t < |s.threads|
  {
    var l := s.threads[t];
    Return(s, t, PopReturned(t, l.call, Some(result), l.since, at, |s.log|))
  }

  function DoRetire(s: State, t: nat, h: Addr, at: nat, result: Value): State
    requires t < |s.threads|
  {
    var s1 := s.(threads := s.threads[t := s.threads[t].(retired := s.threads[t].retired + [h])]);
    if |s1.threads[t].retired| >= RECLAIM_THRESHOLD then Goto(s1, t, ScanInUse(0, {}, at, result))
    else PopDone(s1, t, at, result)
  }

  // ----- scan_and_reclaim

  function DoScanInUse(s: State, t: nat, i: nat, hazards: set<Addr>, at: nat, result: Value): State
    requires t < |s.threads|
  {
    if i >= |s.records| then Goto(s, t, Reclaim(0, hazards, [], at, result))
    else if s.records[i].inUse then Goto(s, t, ScanSlot(i, 0, hazards, at, result))
    else Goto(s, t, ScanInUse(i + 1, hazards, at, result))
  }

  function DoScanSlot(s: State, t: nat, i: nat, j: nat, hazards: set<Addr>, at: nat, result: Value): State
    requires t < |s.threads|
  {
    var p := if i < |s.records| && j < |s.records[i].slots| then s.records[i].slots[j] else NULL;
    var seen := if p != NULL then hazards + {p} else hazards;
    if j + 1 < SLOTS_PER_THREAD then Goto(s, t, ScanSlot(i, j + 1, seen, at, result))
    else Goto(s, t, ScanInUse(i + 1, seen, at, result))
  }

  /** Keep or free the k-th retired node. */
  function DoReclaim(s: State, t: nat, k: nat, hazards: set<Addr>, remaining: seq<Addr>, at: nat, result: Value): State
    requires t < |s.threads|
  {
    var retired := s.threads[t].retired;
    if k >= |retired| then
      PopDone(s.(threads := s.threads[t := s.threads[t].(retired := remaining)]), t, at, result)
    else if retired[k] in hazards then
      Goto(s, t, Reclaim(k + 1, hazards, remaining + [retired[k]], at, result))
    else if retired[k] !in s.heap then Fault(s)
    else
      Goto(s.(heap := s.heap - {retired[k]}, owner := s.owner - {retired[k]}, freeCount := s.freeCount + 1),
           t, Reclaim(k + 1, hazards, remaining, at, result))
  }

  // ----- runs

  function Next(s: State, t: nat, ch: Choice): State {
    if s.fault || t >= |s.threads| then s
    else
      match s.threads[t].pc
      case Idle => if ch.push then StartPush(s, t, ch.v, ch.addr) else StartPop(s, t)
      case PushLoad(node) => DoPushLoad(s, t, node)
      case PushCas(node) => DoPushCas(s, t, node, ch.spurious)
      case PopLoad => DoPopLoad(s, t)
      case Acquire(h, i) => DoAcquire(s, t, h, i)
      case Publish(h) => DoPublish(s, t, h)
      case Validate(h) => DoValidate(s, t, h)
      case ClearRetry => DoClearRetry(s, t)
      case ReadNext(h, birth) => DoReadNext(s, t, h, birth)
      case PopCas(h, next, _) => DoPopCas(s, t, h, next, ch.spurious)
      case ClearDone(h, at) => DoClearDone(s, t, h, at)
      case ReadData(h, at) => DoReadData(s, t, h, at)
      case Retire(h, at, r) => DoRetire(s, t, h, at, r)
      case ScanInUse(i, hz, at, r) => DoScanInUse(s, t, i, hz, at, r)
      case ScanSlot(i, j, hz, at, r) => DoScanSlot(s, t, i, j, hz, at, r)
      case Reclaim(k, hz, rem, at, r) => DoReclaim(s, t, k, hz, rem, at, r)
      case Stuck => s
  }

  /** The state after a whole schedule, with `n` threads. */
  function Exec(n: nat, schedule: seq<(nat, Choice)>): State
    decreases |schedule|
  {
    if schedule == [] then Init(n)
    else
      var last := schedule[|schedule| - 1];
      Next(Exec(n, schedule[..|schedule| - 1]), last.0, last.1)
  }
}
