/**
 The Michael-Scott queue, as a machine whose steps are the single loads and
 compare-and-swaps of the program.  Nodes are never reused.
 */
module MsQueueMachine {

  type Value = int

  datatype Option<+T> = None | Some(value: T)

  /** `maker` is the thread that allocated the node and `place` its position in the chain of
      linked nodes.  No step of the program reads them. */
  datatype Node = Node(value: Value, next: Option<nat>, place: Option<nat>, maker: nat)

  /** A pointer a thread holds to a linked node, with the position it stands for. */
  datatype Ref = Ref(node: nat, pos: nat)

  /** Where a thread stands; each constructor is the point just before one atomic access. */
  datatype Pc =
    | Idle
    | EnqLoadTail(node: nat)
    | EnqLoadNext(node: nat, tail: Ref)
    | EnqCheck(node: nat, tail: Ref, next: Option<nat>)
    | EnqLink(node: nat, tail: Ref)
    | EnqSwing(node: nat, tail: Ref, at: nat)
    | EnqHelp(node: nat, tail: Ref, n: nat)
    | DeqLoadHead
    | DeqLoadTail(head: Ref)
    | DeqLoadNext(head: Ref, tail: Ref)
    | DeqCheck(head: Ref, tail: Ref, next: Option<nat>, at: nat)
    | DeqHelp(tail: Ref, n: nat)
    | DeqReadValue(head: Ref, n: nat)
    | DeqCas(head: Ref, n: nat, v: Value)

  datatype Local = Local(pc: Pc, call: nat, since: nat)

  datatype Event =
    | Enqueued(thread: nat, call: nat, v: Value)
    | Dequeued(thread: nat, call: nat, v: Value)

  datatype Completed =
    | EnqReturned(thread: nat, call: nat, v: Value, since: nat, at: nat, until: nat)
    | DeqReturned(thread: nat, call: nat, result: Option<Value>, since: nat, at: nat, until: nat)

  /** `chain` lists the nodes that have ever been linked, in order; `headPos` and `tailPos` are
      the positions of head and tail in it.  Like `log` and `finished` they are bookkeeping. */
  datatype State = State(
    nodes: seq<Node>, head: nat, tail: nat, threads: seq<Local>,
    chain: seq<nat>, headPos: nat, tailPos: nat,
    log: seq<Event>, finished: seq<Completed>)

  datatype Choice = Choice(enqueue: bool, v: Value, spurious: bool)

  /** n threads and the dummy sentinel. */
  function Init(n: nat): State {
    State([Node(0, None, Some(0), 0)], 0, 0, seq(n, i => Local(Idle, 0, 0)), [0], 0, 0, [], [])
  }

  function Goto(s: State, t: nat, pc: Pc): State
    requires t < |s.threads|
  {
    s.(threads := s.threads[t := s.threads[t].(pc := pc)])
  }

  function Return(s: State, t: nat, c: Completed): State
    requires t < |s.threads|
  {
    Goto(s, t, Idle).(finished := s.finished + [c])
  }

  function NextOf(s: State, node: nat): Option<nat> {
    if node < |s.nodes| then s.nodes[node].next else None
  }

  function Start(s: State, t: nat, ch: Choice): State
    requires t < |s.threads|
  {
    var l := s.threads[t];
    if ch.enqueue then
      s.(nodes := s.nodes + [Node(ch.v, None, None, t)],
         threads := s.threads[t := Local(EnqLoadTail(|s.nodes|), l.call + 1, |s.log|)])
    else s.(threads := s.threads[t := Local(DeqLoadHead, l.call + 1, |s.log|)])
  }

  /** tail_.compare_exchange_strong(tail.node, n) */
  function SwingTail(s: State, tail: Ref, n: nat): State {
    if s.tail == tail.node then s.(tail := n, tailPos := tail.pos + 1) else s
  }

  /** The compare-and-swap of the last node's `next` from null to the new node. */
  function DoLink(s: State, t: nat, node: nat, tail: Ref, spurious: bool): State
    requires t < |s.threads|
  {
    if tail.node < |s.nodes| && node < |s.nodes| && s.nodes[tail.node].next == None && !spurious then
      Goto(s.(nodes := s.nodes[tail.node := s.nodes[tail.node].(next := Some(node))]
                               [node := s.nodes[node].(place := Some(|s.chain|))],
              chain := s.chain + [node],
              log := s.log + [Enqueued(t, s.threads[t].call, s.nodes[node].value)]),
           t, EnqSwing(node, tail, |s.log|))
    else Goto(s, t, EnqLoadTail(node))
  }

  function DoSwing(s: State, t: nat, node: nat, tail: Ref, at: nat): State
    requires t < |s.threads|
  {
    var l := s.threads[t];
    var v := if node < |s.nodes| then s.nodes[node].value else 0;
    Return(SwingTail(s, tail, node), t, EnqReturned(t, l.call, v, l.since, at, |s.log|))
  }

  function DoDeqCheck(s: State, t: nat, head: Ref, tail: Ref, next: Option<nat>, at: nat): State
    requires t < |s.threads|
  {
    var l := s.threads[t];
    if s.head != head.node then Goto(s, t, DeqLoadHead)
    else if head.node == tail.node then
      match next
      case None => Return(s, t, DeqReturned(t, l.call, None, l.since, at, |s.log|))
      case Some(n) => Goto(s, t, DeqHelp(tail, n))
    else
      match next
      case None => Goto(s, t, DeqLoadHead)
      case Some(n) => Goto(s, t, DeqReadValue(head, n))
  }

  function DoDeqCas(s: State, t: nat, head: Ref, n: nat, v: Value, spurious: bool): State
    requires t < |s.threads|
  {
    var l := s.threads[t];
    if s.head == head.node && !spurious then
      Return(s.(head := n, headPos := head.pos + 1, log := s.log + [Dequeued(t, l.call, v)]),
             t, DeqReturned(t, l.call, Some(v), l.since, |s.log|, |s.log| + 1))
    else Goto(s, t, DeqLoadHead)
  }

  function Next(s: State, t: nat, ch: Choice): State {
    if t >= |s.threads| then s
    else
      match s.threads[t].pc
      case Idle => Start(s, t, ch)
      case EnqLoadTail(node) => Goto(s, t, EnqLoadNext(node, Ref(s.tail, s.tailPos)))
      case EnqLoadNext(node, tail) => Goto(s, t, EnqCheck(node, tail, NextOf(s, tail.node)))
      case EnqCheck(node, tail, next) =>
        if s.tail != tail.node then Goto(s, t, EnqLoadTail(node))
        else if next == None then Goto(s, t, EnqLink(node, tail))
        else Goto(s, t, EnqHelp(node, tail, next.value))
      case EnqLink(node, tail) => DoLink(s, t, node, tail, ch.spurious)
      case EnqSwing(node, tail, at) => DoSwing(s, t, node, tail, at)
      case EnqHelp(node, tail, n) => Goto(SwingTail(s, tail, n), t, EnqLoadTail(node))
      case DeqLoadHead => Goto(s, t, DeqLoadTail(Ref(s.head, s.headPos)))
      case DeqLoadTail(head) => Goto(s, t, DeqLoadNext(head, Ref(s.tail, s.tailPos)))
      case DeqLoadNext(head, tail) => Goto(s, t, DeqCheck(head, tail, NextOf(s, head.node), |s.log|))
      case DeqCheck(head, tail, next, at) => DoDeqCheck(s, t, head, tail, next, at)
      case DeqHelp(tail, n) => Goto(SwingTail(s, tail, n), t, DeqLoadHead)
      case DeqReadValue(head, n) => Goto(s, t, DeqCas(head, n, if n < |s.nodes| then s.nodes[n].value else 0))
      case DeqCas(head, n, v) => DoDeqCas(s, t, head, n, v, ch.spurious)
  }

  function Exec(n: nat, schedule: seq<(nat, Choice)>): State
    decreases |schedule|
  {
    if schedule == [] then Init(n)
    else
      var last := schedule[|schedule| - 1];
      Next(Exec(n, schedule[..|schedule| - 1]), last.0, last.1)
  }
}

/**
 The queue is linearisable to a sequential FIFO queue, tail never falls behind head and lags
 the last node by at most one link.
 */
module MsQueueProof {
  import opened CallRecords
  import opened MsQueueMachine
  import opened MsQueueCalls

  /** The sequential queue, oldest first; None when the history is not one of a queue. */
  function Replay(log: seq<Event>): Option<seq<Value>>
    decreases |log|
  {
    if log == [] then Some([])
    else
      match Replay(log[..|log| - 1])
      case None => None
      case Some(queue) => Apply(queue, log[|log| - 1])
  }

  function Apply(queue: seq<Value>, e: Event): Option<seq<Value>> {
    match e
    case Enqueued(_, _, v) => Some(queue + [v])
    case Dequeued(_, _, v) => if queue != [] && queue[0] == v then Some(queue[1..]) else None
  }

  function EnqueuedValues(log: seq<Event>): seq<Value> {
    if log == [] then []
    else EnqueuedValues(log[..|log| - 1]) + if log[|log| - 1].Enqueued? then [log[|log| - 1].v] else []
  }

  function DequeuedValues(log: seq<Event>): seq<Value> {
    if log == [] then []
    else DequeuedValues(log[..|log| - 1]) + if log[|log| - 1].Dequeued? then [log[|log| - 1].v] else []
  }

  /** What a finished call must be able to show. */
  ghost predicate Justified(log: seq<Event>, c: Completed) {
    && c.since <= c.at <= c.until <= |log|
    && match c
       case EnqReturned(t, n, v, _, at, until) => at < until && log[at] == Enqueued(t, n, v)
       case DeqReturned(t, n, Some(v), _, at, until) => at < until && log[at] == Dequeued(t, n, v)
       case DeqReturned(_, _, None, _, at, _) => Replay(log[..at]) == Some([])
  }

  // ----- the invariant

  function After(chain: seq<nat>, i: int): Option<nat> {
    if 0 <= i && i + 1 < |chain| then Some(chain[i + 1]) else None
  }

  ghost predicate Linked(nodes: seq<Node>, chain: seq<nat>, i: int) {
    && 0 <= i < |chain|
    && chain[i] < |nodes|
    && nodes[chain[i]].place == Some(i)
    && nodes[chain[i]].next == After(chain, i)
  }

  ghost predicate ChainOk(s: State) {
    && s.headPos <= s.tailPos < |s.chain| <= s.tailPos + 2
    && s.head == s.chain[s.headPos] && s.tail == s.chain[s.tailPos]
    && (forall i :: 0 <= i < |s.chain| ==> Linked(s.nodes, s.chain, i))
    && (forall a :: 0 <= a < |s.nodes| ==> UnlinkedOk(s.nodes[a]))
  }

  predicate UnlinkedOk(n: Node) {
    n.place == None ==> n.next == None
  }

  ghost predicate RefOk(chain: seq<nat>, r: Ref) {
    r.pos < |chain| && chain[r.pos] == r.node
  }

  /** `n` follows `r` in the chain. */
  ghost predicate FollowedBy(chain: seq<nat>, r: Ref, n: nat) {
    r.pos + 1 < |chain| && chain[r.pos + 1] == n
  }

  /** Thread t's own node, not linked yet. */
  ghost predicate Mine(nodes: seq<Node>, t: nat, node: nat) {
    node < |nodes| && nodes[node].place == None && nodes[node].maker == t
  }

  ghost predicate ThreadOk(s: State, t: nat, l: Local) {
    && (!l.pc.Idle? ==> l.since <= |s.log|)
    && match l.pc
       case Idle => true
       case EnqLoadTail(node) => Mine(s.nodes, t, node)
       case EnqLoadNext(node, tail) => Mine(s.nodes, t, node) && RefOk(s.chain, tail) && tail.pos <= s.tailPos
       case EnqCheck(node, tail, next) =>
         && Mine(s.nodes, t, node) && RefOk(s.chain, tail) && tail.pos <= s.tailPos
         && (next.Some? ==> FollowedBy(s.chain, tail, next.value))
       case EnqLink(node, tail) => Mine(s.nodes, t, node) && RefOk(s.chain, tail) && tail.pos <= s.tailPos
       case EnqSwing(node, tail, at) =>
         && RefOk(s.chain, tail) && tail.pos <= s.tailPos && FollowedBy(s.chain, tail, node)
         && node < |s.nodes| && l.since <= at < |s.log| && s.log[at] == Enqueued(t, l.call, s.nodes[node].value)
       case EnqHelp(node, tail, n) =>
         && Mine(s.nodes, t, node) && RefOk(s.chain, tail) && tail.pos <= s.tailPos && FollowedBy(s.chain, tail, n)
       case DeqLoadHead => true
       case DeqLoadTail(head) => RefOk(s.chain, head) && head.pos <= s.headPos
       case DeqLoadNext(head, tail) =>
         && RefOk(s.chain, head) && head.pos <= s.headPos
         && RefOk(s.chain, tail) && head.pos <= tail.pos <= s.tailPos
       case DeqCheck(head, tail, next, at) =>
         && RefOk(s.chain, head) && head.pos <= s.headPos
         && RefOk(s.chain, tail) && head.pos <= tail.pos <= s.tailPos
         && l.since <= at <= |s.log|
         && (next.Some? ==> FollowedBy(s.chain, head, next.value))
         && (next.None? ==> Replay(s.log[..at]) == Some([]))
       case DeqHelp(tail, n) => RefOk(s.chain, tail) && tail.pos <= s.tailPos && FollowedBy(s.chain, tail, n)
       case DeqReadValue(head, n) => RefOk(s.chain, head) && head.pos < s.tailPos && FollowedBy(s.chain, head, n)
       case DeqCas(head, n, v) =>
         && RefOk(s.chain, head) && head.pos < s.tailPos && FollowedBy(s.chain, head, n)
         && n < |s.nodes| && s.nodes[n].value == v
  }

  /** The values between head and the end of the chain. */
  function Contents(nodes: seq<Node>, chain: seq<nat>, headPos: nat): seq<Value>
    requires headPos < |chain|
  {
    seq(|chain| - 1 - headPos, i requires 0 <= i < |chain| - 1 - headPos =>
      if chain[headPos + 1 + i] < |nodes| then nodes[chain[headPos + 1 + i]].value else 0)
  }

  /** The call in progress has not taken effect yet. */
  predicate Early(pc: Pc) {
    !pc.Idle? && !pc.EnqSwing?
  }

  ghost predicate EventOk(s: State, e: Event) {
    && e.thread < |s.threads|
    && e.call <= s.threads[e.thread].call
    && (e.call == s.threads[e.thread].call ==> !Early(s.threads[e.thread].pc))
  }

  ghost predicate FinishedOk(s: State, c: Completed) {
    && Justified(s.log, c)
    && c.thread < |s.threads|
    && c.call <= s.threads[c.thread].call
    && (c.call == s.threads[c.thread].call ==> s.threads[c.thread].pc.Idle?)
  }

  predicate SameCall(a: Event, b: Event) {
    a.thread == b.thread && a.call == b.call
  }

  predicate SameReturn(a: Completed, b: Completed) {
    a.thread == b.thread && a.call == b.call
  }

  ghost predicate HistoryOk(s: State) {
    && (forall i :: 0 <= i < |s.log| ==> EventOk(s, s.log[i]))
    && (forall i, j :: 0 <= i < j < |s.log| ==> !SameCall(s.log[i], s.log[j]))
    && (forall i :: 0 <= i < |s.finished| ==> FinishedOk(s, s.finished[i]))
    && (forall i, j :: 0 <= i < j < |s.finished| ==> !SameReturn(s.finished[i], s.finished[j]))
  }

  ghost predicate Ok(s: State) {
    && ChainOk(s)
    && (forall t: nat :: t < |s.threads| ==> ThreadOk(s, t, s.threads[t]))
    && Replay(s.log) == Some(Contents(s.nodes, s.chain, s.headPos))
    && HistoryOk(s)
  }

  lemma {:induction false} InitOk(n: nat)
    ensures Ok(Init(n))
  {
    var s := Init(n);
    assert Linked(s.nodes, s.chain, 0);
    assert Contents(s.nodes, s.chain, s.headPos) == [];
  }

  // ----- frames

  ghost predicate Kept(s: State, s': State, t: nat, a: int)
    requires 0 <= a < |s.nodes| <= |s'.nodes|
  {
    && s'.nodes[a].value == s.nodes[a].value && s'.nodes[a].maker == s.nodes[a].maker
    && (s.nodes[a].place == None && s.nodes[a].maker != t ==> s'.nodes[a] == s.nodes[a])
  }

  /** The queue only grows: the chain, head, tail and the log move forward, and thread t leaves
      the unlinked nodes of other threads alone. */
  ghost predicate Grows(s: State, s': State, t: nat) {
    && |s.nodes| <= |s'.nodes| && (forall a :: 0 <= a < |s.nodes| ==> Kept(s, s', t, a))
    && s.chain <= s'.chain
    && s.headPos <= s'.headPos && s.tailPos <= s'.tailPos
    && s.log <= s'.log
  }

  lemma {:induction false} OtherThreadOk(s: State, s': State, t: nat, u: nat, l: Local)
    requires Grows(s, s', t) && u != t && ThreadOk(s, u, l)
    ensures ThreadOk(s', u, l)
  {
    if l.pc.EnqLoadTail? || l.pc.EnqLoadNext? || l.pc.EnqCheck? || l.pc.EnqLink? || l.pc.EnqHelp? || l.pc.EnqSwing? {
      assert l.pc.node < |s.nodes| && Kept(s, s', t, l.pc.node);
    }
    if l.pc.DeqCas? {
      assert Kept(s, s', t, l.pc.n);
    }
    if l.pc.DeqCheck? {
      assert s'.log[..l.pc.at] == s.log[..l.pc.at];
    }
  }

  lemma {:induction false} JustifiedExtends(log: seq<Event>, log': seq<Event>, c: Completed)
    requires Justified(log, c) && log <= log'
    ensures Justified(log', c)
  {
    assert log'[..c.at] == log[..c.at];
  }

  /** The step is the return of thread `t`'s call. */
  ghost predicate Finishes(s: State, s': State, t: nat)
    requires OthersSame(s, s', t)
  {
    && |s'.finished| == |s.finished| + 1 && s'.finished[..|s.finished|] == s.finished
    && s'.finished[|s.finished|].thread == t && s'.finished[|s.finished|].call == s.threads[t].call
    && Justified(s'.log, s'.finished[|s.finished|])
    && !s.threads[t].pc.Idle? && s'.threads[t].pc.Idle?
  }

  /** The history bookkeeping of a step of thread t. */
  lemma {:induction false} HistoryStep(s: State, s': State, t: nat)
    requires HistoryOk(s) && OthersSame(s, s', t)
    requires s'.log == s.log
             || (|s'.log| == |s.log| + 1 && s'.log[..|s.log|] == s.log && Early(s.threads[t].pc)
                 && s'.log[|s.log|].thread == t && s'.log[|s.log|].call == s.threads[t].call)
    requires if s.threads[t].pc.Idle? then s'.threads[t].call > s.threads[t].call
              else s'.threads[t].call == s.threads[t].call
    requires Early(s'.threads[t].pc) ==> s'.log == s.log && (Early(s.threads[t].pc) || s.threads[t].pc.Idle?)
    requires s'.finished == s.finished || Finishes(s, s', t)
    ensures HistoryOk(s')
  {
    assert s.log <= s'.log;
    forall i | 0 <= i < |s.log|
      ensures EventOk(s', s.log[i]) && s'.log[i] == s.log[i]
      ensures |s'.log| > |s.log| ==> !SameCall(s.log[i], s'.log[|s.log|])
    {
      assert EventOk(s, s.log[i]);
    }
    forall i, j | 0 <= i < j < |s'.log|
      ensures !SameCall(s'.log[i], s'.log[j])
    {
      assert j < |s.log| ==> !SameCall(s.log[i], s.log[j]);
    }
    forall i | 0 <= i < |s.finished|
      ensures FinishedOk(s', s.finished[i]) && s'.finished[i] == s.finished[i]
      ensures Finishes(s, s', t) ==> !SameReturn(s.finished[i], s'.finished[|s.finished|])
    {
      assert FinishedOk(s, s.finished[i]);
      JustifiedExtends(s.log, s'.log, s.finished[i]);
    }
    forall i, j | 0 <= i < j < |s'.finished|
      ensures !SameReturn(s'.finished[i], s'.finished[j])
    {
      assert j < |s.finished| ==> !SameReturn(s.finished[i], s.finished[j]);
    }
  }

  lemma {:induction false} AssembleOk(s: State, s': State, t: nat)
    requires Ok(s) && OthersSame(s, s', t) && Grows(s, s', t)
    requires ChainOk(s') && HistoryOk(s') && ThreadOk(s', t, s'.threads[t])
    requires Replay(s'.log) == Some(Contents(s'.nodes, s'.chain, s'.headPos))
    ensures Ok(s')
  {
    forall u: nat | u < |s'.threads|
      ensures ThreadOk(s', u, s'.threads[u])
    {
      if u != t {
        assert ThreadOk(s, u, s.threads[u]);
        OtherThreadOk(s, s', t, u, s.threads[u]);
      }
    }
  }

  /** A step that changes nothing but thread t's own variables and the finished calls. */
  lemma {:induction false} LocalStep(s: State, s': State, t: nat)
    requires Ok(s) && OthersSame(s, s', t)
    requires s' == s.(threads := s'.threads, finished := s'.finished)
    requires ThreadOk(s', t, s'.threads[t])
    requires if s.threads[t].pc.Idle? then s'.threads[t].call > s.threads[t].call
              else s'.threads[t].call == s.threads[t].call
    requires Early(s'.threads[t].pc) ==> Early(s.threads[t].pc) || s.threads[t].pc.Idle?
    requires s'.finished == s.finished || Finishes(s, s', t)
    ensures Ok(s')
  {
    HistoryStep(s, s', t);
    AssembleOk(s, s', t);
  }

  // ----- steps

  lemma {:induction false} ContentsFrame(nodes: seq<Node>, nodes': seq<Node>, chain: seq<nat>, headPos: nat)
    requires headPos < |chain| && |nodes| <= |nodes'|
    requires forall i :: 0 <= i < |chain| ==> chain[i] < |nodes| && nodes'[chain[i]].value == nodes[chain[i]].value
    ensures Contents(nodes', chain, headPos) == Contents(nodes, chain, headPos)
  {
  }

  lemma {:induction false} ChainInRange(s: State)
    requires ChainOk(s)
    ensures forall i :: 0 <= i < |s.chain| ==> s.chain[i] < |s.nodes|
  {
    forall i | 0 <= i < |s.chain|
      ensures s.chain[i] < |s.nodes|
    {
      assert Linked(s.nodes, s.chain, i);
    }
  }

  lemma {:induction false} StartOk(s: State, t: nat, ch: Choice)
    requires Ok(s) && t < |s.threads| && s.threads[t].pc.Idle?
    ensures Ok(Start(s, t, ch))
  {
    var s' := Start(s, t, ch);
    if ch.enqueue {
      forall i | 0 <= i < |s'.chain|
        ensures Linked(s'.nodes, s'.chain, i)
      {
        assert Linked(s.nodes, s.chain, i);
      }
      ChainInRange(s);
      ContentsFrame(s.nodes, s'.nodes, s.chain, s.headPos);
      HistoryStep(s, s', t);
      AssembleOk(s, s', t);
    } else {
      LocalStep(s, s', t);
    }
  }

  /** What a load of `next` through a held pointer returns is the next node of the chain. */
  lemma {:induction false} LoadNext(s: State, r: Ref)
    requires ChainOk(s) && RefOk(s.chain, r)
    ensures match NextOf(s, r.node)
            case Some(n) => FollowedBy(s.chain, r, n)
            case None => r.pos == |s.chain| - 1
  {
    assert Linked(s.nodes, s.chain, r.pos);
  }

  /** Equal pointers stand for equal positions. */
  lemma {:induction false} SamePlace(s: State, i: nat, j: nat)
    requires ChainOk(s) && i < |s.chain| && j < |s.chain| && s.chain[i] == s.chain[j]
    ensures i == j
  {
    assert Linked(s.nodes, s.chain, i) && Linked(s.nodes, s.chain, j);
  }

  lemma {:induction false} SwingTailOk(s: State, t: nat, tail: Ref, n: nat)
    requires Ok(s) && t < |s.threads| && RefOk(s.chain, tail) && FollowedBy(s.chain, tail, n)
    ensures Ok(SwingTail(s, tail, n)) && Grows(s, SwingTail(s, tail, n), t)
  {
    if s.tail == tail.node {
      SamePlace(s, s.tailPos, tail.pos);
      var s' := SwingTail(s, tail, n);
      forall u: nat | u < |s'.threads|
        ensures ThreadOk(s', u, s'.threads[u])
      {
        assert ThreadOk(s, u, s.threads[u]);
        OtherThreadOk(s, s', u + 1, u, s.threads[u]);
      }
      forall i | 0 <= i < |s'.log|
        ensures EventOk(s', s'.log[i])
      {
        assert EventOk(s, s.log[i]);
      }
      forall i | 0 <= i < |s'.finished|
        ensures FinishedOk(s', s'.finished[i])
      {
        assert FinishedOk(s, s.finished[i]);
      }
    }
  }

  lemma {:induction false} EnqHelpOk(s: State, t: nat)
    requires Ok(s) && t < |s.threads| && s.threads[t].pc.EnqHelp?
    ensures var pc := s.threads[t].pc; Ok(Goto(SwingTail(s, pc.tail, pc.n), t, EnqLoadTail(pc.node)))
  {
    var pc := s.threads[t].pc;
    assert ThreadOk(s, t, s.threads[t]);
    SwingTailOk(s, t, pc.tail, pc.n);
    var m := SwingTail(s, pc.tail, pc.n);
    LocalStep(m, Goto(m, t, EnqLoadTail(pc.node)), t);
  }

  lemma {:induction false} DeqHelpOk(s: State, t: nat)
    requires Ok(s) && t < |s.threads| && s.threads[t].pc.DeqHelp?
    ensures var pc := s.threads[t].pc; Ok(Goto(SwingTail(s, pc.tail, pc.n), t, DeqLoadHead))
  {
    var pc := s.threads[t].pc;
    assert ThreadOk(s, t, s.threads[t]);
    SwingTailOk(s, t, pc.tail, pc.n);
    var m := SwingTail(s, pc.tail, pc.n);
    LocalStep(m, Goto(m, t, DeqLoadHead), t);
  }

  lemma {:induction false} SwingOk(s: State, t: nat)
    requires Ok(s) && t < |s.threads| && s.threads[t].pc.EnqSwing?
    ensures var pc := s.threads[t].pc; Ok(DoSwing(s, t, pc.node, pc.tail, pc.at))
  {
    var pc := s.threads[t].pc;
    assert ThreadOk(s, t, s.threads[t]);
    SwingTailOk(s, t, pc.tail, pc.node);
    LocalStep(SwingTail(s, pc.tail, pc.node), DoSwing(s, t, pc.node, pc.tail, pc.at), t);
  }

  lemma {:induction false} ReplayExtends(log: seq<Event>, e: Event)
    requires Replay(log).Some?
    ensures Replay(log + [e]) == Apply(Replay(log).value, e)
  {
    assert (log + [e])[..|log|] == log;
  }

  lemma {:induction false} LinkChain(s: State, s': State, t: nat, node: nat, tail: Ref)
    requires ChainOk(s) && Mine(s.nodes, t, node) && RefOk(s.chain, tail) && tail.pos <= s.tailPos
    requires tail.node < |s.nodes| && s.nodes[tail.node].next == None
    requires s'.nodes == s.nodes[tail.node := s.nodes[tail.node].(next := Some(node))]
                                [node := s.nodes[node].(place := Some(|s.chain|))]
    requires s'.chain == s.chain + [node]
    requires s'.head == s.head && s'.tail == s.tail && s'.headPos == s.headPos && s'.tailPos == s.tailPos
    ensures ChainOk(s') && tail.pos == |s.chain| - 1 && tail.node != node
    ensures Contents(s'.nodes, s'.chain, s'.headPos) == Contents(s.nodes, s.chain, s.headPos) + [s.nodes[node].value]
  {
    LoadNext(s, tail);
    assert Linked(s.nodes, s.chain, tail.pos);
    forall i | 0 <= i < |s'.chain|
      ensures Linked(s'.nodes, s'.chain, i)
    {
      if i < |s.chain| {
        assert Linked(s.nodes, s.chain, i);
      }
    }
    forall a | 0 <= a < |s'.nodes|
      ensures UnlinkedOk(s'.nodes[a])
    {
      assert UnlinkedOk(s.nodes[a]);
    }
    ChainInRange(s);
  }

  /** Linking the new node behind the last one appends its value to the queue. */
  lemma {:induction false} LinkOk(s: State, t: nat, spurious: bool)
    requires Ok(s) && t < |s.threads| && s.threads[t].pc.EnqLink?
    ensures var pc := s.threads[t].pc; Ok(DoLink(s, t, pc.node, pc.tail, spurious))
  {
    var node, tail := s.threads[t].pc.node, s.threads[t].pc.tail;
    assert ThreadOk(s, t, s.threads[t]);
    var s' := DoLink(s, t, node, tail, spurious);
    if tail.node < |s.nodes| && s.nodes[tail.node].next == None && !spurious {
      LinkChain(s, s', t, node, tail);
      ReplayExtends(s.log, Enqueued(t, s.threads[t].call, s.nodes[node].value));
      assert Linked(s.nodes, s.chain, tail.pos);
      HistoryStep(s, s', t);
      AssembleOk(s, s', t);
    } else {
      LocalStep(s, s', t);
    }
  }

  /** A null `next` behind head means that nothing is in the queue at that instant. */
  lemma {:induction false} DeqLoadNextOk(s: State, t: nat)
    requires Ok(s) && t < |s.threads| && s.threads[t].pc.DeqLoadNext?
    ensures var pc := s.threads[t].pc; Ok(Goto(s, t, DeqCheck(pc.head, pc.tail, NextOf(s, pc.head.node), |s.log|)))
  {
    var pc := s.threads[t].pc;
    assert ThreadOk(s, t, s.threads[t]);
    LoadNext(s, pc.head);
    assert s.log[..|s.log|] == s.log;
    if NextOf(s, pc.head.node) == None {
      assert Contents(s.nodes, s.chain, s.headPos) == [];
    }
    LocalStep(s, Goto(s, t, DeqCheck(pc.head, pc.tail, NextOf(s, pc.head.node), |s.log|)), t);
  }

  lemma {:induction false} DeqCheckOk(s: State, t: nat)
    requires Ok(s) && t < |s.threads| && s.threads[t].pc.DeqCheck?
    ensures var pc := s.threads[t].pc; Ok(DoDeqCheck(s, t, pc.head, pc.tail, pc.next, pc.at))
  {
    var pc := s.threads[t].pc;
    assert ThreadOk(s, t, s.threads[t]);
    if pc.head.node == pc.tail.node {
      SamePlace(s, pc.head.pos, pc.tail.pos);
    }
    LocalStep(s, DoDeqCheck(s, t, pc.head, pc.tail, pc.next, pc.at), t);
  }

  lemma {:induction false} ReadValueOk(s: State, t: nat)
    requires Ok(s) && t < |s.threads| && s.threads[t].pc.DeqReadValue?
    ensures var pc := s.threads[t].pc;
            Ok(Goto(s, t, DeqCas(pc.head, pc.n, if pc.n < |s.nodes| then s.nodes[pc.n].value else 0)))
  {
    var pc := s.threads[t].pc;
    assert ThreadOk(s, t, s.threads[t]);
    ChainInRange(s);
    LocalStep(s, Goto(s, t, DeqCas(pc.head, pc.n, if pc.n < |s.nodes| then s.nodes[pc.n].value else 0)), t);
  }

  /** Moving head to the next node takes the oldest value, and tail is already past it. */
  lemma {:induction false} DeqCasOk(s: State, t: nat, spurious: bool)
    requires Ok(s) && t < |s.threads| && s.threads[t].pc.DeqCas?
    ensures var pc := s.threads[t].pc; Ok(DoDeqCas(s, t, pc.head, pc.n, pc.v, spurious))
  {
    var pc := s.threads[t].pc;
    assert ThreadOk(s, t, s.threads[t]);
    var s' := DoDeqCas(s, t, pc.head, pc.n, pc.v, spurious);
    if s.head == pc.head.node && !spurious {
      SamePlace(s, s.headPos, pc.head.pos);
      var q := Contents(s.nodes, s.chain, s.headPos);
      assert q[0] == pc.v;
      assert Contents(s'.nodes, s'.chain, s'.headPos) == q[1..];
      ReplayExtends(s.log, Dequeued(t, s.threads[t].call, pc.v));
      HistoryStep(s, s', t);
      AssembleOk(s, s', t);
    } else {
      LocalStep(s, s', t);
    }
  }

  lemma {:induction false} EnqueueOk(s: State, t: nat, ch: Choice)
    requires Ok(s) && t < |s.threads|
    requires var pc := s.threads[t].pc; pc.EnqLoadNext? || pc.EnqLink? || pc.EnqSwing? || pc.EnqHelp?
    ensures Ok(Next(s, t, ch))
  {
    assert ThreadOk(s, t, s.threads[t]);
    match s.threads[t].pc
    case EnqLoadNext(_, tail) =>
      LoadNext(s, tail);
      LocalStep(s, Next(s, t, ch), t);
    case EnqLink(_, _) => LinkOk(s, t, ch.spurious);
    case EnqSwing(_, _, _) => SwingOk(s, t);
    case EnqHelp(_, _, _) => EnqHelpOk(s, t);
  }

  lemma {:induction false} NextOk(s: State, t: nat, ch: Choice)
    requires Ok(s)
    ensures Ok(Next(s, t, ch))
  {
    if t < |s.threads| {
      assert ThreadOk(s, t, s.threads[t]);
      match s.threads[t].pc
      case Idle => StartOk(s, t, ch);
      case EnqLoadNext(_, _) | EnqLink(_, _) | EnqSwing(_, _, _) | EnqHelp(_, _, _) => EnqueueOk(s, t, ch);
      case DeqLoadNext(_, _) => DeqLoadNextOk(s, t);
      case DeqCheck(_, _, _, _) => DeqCheckOk(s, t);
      case DeqHelp(_, _) => DeqHelpOk(s, t);
      case DeqReadValue(_, _) => ReadValueOk(s, t);
      case DeqCas(_, _, _) => DeqCasOk(s, t, ch.spurious);
      case _ => LocalStep(s, Next(s, t, ch), t);
    }
  }

  lemma {:induction false} ExecOk(n: nat, schedule: seq<(nat, Choice)>)
    ensures Ok(Exec(n, schedule)) && Asked(Exec(n, schedule), Calls(n, schedule))
    decreases |schedule|
  {
    if schedule == [] {
      InitOk(n);
    } else {
      var last := schedule[|schedule| - 1];
      ExecOk(n, schedule[..|schedule| - 1]);
      NextOk(Exec(n, schedule[..|schedule| - 1]), last.0, last.1);
      NextAsked(Exec(n, schedule[..|schedule| - 1]), last.0, last.1, Calls(n, schedule[..|schedule| - 1]));
    }
  }

  // ----- the theorems

  /** In every run tail is at or past head, and at most one link short of the last node, and
      the chain from head carries the values of the sequential queue the log describes. */
  lemma {:induction false} TailLagsByAtMostOneLink(n: nat, schedule: seq<(nat, Choice)>)
    ensures var s := Exec(n, schedule);
            && s.headPos <= s.tailPos < |s.chain| <= s.tailPos + 2
            && s.head == s.chain[s.headPos] && s.tail == s.chain[s.tailPos]
            && (forall i :: 0 <= i < |s.chain| ==> NextOf(s, s.chain[i]) == After(s.chain, i))
            && Replay(s.log) == Some(Contents(s.nodes, s.chain, s.headPos))
  {
    ExecOk(n, schedule);
    var s := Exec(n, schedule);
    forall i | 0 <= i < |s.chain|
      ensures NextOf(s, s.chain[i]) == After(s.chain, i)
    {
      assert Linked(s.nodes, s.chain, i);
    }
  }

  lemma {:induction false} FifoOrder(log: seq<Event>)
    requires Replay(log).Some?
    ensures EnqueuedValues(log) == DequeuedValues(log) + Replay(log).value
    decreases |log|
  {
    if log != [] {
      FifoOrder(log[..|log| - 1]);
    }
  }

  /** Conservation: the values enqueued so far are, in order, those dequeued so far followed by
      those still in the queue; so each is dequeued at most once, none is lost, none invented. */
  lemma {:induction false} ValuesLeaveInOrder(n: nat, schedule: seq<(nat, Choice)>)
    ensures var s := Exec(n, schedule);
            s.headPos < |s.chain|
            && EnqueuedValues(s.log) == DequeuedValues(s.log) + Contents(s.nodes, s.chain, s.headPos)
  {
    ExecOk(n, schedule);
    FifoOrder(Exec(n, schedule).log);
  }

  predicate TakesEffect(c: Completed) {
    c.EnqReturned? || c.result.Some?
  }

  /** Linearisability: every finished call is the operation its thread asked for when it began
      that call, an enqueue with its own argument, and ran when it says it did; it took effect
      at one place of the FIFO log that lies within the call (a dequeue that found nothing: at
      an instant of the call when the queue was empty); no two calls share an event, and calls
      that do not overlap keep their order. */
  lemma {:induction false} FinishedCallsAreLinearised(n: nat, schedule: seq<(nat, Choice)>, i: nat, j: nat)
    requires i < |Exec(n, schedule).finished| && j < |Exec(n, schedule).finished|
    ensures var s := Exec(n, schedule);
            var c, d := s.finished[i], s.finished[j];
            && Justified(s.log, c) && ReturnAsked(Calls(n, schedule), c)
            && (i != j ==> c.thread != d.thread || c.call != d.call)
            && (i != j && TakesEffect(c) && TakesEffect(d) ==> c.at != d.at)
            && (i != j && TakesEffect(c) && TakesEffect(d) && c.until <= d.since ==> c.at < d.at)
  {
    ExecOk(n, schedule);
    var s := Exec(n, schedule);
    assert FinishedOk(s, s.finished[i]) && FinishedOk(s, s.finished[j]);
    assert i < j ==> !SameReturn(s.finished[i], s.finished[j]);
    assert j < i ==> !SameReturn(s.finished[j], s.finished[i]);
  }

  /** Every event of the log is the effect of the operation that was asked for: what an enqueue
      puts into the queue is the argument of that very call. */
  lemma {:induction false} EventsAreTheCallsAskedFor(n: nat, schedule: seq<(nat, Choice)>, i: nat)
    requires i < |Exec(n, schedule).log|
    ensures EventAsked(Calls(n, schedule), Exec(n, schedule).log[i])
  {
    ExecOk(n, schedule);
  }

  /** Every call that has ended is among the finished calls. */
  lemma {:induction false} EndedCallsAreFinished(n: nat, schedule: seq<(nat, Choice)>, t: nat, call: nat)
    requires Known(Calls(n, schedule), t, call) && Calls(n, schedule)[t][call - 1].Ended?
    ensures Reported(Exec(n, schedule).finished, t, call)
  {
    ExecOk(n, schedule);
    assert AllReported(Exec(n, schedule).finished, t, Calls(n, schedule)[t]);
  }

  /** No call takes effect twice. */
  lemma {:induction false} NoCallTakesEffectTwice(n: nat, schedule: seq<(nat, Choice)>, i: nat, j: nat)
    requires i < j < |Exec(n, schedule).log|
    ensures var log := Exec(n, schedule).log; !(log[i].thread == log[j].thread && log[i].call == log[j].call)
  {
    ExecOk(n, schedule);
    assert !SameCall(Exec(n, schedule).log[i], Exec(n, schedule).log[j]);
  }
}
