/**
 What the calls on the Michael-Scott queue were asked to do, and when they ran, read off the
 schedule.  Every event of the log and every finished call is the operation that was asked for,
 an enqueue links exactly its argument, and every call that has ended is among the finished ones
 with its true interval.
 */
module MsQueueCalls {
  import opened CallRecords
  import opened MsQueueMachine

  predicate Idles(s: State, t: nat) {
    t < |s.threads| && s.threads[t].pc.Idle?
  }

  /** Add a step of thread t to the calls on record. */
  function Step(calls: seq<seq<Call<Choice>>>, s: State, t: nat, ch: Choice): seq<seq<Call<Choice>>> {
    var s' := Next(s, t, ch);
    Followed(calls, t, ch, Idles(s, t), |s.log|, Idles(s', t), |s'.log|)
  }

  /** The calls of each thread, first to last. */
  function Calls(n: nat, schedule: seq<(nat, Choice)>): seq<seq<Call<Choice>>>
    decreases |schedule|
  {
    if schedule == [] then seq(n, i => [])
    else
      var before, last := schedule[..|schedule| - 1], schedule[|schedule| - 1];
      Step(Calls(n, before), Exec(n, before), last.0, last.1)
  }

  /** The event is the effect of the operation its call was asked for. */
  predicate EventAsked(calls: seq<seq<Call<Choice>>>, e: Event) {
    && Known(calls, e.thread, e.call)
    && var ch := calls[e.thread][e.call - 1].asked;
       match e
       case Enqueued(_, _, v) => ch.enqueue && v == ch.v
       case Dequeued(_, _, _) => !ch.enqueue
  }

  /** The finished call did what it was asked for and ran when it says it did. */
  predicate ReturnAsked(calls: seq<seq<Call<Choice>>>, c: Completed) {
    && Known(calls, c.thread, c.call)
    && var me := calls[c.thread][c.call - 1];
       && c.since == me.from && me.Ended? && me.until == c.until
       && match c
          case EnqReturned(_, _, v, _, _, _) => me.asked.enqueue && v == me.asked.v
          case DeqReturned(_, _, _, _, _, _) => !me.asked.enqueue
  }

  ghost predicate Reported(finished: seq<Completed>, t: nat, call: nat) {
    exists i {:trigger finished[i]} :: 0 <= i < |finished| && finished[i].thread == t && finished[i].call == call
  }

  /** Every call of thread t that has ended is among the finished ones. */
  ghost predicate AllReported(finished: seq<Completed>, t: nat, calls: seq<Call<Choice>>) {
    forall k {:trigger calls[k]} :: 0 <= k < |calls| && calls[k].Ended? ==> Reported(finished, t, k + 1)
  }

  predicate Enqueues(pc: Pc) {
    pc.EnqLoadTail? || pc.EnqLoadNext? || pc.EnqCheck? || pc.EnqLink? || pc.EnqSwing? || pc.EnqHelp?
  }

  /** A thread at work does what its latest call was asked for; an enqueue holds its argument in
      its node. */
  ghost predicate Working(nodes: seq<Node>, l: Local, calls: seq<Call<Choice>>) {
    && |calls| == l.call
    && (!l.pc.Idle? ==>
          && calls != [] && calls[|calls| - 1].from == l.since && calls[|calls| - 1].Running?
          && calls[|calls| - 1].asked.enqueue == Enqueues(l.pc)
          && (Enqueues(l.pc) ==>
                l.pc.node < |nodes| && nodes[l.pc.node].value == calls[|calls| - 1].asked.v))
  }

  ghost predicate Asked(s: State, calls: seq<seq<Call<Choice>>>) {
    && |calls| == |s.threads|
    && (forall t: nat :: t < |s.threads| ==> Working(s.nodes, s.threads[t], calls[t]))
    && (forall t: nat :: t < |s.threads| ==> AllReported(s.finished, t, calls[t]))
    && (forall i :: 0 <= i < |s.log| ==> EventAsked(calls, s.log[i]))
    && (forall i :: 0 <= i < |s.finished| ==> ReturnAsked(calls, s.finished[i]))
  }

  // ----- one step

  ghost predicate OthersSame(s: State, s': State, t: nat) {
    && t < |s.threads| == |s'.threads|
    && (forall u :: 0 <= u < |s.threads| && u != t ==> s'.threads[u] == s.threads[u])
  }

  /** No step changes the value of a node. */
  ghost predicate ValuesKept(nodes: seq<Node>, nodes': seq<Node>) {
    |nodes| <= |nodes'| && forall a :: 0 <= a < |nodes| ==> nodes'[a].value == nodes[a].value
  }

  lemma {:induction false} AskedFrame(s: State, s': State, t: nat, calls: seq<seq<Call<Choice>>>,
      calls': seq<seq<Call<Choice>>>)
    requires Asked(s, calls) && OthersSame(s, s', t) && ValuesKept(s.nodes, s'.nodes)
    requires |calls'| == |calls| && Extends(calls[t], calls'[t])
    requires forall u :: 0 <= u < |calls| && u != t ==> calls'[u] == calls[u]
    requires Working(s'.nodes, s'.threads[t], calls'[t]) && AllReported(s'.finished, t, calls'[t])
    requires Grows(s.log, s'.log) && Grows(s.finished, s'.finished)
    requires |s'.log| > |s.log| ==> EventAsked(calls', s'.log[|s.log|])
    requires |s'.finished| > |s.finished| ==> ReturnAsked(calls', s'.finished[|s.finished|])
    ensures Asked(s', calls')
  {
    forall u: nat | u < |s.threads|
      ensures Working(s'.nodes, s'.threads[u], calls'[u]) && AllReported(s'.finished, u, calls'[u])
    {
      assert Working(s.nodes, s.threads[u], calls[u]);
      if u != t {
        ReportedGrows(s.finished, s'.finished, u, calls[u]);
      }
    }
    forall i | 0 <= i < |s.log|
      ensures s'.log[i] == s.log[i] && EventAsked(calls', s'.log[i])
    {
      assert s'.log[..|s.log|][i] == s.log[i] && EventAsked(calls, s.log[i]);
    }
    forall i | 0 <= i < |s.finished|
      ensures s'.finished[i] == s.finished[i] && ReturnAsked(calls', s'.finished[i])
    {
      assert s'.finished[..|s.finished|][i] == s.finished[i] && ReturnAsked(calls, s.finished[i]);
    }
  }

  lemma {:induction false} ReportedGrows(before: seq<Completed>, after: seq<Completed>, t: nat,
      calls: seq<Call<Choice>>)
    requires AllReported(before, t, calls) && Grows(before, after)
    ensures AllReported(after, t, calls)
  {
    forall k | 0 <= k < |calls| && calls[k].Ended?
      ensures Reported(after, t, k + 1)
    {
      var i :| 0 <= i < |before| && before[i].thread == t && before[i].call == k + 1;
      assert after[..|before|][i] == after[i];
    }
  }

  /** The last report is that of thread t's latest call. */
  lemma {:induction false} ReportedLast(before: seq<Completed>, after: seq<Completed>, t: nat, calls: seq<Call<Choice>>,
      calls': seq<Call<Choice>>)
    requires AllReported(before, t, calls) && Grows(before, after) && |after| > |before| && |calls| == |calls'| > 0
    requires calls'[..|calls| - 1] == calls[..|calls| - 1]
    requires after[|before|].thread == t && after[|before|].call == |calls|
    ensures AllReported(after, t, calls')
  {
    ReportedGrows(before, after, t, calls);
    forall k | 0 <= k < |calls'| && calls'[k].Ended?
      ensures Reported(after, t, k + 1)
    {
      if k < |calls| - 1 {
        assert calls'[..|calls| - 1][k] == calls[..|calls| - 1][k];
        assert calls[k].Ended?;
      } else {
        assert after[|before|].call == k + 1;
      }
    }
  }

  /** A step in the middle of a call. */
  lemma {:induction false} SameCallAsked(s: State, s': State, t: nat, calls: seq<seq<Call<Choice>>>)
    requires Asked(s, calls) && OthersSame(s, s', t) && ValuesKept(s.nodes, s'.nodes)
    requires Working(s'.nodes, s'.threads[t], calls[t]) && s'.finished == s.finished
    requires Grows(s.log, s'.log) && (|s'.log| > |s.log| ==> EventAsked(calls, s'.log[|s.log|]))
    ensures Asked(s', calls)
  {
    AskedFrame(s, s', t, calls, calls);
  }

  /** The step with which a call returns. */
  lemma {:induction false} ReturnStepAsked(s: State, s': State, t: nat, calls: seq<seq<Call<Choice>>>, c: Completed)
    requires Asked(s, calls) && OthersSame(s, s', t) && ValuesKept(s.nodes, s'.nodes) && calls[t] != []
    requires !s.threads[t].pc.Idle? && s'.threads[t].pc.Idle? && s'.threads[t].call == s.threads[t].call
    requires Grows(s.log, s'.log) && (|s'.log| > |s.log| ==> EventAsked(calls, s'.log[|s.log|]))
    requires s'.finished == s.finished + [c]
    requires c.thread == t && c.call == s.threads[t].call && c.since == s.threads[t].since && c.until == |s'.log|
    requires c.EnqReturned? ==> Enqueues(s.threads[t].pc) && c.v == calls[t][|calls[t]| - 1].asked.v
    requires c.DeqReturned? ==> !Enqueues(s.threads[t].pc)
    ensures Asked(s', calls[t := End(calls[t], |s'.log|)])
  {
    assert Working(s.nodes, s.threads[t], calls[t]) && AllReported(s.finished, t, calls[t]);
    ReportedLast(s.finished, s'.finished, t, calls[t], End(calls[t], |s'.log|));
    AskedFrame(s, s', t, calls, calls[t := End(calls[t], |s'.log|)]);
  }

  lemma {:induction false} BeginAsked(s: State, s': State, t: nat, calls: seq<seq<Call<Choice>>>, ch: Choice)
    requires Asked(s, calls) && OthersSame(s, s', t) && ValuesKept(s.nodes, s'.nodes)
    requires s.threads[t].pc.Idle? && s'.log == s.log && s'.finished == s.finished
    requires Working(s'.nodes, s'.threads[t], calls[t] + [Running(ch, |s.log|)])
    ensures Asked(s', calls[t := calls[t] + [Running(ch, |s.log|)]])
  {
    assert AllReported(s.finished, t, calls[t]);
    AskedFrame(s, s', t, calls, calls[t := calls[t] + [Running(ch, |s.log|)]]);
  }

  /** A step of a call; what it records belongs to that call, and an enqueue records the value of
      its node. */
  ghost predicate Moves(s: State, s': State, t: nat) {
    && OthersSame(s, s', t) && ValuesKept(s.nodes, s'.nodes)
    && var l, l' := s.threads[t], s'.threads[t];
       && (Enqueues(l.pc) ==> l.pc.node < |s.nodes|)
       && l'.call == l.call
       && (s'.log == s.log
           || (Enqueues(l.pc) && s'.log == s.log + [Enqueued(t, l.call, s.nodes[l.pc.node].value)])
           || (!Enqueues(l.pc) && exists v :: s'.log == s.log + [Dequeued(t, l.call, v)]))
       && if !l'.pc.Idle? then
            && s'.finished == s.finished && l'.since == l.since
            && Enqueues(l'.pc) == Enqueues(l.pc) && (Enqueues(l.pc) ==> l'.pc.node == l.pc.node)
          else if Enqueues(l.pc) then
            exists at :: s'.finished
                == s.finished + [EnqReturned(t, l.call, s.nodes[l.pc.node].value, l.since, at, |s'.log|)]
          else
            exists r, at :: s'.finished == s.finished + [DeqReturned(t, l.call, r, l.since, at, |s'.log|)]
  }

  lemma {:induction false} EnqueueMoves(s: State, t: nat, ch: Choice)
    requires t < |s.threads| && Enqueues(s.threads[t].pc) && s.threads[t].pc.node < |s.nodes|
    ensures Moves(s, Next(s, t, ch), t)
  {
    var pc := s.threads[t].pc;
    if pc.EnqSwing? {
      assert Moves(s, DoSwing(s, t, pc.node, pc.tail, pc.at), t);
    } else if pc.EnqLink? {
      assert Moves(s, DoLink(s, t, pc.node, pc.tail, ch.spurious), t);
    }
  }

  lemma {:induction false} DequeueMoves(s: State, t: nat, ch: Choice)
    requires t < |s.threads| && !s.threads[t].pc.Idle? && !Enqueues(s.threads[t].pc)
    ensures Moves(s, Next(s, t, ch), t)
  {
    var pc := s.threads[t].pc;
    if pc.DeqCheck? {
      assert Moves(s, DoDeqCheck(s, t, pc.head, pc.tail, pc.next, pc.at), t);
    } else if pc.DeqCas? {
      assert Moves(s, DoDeqCas(s, t, pc.head, pc.n, pc.v, ch.spurious), t);
    }
  }

  lemma {:induction false} MovesAsked(s: State, s': State, t: nat, calls: seq<seq<Call<Choice>>>)
    requires Asked(s, calls) && Moves(s, s', t) && !s.threads[t].pc.Idle?
    ensures calls[t] != []
    ensures Asked(s', if s'.threads[t].pc.Idle? then calls[t := End(calls[t], |s'.log|)] else calls)
  {
    assert Working(s.nodes, s.threads[t], calls[t]);
    if s'.threads[t].pc.Idle? {
      ReturnStepAsked(s, s', t, calls, s'.finished[|s.finished|]);
    } else {
      SameCallAsked(s, s', t, calls);
    }
  }

  lemma {:induction false} NextAsked(s: State, t: nat, ch: Choice, calls: seq<seq<Call<Choice>>>)
    requires Asked(s, calls)
    ensures Asked(Next(s, t, ch), Step(calls, s, t, ch))
  {
    if t < |s.threads| {
      assert Working(s.nodes, s.threads[t], calls[t]);
      if s.threads[t].pc.Idle? {
        BeginAsked(s, Next(s, t, ch), t, calls, ch);
      } else {
        if Enqueues(s.threads[t].pc) {
          EnqueueMoves(s, t, ch);
        } else {
          DequeueMoves(s, t, ch);
        }
        MovesAsked(s, Next(s, t, ch), t, calls);
      }
    }
  }
}
