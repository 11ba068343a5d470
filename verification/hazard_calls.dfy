/**
 What the calls on the hazard-pointer stack were asked to do, and when they ran, read off the
 schedule: the choice with which a thread left its idle state, and the length of the log then
 and when it was idle again.  Every event of the log and every finished call is the operation
 that was asked for, a push puts exactly its argument on the stack, and every call that has
 ended is among the finished ones with its true interval.
 */
module HazardCalls {
  import opened HazardMachine
  import opened HazardSafety
  import opened CallRecords

  predicate Idles(s: State, t: nat) {
    t < |s.threads| && s.threads[t].pc.Idle?
  }

  /** Add a step of thread t to the calls on record. */
  function Step(calls: seq<seq<Call<Choice>>>, s: State, t: nat, ch: Choice): seq<seq<Call<Choice>>> {
    var s' := Next(s, t, ch);
    Followed(calls, t, ch, Idles(s, t), |s.log|, Idles(s', t), |s'.log|)
  }

  /** The calls of each thread, first to last. */
  function Calls(n: nat, schedule: seq<(nat, Choice)>): seq<seq<Call<Choice>>>
    decreases |schedule|
  {
    if schedule == [] then seq(n, i => [])
    else
      var before, last := schedule[..|schedule| - 1], schedule[|schedule| - 1];
      Step(Calls(n, before), Exec(n, before), last.0, last.1)
  }

  /** The event is the effect of the operation its call was asked for. */
  predicate EventAsked(calls: seq<seq<Call<Choice>>>, e: Event) {
    && Known(calls, e.thread, e.call)
    && var ch := calls[e.thread][e.call - 1].asked;
       match e
       case Pushed(_, _, v) => ch.push && v == ch.v
       case Popped(_, _, _) => !ch.push
  }

  /** The finished call did what it was asked for and ran when it says it did. */
  predicate ReturnAsked(calls: seq<seq<Call<Choice>>>, c: Completed) {
    && Known(calls, c.thread, c.call)
    && var me := calls[c.thread][c.call - 1];
       && c.since == me.from && me.Ended? && me.until == c.until
       && match c
          case PushReturned(_, _, v, _, _, _) => me.asked.push && v == me.asked.v
          case PopReturned(_, _, _, _, _, _) => !me.asked.push
  }

  ghost predicate Reported(finished: seq<Completed>, t: nat, call: nat) {
    exists i {:trigger finished[i]} :: 0 <= i < |finished| && finished[i].thread == t && finished[i].call == call
  }

  /** Every call of thread t that has ended is among the finished ones. */
  ghost predicate AllReported(finished: seq<Completed>, t: nat, calls: seq<Call<Choice>>) {
    forall k {:trigger calls[k]} :: 0 <= k < |calls| && calls[k].Ended? ==> Reported(finished, t, k + 1)
  }

  predicate Pushes(pc: Pc) {
    pc.PushLoad? || pc.PushCas?
  }

  /** A thread at work does what its latest call was asked for; a push holds its argument in
      its node. */
  ghost predicate Working(heap: map<Addr, Node>, l: Local, calls: seq<Call<Choice>>) {
    && |calls| == l.call
    && (!l.pc.Idle? ==>
          && calls != [] && calls[|calls| - 1].from == l.since && calls[|calls| - 1].Running?
          && calls[|calls| - 1].asked.push == Pushes(l.pc)
          && (Pushes(l.pc) && l.pc.node in heap ==> heap[l.pc.node].data == calls[|calls| - 1].asked.v))
  }

  ghost predicate Asked(s: State, calls: seq<seq<Call<Choice>>>) {
    && |calls| == |s.threads|
    && (forall t: nat :: t < |s.threads| ==> Working(s.heap, s.threads[t], calls[t]))
    && (forall t: nat :: t < |s.threads| ==> AllReported(s.finished, t, calls[t]))
    && (forall i :: 0 <= i < |s.log| ==> EventAsked(calls, s.log[i]))
    && (forall i :: 0 <= i < |s.finished| ==> ReturnAsked(calls, s.finished[i]))
  }

  // ----- one step

  /** The step leaves the values of the nodes alone that other threads are pushing. */
  ghost predicate ValuesKept(s: State, s': State, t: nat) {
    forall u :: 0 <= u < |s.threads| && u != t && Pushes(s.threads[u].pc) && s.threads[u].pc.node in s'.heap
      ==> s.threads[u].pc.node in s.heap && s'.heap[s.threads[u].pc.node].data == s.heap[s.threads[u].pc.node].data
  }

  lemma {:induction false} AskedFrame(s: State, s': State, t: nat, calls: seq<seq<Call<Choice>>>,
      calls': seq<seq<Call<Choice>>>)
    requires Asked(s, calls) && OthersSame(s, s', t) && ValuesKept(s, s', t)
    requires |calls'| == |calls| && Extends(calls[t], calls'[t])
    requires forall u :: 0 <= u < |calls| && u != t ==> calls'[u] == calls[u]
    requires Working(s'.heap, s'.threads[t], calls'[t]) && AllReported(s'.finished, t, calls'[t])
    requires Grows(s.log, s'.log) && Grows(s.finished, s'.finished)
    requires |s'.log| > |s.log| ==> EventAsked(calls', s'.log[|s.log|])
    requires |s'.finished| > |s.finished| ==> ReturnAsked(calls', s'.finished[|s.finished|])
    ensures Asked(s', calls')
  {
    forall u: nat | u < |s.threads|
      ensures Working(s'.heap, s'.threads[u], calls'[u]) && AllReported(s'.finished, u, calls'[u])
    {
      assert Working(s.heap, s.threads[u], calls[u]);
      if u != t {
        ReportedGrows(s.finished, s'.finished, u, calls[u]);
      }
    }
    forall i | 0 <= i < |s.log|
      ensures s'.log[i] == s.log[i] && EventAsked(calls', s'.log[i])
    {
      assert s'.log[..|s.log|][i] == s.log[i] && EventAsked(calls, s.log[i]);
    }
    forall i | 0 <= i < |s.finished|
      ensures s'.finished[i] == s.finished[i] && ReturnAsked(calls', s'.finished[i])
    {
      assert s'.finished[..|s.finished|][i] == s.finished[i] && ReturnAsked(calls, s.finished[i]);
    }
  }

  lemma {:induction false} ReportedGrows(before: seq<Completed>, after: seq<Completed>, t: nat,
      calls: seq<Call<Choice>>)
    requires AllReported(before, t, calls) && Grows(before, after)
    ensures AllReported(after, t, calls)
  {
    forall k | 0 <= k < |calls| && calls[k].Ended?
      ensures Reported(after, t, k + 1)
    {
      var i :| 0 <= i < |before| && before[i].thread == t && before[i].call == k + 1;
      assert after[..|before|][i] == after[i];
    }
  }

  /** The last report is that of thread t's latest call. */
  lemma {:induction false} ReportedLast(before: seq<Completed>, after: seq<Completed>, t: nat, calls: seq<Call<Choice>>,
      calls': seq<Call<Choice>>)
    requires AllReported(before, t, calls) && Grows(before, after) && |after| > |before| && |calls| == |calls'| > 0
    requires calls'[..|calls| - 1] == calls[..|calls| - 1]
    requires after[|before|].thread == t && after[|before|].call == |calls|
    ensures AllReported(after, t, calls')
  {
    ReportedGrows(before, after, t, calls);
    forall k | 0 <= k < |calls'| && calls'[k].Ended?
      ensures Reported(after, t, k + 1)
    {
      if k < |calls| - 1 {
        assert calls'[..|calls| - 1][k] == calls[..|calls| - 1][k];
        assert calls[k].Ended?;
      } else {
        assert after[|before|].call == k + 1;
      }
    }
  }

  /** A step in the middle of a call. */
  lemma {:induction false} SameCallAsked(s: State, s': State, t: nat, calls: seq<seq<Call<Choice>>>)
    requires Asked(s, calls) && OthersSame(s, s', t) && ValuesKept(s, s', t)
    requires Working(s'.heap, s'.threads[t], calls[t]) && s'.finished == s.finished
    requires Grows(s.log, s'.log) && (|s'.log| > |s.log| ==> EventAsked(calls, s'.log[|s.log|]))
    ensures Asked(s', calls)
  {
    AskedFrame(s, s', t, calls, calls);
  }

  /** The step with which a call returns. */
  lemma {:induction false} ReturnStepAsked(s: State, s': State, t: nat, calls: seq<seq<Call<Choice>>>, c: Completed)
    requires Asked(s, calls) && OthersSame(s, s', t) && ValuesKept(s, s', t) && calls[t] != []
    requires !s.threads[t].pc.Idle? && s'.threads[t].pc.Idle? && s'.threads[t].call == s.threads[t].call
    requires Grows(s.log, s'.log) && (|s'.log| > |s.log| ==> EventAsked(calls, s'.log[|s.log|]))
    requires s'.finished == s.finished + [c]
    requires c.thread == t && c.call == s.threads[t].call && c.since == s.threads[t].since && c.until == |s'.log|
    requires c.PushReturned? ==> Pushes(s.threads[t].pc) && c.v == calls[t][|calls[t]| - 1].asked.v
    requires c.PopReturned? ==> !Pushes(s.threads[t].pc)
    ensures Asked(s', calls[t := End(calls[t], |s'.log|)])
  {
    assert Working(s.heap, s.threads[t], calls[t]) && AllReported(s.finished, t, calls[t]);
    ReportedLast(s.finished, s'.finished, t, calls[t], End(calls[t], |s'.log|));
    AskedFrame(s, s', t, calls, calls[t := End(calls[t], |s'.log|)]);
  }

  lemma {:induction false} BeginAsked(s: State, s': State, t: nat, calls: seq<seq<Call<Choice>>>, ch: Choice)
    requires Asked(s, calls) && OthersSame(s, s', t) && ValuesKept(s, s', t)
    requires s.threads[t].pc.Idle? && s'.log == s.log && s'.finished == s.finished
    requires Working(s'.heap, s'.threads[t], calls[t] + [Running(ch, |s.log|)])
    ensures Asked(s', calls[t := calls[t] + [Running(ch, |s.log|)]])
  {
    assert AllReported(s.finished, t, calls[t]);
    AskedFrame(s, s', t, calls, calls[t := calls[t] + [Running(ch, |s.log|)]]);
  }

  lemma {:induction false} StartAsked(s: State, t: nat, ch: Choice, calls: seq<seq<Call<Choice>>>)
    requires Owners(s) && !s.fault && Asked(s, calls) && t < |s.threads| && s.threads[t].pc.Idle?
    ensures Asked(Next(s, t, ch), Step(calls, s, t, ch))
  {
    var s' := Next(s, t, ch);
    assert Working(s.heap, s.threads[t], calls[t]);
    if !Idles(s', t) {
      forall u | 0 <= u < |s.threads| && u != t && Pushes(s.threads[u].pc)
        ensures s.threads[u].pc.node in s.heap
      {
        assert Owned(s.threads[u])[|s.threads[u].retired|] == s.threads[u].pc.node;
        assert HasThread(s, s.threads[u].pc.node, u);
      }
      BeginAsked(s, s', t, calls, ch);
    }
  }

  lemma {:induction false} PushAsked(s: State, t: nat, ch: Choice, calls: seq<seq<Call<Choice>>>)
    requires !s.fault && Asked(s, calls) && t < |s.threads| && Pushes(s.threads[t].pc)
    ensures Asked(Next(s, t, ch), Step(calls, s, t, ch))
  {
    var s' := Next(s, t, ch);
    assert Working(s.heap, s.threads[t], calls[t]);
    if s.threads[t].pc.node in s.heap {
      if s'.threads[t].pc.Idle? {
        ReturnStepAsked(s, s', t, calls, s'.finished[|s.finished|]);
      } else {
        SameCallAsked(s, s', t, calls);
      }
    }
  }

  /** A step of a pop: it writes no node, and what it records belongs to that pop. */
  ghost predicate PopMove(s: State, s': State, t: nat) {
    && OthersSame(s, s', t)
    && (s'.heap == s.heap || exists a :: s'.heap == s.heap - {a})
    && s'.threads[t].call == s.threads[t].call && !Pushes(s'.threads[t].pc)
    && (s'.log == s.log || exists v :: s'.log == s.log + [Popped(t, s.threads[t].call, v)])
    && if s'.threads[t].pc.Idle? then
         exists r, at ::
           s'.finished == s.finished + [PopReturned(t, s.threads[t].call, r, s.threads[t].since, at, |s'.log|)]
       else s'.finished == s.finished && s'.threads[t].since == s.threads[t].since
  }

  lemma {:induction false} SearchMoves(s: State, t: nat, ch: Choice)
    requires !s.fault && t < |s.threads|
    requires var pc := s.threads[t].pc; pc.PopLoad? || pc.Acquire? || pc.Publish? || pc.Validate? || pc.ClearRetry?
    ensures PopMove(s, Next(s, t, ch), t)
  {
    if s.threads[t].pc.PopLoad? {
      assert PopMove(s, DoPopLoad(s, t), t);
    }
  }

  lemma {:induction false} TakeMoves(s: State, t: nat, ch: Choice)
    requires !s.fault && t < |s.threads|
    requires var pc := s.threads[t].pc; pc.ReadNext? || pc.PopCas? || pc.ClearDone? || pc.ReadData? || pc.Stuck?
    ensures PopMove(s, Next(s, t, ch), t)
  {
    if s.threads[t].pc.PopCas? {
      assert PopMove(s, DoPopCas(s, t, s.threads[t].pc.h, s.threads[t].pc.next, ch.spurious), t);
    }
  }

  lemma {:induction false} ScanMoves(s: State, t: nat, ch: Choice)
    requires !s.fault && t < |s.threads|
    requires var pc := s.threads[t].pc; pc.Retire? || pc.ScanInUse? || pc.ScanSlot?
    ensures PopMove(s, Next(s, t, ch), t)
  {
    if s.threads[t].pc.Retire? {
      var pc := s.threads[t].pc;
      assert PopMove(s, DoRetire(s, t, pc.h, pc.at, pc.result), t);
    }
  }

  lemma {:induction false} ReclaimMoves(s: State, t: nat, ch: Choice)
    requires !s.fault && t < |s.threads| && s.threads[t].pc.Reclaim?
    ensures PopMove(s, Next(s, t, ch), t)
  {
    var pc := s.threads[t].pc;
    assert PopMove(s, DoReclaim(s, t, pc.k, pc.hazards, pc.remaining, pc.at, pc.result), t);
  }

  lemma {:induction false} PopMoves(s: State, t: nat, ch: Choice)
    requires !s.fault && t < |s.threads| && !s.threads[t].pc.Idle? && !Pushes(s.threads[t].pc)
    ensures PopMove(s, Next(s, t, ch), t)
  {
    match s.threads[t].pc
    case ReadNext(_, _) | PopCas(_, _, _) | ClearDone(_, _) | ReadData(_, _) | Stuck => TakeMoves(s, t, ch);
    case Retire(_, _, _) | ScanInUse(_, _, _, _) | ScanSlot(_, _, _, _, _) => ScanMoves(s, t, ch);
    case Reclaim(_, _, _, _, _) => ReclaimMoves(s, t, ch);
    case _ => SearchMoves(s, t, ch);
  }

  lemma {:induction false} PopAsked(s: State, s': State, t: nat, calls: seq<seq<Call<Choice>>>)
    requires Asked(s, calls) && PopMove(s, s', t) && !s.threads[t].pc.Idle? && !Pushes(s.threads[t].pc)
    ensures calls[t] != []
    ensures Asked(s', if s'.threads[t].pc.Idle? then calls[t := End(calls[t], |s'.log|)] else calls)
  {
    assert Working(s.heap, s.threads[t], calls[t]);
    if s'.threads[t].pc.Idle? {
      ReturnStepAsked(s, s', t, calls, s'.finished[|s.finished|]);
    } else {
      SameCallAsked(s, s', t, calls);
    }
  }

  lemma {:induction false} NextAsked(s: State, t: nat, ch: Choice, calls: seq<seq<Call<Choice>>>)
    requires Owners(s) && !s.fault && Asked(s, calls)
    ensures Asked(Next(s, t, ch), Step(calls, s, t, ch))
  {
    if t < |s.threads| {
      if s.threads[t].pc.Idle? {
        StartAsked(s, t, ch, calls);
      } else if Pushes(s.threads[t].pc) {
        PushAsked(s, t, ch, calls);
      } else {
        PopMoves(s, t, ch);
        PopAsked(s, Next(s, t, ch), t, calls);
      }
    }
  }
}
