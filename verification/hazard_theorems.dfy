/**
 What holds in every run of the hazard-pointer stack, whatever the schedule, the number of
 threads and the addresses the allocator returns.
 */
module HazardTheorems {
  import opened CallRecords
  import opened HazardMachine
  import opened HazardSafety
  import opened HazardHistory
  import opened HazardCalls

  lemma {:induction false} NextSafe(s: State, t: nat, ch: Choice)
    requires Safe(s)
    ensures Safe(Next(s, t, ch))
  {
    if t < |s.threads| {
      match s.threads[t].pc
      case Idle => if ch.push { StartPushSafe(s, t, ch.v, ch.addr); } else { StartPopSafe(s, t); }
      case PushLoad(_) => PushLoadSafe(s, t);
      case PushCas(_) => PushCasSafe(s, t, ch.spurious);
      case PopLoad => PopLoadSafe(s, t);
      case Acquire(_, _) => AcquireSafe(s, t);
      case Publish(_) => PublishSafe(s, t);
      case Validate(_) => ValidateSafe(s, t);
      case ClearRetry => ClearRetrySafe(s, t);
      case ReadNext(_, _) => ReadNextSafe(s, t);
      case PopCas(_, _, _) => PopCasSafe(s, t, ch.spurious);
      case ClearDone(_, _) => ClearDoneSafe(s, t);
      case ReadData(_, _) => ReadDataSafe(s, t);
      case Retire(_, _, _) => RetireSafe(s, t);
      case ScanInUse(_, _, _, _) => ScanInUseSafe(s, t);
      case ScanSlot(_, _, _, _, _) => ScanSlotSafe(s, t);
      case Reclaim(k, hz, _, _, _) =>
        if k >= |s.threads[t].retired| { ReclaimDoneSafe(s, t); }
        else if s.threads[t].retired[k] in hz { ReclaimKeepSafe(s, t); }
        else { ReclaimFreeSafe(s, t); }
      case Stuck =>
    }
  }

  lemma {:induction false} NextHistory(s: State, t: nat, ch: Choice)
    requires Safe(s) && History(s)
    ensures History(Next(s, t, ch))
  {
    if t < |s.threads| {
      assert Receipt(s, t);
      match s.threads[t].pc
      case Idle | PushLoad(_) | PushCas(_) => PushHistory(s, t, ch);
      case PopLoad => PopLoadHistory(s, t);
      case Publish(h) => SlotHistory(s, h, t, Validate(h));
      case ClearRetry => SlotHistory(s, NULL, t, PopLoad);
      case PopCas(_, _, _) => PopCasHistory(s, t, ch.spurious);
      case ClearDone(h, at) => SlotHistory(s, NULL, t, ReadData(h, at));
      case Retire(_, _, _) => RetireHistory(s, t);
      case Reclaim(_, _, _, _, _) => ReclaimHistory(s, t);
      case Stuck =>
      case _ => LocalHistory(s, t, ch);
    }
  }

  lemma {:induction false} PushHistory(s: State, t: nat, ch: Choice)
    requires Safe(s) && History(s) && t < |s.threads|
    requires s.threads[t].pc.Idle? || s.threads[t].pc.PushLoad? || s.threads[t].pc.PushCas?
    ensures History(Next(s, t, ch))
  {
    assert Receipt(s, t);
    match s.threads[t].pc
    case Idle => if ch.push { StartPushHistory(s, t, ch.v, ch.addr); } else { QuietStep(s, StartPop(s, t), t); }
    case PushLoad(node) =>
      assert HasThread(s, node, t);
      PushWriteHistory(s, DoPushLoad(s, t, node), t, node);
    case PushCas(_) => PushCasHistory(s, t, ch.spurious);
  }

  lemma {:induction false} LocalHistory(s: State, t: nat, ch: Choice)
    requires !s.fault && |s.records| == MAX_THREADS && AllHold(s) && History(s) && t < |s.threads|
    requires var pc := s.threads[t].pc;
             pc.Acquire? || pc.Validate? || pc.ReadNext? || pc.ReadData? || pc.ScanInUse? || pc.ScanSlot?
    ensures History(Next(s, t, ch))
  {
    assert Receipt(s, t) && Holds(s, s.threads[t]);
    if s.threads[t].pc.ScanInUse? || s.threads[t].pc.ScanSlot? {
      ScanHistory(s, t, ch);
    } else if s.threads[t].pc.Acquire? {
      var s' := DoAcquire(s, t, s.threads[t].pc.h, s.threads[t].pc.i);
      MovedHistory(s, s', t);
    } else {
      MovedHistory(s, Next(s, t, ch), t);
    }
  }

  lemma {:induction false} ScanHistory(s: State, t: nat, ch: Choice)
    requires History(s) && !s.fault && t < |s.threads| && (s.threads[t].pc.ScanInUse? || s.threads[t].pc.ScanSlot?)
    ensures History(Next(s, t, ch))
  {
    assert Receipt(s, t);
    QuietStep(s, Next(s, t, ch), t);
  }

  lemma {:induction false} MovedHistory(s: State, s': State, t: nat)
    requires History(s) && OthersSame(s, s', t)
    requires s'.heap == s.heap && s'.log == s.log && s'.spine == s.spine && s'.finished == s.finished
    requires s'.threads[t].call == s.threads[t].call && Receipt(s', t)
    requires !s.threads[t].pc.Idle? && (Early(s'.threads[t].pc) ==> Early(s.threads[t].pc))
    ensures History(s')
  {
    QuietStep(s, s', t);
  }

  lemma {:induction false} ExecKeeps(n: nat, schedule: seq<(nat, Choice)>)
    ensures Safe(Exec(n, schedule)) && History(Exec(n, schedule)) && Asked(Exec(n, schedule), Calls(n, schedule))
    decreases |schedule|
  {
    if schedule == [] {
      InitSafe(n);
      InitHistory(n);
    } else {
      var last := schedule[|schedule| - 1];
      var s := Exec(n, schedule[..|schedule| - 1]);
      ExecKeeps(n, schedule[..|schedule| - 1]);
      NextSafe(s, last.0, last.1);
      NextHistory(s, last.0, last.1);
      NextAsked(s, last.0, last.1, Calls(n, schedule[..|schedule| - 1]));
    }
  }

  /** No step of any run dereferences or frees an address that is not allocated; in
      particular no node is freed twice. */
  lemma {:induction false} NoUseAfterFree(n: nat, schedule: seq<(nat, Choice)>)
    ensures !Exec(n, schedule).fault
  {
    ExecKeeps(n, schedule);
  }

  /** No ABA: when the compare-and-swap of a pop is about to succeed, the head is the very
      allocation the pop validated, and the pointer it installs is the head's true successor. */
  lemma {:induction false} PopInstallsTrueSuccessor(n: nat, schedule: seq<(nat, Choice)>, t: nat)
    requires var s := Exec(n, schedule);
             t < |s.threads| && s.threads[t].pc.PopCas? && s.head == s.threads[t].pc.h
    ensures var s := Exec(n, schedule);
            && s.head in s.heap && s.heap[s.head].birth == s.threads[t].pc.birth
            && s.spine != [] && s.spine[0] == s.head
            && s.threads[t].pc.next == HeadOf(s.spine[1..])
  {
    ExecKeeps(n, schedule);
    var s := Exec(n, schedule);
    assert Holds(s, s.threads[t]);
    assert Linked(s.heap, s.spine, 0);
  }

  /** A validated pop reads `next` from the allocation it validated, not from a later one at the
      same address. */
  lemma {:induction false} ReadsTheValidatedNode(n: nat, schedule: seq<(nat, Choice)>, t: nat)
    requires var s := Exec(n, schedule); t < |s.threads| && s.threads[t].pc.ReadNext?
    ensures var s := Exec(n, schedule);
            s.threads[t].pc.h in s.heap && s.heap[s.threads[t].pc.h].birth == s.threads[t].pc.birth
  {
    ExecKeeps(n, schedule);
    assert Holds(Exec(n, schedule), Exec(n, schedule).threads[t]);
  }

  /** After every retire (that is, outside a scan) a thread keeps at most
      MAX_THREADS * SLOTS_PER_THREAD retired nodes, and during a scan at most one more. */
  lemma {:induction false} RetiredListBounded(n: nat, schedule: seq<(nat, Choice)>, t: nat)
    requires t < |Exec(n, schedule).threads|
    ensures var l := Exec(n, schedule).threads[t];
            |l.retired| <= MAX_THREADS * SLOTS_PER_THREAD
            || ((l.pc.ScanInUse? || l.pc.ScanSlot? || l.pc.Reclaim?)
                   && |l.retired| <= MAX_THREADS * SLOTS_PER_THREAD + 1)
  {
    ExecKeeps(n, schedule);
    assert Bounded(Exec(n, schedule).threads[t]);
  }

  /** Every allocated node is on the stack or held by exactly one thread, so none leaks, and
      the counters of allocations and deletes agree with what is allocated. */
  lemma {:induction false} EveryNodeHasOneHolder(n: nat, schedule: seq<(nat, Choice)>, a: Addr)
    requires a in Exec(n, schedule).heap
    ensures var s := Exec(n, schedule);
            && s.allocCount == s.freeCount + |s.heap|
            && a in s.owner
            && (a in s.spine <==> s.owner[a] == Stack)
            && (s.owner[a].Of? ==> s.owner[a].thread < |s.threads|)
            && (forall t: nat :: t < |s.threads| ==> (a in Owned(s.threads[t]) <==> s.owner[a] == Of(t)))
  {
    ExecKeeps(n, schedule);
    HolderFromOwners(Exec(n, schedule), a);
  }

  lemma {:induction false} HolderFromOwners(s: State, a: Addr)
    requires Owners(s) && a in s.heap
    ensures a in s.owner
    ensures a in s.spine <==> s.owner[a] == Stack
    ensures s.owner[a].Of? ==> s.owner[a].thread < |s.threads|
    ensures forall t: nat :: t < |s.threads| ==> (a in Owned(s.threads[t]) <==> s.owner[a] == Of(t))
  {
    assert Accounted(s, a);
    forall t: nat | t < |s.threads|
      ensures a in Owned(s.threads[t]) <==> s.owner[a] == Of(t)
    {
      assert HasThread(s, a, t) <==> a in Owned(s.threads[t]);
    }
  }

  /** The list reached from the head by following `next` carries exactly the values of the
      sequential stack that the log describes. */
  lemma {:induction false} StackIsTheReplayedLog(n: nat, schedule: seq<(nat, Choice)>)
    ensures var s := Exec(n, schedule);
            && s.head == HeadOf(s.spine)
            && (forall i :: 0 <= i < |s.spine| ==> s.spine[i] in s.heap && s.heap[s.spine[i]].next == After(s.spine, i))
            && Replay(s.log) == Some(Values(s.heap, s.spine))
  {
    ExecKeeps(n, schedule);
    var s := Exec(n, schedule);
    forall i | 0 <= i < |s.spine|
      ensures s.spine[i] in s.heap && s.heap[s.spine[i]].next == After(s.spine, i)
    {
      assert Linked(s.heap, s.spine, i);
    }
  }

  /** Linearisability: every finished call is the operation its thread asked for when it began
      that call, a push with its own argument, and ran when it says it did; it took effect at
      one place of the LIFO log that lies within the call (or, for a pop that found nothing, at
      an instant when the stack was empty); and no two calls share an event. */
  lemma {:induction false} FinishedCallsAreLinearised(n: nat, schedule: seq<(nat, Choice)>, i: nat, j: nat)
    requires i < |Exec(n, schedule).finished| && j < |Exec(n, schedule).finished|
    ensures var s := Exec(n, schedule);
            var c, d := s.finished[i], s.finished[j];
            && Justified(s.log, c) && ReturnAsked(Calls(n, schedule), c)
            && (i != j ==> c.thread != d.thread || c.call != d.call)
            && (i != j && TakesEffect(c) && TakesEffect(d) ==> c.at != d.at)
            && (i != j && TakesEffect(c) && TakesEffect(d) && c.until <= d.since ==> c.at < d.at)
  {
    ExecKeeps(n, schedule);
    var s := Exec(n, schedule);
    assert FinishedOk(s, s.finished[i]) && FinishedOk(s, s.finished[j]);
    assert ReturnAsked(Calls(n, schedule), s.finished[i]);
  }

  /** Every event of the log is the effect of the operation that was asked for: what a push
      puts on the stack is the argument of that very call. */
  lemma {:induction false} EventsAreTheCallsAskedFor(n: nat, schedule: seq<(nat, Choice)>, i: nat)
    requires i < |Exec(n, schedule).log|
    ensures EventAsked(Calls(n, schedule), Exec(n, schedule).log[i])
  {
    ExecKeeps(n, schedule);
  }

  predicate TakesEffect(c: Completed) {
    c.PushReturned? || c.result.Some?
  }

  /** Every call that has ended is among the finished calls. */
  lemma {:induction false} EndedCallsAreFinished(n: nat, schedule: seq<(nat, Choice)>, t: nat, call: nat)
    requires Known(Calls(n, schedule), t, call) && Calls(n, schedule)[t][call - 1].Ended?
    ensures Reported(Exec(n, schedule).finished, t, call)
  {
    ExecKeeps(n, schedule);
    assert AllReported(Exec(n, schedule).finished, t, Calls(n, schedule)[t]);
  }

  /** No call takes effect twice. */
  lemma {:induction false} NoCallTakesEffectTwice(n: nat, schedule: seq<(nat, Choice)>, i: nat, j: nat)
    requires i < j < |Exec(n, schedule).log|
    ensures var log := Exec(n, schedule).log; !(log[i].thread == log[j].thread && log[i].call == log[j].call)
  {
    ExecKeeps(n, schedule);
    assert !SameCall(Exec(n, schedule).log[i], Exec(n, schedule).log[j]);
  }
}
