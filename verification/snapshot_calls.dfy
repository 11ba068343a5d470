/**
 What the calls on the snapshot object were asked to do, and when they ran, read off the
 schedule.  The reports of a thread are, in order, those of its calls: a scan answers with one
 scan, an update with the scan it makes first and then with the store of its own argument.
 */
module SnapshotCalls {
  import opened CallRecords
  import opened SnapshotMachine

  predicate Idles(s: State, t: nat) {
    t < |s.threads| && s.threads[t].Idle?
  }

  /** Add a step of thread t to the calls on record; the history is that of the instants. */
  function Step(calls: seq<seq<Call<Choice>>>, s: State, t: nat, ch: Choice): seq<seq<Call<Choice>>>
    requires |s.instants| > 0
  {
    var s' := Next(s, t, ch);
    Followed(calls, t, ch, Idles(s, t), |s.instants| - 1, Idles(s', t), |s'.instants| - 1)
  }

  /** The calls of each of m threads, first to last. */
  function Calls(n: nat, m: nat, schedule: seq<(nat, Choice)>): seq<seq<Call<Choice>>>
    decreases |schedule|
  {
    if schedule == [] then seq(m, i => [])
    else
      var before, last := schedule[..|schedule| - 1], schedule[|schedule| - 1];
      Step(Calls(n, m, before), Exec(n, m, before), last.0, last.1)
  }

  /** Only the writer of a register may update. */
  predicate Updates(ch: Choice, writer: bool) {
    ch.update && writer
  }

  function ReportsOf(finished: seq<Completed>, t: nat): seq<Completed> {
    if finished == [] then []
    else
      var c := finished[|finished| - 1];
      ReportsOf(finished[..|finished| - 1], t) + if c.thread == t then [c] else []
  }

  predicate IsScan(c: Completed, from: nat) {
    c.Scanned? && c.since == from
  }

  /** The report of a call that has ended: with its own argument, over its own interval. */
  predicate AnswersCall(c: Completed, me: Call<Choice>, writer: bool) {
    && me.Ended? && c.since == me.from && c.until == me.until
    && if Updates(me.asked, writer) then c.Updated? && c.v == me.asked.v else c.Scanned?
  }

  /** The reports are those of the calls, in order; all calls have ended. */
  predicate Answers(reports: seq<Completed>, calls: seq<Call<Choice>>, writer: bool)
    decreases |calls|
  {
    if calls == [] then reports == []
    else
      var me, k := calls[|calls| - 1], |reports|;
      && k > 0 && AnswersCall(reports[k - 1], me, writer)
      && if Updates(me.asked, writer)
         then k > 1 && IsScan(reports[k - 2], me.from) && Answers(reports[..k - 2], calls[..|calls| - 1], writer)
         else Answers(reports[..k - 1], calls[..|calls| - 1], writer)
  }

  /** As Answers, but the last call still runs: it has reported nothing yet, or it is an update
      that has reported its scan. */
  predicate AnswersSoFar(reports: seq<Completed>, calls: seq<Call<Choice>>, writer: bool) {
    && calls != [] && calls[|calls| - 1].Running?
    && (|| Answers(reports, calls[..|calls| - 1], writer)
        || (Updates(calls[|calls| - 1].asked, writer) && HasScan(reports, calls, writer)))
  }

  predicate HasScan(reports: seq<Completed>, calls: seq<Call<Choice>>, writer: bool)
    requires calls != []
  {
    && reports != [] && IsScan(reports[|reports| - 1], calls[|calls| - 1].from)
    && Answers(reports[..|reports| - 1], calls[..|calls| - 1], writer)
  }

  // ----- the invariant

  ghost predicate Scans(sc: Scan, reports: seq<Completed>, calls: seq<Call<Choice>>, writer: bool) {
    && calls != [] && calls[|calls| - 1].Running? && calls[|calls| - 1].from == sc.since
    && sc.job == (if Updates(calls[|calls| - 1].asked, writer) then Update(calls[|calls| - 1].asked.v) else Read)
    && Answers(reports, calls[..|calls| - 1], writer)
  }

  ghost predicate Stores(v: Value, since: nat, reports: seq<Completed>, calls: seq<Call<Choice>>, writer: bool) {
    && calls != [] && calls[|calls| - 1].Running? && calls[|calls| - 1].from == since
    && Updates(calls[|calls| - 1].asked, writer) && v == calls[|calls| - 1].asked.v
    && HasScan(reports, calls, writer)
  }

  ghost predicate Working(pc: Pc, reports: seq<Completed>, calls: seq<Call<Choice>>, writer: bool) {
    match pc
    case Idle => Answers(reports, calls, writer)
    case FirstCollect(sc) => Scans(sc, reports, calls, writer)
    case Collect(sc) => Scans(sc, reports, calls, writer)
    case LoadOwn(v, _, _, since) => Stores(v, since, reports, calls, writer)
    case Store(v, _, _, since, _) => Stores(v, since, reports, calls, writer)
  }

  ghost predicate Asked(s: State, calls: seq<seq<Call<Choice>>>) {
    && |calls| == |s.threads| && |s.instants| > 0
    && (forall t: nat :: t < |s.threads| ==>
          Working(s.threads[t], ReportsOf(s.finished, t), calls[t], t < |s.regs|))
  }

  // ----- one step

  lemma {:induction false} ReportsMore(finished: seq<Completed>, c: Completed, t: nat)
    ensures ReportsOf(finished + [c], t) == ReportsOf(finished, t) + if c.thread == t then [c] else []
  {
    assert (finished + [c])[..|finished|] == finished;
  }

  /** Only thread t moves, and only its own report may be added. */
  ghost predicate OneMoves(s: State, s': State, t: nat) {
    && t < |s.threads| == |s'.threads| && |s'.regs| == |s.regs| && |s'.instants| > 0
    && (forall u :: 0 <= u < |s.threads| && u != t ==> s'.threads[u] == s.threads[u])
    && (s'.finished == s.finished || exists c :: s'.finished == s.finished + [c] && c.thread == t)
  }

  lemma {:induction false} AskedFrame(s: State, s': State, t: nat, calls: seq<seq<Call<Choice>>>,
      calls': seq<seq<Call<Choice>>>)
    requires Asked(s, calls) && OneMoves(s, s', t) && |calls'| == |calls|
    requires forall u :: 0 <= u < |calls| && u != t ==> calls'[u] == calls[u]
    requires Working(s'.threads[t], ReportsOf(s'.finished, t), calls'[t], t < |s'.regs|)
    ensures Asked(s', calls')
  {
    forall u: nat | u < |s'.threads|
      ensures Working(s'.threads[u], ReportsOf(s'.finished, u), calls'[u], u < |s'.regs|)
    {
      if u != t {
        if s'.finished != s.finished {
          ReportsMore(s.finished, s'.finished[|s.finished|], u);
        }
        assert ReportsOf(s'.finished, u) == ReportsOf(s.finished, u);
        assert Working(s.threads[u], ReportsOf(s.finished, u), calls[u], u < |s.regs|);
      }
    }
  }

  lemma {:induction false} NextMoves(s: State, t: nat, ch: Choice)
    requires |s.instants| > 0 && t < |s.threads|
    ensures OneMoves(s, Next(s, t, ch), t)
  {
  }

  lemma {:induction false} FinishAsked(s: State, t: nat, sc: Scan, view: seq<Value>, at: nat,
      calls: seq<seq<Call<Choice>>>)
    requires Asked(s, calls) && t < |s.threads| && Scans(sc, ReportsOf(s.finished, t), calls[t], t < |s.regs|)
    ensures var s' := Finish(s, t, sc, view, at);
            Working(s'.threads[t], ReportsOf(s'.finished, t),
                    if s'.threads[t].Idle? then End(calls[t], |s.instants| - 1) else calls[t], t < |s.regs|)
  {
    var c := Scanned(t, view, sc.since, at, Now(s), sc.round);
    var reports := ReportsOf(s.finished, t);
    ReportsMore(s.finished, c, t);
    assert (reports + [c])[..|reports|] == reports;
    assert End(calls[t], |s.instants| - 1)[..|calls[t]| - 1] == calls[t][..|calls[t]| - 1];
  }

  lemma {:induction false} StoreAsked(s: State, t: nat, ch: Choice, calls: seq<seq<Call<Choice>>>)
    requires Asked(s, calls) && t < |s.threads| && s.threads[t].Store?
    ensures Asked(Next(s, t, ch), Step(calls, s, t, ch))
  {
    var s' := Next(s, t, ch);
    var reports := ReportsOf(s.finished, t);
    assert Working(s.threads[t], reports, calls[t], t < |s.regs|);
    var c := s'.finished[|s.finished|];
    ReportsMore(s.finished, c, t);
    assert (reports + [c])[..|reports| - 1] == reports[..|reports| - 1];
    assert End(calls[t], |s.instants|)[..|calls[t]| - 1] == calls[t][..|calls[t]| - 1];
    AskedFrame(s, s', t, calls, Step(calls, s, t, ch));
  }

  lemma {:induction false} StartAsked(s: State, t: nat, ch: Choice, calls: seq<seq<Call<Choice>>>)
    requires Asked(s, calls) && t < |s.threads| && s.threads[t].Idle?
    ensures Asked(Next(s, t, ch), Step(calls, s, t, ch))
  {
    var reports := ReportsOf(s.finished, t);
    assert Working(s.threads[t], reports, calls[t], t < |s.regs|);
    assert (calls[t] + [Running(ch, |s.instants| - 1)])[..|calls[t]|] == calls[t];
    AskedFrame(s, Next(s, t, ch), t, calls, Step(calls, s, t, ch));
  }

  lemma {:induction false} CollectWorks(s: State, t: nat, ch: Choice, calls: seq<seq<Call<Choice>>>)
    requires Asked(s, calls) && t < |s.threads| && s.threads[t].Collect?
    ensures var s' := Next(s, t, ch);
            && t < |s'.threads| && calls[t] != [] && |s'.instants| == |s.instants|
            && Working(s'.threads[t], ReportsOf(s'.finished, t),
                       if s'.threads[t].Idle? then End(calls[t], |s.instants| - 1) else calls[t], t < |s.regs|)
  {
    var sc := s.threads[t].scan;
    assert Working(s.threads[t], ReportsOf(s.finished, t), calls[t], t < |s.regs|);
    if |sc.latest| >= |s.regs| && |sc.prior| == |sc.latest| == |sc.moved| {
      match Compare(sc.prior, sc.latest, sc.moved, 0, false)
      case Adopt(j) => if j < |sc.latest| { FinishAsked(s, t, sc, sc.latest[j].snapshot, sc.latest[j].viewAt, calls); }
      case Clean => FinishAsked(s, t, sc, Values(sc.latest), sc.mid, calls);
      case Retry(_) =>
    }
  }

  lemma {:induction false} CollectAsked(s: State, t: nat, ch: Choice, calls: seq<seq<Call<Choice>>>)
    requires Asked(s, calls) && t < |s.threads| && s.threads[t].Collect?
    ensures Asked(Next(s, t, ch), Step(calls, s, t, ch))
  {
    NextMoves(s, t, ch);
    CollectWorks(s, t, ch, calls);
    AskedFrame(s, Next(s, t, ch), t, calls, Step(calls, s, t, ch));
  }

  lemma {:induction false} NextAsked(s: State, t: nat, ch: Choice, calls: seq<seq<Call<Choice>>>)
    requires Asked(s, calls)
    ensures Asked(Next(s, t, ch), Step(calls, s, t, ch))
  {
    if t < |s.threads| {
      assert Working(s.threads[t], ReportsOf(s.finished, t), calls[t], t < |s.regs|);
      match s.threads[t]
      case Idle => StartAsked(s, t, ch, calls);
      case Collect(_) => CollectAsked(s, t, ch, calls);
      case Store(_, _, _, _, _) => StoreAsked(s, t, ch, calls);
      case _ =>
        NextMoves(s, t, ch);
        AskedFrame(s, Next(s, t, ch), t, calls, calls);
    }
  }

  lemma {:induction false} ExecAsked(n: nat, m: nat, schedule: seq<(nat, Choice)>)
    ensures Asked(Exec(n, m, schedule), Calls(n, m, schedule))
    decreases |schedule|
  {
    if schedule != [] {
      var before, last := schedule[..|schedule| - 1], schedule[|schedule| - 1];
      ExecAsked(n, m, before);
      NextAsked(Exec(n, m, before), last.0, last.1, Calls(n, m, before));
    }
  }

  /** Whatever the schedule, what a thread reports is, in order, what it was asked for: each scan
      with one scan, each update with its scan and then the store of its own argument, over the
      time from the step that began the call to the step that ended it. */
  lemma {:induction false} ReportsAreTheCallsAskedFor(n: nat, m: nat, schedule: seq<(nat, Choice)>, t: nat)
    requires t < m
    ensures var s := Exec(n, m, schedule);
            var calls := Calls(n, m, schedule);
            && |s.threads| == |calls| == m
            && if s.threads[t].Idle? then Answers(ReportsOf(s.finished, t), calls[t], t < n)
               else AnswersSoFar(ReportsOf(s.finished, t), calls[t], t < n)
  {
    ExecAsked(n, m, schedule);
    Sizes(n, m, schedule);
    var s := Exec(n, m, schedule);
    assert Working(s.threads[t], ReportsOf(s.finished, t), Calls(n, m, schedule)[t], t < |s.regs|);
  }

  lemma {:induction false} Sizes(n: nat, m: nat, schedule: seq<(nat, Choice)>)
    ensures |Exec(n, m, schedule).regs| == n && |Exec(n, m, schedule).threads| == m
    decreases |schedule|
  {
    if schedule != [] {
      Sizes(n, m, schedule[..|schedule| - 1]);
    }
  }
}
