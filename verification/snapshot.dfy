/**
 The wait-free atomic snapshot over one register per writer, as a machine whose steps are
 the single loads and stores of the program.

 `scan` collects all registers twice; equal sequence numbers mean the second collect is a
 view of one instant, and a register seen to move twice lets the scanner adopt the view that
 its writer embedded.  `update` scans first and stores value, sequence number and view.
 Entries are never freed while the object lives, so a pointer to one is modelled by its value.
 */
module SnapshotMachine {

  type Value = int

  /** A register entry.  `viewAt` and `storedAt` are instants: the one the embedded view
      shows and the one of the store.  No step of the program reads them. */
  datatype Entry = Entry(value: Value, sequence: nat, snapshot: seq<Value>, viewAt: nat, storedAt: nat)

  datatype Job = Read | Update(v: Value)

  /** A scan in progress.  `since` is the instant it began, `first` its first collect, `mid`
      the instant (and `at` the registers at that instant) between its last two collects, and
      `round` the number of the collect it is busy with. */
  datatype Scan = Scan(job: Job, moved: seq<bool>, prior: seq<Entry>, latest: seq<Entry>,
                       since: nat, first: seq<Entry>, mid: nat, at: seq<Entry>, round: nat)

  datatype Pc =
    | Idle
    | FirstCollect(scan: Scan)
    | Collect(scan: Scan)
    | LoadOwn(v: Value, view: seq<Value>, viewAt: nat, since: nat)
    | Store(v: Value, view: seq<Value>, viewAt: nat, since: nat, sequence: nat)

  datatype Completed =
    | Scanned(thread: nat, view: seq<Value>, since: nat, at: nat, until: nat, rounds: nat)
    | Updated(thread: nat, v: Value, since: nat, at: nat, until: nat)

  /** `instants[k]` is the register array after the k-th store and `stores[k]` the store that
      leads from instant k to instant k + 1. */
  datatype State = State(regs: seq<Entry>, threads: seq<Pc>, instants: seq<seq<Value>>,
                         stores: seq<(nat, Value)>, finished: seq<Completed>)

  datatype Choice = Choice(update: bool, v: Value)

  function Values(regs: seq<Entry>): seq<Value> {
    seq(|regs|, i requires 0 <= i < |regs| => regs[i].value)
  }

  function Zeros(n: nat): seq<Value> {
    seq(n, i => 0)
  }

  function Now(s: State): int {
    |s.instants| - 1
  }

  /** n registers, m threads; thread i < n is the one writer of register i. */
  function Init(n: nat, m: nat): State {
    State(seq(n, i => Entry(0, 0, Zeros(n), 0, 0)), seq(m, i => Idle), [Zeros(n)], [], [])
  }

  // ----- comparing two collects

  datatype Verdict = Adopt(i: nat) | Retry(moved: seq<bool>) | Clean

  /** The comparison loop from register i on; `mismatch` says whether one was met before. */
  function Compare(prior: seq<Entry>, latest: seq<Entry>, moved: seq<bool>, i: nat, mismatch: bool): Verdict
    requires |prior| == |latest| == |moved| && i <= |prior|
    decreases |prior| - i
  {
    if i == |prior| then if mismatch then Retry(moved) else Clean
    else if prior[i].sequence != latest[i].sequence then
      if moved[i] then Adopt(i) else Compare(prior, latest, moved[i := true], i + 1, true)
    else Compare(prior, latest, moved, i + 1, mismatch)
  }

  /** The same comparison as the loop the program runs. */
  method CompareLoop(prior: seq<Entry>, latest: seq<Entry>, start: seq<bool>) returns (verdict: Verdict)
    requires |prior| == |latest| == |start|
    ensures verdict == Compare(prior, latest, start, 0, false)
  {
    var moved := start;
    var mismatch := false;
    for i := 0 to |prior|
      invariant |moved| == |prior|
      invariant Compare(prior, latest, start, 0, false) == Compare(prior, latest, moved, i, mismatch)
    {
      if prior[i].sequence != latest[i].sequence {
        if moved[i] {
          return Adopt(i);
        }
        moved := moved[i := true];
        mismatch := true;
      }
    }
    return if mismatch then Retry(moved) else Clean;
  }

  // ----- steps

  function Goto(s: State, t: nat, pc: Pc): State
    requires t < |s.threads|
  {
    s.(threads := s.threads[t := pc])
  }

  /** Only the writer of a register updates it; any thread may scan. */
  function Start(s: State, t: nat, ch: Choice): State
    requires t < |s.threads| && |s.instants| > 0
  {
    var job := if ch.update && t < |s.regs| then Update(ch.v) else Read;
    Goto(s, t, FirstCollect(Scan(job, seq(|s.regs|, i => false), [], [], Now(s), [], 0, [], 0)))
  }

  function DoFirstCollect(s: State, t: nat, sc: Scan): State
    requires t < |s.threads| && |s.instants| > 0
  {
    var i := |sc.prior|;
    if i < |s.regs| then Goto(s, t, FirstCollect(sc.(prior := sc.prior + [s.regs[i]], first := sc.first + [s.regs[i]])))
    else Goto(s, t, Collect(sc.(mid := Now(s), at := s.regs, round := 1)))
  }

  function DoCollect(s: State, t: nat, sc: Scan): State
    requires t < |s.threads| && |s.instants| > 0
  {
    var i := |sc.latest|;
    if i < |s.regs| then Goto(s, t, Collect(sc.(latest := sc.latest + [s.regs[i]])))
    else if |sc.prior| == |sc.latest| == |sc.moved| then
      match Compare(sc.prior, sc.latest, sc.moved, 0, false)
      case Adopt(j) => if j < |sc.latest| then Finish(s, t, sc, sc.latest[j].snapshot, sc.latest[j].viewAt) else s
      case Clean => Finish(s, t, sc, Values(sc.latest), sc.mid)
      case Retry(moved) =>
        Goto(s, t, Collect(sc.(moved := moved, prior := sc.latest, latest := [], mid := Now(s), at := s.regs,
            round := sc.round + 1)))
    else s
  }

  function Finish(s: State, t: nat, sc: Scan, view: seq<Value>, at: nat): State
    requires t < |s.threads| && |s.instants| > 0
  {
    var s' := s.(finished := s.finished + [Scanned(t, view, sc.since, at, Now(s), sc.round)]);
    match sc.job
    case Read => Goto(s', t, Idle)
    case Update(v) => Goto(s', t, LoadOwn(v, view, at, sc.since))
  }

  function DoLoadOwn(s: State, t: nat, v: Value, view: seq<Value>, viewAt: nat, since: nat): State
    requires t < |s.threads|
  {
    if t < |s.regs| then Goto(s, t, Store(v, view, viewAt, since, s.regs[t].sequence + 1)) else s
  }

  function DoStore(s: State, t: nat, v: Value, view: seq<Value>, viewAt: nat, since: nat, sequence: nat): State
    requires t < |s.threads| && |s.instants| > 0
  {
    if t < |s.regs| then
      var regs := s.regs[t := Entry(v, sequence, view, viewAt, |s.instants|)];
      Goto(s.(regs := regs, instants := s.instants + [Values(regs)], stores := s.stores + [(t, v)],
              finished := s.finished + [Updated(t, v, since, |s.instants|, |s.instants|)]),
           t, Idle)
    else s
  }

  function Next(s: State, t: nat, ch: Choice): State
    requires |s.instants| > 0
    ensures |Next(s, t, ch).instants| > 0
  {
    if t >= |s.threads| then s
    else
      match s.threads[t]
      case Idle => Start(s, t, ch)
      case FirstCollect(sc) => DoFirstCollect(s, t, sc)
      case Collect(sc) => DoCollect(s, t, sc)
      case LoadOwn(v, view, viewAt, since) => DoLoadOwn(s, t, v, view, viewAt, since)
      case Store(v, view, viewAt, since, sequence) => DoStore(s, t, v, view, viewAt, since, sequence)
  }

  /** The state after a whole schedule with n registers and m threads. */
  function Exec(n: nat, m: nat, schedule: seq<(nat, Choice)>): (s: State)
    ensures |s.instants| > 0
    decreases |schedule|
  {
    if schedule == [] then Init(n, m)
    else
      var last := schedule[|schedule| - 1];
      Next(Exec(n, m, schedule[..|schedule| - 1]), last.0, last.1)
  }
}

/**
 Why a scan is a view of one instant inside it, and why it ends within n + 1 rounds.
 */
module SnapshotProof {
  import opened SnapshotMachine

  /** `b` was read from the same register as `a`, no earlier. */
  ghost predicate Before(a: Entry, b: Entry) {
    a.sequence <= b.sequence && (a.sequence == b.sequence ==> a == b)
  }

  /** How an entry relates to the one a scan read first from the same register: one move means
      it was stored inside the scan, two moves mean its embedded view was taken inside it. */
  ghost predicate Since(first: Entry, e: Entry, since: nat) {
    && Before(first, e)
    && (e.sequence > first.sequence ==> e.storedAt >= since)
    && (e.sequence > first.sequence + 1 ==> e.viewAt >= since)
  }

  ghost predicate EntryOk(instants: seq<seq<Value>>, e: Entry) {
    e.viewAt < |instants| && e.storedAt < |instants| && instants[e.viewAt] == e.snapshot
  }

  ghost predicate RegsOk(s: State) {
    && |s.instants| > 0
    && s.instants[|s.instants| - 1] == Values(s.regs)
    && forall i :: 0 <= i < |s.regs| ==> EntryOk(s.instants, s.regs[i])
  }

  function CountTrue(b: seq<bool>): nat {
    if b == [] then 0 else CountTrue(b[..|b| - 1]) + if b[|b| - 1] then 1 else 0
  }

  /** Register j as seen by a scan: everything it has read agrees with everything else. */
  ghost predicate SlotOk(regs: seq<Entry>, instants: seq<seq<Value>>, sc: Scan, j: nat) {
    && (j < |sc.first| && j < |regs| ==> Since(sc.first[j], regs[j], sc.since))
    && (j < |sc.first| && j < |sc.prior| ==>
           Since(sc.first[j], sc.prior[j], sc.since) && EntryOk(instants, sc.prior[j]))
    && (j < |sc.first| && j < |sc.latest| ==>
           Since(sc.first[j], sc.latest[j], sc.since) && EntryOk(instants, sc.latest[j]))
    && (j < |sc.at| && j < |sc.prior| ==> Before(sc.prior[j], sc.at[j]))
    && (j < |sc.at| && j < |sc.latest| ==> Before(sc.at[j], sc.latest[j]))
    && (j < |sc.at| && j < |regs| ==> Before(sc.at[j], regs[j]))
    && (j < |sc.prior| && j < |regs| ==> Before(sc.prior[j], regs[j]))
    && (j < |sc.latest| && j < |regs| ==> Before(sc.latest[j], regs[j]))
    && (j < |sc.moved| && j < |sc.prior| && j < |sc.first| && sc.moved[j] ==>
           sc.prior[j].sequence > sc.first[j].sequence)
  }

  ghost predicate ScanOk(regs: seq<Entry>, instants: seq<seq<Value>>, sc: Scan) {
    && sc.since < |instants|
    && |sc.moved| == |regs|
    && forall j: nat :: SlotOk(regs, instants, sc, j)
  }

  ghost predicate WriterOk(regs: seq<Entry>, instants: seq<seq<Value>>, t: nat, since: nat) {
    t < |regs| && regs[t].storedAt <= since < |instants|
  }

  ghost predicate ViewOk(instants: seq<seq<Value>>, view: seq<Value>, at: nat, since: nat) {
    since <= at < |instants| && instants[at] == view
  }

  ghost predicate ThreadOk(regs: seq<Entry>, instants: seq<seq<Value>>, t: nat, pc: Pc) {
    match pc
    case Idle => true
    case FirstCollect(sc) =>
      && ScanOk(regs, instants, sc)
      && |sc.prior| == |sc.first| <= |regs| && sc.at == [] && sc.latest == [] && sc.round == 0
      && (forall j :: 0 <= j < |sc.moved| ==> !sc.moved[j])
      && (sc.job.Update? ==> WriterOk(regs, instants, t, sc.since))
    case Collect(sc) =>
      && ScanOk(regs, instants, sc)
      && |sc.prior| == |sc.first| == |sc.at| == |regs| && |sc.latest| <= |regs|
      && sc.since <= sc.mid < |instants| && instants[sc.mid] == Values(sc.at)
      && 1 <= sc.round <= CountTrue(sc.moved) + 1
      && (sc.job.Update? ==> WriterOk(regs, instants, t, sc.since))
    case LoadOwn(_, view, viewAt, since) => WriterOk(regs, instants, t, since) && ViewOk(instants, view, viewAt, since)
    case Store(_, view, viewAt, since, sequence) =>
      && WriterOk(regs, instants, t, since) && ViewOk(instants, view, viewAt, since)
      && sequence == regs[t].sequence + 1
  }

  /** What a finished call must be able to show. */
  ghost predicate Justified(s: State, c: Completed) {
    && c.since <= c.at <= c.until < |s.instants|
    && match c
       case Scanned(_, view, _, at, _, rounds) => s.instants[at] == view && rounds <= |s.regs| + 1
       case Updated(t, v, since, at, _) => since < at <= |s.stores| && s.stores[at - 1] == (t, v)
  }

  /** Consecutive instants differ by exactly the recorded store. */
  ghost predicate StepOf(s: State, k: nat) {
    k < |s.stores| && k + 1 < |s.instants| && s.stores[k].0 < |s.instants[k]|
    && s.instants[k + 1] == s.instants[k][s.stores[k].0 := s.stores[k].1]
  }

  ghost predicate Ok(s: State) {
    && RegsOk(s)
    && |s.instants| == |s.stores| + 1
    && (forall k: nat :: k < |s.stores| ==> StepOf(s, k))
    && (forall t: nat :: t < |s.threads| ==> ThreadOk(s.regs, s.instants, t, s.threads[t]))
    && (forall i :: 0 <= i < |s.finished| ==> Justified(s, s.finished[i]))
  }

  // ----- the comparison

  lemma {:induction false} CountBounds(b: seq<bool>)
    ensures CountTrue(b) <= |b|
    decreases |b|
  {
    if b != [] {
      CountBounds(b[..|b| - 1]);
    }
  }

  lemma {:induction false} CountSet(b: seq<bool>, i: nat)
    requires i < |b| && !b[i]
    ensures CountTrue(b[i := true]) == CountTrue(b) + 1
    decreases |b|
  {
    var n := |b| - 1;
    if i == n {
      assert b[i := true][..n] == b[..n];
    } else {
      assert b[i := true][..n] == b[..n][i := true];
      CountSet(b[..n], i);
    }
  }

  /** What each verdict of the comparison means. */
  lemma {:induction false} CompareMeans(prior: seq<Entry>, latest: seq<Entry>, moved: seq<bool>, i: nat, mismatch: bool)
    requires |prior| == |latest| == |moved| && i <= |prior|
    ensures match Compare(prior, latest, moved, i, mismatch)
            case Clean => !mismatch && forall j :: i <= j < |prior| ==> prior[j].sequence == latest[j].sequence
            case Adopt(j) => i <= j < |prior| && moved[j] && prior[j].sequence != latest[j].sequence
            case Retry(m) =>
              && |m| == |moved|
              && (forall j ::
                     0 <= j < |m| ==> (m[j] <==> moved[j] || (i <= j && prior[j].sequence != latest[j].sequence)))
              && CountTrue(m) >= CountTrue(moved) + if mismatch then 0 else 1
    decreases |prior| - i
  {
    if i < |prior| {
      if prior[i].sequence != latest[i].sequence {
        if !moved[i] {
          CountSet(moved, i);
          CompareMeans(prior, latest, moved[i := true], i + 1, true);
        }
      } else {
        CompareMeans(prior, latest, moved, i + 1, mismatch);
      }
    }
  }

  // ----- steps that store nothing

  ghost predicate OthersSame(s: State, s': State, t: nat) {
    && t < |s.threads| == |s'.threads|
    && (forall u :: 0 <= u < |s.threads| && u != t ==> s'.threads[u] == s.threads[u])
  }

  lemma {:induction false} QuietStep(s: State, s': State, t: nat)
    requires Ok(s) && OthersSame(s, s', t)
    requires s'.regs == s.regs && s'.instants == s.instants && s'.stores == s.stores
    requires ThreadOk(s.regs, s.instants, t, s'.threads[t])
    requires s'.finished == s.finished
             || (|s'.finished| == |s.finished| + 1 && s'.finished[..|s.finished|] == s.finished
                 && Justified(s', s'.finished[|s.finished|]))
    ensures Ok(s')
  {
    forall i | 0 <= i < |s'.finished|
      ensures Justified(s', s'.finished[i])
    {
      if i < |s.finished| {
        assert s'.finished[i] == s.finished[i];
        assert Justified(s, s.finished[i]);
      }
    }
    forall k: nat | k < |s'.stores|
      ensures StepOf(s', k)
    {
      assert StepOf(s, k);
    }
  }

  lemma {:induction false} StartOk(s: State, t: nat, ch: Choice)
    requires Ok(s) && t < |s.threads| && s.threads[t].Idle?
    ensures Ok(Start(s, t, ch))
  {
    var s' := Start(s, t, ch);
    if t < |s.regs| {
      assert EntryOk(s.instants, s.regs[t]);
    }
    QuietStep(s, s', t);
  }

  /** Reading register i first: from now on the scan knows how far the register has moved. */
  lemma {:induction false} FirstCollectOk(s: State, t: nat, sc: Scan)
    requires Ok(s) && t < |s.threads| && s.threads[t] == FirstCollect(sc)
    ensures Ok(DoFirstCollect(s, t, sc))
  {
    var s' := DoFirstCollect(s, t, sc);
    assert ThreadOk(s.regs, s.instants, t, s.threads[t]);
    var i := |sc.prior|;
    var sc' := s'.threads[t].scan;
    forall j: nat
      ensures SlotOk(s.regs, s.instants, sc', j)
    {
      assert SlotOk(s.regs, s.instants, sc, j);
      if j < |s.regs| {
        assert EntryOk(s.instants, s.regs[j]);
      }
    }
    assert forall j :: 0 <= j < i ==> sc'.prior[j] == sc.prior[j];
    QuietStep(s, s', t);
  }

  lemma {:induction false} CollectOneOk(s: State, t: nat, sc: Scan)
    requires Ok(s) && t < |s.threads| && s.threads[t] == Collect(sc) && |sc.latest| < |s.regs|
    ensures Ok(DoCollect(s, t, sc))
  {
    var s' := DoCollect(s, t, sc);
    assert ThreadOk(s.regs, s.instants, t, s.threads[t]);
    var sc' := s'.threads[t].scan;
    forall j: nat
      ensures SlotOk(s.regs, s.instants, sc', j)
    {
      assert SlotOk(s.regs, s.instants, sc, j);
      if j < |s.regs| {
        assert EntryOk(s.instants, s.regs[j]);
      }
    }
    QuietStep(s, s', t);
  }

  lemma {:induction false} FinishOk(s: State, t: nat, sc: Scan, view: seq<Value>, at: nat)
    requires Ok(s) && t < |s.threads| && s.threads[t] == Collect(sc)
    requires ViewOk(s.instants, view, at, sc.since)
    ensures Ok(Finish(s, t, sc, view, at))
  {
    assert ThreadOk(s.regs, s.instants, t, s.threads[t]);
    CountBounds(sc.moved);
    QuietStep(s, Finish(s, t, sc, view, at), t);
  }

  /** Equal sequence numbers in two collects: the registers stood like that in between. */
  lemma {:induction false} CleanViewOk(s: State, t: nat, sc: Scan)
    requires Ok(s) && t < |s.threads| && s.threads[t] == Collect(sc) && |sc.latest| == |s.regs|
    requires forall j :: 0 <= j < |sc.prior| ==> sc.prior[j].sequence == sc.latest[j].sequence
    ensures ViewOk(s.instants, Values(sc.latest), sc.mid, sc.since)
  {
    assert ThreadOk(s.regs, s.instants, t, s.threads[t]);
    forall j | 0 <= j < |s.regs|
      ensures sc.at[j] == sc.latest[j]
    {
      assert SlotOk(s.regs, s.instants, sc, j);
    }
    assert Values(sc.at) == Values(sc.latest);
  }

  /** A register that moved twice embeds a view taken inside this scan. */
  lemma {:induction false} AdoptedViewOk(s: State, t: nat, sc: Scan, j: nat)
    requires Ok(s) && t < |s.threads| && s.threads[t] == Collect(sc) && |sc.latest| == |s.regs|
    requires j < |s.regs| && sc.moved[j] && sc.prior[j].sequence != sc.latest[j].sequence
    ensures ViewOk(s.instants, sc.latest[j].snapshot, sc.latest[j].viewAt, sc.since)
  {
    assert ThreadOk(s.regs, s.instants, t, s.threads[t]);
    assert SlotOk(s.regs, s.instants, sc, j);
  }

  lemma {:induction false} RetryOk(s: State, t: nat, sc: Scan, moved: seq<bool>)
    requires Ok(s) && t < |s.threads| && s.threads[t] == Collect(sc) && |sc.latest| == |s.regs|
    requires |sc.prior| == |sc.latest| == |sc.moved| && Compare(sc.prior, sc.latest, sc.moved, 0, false) == Retry(moved)
    ensures Ok(DoCollect(s, t, sc))
  {
    var s' := DoCollect(s, t, sc);
    assert ThreadOk(s.regs, s.instants, t, s.threads[t]);
    CompareMeans(sc.prior, sc.latest, sc.moved, 0, false);
    var sc' := s'.threads[t].scan;
    forall j: nat
      ensures SlotOk(s.regs, s.instants, sc', j)
    {
      assert SlotOk(s.regs, s.instants, sc, j);
    }
    QuietStep(s, s', t);
  }

  lemma {:induction false} CollectOk(s: State, t: nat, sc: Scan)
    requires Ok(s) && t < |s.threads| && s.threads[t] == Collect(sc)
    ensures Ok(DoCollect(s, t, sc))
  {
    assert ThreadOk(s.regs, s.instants, t, s.threads[t]);
    if |sc.latest| < |s.regs| {
      CollectOneOk(s, t, sc);
    } else {
      CompareMeans(sc.prior, sc.latest, sc.moved, 0, false);
      match Compare(sc.prior, sc.latest, sc.moved, 0, false)
      case Adopt(j) =>
        AdoptedViewOk(s, t, sc, j);
        FinishOk(s, t, sc, sc.latest[j].snapshot, sc.latest[j].viewAt);
      case Clean =>
        CleanViewOk(s, t, sc);
        FinishOk(s, t, sc, Values(sc.latest), sc.mid);
      case Retry(moved) => RetryOk(s, t, sc, moved);
    }
  }

  // ----- the store

  lemma {:induction false} SlotAfterStore(regs: seq<Entry>, instants: seq<seq<Value>>, sc: Scan, j: nat, t: nat,
          e: Entry, now: seq<Value>)
    requires SlotOk(regs, instants, sc, j) && sc.since < |instants|
    requires t < |regs| && e.sequence == regs[t].sequence + 1 && e.storedAt == |instants|
    requires e.viewAt >= regs[t].storedAt
    ensures SlotOk(regs[t := e], instants + [now], sc, j)
  {
  }

  lemma {:induction false} OtherThreadAfterStore(regs: seq<Entry>, instants: seq<seq<Value>>, u: nat, pc: Pc, t: nat,
          e: Entry, now: seq<Value>)
    requires ThreadOk(regs, instants, u, pc) && u != t
    requires t < |regs| && e.sequence == regs[t].sequence + 1 && e.storedAt == |instants|
    requires e.viewAt >= regs[t].storedAt
    ensures ThreadOk(regs[t := e], instants + [now], u, pc)
  {
    if pc.FirstCollect? || pc.Collect? {
      var sc := pc.scan;
      var regs' := regs[t := e];
      var instants' := instants + [now];
      forall j: nat
        ensures SlotOk(regs', instants', sc, j)
      {
        assert SlotOk(regs, instants, sc, j);
        SlotAfterStore(regs, instants, sc, j, t, e, now);
      }
    }
  }

  lemma {:induction false} StoreOk(s: State, t: nat)
    requires Ok(s) && t < |s.threads| && s.threads[t].Store?
    ensures var pc := s.threads[t]; Ok(DoStore(s, t, pc.v, pc.view, pc.viewAt, pc.since, pc.sequence))
  {
    var pc := s.threads[t];
    var s' := DoStore(s, t, pc.v, pc.view, pc.viewAt, pc.since, pc.sequence);
    assert ThreadOk(s.regs, s.instants, t, pc);
    var e := s'.regs[t];
    var now := Values(s'.regs);
    forall u: nat | u < |s.threads|
      ensures ThreadOk(s'.regs, s'.instants, u, s'.threads[u])
    {
      if u != t {
        assert ThreadOk(s.regs, s.instants, u, s.threads[u]);
        OtherThreadAfterStore(s.regs, s.instants, u, s.threads[u], t, e, now);
      }
    }
    forall i | 0 <= i < |s'.regs|
      ensures EntryOk(s'.instants, s'.regs[i])
    {
      assert EntryOk(s.instants, s.regs[i]);
    }
    StoreHistory(s, s', t, pc.v);
    forall i | 0 <= i < |s'.finished|
      ensures Justified(s', s'.finished[i])
    {
      if i < |s.finished| {
        assert Justified(s, s.finished[i]);
      }
    }
  }

  lemma {:induction false} StoreHistory(s: State, s': State, t: nat, v: Value)
    requires RegsOk(s) && |s.instants| == |s.stores| + 1 && (forall k: nat :: k < |s.stores| ==> StepOf(s, k))
    requires t < |s.regs| == |s'.regs| && s'.regs[t].value == v && s'.regs == s.regs[t := s'.regs[t]]
    requires s'.instants == s.instants + [Values(s'.regs)] && s'.stores == s.stores + [(t, v)]
    ensures forall k: nat :: k < |s'.stores| ==> StepOf(s', k)
  {
    assert Values(s'.regs) == Values(s.regs)[t := v];
    forall k: nat | k < |s'.stores|
      ensures StepOf(s', k)
    {
      if k < |s.stores| {
        assert StepOf(s, k);
      }
    }
  }

  // ----- every run

  lemma {:induction false} NextOk(s: State, t: nat, ch: Choice)
    requires Ok(s)
    ensures Ok(Next(s, t, ch))
  {
    if t < |s.threads| {
      assert ThreadOk(s.regs, s.instants, t, s.threads[t]);
      match s.threads[t]
      case Idle => StartOk(s, t, ch);
      case FirstCollect(sc) => FirstCollectOk(s, t, sc);
      case Collect(sc) => CollectOk(s, t, sc);
      case LoadOwn(v, view, viewAt, since) => QuietStep(s, DoLoadOwn(s, t, v, view, viewAt, since), t);
      case Store(_, _, _, _, _) => StoreOk(s, t);
    }
  }

  lemma {:induction false} ExecOk(n: nat, m: nat, schedule: seq<(nat, Choice)>)
    ensures Ok(Exec(n, m, schedule)) && |Exec(n, m, schedule).regs| == n
    decreases |schedule|
  {
    if schedule == [] {
      assert Values(Init(n, m).regs) == Zeros(n);
    } else {
      var last := schedule[|schedule| - 1];
      ExecOk(n, m, schedule[..|schedule| - 1]);
      NextOk(Exec(n, m, schedule[..|schedule| - 1]), last.0, last.1);
    }
  }

  /** Every finished scan, whether it took its own view or adopted one that another writer may
      itself have adopted, returns the register array of one instant inside the scan, after at
      most n + 1 rounds. */
  lemma {:induction false} ScansAreAtomicAndBounded(n: nat, m: nat, schedule: seq<(nat, Choice)>, i: nat)
    requires i < |Exec(n, m, schedule).finished| && Exec(n, m, schedule).finished[i].Scanned?
    ensures var s := Exec(n, m, schedule);
            var c := s.finished[i];
            && c.since <= c.at <= c.until < |s.instants|
            && c.view == s.instants[c.at]
            && c.rounds <= n + 1
  {
    ExecOk(n, m, schedule);
    assert Justified(Exec(n, m, schedule), Exec(n, m, schedule).finished[i]);
  }

  /** The instants form a sequential history: they begin with zeros, each differs from the one
      before by one store, and each finished update is one of these stores, inside the call. */
  lemma {:induction false} UpdatesAreAtomic(n: nat, m: nat, schedule: seq<(nat, Choice)>, k: nat, i: nat)
    requires k < |Exec(n, m, schedule).stores|
    requires i < |Exec(n, m, schedule).finished| && Exec(n, m, schedule).finished[i].Updated?
    ensures var s := Exec(n, m, schedule);
            var c := s.finished[i];
            && |s.instants| == |s.stores| + 1
            && s.instants[|s.instants| - 1] == Values(s.regs)
            && s.stores[k].0 < |s.instants[k]|
            && s.instants[k + 1] == s.instants[k][s.stores[k].0 := s.stores[k].1]
            && c.since < c.at <= c.until < |s.instants|
            && s.stores[c.at - 1] == (c.thread, c.v)
  {
    ExecOk(n, m, schedule);
    assert Justified(Exec(n, m, schedule), Exec(n, m, schedule).finished[i]);
    assert StepOf(Exec(n, m, schedule), k);
  }

  /** The stores that the finished updates report, oldest first. */
  function Reported(finished: seq<Completed>): seq<(nat, Value)> {
    if finished == [] then []
    else
      var c := finished[|finished| - 1];
      Reported(finished[..|finished| - 1]) + if c.Updated? then [(c.thread, c.v)] else []
  }

  /** The i-th finished call, if an update, is the store that the updates up to it count to. */
  ghost predicate OwnStore(finished: seq<Completed>, i: int) {
    0 <= i < |finished| && (finished[i].Updated? ==> finished[i].at == |Reported(finished[..i + 1])|)
  }

  lemma {:induction false} ReportedMore(finished: seq<Completed>, c: Completed)
    ensures Reported(finished + [c]) == Reported(finished) + if c.Updated? then [(c.thread, c.v)] else []
  {
    assert (finished + [c])[..|finished|] == finished;
  }

  lemma {:induction false} ReportedPrefix(finished: seq<Completed>, i: nat, j: nat)
    requires i <= j <= |finished|
    ensures |Reported(finished[..i])| <= |Reported(finished[..j])|
    ensures i < j && finished[j - 1].Updated? ==> |Reported(finished[..i])| < |Reported(finished[..j])|
    decreases j
  {
    if i < j {
      assert finished[..j][..j - 1] == finished[..j - 1];
      ReportedPrefix(finished, i, j - 1);
    }
  }

  ghost predicate StoresReported(s: State) {
    && |s.instants| == |s.stores| + 1 && Reported(s.finished) == s.stores
    && forall i {:trigger OwnStore(s.finished, i)} :: 0 <= i < |s.finished| ==> OwnStore(s.finished, i)
  }

  lemma {:induction false} StoresReportedMore(s: State, s': State, c: Completed)
    requires StoresReported(s) && s'.finished == s.finished + [c] && |s'.instants| == |s'.stores| + 1
    requires s'.stores == s.stores + if c.Updated? then [(c.thread, c.v)] else []
    requires c.Updated? ==> c.at == |s.instants|
    ensures StoresReported(s')
  {
    ReportedMore(s.finished, c);
    forall i | 0 <= i < |s'.finished|
      ensures OwnStore(s'.finished, i)
    {
      if i < |s.finished| {
        assert OwnStore(s.finished, i) && s'.finished[..i + 1] == s.finished[..i + 1];
      } else {
        assert s'.finished[..i + 1] == s'.finished;
      }
    }
  }

  lemma {:induction false} NextReports(s: State, t: nat, ch: Choice)
    requires Ok(s) && StoresReported(s)
    ensures StoresReported(Next(s, t, ch))
  {
    NextOk(s, t, ch);
    var s' := Next(s, t, ch);
    if s'.finished != s.finished {
      StoresReportedMore(s, s', s'.finished[|s.finished|]);
    }
  }

  /** Later updates have later stores. */
  ghost predicate StoresInOrder(finished: seq<Completed>) {
    forall i, j {:trigger finished[i], finished[j]} ::
      0 <= i < j < |finished| && finished[i].Updated? && finished[j].Updated? ==> finished[i].at < finished[j].at
  }

  lemma {:induction false} OwnStoresInOrder(finished: seq<Completed>)
    requires forall i {:trigger OwnStore(finished, i)} :: 0 <= i < |finished| ==> OwnStore(finished, i)
    ensures StoresInOrder(finished)
  {
    forall i, j | 0 <= i < j < |finished| && finished[i].Updated? && finished[j].Updated?
      ensures finished[i].at < finished[j].at
    {
      assert OwnStore(finished, i) && OwnStore(finished, j);
      ReportedPrefix(finished, i + 1, j + 1);
    }
  }

  /** Stores and finished updates correspond one to one, in the same order: every store is that of
      one finished update, and different finished updates have different stores. */
  lemma {:induction false} StoresAreUpdates(n: nat, m: nat, schedule: seq<(nat, Choice)>)
    ensures var s := Exec(n, m, schedule); Reported(s.finished) == s.stores && StoresInOrder(s.finished)
  {
    RunReports(n, m, schedule);
    OwnStoresInOrder(Exec(n, m, schedule).finished);
  }

  lemma {:induction false} RunReports(n: nat, m: nat, schedule: seq<(nat, Choice)>)
    ensures StoresReported(Exec(n, m, schedule))
    decreases |schedule|
  {
    if schedule != [] {
      var last := schedule[|schedule| - 1];
      var before := schedule[..|schedule| - 1];
      RunReports(n, m, before);
      ExecOk(n, m, before);
      NextReports(Exec(n, m, before), last.0, last.1);
    }
  }

  // ----- wait-freedom

  /** `rounds` collects of n loads and one comparison each. */
  function Collects(rounds: int, n: nat): nat {
    if rounds <= 0 then 0 else n + 1 + Collects(rounds - 1, n)
  }

  /** The steps a thread still has to take, whatever the others do. */
  function Work(n: nat, pc: Pc): int {
    match pc
    case Idle => 0
    case FirstCollect(sc) => (n - |sc.prior|) + 1 + Collects(n + 1, n) + 2
    case Collect(sc) => (n - |sc.latest|) + 1 + Collects(n + 1 - sc.round, n) + 2
    case LoadOwn(_, _, _, _) => 2
    case Store(_, _, _, _, _) => 1
  }

  lemma {:induction false} CollectsIsProduct(rounds: nat, n: nat)
    ensures Collects(rounds, n) == rounds * (n + 1)
  {
    if rounds > 0 {
      CollectsIsProduct(rounds - 1, n);
      assert rounds * (n + 1) == (rounds - 1) * (n + 1) + (n + 1);
    }
  }

  lemma {:induction false} CollectsMonotone(a: int, b: int, n: nat)
    requires a <= b
    ensures Collects(a, n) <= Collects(b, n)
    decreases b - a
  {
    if a < b {
      CollectsMonotone(a, b - 1, n);
    }
  }

  /** Wait-freedom: each step of a call, under any schedule of the other threads, leaves the
      thread with less work, so a call ends within (n + 2) * (n + 1) + 2 of its own steps. */
  lemma {:induction false} EveryCallEnds(n: nat, m: nat, schedule: seq<(nat, Choice)>, t: nat, ch: Choice)
    requires t < |Exec(n, m, schedule).threads| && !Exec(n, m, schedule).threads[t].Idle?
    ensures var s := Exec(n, m, schedule);
            0 <= Work(n, Next(s, t, ch).threads[t]) < Work(n, s.threads[t]) <= (n + 2) * (n + 1) + 2
  {
    ExecOk(n, m, schedule);
    CollectsIsProduct(n + 2, n);
    LessWork(n, Exec(n, m, schedule), t, ch);
  }

  lemma {:induction false} LessWork(n: nat, s: State, t: nat, ch: Choice)
    requires Ok(s) && |s.regs| == n && t < |s.threads| && !s.threads[t].Idle?
    ensures 0 <= Work(n, Next(s, t, ch).threads[t]) < Work(n, s.threads[t]) <= Collects(n + 2, n) + 2
  {
    assert ThreadOk(s.regs, s.instants, t, s.threads[t]);
    if s.threads[t].Collect? {
      var sc := s.threads[t].scan;
      CountBounds(sc.moved);
      CollectsMonotone(n + 1 - sc.round, n + 1, n);
      if |sc.latest| == n {
        CompareMeans(sc.prior, sc.latest, sc.moved, 0, false);
        var verdict := Compare(sc.prior, sc.latest, sc.moved, 0, false);
        if verdict.Retry? {
          CountBounds(verdict.moved);
        }
      }
    }
  }
}
