/**
 Read-copy-update with grace periods, as interleaved atomic steps.

 A reader stores an odd epoch while it is inside a read-side section.  A writer exchanges the
 published entry, advances the epoch by two, waits reader by reader until each is outside or
 has entered since, and then deletes the entry it replaced.  Any number of writers and readers
 run at once.
 */
module RcuMachine {

  type Entry = nat

  /** `held` is what rcu_dereference returned in this section; `since` is when the section began. */
  datatype Reader =
    | Outside
    | Locking(e: nat)
    | Inside(held: set<Entry>, since: nat)

  /** `from` is the instant at which the writer advanced the epoch. */
  datatype Writer =
    | Resting
    | Replacing(fresh_: Entry)
    | Advancing(old_: Entry)
    | Waiting(old_: Entry, target: nat, i: nat, from: nat)
    | Deleting(old_: Entry, from: nat)

  datatype State = State(
    route: Entry,
    live: set<Entry>,
    epoch: nat,
    slots: seq<nat>,
    readers: seq<Reader>,
    writers: seq<Writer>,
    clock: nat,
    fault: bool)

  datatype Action =
    | LoadEpoch(r: nat)
    | StoreEpoch(r: nat)
    | Dereference(r: nat)
    | Use(r: nat, entry: Entry)
    | Unlock(r: nat)
    | Allocate(w: nat, entry: Entry)
    | Exchange(w: nat)
    | Advance(w: nat)
    | Check(w: nat)
    | Delete(w: nat)

  function Init(readers: nat, writers: nat, first: Entry): State {
    State(first, {first}, 0, seq(readers, _ => 0), seq(readers, _ => Outside), seq(writers, _ => Resting), 0, false)
  }

  /** e | 1 */
  function Odd(e: nat): nat {
    if e % 2 == 1 then e else e + 1
  }

  /** One atomic step; an action that does not apply in this state changes nothing.  A use of an
      entry that is not live, or a second delete, is a fault. */
  function Next(s: State, a: Action): State {
    var s := s.(clock := s.clock + 1);
    match a
    case LoadEpoch(r) =>
      if r < |s.readers| && s.readers[r].Outside? then s.(readers := s.readers[r := Locking(s.epoch)]) else s
    case StoreEpoch(r) =>
      if r < |s.readers| && r < |s.slots| && s.readers[r].Locking? then
        s.(slots := s.slots[r := Odd(s.readers[r].e)], readers := s.readers[r := Inside({}, s.clock)])
      else s
    case Dereference(r) =>
      if r < |s.readers| && s.readers[r].Inside? then
        s.(readers := s.readers[r := Inside(s.readers[r].held + {s.route}, s.readers[r].since)])
      else s
    case Use(r, entry) =>
      if r < |s.readers| && s.readers[r].Inside? && entry in s.readers[r].held && entry !in s.live
      then s.(fault := true) else s
    case Unlock(r) =>
      if r < |s.readers| && r < |s.slots| && s.readers[r].Inside? then
        s.(slots := s.slots[r := 0], readers := s.readers[r := Outside])
      else s
    case Allocate(w, entry) =>
      if w < |s.writers| && s.writers[w].Resting? && entry !in s.live then
        s.(live := s.live + {entry}, writers := s.writers[w := Replacing(entry)])
      else s
    case Exchange(w) =>
      if w < |s.writers| && s.writers[w].Replacing? then
        s.(route := s.writers[w].fresh_, writers := s.writers[w := Advancing(s.route)])
      else s
    case Advance(w) =>
      if w < |s.writers| && s.writers[w].Advancing? then
        s.(epoch := s.epoch + 2, writers := s.writers[w := Waiting(s.writers[w].old_, s.epoch + 2, 0, s.clock)])
      else s
    case Check(w) =>
      if w < |s.writers| && s.writers[w].Waiting? then
        var me := s.writers[w];
        if me.i >= |s.slots| then s.(writers := s.writers[w := Deleting(me.old_, me.from)])
        else if s.slots[me.i] == 0 || s.slots[me.i] > me.target then s.(writers := s.writers[w := me.(i := me.i + 1)])
        else s
      else s
    case Delete(w) =>
      if w < |s.writers| && s.writers[w].Deleting? then
        if s.writers[w].old_ in s.live then
          s.(live := s.live - {s.writers[w].old_}, writers := s.writers[w := Resting])
        else s.(fault := true)
      else s
  }

  function Exec(readers: nat, writers: nat, first: Entry, schedule: seq<Action>): State
    decreases |schedule|
  {
    if schedule == [] then Init(readers, writers, first)
    else Next(Exec(readers, writers, first, schedule[..|schedule| - 1]), schedule[|schedule| - 1])
  }
}

/**
 No reader uses a deleted entry, updates publish the entries they allocated and delete the ones
 they replaced, and a section is given the entries that are current while it runs.
 */
module RcuProof {
  import opened RcuMachine
  import opened RcuHistory

  /** The entry a writer is responsible for. */
  function Mine(w: Writer): set<Entry> {
    match w
    case Resting => {}
    case Replacing(e) => {e}
    case Advancing(e) => {e}
    case Waiting(e, _, _, _) => {e}
    case Deleting(e, _) => {e}
  }

  ghost predicate OwnOk(s: State, w: int) {
    0 <= w < |s.writers| && Mine(s.writers[w]) <= s.live && s.route !in Mine(s.writers[w])
  }

  ghost predicate Apart(s: State, v: int, w: int) {
    0 <= v < |s.writers| && 0 <= w < |s.writers| && Mine(s.writers[v]) !! Mine(s.writers[w])
  }

  /** A slot is 0 outside a section, and the odd value of an epoch that has been reached inside one. */
  ghost predicate SlotOk(s: State, r: int) {
    && 0 <= r < |s.readers| == |s.slots|
    && match s.readers[r]
       case Outside => s.slots[r] == 0
       case Locking(e) => s.slots[r] == 0 && e <= s.epoch && e % 2 == 0
       case Inside(_, since) => 0 < s.slots[r] <= s.epoch + 1 && s.slots[r] % 2 == 1 && since <= s.clock
  }

  /** Reader r has not been passed by writer w's wait. */
  predicate StillAwaited(s: State, w: int, r: int)
    requires 0 <= w < |s.writers|
  {
    s.writers[w].Advancing?
    || (s.writers[w].Waiting? && s.writers[w].i <= r && 0 <= r < |s.slots| && s.slots[r] < s.writers[w].target)
  }

  ghost predicate Awaits(s: State, w: int, r: int, e: Entry) {
    0 <= w < |s.writers| && e in Mine(s.writers[w]) && StillAwaited(s, w, r)
  }

  /** What a reader holds is published, or its deletion waits for the reader. */
  ghost predicate HeldOk(s: State, r: int, e: Entry) {
    e == s.route || exists w :: Awaits(s, w, r, e)
  }

  ghost predicate ReaderOk(s: State, r: int) {
    0 <= r < |s.readers| && (s.readers[r].Inside? ==> forall e :: e in s.readers[r].held ==> HeldOk(s, r, e))
  }

  /** Between a writer and a reader: a section older than the advance has a smaller epoch, and
      once the wait has passed the reader, its section is younger. */
  ghost predicate GraceOk(s: State, w: int, r: int) {
    && 0 <= w < |s.writers| && 0 <= r < |s.readers| == |s.slots|
    && (s.writers[w].Waiting? ==>
          && s.writers[w].target <= s.epoch && s.writers[w].target % 2 == 0 && s.writers[w].from <= s.clock
          && (s.readers[r].Inside? && s.readers[r].since <= s.writers[w].from ==>
                 s.slots[r] < s.writers[w].target && s.writers[w].i <= r))
    && (s.writers[w].Deleting? ==>
          && s.writers[w].from <= s.clock
          && (s.readers[r].Inside? ==> s.readers[r].since > s.writers[w].from))
  }

  ghost predicate Ok(s: State) {
    && !s.fault && s.route in s.live && s.epoch % 2 == 0 && |s.slots| == |s.readers|
    && (forall w :: 0 <= w < |s.writers| ==> OwnOk(s, w))
    && (forall v, w :: 0 <= v < w < |s.writers| ==> Apart(s, v, w))
    && (forall r :: 0 <= r < |s.readers| ==> SlotOk(s, r))
    && (forall r :: 0 <= r < |s.readers| ==> ReaderOk(s, r))
    && (forall w, r :: 0 <= w < |s.writers| && 0 <= r < |s.readers| ==> GraceOk(s, w, r))
  }

  lemma {:induction false} InitOk(readers: nat, writers: nat, first: Entry)
    ensures Ok(Init(readers, writers, first))
  {
  }

  lemma {:induction false} DifferentOwners(s: State, v: int, w: int)
    requires Ok(s) && 0 <= v < |s.writers| && 0 <= w < |s.writers| && v != w
    ensures Mine(s.writers[v]) !! Mine(s.writers[w])
  {
    if v < w {
      assert Apart(s, v, w);
    } else {
      assert Apart(s, w, v);
    }
  }

  // ----- readers

  /** Only reader r and its slot change. */
  ghost predicate ReaderStep(s: State, s': State, r: nat) {
    && r < |s.readers| == |s.slots| && |s'.readers| == |s.readers| && |s'.slots| == |s.slots|
    && s'.writers == s.writers && s'.route == s.route && s'.live == s.live && s'.epoch == s.epoch
    && s'.fault == s.fault && s'.clock == s.clock + 1
    && forall q :: 0 <= q < |s.readers| && q != r ==> s'.readers[q] == s.readers[q] && s'.slots[q] == s.slots[q]
  }

  lemma {:induction false} ReaderStepOk(s: State, s': State, r: nat)
    requires Ok(s) && ReaderStep(s, s', r) && SlotOk(s', r) && ReaderOk(s', r)
    requires forall w :: 0 <= w < |s.writers| ==> GraceOk(s', w, r)
    ensures Ok(s')
  {
    forall w | 0 <= w < |s'.writers|
      ensures OwnOk(s', w)
    {
      assert OwnOk(s, w);
    }
    forall v, w | 0 <= v < w < |s'.writers|
      ensures Apart(s', v, w)
    {
      assert Apart(s, v, w);
    }
    forall q | 0 <= q < |s'.readers|
      ensures SlotOk(s', q) && ReaderOk(s', q)
    {
      if q != r {
        assert SlotOk(s, q);
        OtherReader(s, s', r, q);
      }
    }
    forall w, q | 0 <= w < |s'.writers| && 0 <= q < |s'.readers|
      ensures GraceOk(s', w, q)
    {
      if q != r {
        assert GraceOk(s, w, q);
      }
    }
  }

  lemma {:induction false} OtherReader(s: State, s': State, r: nat, q: nat)
    requires ReaderStep(s, s', r) && q < |s.readers| && q != r && ReaderOk(s, q)
    ensures ReaderOk(s', q)
  {
    if s'.readers[q].Inside? {
      forall e | e in s'.readers[q].held
        ensures HeldOk(s', q, e)
      {
        assert HeldOk(s, q, e);
        if e != s.route {
          var w :| Awaits(s, w, q, e);
          assert Awaits(s', w, q, e);
        }
      }
    }
  }

  lemma {:induction false} LoadEpochOk(s: State, r: nat)
    requires Ok(s) && r < |s.readers| && s.readers[r].Outside?
    ensures Ok(Next(s, LoadEpoch(r)))
  {
    var s' := Next(s, LoadEpoch(r));
    assert SlotOk(s, r);
    forall w | 0 <= w < |s.writers|
      ensures GraceOk(s', w, r)
    {
      assert GraceOk(s, w, r);
    }
    ReaderStepOk(s, s', r);
  }

  lemma {:induction false} StoreEpochOk(s: State, r: nat)
    requires Ok(s) && r < |s.readers| && s.readers[r].Locking?
    ensures Ok(Next(s, StoreEpoch(r)))
  {
    var s' := Next(s, StoreEpoch(r));
    assert SlotOk(s, r);
    forall w | 0 <= w < |s.writers|
      ensures GraceOk(s', w, r)
    {
      assert GraceOk(s, w, r);
    }
    ReaderStepOk(s, s', r);
  }

  lemma {:induction false} DereferenceOk(s: State, r: nat)
    requires Ok(s) && r < |s.readers| && s.readers[r].Inside?
    ensures Ok(Next(s, Dereference(r)))
  {
    var s' := Next(s, Dereference(r));
    assert SlotOk(s, r) && ReaderOk(s, r);
    forall w | 0 <= w < |s.writers|
      ensures GraceOk(s', w, r)
    {
      assert GraceOk(s, w, r);
    }
    forall e | e in s'.readers[r].held
      ensures HeldOk(s', r, e)
    {
      if e != s.route {
        assert HeldOk(s, r, e);
        var w :| Awaits(s, w, r, e);
        assert Awaits(s', w, r, e);
      }
    }
    ReaderStepOk(s, s', r);
  }

  /** A held entry is live. */
  lemma {:induction false} HeldIsLive(s: State, r: nat, e: Entry)
    requires Ok(s) && r < |s.readers| && s.readers[r].Inside? && e in s.readers[r].held
    ensures e in s.live
  {
    assert ReaderOk(s, r);
    assert HeldOk(s, r, e);
    if e != s.route {
      var w :| Awaits(s, w, r, e);
      assert OwnOk(s, w);
    }
  }

  lemma {:induction false} UnlockOk(s: State, r: nat)
    requires Ok(s) && r < |s.readers| && s.readers[r].Inside?
    ensures Ok(Next(s, Unlock(r)))
  {
    var s' := Next(s, Unlock(r));
    forall w | 0 <= w < |s.writers|
      ensures GraceOk(s', w, r)
    {
      assert GraceOk(s, w, r);
    }
    ReaderStepOk(s, s', r);
  }

  // ----- writers

  /** Only writer w changes; what readers hold stays published or awaited. */
  ghost predicate WriterStep(s: State, s': State, w: nat) {
    && w < |s.writers| == |s'.writers| && s'.readers == s.readers && s'.slots == s.slots
    && s'.fault == s.fault && s'.clock == s.clock + 1 && s.epoch <= s'.epoch && s'.epoch % 2 == 0
    && (forall v :: 0 <= v < |s.writers| && v != w ==> s'.writers[v] == s.writers[v])
  }

  lemma {:induction false} WriterStepOk(s: State, s': State, w: nat)
    requires Ok(s) && WriterStep(s, s', w) && s'.route in s'.live && OwnOk(s', w)
    requires forall v :: 0 <= v < |s.writers| && v != w ==> Mine(s'.writers[w]) !! Mine(s.writers[v])
    requires forall v :: 0 <= v < |s.writers| && v != w ==> OwnOk(s', v)
    requires forall r :: 0 <= r < |s.readers| ==> GraceOk(s', w, r)
    requires forall r, e :: 0 <= r < |s.readers| && s.readers[r].Inside? && e in s.readers[r].held ==> HeldOk(s', r, e)
    ensures Ok(s')
  {
    forall u, v | 0 <= u < v < |s'.writers|
      ensures Apart(s', u, v)
    {
      DifferentOwners(s, u, v);
    }
    forall r | 0 <= r < |s'.readers|
      ensures SlotOk(s', r) && ReaderOk(s', r)
    {
      assert SlotOk(s, r);
    }
    forall v, r | 0 <= v < |s'.writers| && 0 <= r < |s'.readers|
      ensures GraceOk(s', v, r)
    {
      if v != w {
        assert GraceOk(s, v, r);
      }
    }
  }

  /** Entries awaited by other writers stay awaited. */
  lemma {:induction false} AwaitedByOthers(s: State, s': State, w: nat, r: nat, e: Entry)
    requires Ok(s) && WriterStep(s, s', w) && r < |s.readers| && s.readers[r].Inside? && e in s.readers[r].held
    requires e != s.route && e !in Mine(s.writers[w])
    ensures HeldOk(s', r, e)
  {
    assert ReaderOk(s, r);
    assert HeldOk(s, r, e);
    var v :| Awaits(s, v, r, e);
    assert Awaits(s', v, r, e);
  }

  lemma {:induction false} AllocateOk(s: State, w: nat, entry: Entry)
    requires Ok(s) && w < |s.writers| && s.writers[w].Resting? && entry !in s.live
    ensures Ok(Next(s, Allocate(w, entry)))
  {
    var s' := Next(s, Allocate(w, entry));
    forall v | 0 <= v < |s.writers| && v != w
      ensures OwnOk(s', v) && Mine(s'.writers[w]) !! Mine(s.writers[v])
    {
      assert OwnOk(s, v);
    }
    forall r | 0 <= r < |s.readers|
      ensures GraceOk(s', w, r)
    {
      assert GraceOk(s, w, r);
    }
    forall r, e | 0 <= r < |s.readers| && s.readers[r].Inside? && e in s.readers[r].held
      ensures HeldOk(s', r, e)
    {
      if e != s.route {
        AwaitedByOthers(s, s', w, r, e);
      }
    }
    WriterStepOk(s, s', w);
  }

  lemma {:induction false} ExchangeOk(s: State, w: nat)
    requires Ok(s) && w < |s.writers| && s.writers[w].Replacing?
    ensures Ok(Next(s, Exchange(w)))
  {
    var s' := Next(s, Exchange(w));
    assert OwnOk(s, w);
    forall v | 0 <= v < |s.writers| && v != w
      ensures OwnOk(s', v) && Mine(s'.writers[w]) !! Mine(s.writers[v])
    {
      assert OwnOk(s, v);
      DifferentOwners(s, v, w);
    }
    forall r | 0 <= r < |s.readers|
      ensures GraceOk(s', w, r)
    {
      assert GraceOk(s, w, r);
    }
    forall r, e | 0 <= r < |s.readers| && s.readers[r].Inside? && e in s.readers[r].held
      ensures HeldOk(s', r, e)
    {
      if e == s.route {
        assert Awaits(s', w, r, e);
      } else if e !in Mine(s.writers[w]) {
        AwaitedByOthers(s, s', w, r, e);
      }
    }
    WriterStepOk(s, s', w);
  }

  lemma {:induction false} AdvanceOk(s: State, w: nat)
    requires Ok(s) && w < |s.writers| && s.writers[w].Advancing?
    ensures Ok(Next(s, Advance(w)))
  {
    var s' := Next(s, Advance(w));
    assert OwnOk(s, w);
    forall v | 0 <= v < |s.writers| && v != w
      ensures OwnOk(s', v) && Mine(s'.writers[w]) !! Mine(s.writers[v])
    {
      assert OwnOk(s, v);
      DifferentOwners(s, v, w);
    }
    forall r | 0 <= r < |s.readers|
      ensures GraceOk(s', w, r)
    {
      assert GraceOk(s, w, r) && SlotOk(s, r);
    }
    forall r, e | 0 <= r < |s.readers| && s.readers[r].Inside? && e in s.readers[r].held
      ensures HeldOk(s', r, e)
    {
      assert SlotOk(s, r);
      if e in Mine(s.writers[w]) {
        assert Awaits(s', w, r, e);
      } else if e != s.route {
        AwaitedByOthers(s, s', w, r, e);
      }
    }
    WriterStepOk(s, s', w);
  }

  lemma {:induction false} CheckOk(s: State, w: nat)
    requires Ok(s) && w < |s.writers| && s.writers[w].Waiting?
    ensures Ok(Next(s, Check(w)))
  {
    var s' := Next(s, Check(w));
    assert OwnOk(s, w);
    forall v | 0 <= v < |s.writers| && v != w
      ensures OwnOk(s', v) && Mine(s'.writers[w]) !! Mine(s.writers[v])
    {
      assert OwnOk(s, v);
      DifferentOwners(s, v, w);
    }
    forall r | 0 <= r < |s.readers|
      ensures GraceOk(s', w, r)
    {
      assert GraceOk(s, w, r) && SlotOk(s, r);
    }
    forall r, e | 0 <= r < |s.readers| && s.readers[r].Inside? && e in s.readers[r].held
      ensures HeldOk(s', r, e)
    {
      CheckKeepsHeld(s, w, r, e);
    }
    WriterStepOk(s, s', w);
  }

  /** The wait does not pass a reader that holds the entry to be deleted. */
  lemma {:induction false} CheckKeepsHeld(s: State, w: nat, r: nat, e: Entry)
    requires Ok(s) && w < |s.writers| && s.writers[w].Waiting?
    requires r < |s.readers| && s.readers[r].Inside? && e in s.readers[r].held
    ensures HeldOk(Next(s, Check(w)), r, e)
  {
    var s' := Next(s, Check(w));
    assert SlotOk(s, r) && ReaderOk(s, r) && OwnOk(s, w);
    assert HeldOk(s, r, e);
    if e in Mine(s.writers[w]) {
      var v :| Awaits(s, v, r, e);
      if v != w {
        DifferentOwners(s, v, w);
      } else {
        assert Awaits(s', w, r, e);
      }
    } else if e != s.route {
      AwaitedByOthers(s, s', w, r, e);
    }
  }

  /** At the end of a grace period nobody holds the replaced entry. */
  lemma {:induction false} NobodyHolds(s: State, w: nat, r: nat, e: Entry)
    requires Ok(s) && w < |s.writers| && s.writers[w].Deleting? && e in Mine(s.writers[w])
    requires r < |s.readers| && s.readers[r].Inside?
    ensures e !in s.readers[r].held
  {
    assert OwnOk(s, w) && ReaderOk(s, r);
    if e in s.readers[r].held {
      assert HeldOk(s, r, e);
      var v :| Awaits(s, v, r, e);
      if v != w {
        DifferentOwners(s, v, w);
      }
    }
  }

  lemma {:induction false} DeleteOk(s: State, w: nat)
    requires Ok(s) && w < |s.writers| && s.writers[w].Deleting?
    ensures Ok(Next(s, Delete(w)))
  {
    var s' := Next(s, Delete(w));
    assert OwnOk(s, w);
    assert s.writers[w].old_ in Mine(s.writers[w]);
    forall v | 0 <= v < |s.writers| && v != w
      ensures OwnOk(s', v)
    {
      assert OwnOk(s, v);
      DifferentOwners(s, v, w);
    }
    forall r | 0 <= r < |s.readers|
      ensures GraceOk(s', w, r)
    {
      assert GraceOk(s, w, r);
    }
    forall r, e | 0 <= r < |s.readers| && s.readers[r].Inside? && e in s.readers[r].held
      ensures HeldOk(s', r, e)
    {
      NobodyHolds(s, w, r, s.writers[w].old_);
      if e != s.route {
        AwaitedByOthers(s, s', w, r, e);
      }
    }
    WriterStepOk(s, s', w);
  }

  // ----- theorems

  lemma {:induction false} TickOk(s: State)
    requires Ok(s)
    ensures Ok(s.(clock := s.clock + 1))
  {
    var s' := s.(clock := s.clock + 1);
    forall w | 0 <= w < |s'.writers| ensures OwnOk(s', w) { assert OwnOk(s, w); }
    forall v, w | 0 <= v < w < |s'.writers| ensures Apart(s', v, w) { assert Apart(s, v, w); }
    forall r | 0 <= r < |s'.readers| ensures SlotOk(s', r) { assert SlotOk(s, r); }
    forall r | 0 <= r < |s'.readers| ensures ReaderOk(s', r) { TickReader(s, r); }
    forall w, r | 0 <= w < |s'.writers| && 0 <= r < |s'.readers| ensures GraceOk(s', w, r) { assert GraceOk(s, w, r); }
  }

  lemma {:induction false} TickReader(s: State, r: nat)
    requires r < |s.readers| && ReaderOk(s, r)
    ensures ReaderOk(s.(clock := s.clock + 1), r)
  {
    var s' := s.(clock := s.clock + 1);
    if s.readers[r].Inside? {
      forall e | e in s.readers[r].held
        ensures HeldOk(s', r, e)
      {
        assert HeldOk(s, r, e);
        if e != s.route {
          var w :| Awaits(s, w, r, e);
          assert Awaits(s', w, r, e);
        }
      }
    }
  }

  lemma {:induction false} ReaderActionOk(s: State, a: Action)
    requires Ok(s) && (a.LoadEpoch? || a.StoreEpoch? || a.Dereference? || a.Use? || a.Unlock?)
    ensures Ok(Next(s, a))
  {
    TickOk(s);
    match a
    case LoadEpoch(r) => if r < |s.readers| && s.readers[r].Outside? { LoadEpochOk(s, r); }
    case StoreEpoch(r) => if r < |s.readers| && s.readers[r].Locking? { StoreEpochOk(s, r); }
    case Dereference(r) => if r < |s.readers| && s.readers[r].Inside? { DereferenceOk(s, r); }
    case Use(r, entry) =>
        if r < |s.readers| && s.readers[r].Inside? && entry in s.readers[r].held { HeldIsLive(s, r, entry); }
    case Unlock(r) => if r < |s.readers| && s.readers[r].Inside? { UnlockOk(s, r); }
  }

  lemma {:induction false} WriterActionOk(s: State, a: Action)
    requires Ok(s) && (a.Allocate? || a.Exchange? || a.Advance? || a.Check? || a.Delete?)
    ensures Ok(Next(s, a))
  {
    TickOk(s);
    match a
    case Allocate(w, entry) =>
        if w < |s.writers| && s.writers[w].Resting? && entry !in s.live { AllocateOk(s, w, entry); }
    case Exchange(w) => if w < |s.writers| && s.writers[w].Replacing? { ExchangeOk(s, w); }
    case Advance(w) => if w < |s.writers| && s.writers[w].Advancing? { AdvanceOk(s, w); }
    case Check(w) => if w < |s.writers| && s.writers[w].Waiting? { CheckOk(s, w); }
    case Delete(w) => if w < |s.writers| && s.writers[w].Deleting? { DeleteOk(s, w); }
  }

  /** One step keeps the reclamation invariant, and what is published, kept by the writers and
      held by the readers goes on following the record of the run. */
  lemma {:induction false} NextOk(s: State, h: Record, a: Action)
    requires Ok(s) && Follows(s, h)
    ensures Ok(Next(s, a)) && Follows(Next(s, a), Told(s, h, a))
  {
    NextFollows(s, h, a);
    if a.LoadEpoch? || a.StoreEpoch? || a.Dereference? || a.Use? || a.Unlock? {
      ReaderActionOk(s, a);
    } else {
      WriterActionOk(s, a);
    }
  }

  lemma {:induction false} ExecOk(readers: nat, writers: nat, first: Entry, schedule: seq<Action>)
    ensures Ok(Exec(readers, writers, first, schedule))
    ensures Follows(Exec(readers, writers, first, schedule), Tell(readers, writers, first, schedule))
    decreases |schedule|
  {
    if schedule == [] {
      InitOk(readers, writers, first);
    } else {
      var before := schedule[..|schedule| - 1];
      ExecOk(readers, writers, first, before);
      NextOk(Exec(readers, writers, first, before), Tell(readers, writers, first, before), schedule[|schedule| - 1]);
    }
  }

  /** After any schedule the published entry is the one that the writer of the last exchange had
      allocated for it, or the first entry if there was no exchange. */
  lemma {:induction false} UpdatesArePublished(readers: nat, writers: nat, first: Entry, schedule: seq<Action>)
    ensures var h := Tell(readers, writers, first, schedule);
            h.published != [] && Exec(readers, writers, first, schedule).route == h.published[|h.published| - 1]
  {
    ExecOk(readers, writers, first, schedule);
  }

  /** Writer w's delete takes out the entry that was published just before w's last exchange,
      which put w's own allocation in that entry's place. */
  ghost predicate DeletesReplaced(s: State, h: Record, w: nat) {
    && w in h.exchanged && 1 <= h.exchanged[w] < |h.published|
    && var old_ := h.published[h.exchanged[w] - 1];
       Replaced(h, w, old_) && old_ in s.live && Next(s, Delete(w)).live == s.live - {old_}
  }

  lemma {:induction false} DeleteRemoves(s: State, h: Record, w: nat)
    requires Follows(s, h) && w < |s.writers| && OwnOk(s, w) && s.writers[w].Deleting?
    ensures DeletesReplaced(s, h, w)
  {
    assert WriterFollows(h, w, s.writers[w]);
    assert s.writers[w].old_ in Mine(s.writers[w]);
  }

  /** The entry a writer deletes is the one that was published just before its own exchange, and
      its exchange put its own allocation in that entry's place. */
  lemma {:induction false} DeletesWhatItReplaced(
      readers: nat, writers: nat, first: Entry, schedule: seq<Action>, w: nat)
    requires var s := Exec(readers, writers, first, schedule); w < |s.writers| && s.writers[w].Deleting?
    ensures DeletesReplaced(Exec(readers, writers, first, schedule), Tell(readers, writers, first, schedule), w)
  {
    ExecOk(readers, writers, first, schedule);
    DeleteRemoves(Exec(readers, writers, first, schedule), Tell(readers, writers, first, schedule), w);
  }

  /** A section holds exactly the entries that were published at the instants of its
      dereferences.  None of them is older than the entry that was published when the section
      began, so a section that begins after an update's exchange never gets an older entry. */
  lemma {:induction false} SectionsSeeCurrentEntries(
      readers: nat, writers: nat, first: Entry, schedule: seq<Action>, r: nat)
    requires var s := Exec(readers, writers, first, schedule); r < |s.readers| && s.readers[r].Inside?
    ensures var s := Exec(readers, writers, first, schedule);
            var h := Tell(readers, writers, first, schedule);
            && r in h.read && r in h.current
            && s.readers[r].held == EntriesAt(h.published, h.read[r])
            && (forall p :: p in h.read[r] ==> h.current[r] <= p < |h.published|)
  {
    ExecOk(readers, writers, first, schedule);
    var s := Exec(readers, writers, first, schedule);
    assert ReaderFollows(Tell(readers, writers, first, schedule), r, s.readers[r]);
  }

  // ----- no entry leaks

  ghost predicate HeldBy(s: State, w: int, e: Entry) {
    0 <= w < |s.writers| && e in Mine(s.writers[w])
  }

  ghost predicate Tracked(s: State, e: Entry) {
    e == s.route || exists w :: HeldBy(s, w, e)
  }

  lemma {:induction false} NextTracked(s: State, a: Action, e: Entry)
    requires e in s.live ==> Tracked(s, e)
    requires e in Next(s, a).live
    ensures Tracked(Next(s, a), e)
  {
    var s' := Next(s, a);
    if e !in s.live {
      assert HeldBy(s', a.w, e);
    } else if e == s.route {
      if s'.route != e {
        assert HeldBy(s', a.w, e);
      }
    } else {
      var w :| HeldBy(s, w, e);
      assert e == s'.route || HeldBy(s', w, e);
    }
  }

  /** Every live entry is the published one or with exactly one writer, which has not published
      it yet or will delete it. */
  lemma {:induction false} NoEntryLeaks(readers: nat, writers: nat, first: Entry, schedule: seq<Action>, e: Entry)
    requires e in Exec(readers, writers, first, schedule).live
    ensures var s := Exec(readers, writers, first, schedule);
            Tracked(s, e) && forall v, w :: HeldBy(s, v, e) && HeldBy(s, w, e) ==> v == w
    decreases |schedule|
  {
    ExecOk(readers, writers, first, schedule);
    var s := Exec(readers, writers, first, schedule);
    forall v, w | HeldBy(s, v, e) && HeldBy(s, w, e)
      ensures v == w
    {
      if v != w {
        DifferentOwners(s, v, w);
      }
    }
    if schedule != [] {
      var before := Exec(readers, writers, first, schedule[..|schedule| - 1]);
      if e in before.live {
        NoEntryLeaks(readers, writers, first, schedule[..|schedule| - 1], e);
      }
      NextTracked(before, schedule[|schedule| - 1], e);
    }
  }

  /** No reader ever uses a deleted entry and no entry is deleted twice. */
  lemma {:induction false} NoUseAfterDelete(readers: nat, writers: nat, first: Entry, schedule: seq<Action>)
    ensures var s := Exec(readers, writers, first, schedule);
            && !s.fault
            && s.route in s.live
            && forall r, e :: 0 <= r < |s.readers| && s.readers[r].Inside? && e in s.readers[r].held ==> e in s.live
  {
    ExecOk(readers, writers, first, schedule);
    var s := Exec(readers, writers, first, schedule);
    forall r, e | 0 <= r < |s.readers| && s.readers[r].Inside? && e in s.readers[r].held
      ensures e in s.live
    {
      HeldIsLive(s, r, e);
    }
  }

  /** Reader r's section began after writer w advanced the epoch, and does not hold the entry
      that w replaced. */
  ghost predicate Younger(s: State, h: Record, w: nat, r: nat)
    requires r < |s.readers| && s.readers[r].Inside?
  {
    && w in h.advanced && r in h.begun && h.begun[r] > h.advanced[w]
    && w in h.exchanged && 1 <= h.exchanged[w] < |h.published|
    && h.published[h.exchanged[w] - 1] !in s.readers[r].held
  }

  lemma {:induction false} OpenSectionIsYounger(s: State, h: Record, w: nat, r: nat)
    requires Ok(s) && Follows(s, h)
    requires w < |s.writers| && s.writers[w].Deleting? && r < |s.readers| && s.readers[r].Inside?
    ensures Younger(s, h, w, r)
  {
    assert GraceOk(s, w, r);
    assert WriterFollows(h, w, s.writers[w]) && ReaderFollows(h, r, s.readers[r]);
    assert s.writers[w].old_ in Mine(s.writers[w]);
    NobodyHolds(s, w, r, s.writers[w].old_);
  }

  /** When synchronize_rcu returns, every section that was open when the epoch advanced has
      ended, and no reader holds the replaced entry. */
  lemma {:induction false} GracePeriod(readers: nat, writers: nat, first: Entry, schedule: seq<Action>, w: nat, r: nat)
    requires var s := Exec(readers, writers, first, schedule);
             w < |s.writers| && s.writers[w].Deleting? && r < |s.readers| && s.readers[r].Inside?
    ensures Younger(Exec(readers, writers, first, schedule), Tell(readers, writers, first, schedule), w, r)
  {
    ExecOk(readers, writers, first, schedule);
    OpenSectionIsYounger(Exec(readers, writers, first, schedule), Tell(readers, writers, first, schedule), w, r);
  }

  // ----- what a wait waits for

  /** A reader that read the epoch after writer w had advanced it does not hold up w's wait. */
  ghost predicate LoadedOk(s: State, h: Record, w: int, r: int) {
    && 0 <= w < |s.writers| && 0 <= r < |s.readers| == |s.slots|
    && (!s.readers[r].Outside? ==>
          && r in h.loaded && h.loaded[r] <= h.steps
          && (s.writers[w].Waiting? && h.loaded[r] > s.writers[w].from ==>
                && (s.readers[r].Locking? ==> s.readers[r].e >= s.writers[w].target)
                && (s.readers[r].Inside? ==> s.slots[r] > s.writers[w].target)))
  }

  ghost predicate AllLoaded(s: State, h: Record) {
    forall w, r {:trigger LoadedOk(s, h, w, r)} ::
      0 <= w < |s.writers| && 0 <= r < |s.readers| ==> LoadedOk(s, h, w, r)
  }

  lemma {:induction false} ReaderLoaded(s: State, h: Record, a: Action, w: nat, r: nat)
    requires Ok(s) && s.clock == h.steps && w < |s.writers| && r < |s.readers| && LoadedOk(s, h, w, r)
    requires a.LoadEpoch? || a.StoreEpoch? || a.Dereference? || a.Use? || a.Unlock?
    ensures LoadedOk(Next(s, a), Told(s, h, a), w, r)
  {
    assert GraceOk(s, w, r) && SlotOk(s, r);
  }

  lemma {:induction false} AdvanceLoaded(s: State, h: Record, v: nat, w: nat, r: nat)
    requires Ok(s) && s.clock == h.steps && w < |s.writers| && r < |s.readers| && LoadedOk(s, h, w, r)
    ensures LoadedOk(Next(s, Advance(v)), Told(s, h, Advance(v)), w, r)
  {
  }

  lemma {:induction false} WriterLoaded(s: State, h: Record, a: Action, w: nat, r: nat)
    requires Ok(s) && s.clock == h.steps && w < |s.writers| && r < |s.readers| && LoadedOk(s, h, w, r)
    requires a.Allocate? || a.Exchange? || a.Check? || a.Delete?
    ensures LoadedOk(Next(s, a), Told(s, h, a), w, r)
  {
  }

  lemma {:induction false} SameCounts(s: State, a: Action)
    ensures |Next(s, a).writers| == |s.writers| && |Next(s, a).readers| == |s.readers|
  {
  }

  lemma {:induction false} NextLoaded(s: State, h: Record, a: Action)
    requires Ok(s) && s.clock == h.steps && AllLoaded(s, h)
    ensures AllLoaded(Next(s, a), Told(s, h, a))
  {
    SameCounts(s, a);
    forall w: nat, r: nat | w < |s.writers| && r < |s.readers|
      ensures LoadedOk(Next(s, a), Told(s, h, a), w, r)
    {
      assert LoadedOk(s, h, w, r);
      match a
      case Advance(v) => AdvanceLoaded(s, h, v, w, r);
      case Allocate(_, _) | Exchange(_) | Check(_) | Delete(_) => WriterLoaded(s, h, a, w, r);
      case _ => ReaderLoaded(s, h, a, w, r);
    }
  }

  lemma {:induction false} ExecLoaded(readers: nat, writers: nat, first: Entry, schedule: seq<Action>)
    ensures AllLoaded(Exec(readers, writers, first, schedule), Tell(readers, writers, first, schedule))
    decreases |schedule|
  {
    if schedule != [] {
      var before, a := schedule[..|schedule| - 1], schedule[|schedule| - 1];
      ExecLoaded(readers, writers, first, before);
      ExecOk(readers, writers, first, before);
      NextLoaded(Exec(readers, writers, first, before), Tell(readers, writers, first, before), a);
    }
  }

  /** Writer w's wait goes on by one reader, or is over, or stands before a reader whose section
      locked the epoch before w advanced it. */
  ghost predicate WaitGoesOn(s: State, h: Record, w: nat)
    requires w < |s.writers| && s.writers[w].Waiting?
  {
    var i := s.writers[w].i;
    var s' := Next(s, Check(w));
    && w < |s'.writers|
    && (|| s'.writers[w].Deleting?
        || (s'.writers[w].Waiting? && s'.writers[w].i == i + 1)
        || (&& i < |s.readers| && s.readers[i].Inside?
            && w in h.advanced && i in h.loaded && h.loaded[i] <= h.advanced[w]))
  }

  lemma {:induction false} NextWait(s: State, h: Record, w: nat)
    requires Ok(s) && Follows(s, h) && AllLoaded(s, h) && w < |s.writers| && s.writers[w].Waiting?
    ensures WaitGoesOn(s, h, w)
  {
    var i := s.writers[w].i;
    assert WriterFollows(h, w, s.writers[w]);
    if i < |s.readers| {
      assert SlotOk(s, i) && LoadedOk(s, h, w, i);
    }
  }

  /** A wait is held up only by a reader that is inside a section for which it read the epoch
      before the writer advanced it; later sections hold up nobody. */
  lemma {:induction false} WaitsOnlyForReaders(readers: nat, writers: nat, first: Entry, schedule: seq<Action>, w: nat)
    requires var s := Exec(readers, writers, first, schedule); w < |s.writers| && s.writers[w].Waiting?
    ensures WaitGoesOn(Exec(readers, writers, first, schedule), Tell(readers, writers, first, schedule), w)
  {
    ExecOk(readers, writers, first, schedule);
    ExecLoaded(readers, writers, first, schedule);
    NextWait(Exec(readers, writers, first, schedule), Tell(readers, writers, first, schedule), w);
  }
}
