/**
 What the updates and the read-side sections of a run did, told from the schedule: which
 entries were published, in what order and by whom, and which of them each section was given.
 A record of the run holds the arguments of the allocations and the order of the exchanges; it
 never looks at the published entry, at what a writer keeps or at what a reader holds.
 */
module RcuHistory {
  import opened RcuMachine

  /** `published` starts with the first entry and grows by one with every exchange.
      `made[w]` is the entry writer w allocated last, `exchanged[w]` the place in
      `published` that its last exchange filled, `advanced[w]` the instant it last advanced the
      epoch.  `loaded[r]` is the instant reader r last read the epoch to lock, `begun[r]` the
      instant its last section began, `current[r]` the place of the entry published at that
      instant, and `read[r]` the places of the entries that were published at the instants of
      its dereferences. */
  datatype Record = Record(
    published: seq<Entry>,
    made: map<nat, Entry>,
    exchanged: map<nat, nat>,
    advanced: map<nat, nat>,
    loaded: map<nat, nat>,
    begun: map<nat, nat>,
    current: map<nat, nat>,
    read: map<nat, set<nat>>,
    steps: nat)

  function Start(first: Entry): Record {
    Record([first], map[], map[], map[], map[], map[], map[], map[], 0)
  }

  /** Add the step `a` taken in state `s`; an action that does not apply adds nothing. */
  function Told(s: State, h: Record, a: Action): Record {
    var h := h.(steps := h.steps + 1);
    match a
    case Allocate(w, entry) =>
      if w < |s.writers| && s.writers[w].Resting? && entry !in s.live then h.(made := h.made[w := entry])
      else h
    case Exchange(w) =>
      if w < |s.writers| && s.writers[w].Replacing? && w in h.made then
        h.(published := h.published + [h.made[w]], exchanged := h.exchanged[w := |h.published|])
      else h
    case Advance(w) =>
      if w < |s.writers| && s.writers[w].Advancing? then h.(advanced := h.advanced[w := h.steps]) else h
    case LoadEpoch(r) =>
      if r < |s.readers| && s.readers[r].Outside? then h.(loaded := h.loaded[r := h.steps]) else h
    case StoreEpoch(r) =>
      if r < |s.readers| && r < |s.slots| && s.readers[r].Locking? && h.published != [] then
        h.(begun := h.begun[r := h.steps], current := h.current[r := |h.published| - 1], read := h.read[r := {}])
      else h
    case Dereference(r) =>
      if r < |s.readers| && s.readers[r].Inside? && r in h.read && h.published != [] then
        h.(read := h.read[r := h.read[r] + {|h.published| - 1}])
      else h
    case _ => h
  }

  function Tell(readers: nat, writers: nat, first: Entry, schedule: seq<Action>): Record
    decreases |schedule|
  {
    if schedule == [] then Start(first)
    else
      var before := schedule[..|schedule| - 1];
      Told(Exec(readers, writers, first, before), Tell(readers, writers, first, before), schedule[|schedule| - 1])
  }

  function EntriesAt(published: seq<Entry>, places: set<nat>): set<Entry> {
    set p | p in places && p < |published| :: published[p]
  }

  // ----- the state follows the record

  /** Writer w's last exchange published its own allocation in place of `old_`. */
  ghost predicate Replaced(h: Record, w: nat, old_: Entry) {
    && w in h.made && w in h.exchanged && 1 <= h.exchanged[w] < |h.published|
    && h.published[h.exchanged[w]] == h.made[w]
    && h.published[h.exchanged[w] - 1] == old_
  }

  ghost predicate WriterFollows(h: Record, w: nat, me: Writer) {
    match me
    case Resting => true
    case Replacing(e) => w in h.made && h.made[w] == e
    case Advancing(e) => Replaced(h, w, e)
    case Waiting(e, _, _, from) => Replaced(h, w, e) && w in h.advanced && h.advanced[w] == from
    case Deleting(e, from) => Replaced(h, w, e) && w in h.advanced && h.advanced[w] == from
  }

  /** A section holds the entries that were published when it dereferenced, none of them older
      than the one that was published when it began. */
  ghost predicate ReaderFollows(h: Record, r: nat, me: Reader) {
    me.Inside? ==>
      && r in h.begun && r in h.current && r in h.read
      && me.since == h.begun[r]
      && me.held == EntriesAt(h.published, h.read[r])
      && h.current[r] < |h.published|
      && (forall p :: p in h.read[r] ==> h.current[r] <= p < |h.published|)
  }

  ghost predicate Follows(s: State, h: Record) {
    && h.published != [] && s.route == h.published[|h.published| - 1] && s.clock == h.steps
    && (forall w: nat :: w < |s.writers| ==> WriterFollows(h, w, s.writers[w]))
    && (forall r: nat :: r < |s.readers| ==> ReaderFollows(h, r, s.readers[r]))
  }

  lemma {:induction false} EntriesGrow(published: seq<Entry>, e: Entry, places: set<nat>)
    requires forall p :: p in places ==> p < |published|
    ensures EntriesAt(published + [e], places) == EntriesAt(published, places)
  {
  }

  lemma {:induction false} EntriesMore(published: seq<Entry>, places: set<nat>, p: nat)
    requires p < |published|
    ensures EntriesAt(published, places + {p}) == EntriesAt(published, places) + {published[p]}
  {
  }

  lemma {:induction false} ExchangeFollows(s: State, h: Record, w: nat)
    requires Follows(s, h)
    ensures Follows(Next(s, Exchange(w)), Told(s, h, Exchange(w)))
  {
    if w < |s.writers| && s.writers[w].Replacing? {
      assert WriterFollows(h, w, s.writers[w]);
      PublishFollows(s, Next(s, Exchange(w)), h, w);
    } else {
      TickFollows(s, h);
    }
  }

  /** Writer w publishes the entry it made. */
  lemma {:induction false} PublishFollows(s: State, s': State, h: Record, w: nat)
    requires Follows(s, h) && w < |s.writers| == |s'.writers| && w in h.made && s'.route == h.made[w]
    requires s'.readers == s.readers && s'.clock == h.steps + 1 && s'.writers[w] == Advancing(s.route)
    requires forall v: nat :: v < |s.writers| && v != w ==> s'.writers[v] == s.writers[v]
    ensures Follows(s', h.(published := h.published + [h.made[w]], exchanged := h.exchanged[w := |h.published|],
                    steps := h.steps + 1))
  {
    var h' := h.(published := h.published + [h.made[w]], exchanged := h.exchanged[w := |h.published|],
                 steps := h.steps + 1);
    forall v: nat | v < |s'.writers|
      ensures WriterFollows(h', v, s'.writers[v])
    {
      assert WriterFollows(h, v, s.writers[v]);
    }
    forall r: nat | r < |s'.readers|
      ensures ReaderFollows(h', r, s'.readers[r])
    {
      assert ReaderFollows(h, r, s.readers[r]);
      if s.readers[r].Inside? {
        EntriesGrow(h.published, h.made[w], h.read[r]);
      }
    }
  }

  lemma {:induction false} TickFollows(s: State, h: Record)
    requires Follows(s, h)
    ensures Follows(s.(clock := s.clock + 1), h.(steps := h.steps + 1))
  {
    forall w: nat | w < |s.writers|
      ensures WriterFollows(h.(steps := h.steps + 1), w, s.writers[w])
    {
      assert WriterFollows(h, w, s.writers[w]);
    }
    forall r: nat | r < |s.readers|
      ensures ReaderFollows(h.(steps := h.steps + 1), r, s.readers[r])
    {
      assert ReaderFollows(h, r, s.readers[r]);
    }
  }

  /** Only reader r and what is recorded of it change. */
  lemma {:induction false} OneReader(s: State, s': State, h: Record, h': Record, r: nat)
    requires Follows(s, h) && r < |s.readers| == |s'.readers|
    requires s'.writers == s.writers && s'.route == s.route && s'.clock == h'.steps
    requires h'.published == h.published && h'.made == h.made && h'.exchanged == h.exchanged
    requires h'.advanced == h.advanced
    requires h'.begun - {r} == h.begun - {r} && h'.current - {r} == h.current - {r} && h'.read - {r} == h.read - {r}
    requires forall q: nat :: q < |s.readers| && q != r ==> s'.readers[q] == s.readers[q]
    requires ReaderFollows(h', r, s'.readers[r])
    ensures Follows(s', h')
  {
    forall w: nat | w < |s'.writers|
      ensures WriterFollows(h', w, s'.writers[w])
    {
      assert WriterFollows(h, w, s.writers[w]);
    }
    forall q: nat | q < |s'.readers| && q != r
      ensures ReaderFollows(h', q, s'.readers[q])
    {
      assert ReaderFollows(h, q, s.readers[q]);
      SameAt(h.begun, h'.begun, r, q);
      SameAt(h.current, h'.current, r, q);
      SameAt(h.read, h'.read, r, q);
    }
  }

  lemma {:induction false} SameAt<T>(m: map<nat, T>, m': map<nat, T>, k: nat, j: nat)
    requires m' - {k} == m - {k} && j != k
    ensures j in m <==> j in m'
    ensures j in m ==> m'[j] == m[j]
  {
    assert j in m <==> j in m - {k};
    assert j in m' <==> j in m' - {k};
    if j in m {
      assert (m - {k})[j] == m[j] && (m' - {k})[j] == m'[j];
    }
  }

  /** Only writer w and what is recorded of it change, and nothing is published. */
  lemma {:induction false} OneWriter(s: State, s': State, h: Record, h': Record, w: nat)
    requires Follows(s, h) && w < |s.writers| == |s'.writers|
    requires s'.readers == s.readers && s'.route == s.route && s'.clock == h'.steps
    requires h'.published == h.published && h'.begun == h.begun && h'.current == h.current && h'.read == h.read
    requires h'.exchanged == h.exchanged && h'.made - {w} == h.made - {w} && h'.advanced - {w} == h.advanced - {w}
    requires forall v: nat :: v < |s.writers| && v != w ==> s'.writers[v] == s.writers[v]
    requires WriterFollows(h', w, s'.writers[w])
    ensures Follows(s', h')
  {
    forall v: nat | v < |s'.writers| && v != w
      ensures WriterFollows(h', v, s'.writers[v])
    {
      assert WriterFollows(h, v, s.writers[v]);
      SameAt(h.made, h'.made, w, v);
      SameAt(h.advanced, h'.advanced, w, v);
    }
    forall r: nat | r < |s'.readers|
      ensures ReaderFollows(h', r, s'.readers[r])
    {
      assert ReaderFollows(h, r, s.readers[r]);
    }
  }

  lemma {:induction false} WithoutSet<T>(m: map<nat, T>, k: nat, v: T)
    ensures m[k := v] - {k} == m - {k}
  {
  }

  lemma {:induction false} LoadEpochFollows(s: State, h: Record, r: nat)
    requires Follows(s, h)
    ensures Follows(Next(s, LoadEpoch(r)), Told(s, h, LoadEpoch(r)))
  {
    if r < |s.readers| && s.readers[r].Outside? {
      var h' := h.(loaded := h.loaded[r := h.steps + 1], steps := h.steps + 1);
      OneReader(s, Next(s, LoadEpoch(r)), h, h', r);
    } else {
      TickFollows(s, h);
    }
  }

  lemma {:induction false} UnlockFollows(s: State, h: Record, r: nat)
    requires Follows(s, h)
    ensures Follows(Next(s, Unlock(r)), Told(s, h, Unlock(r)))
  {
    if r < |s.readers| && r < |s.slots| && s.readers[r].Inside? {
      OneReader(s, Next(s, Unlock(r)), h, h.(steps := h.steps + 1), r);
    } else {
      TickFollows(s, h);
    }
  }

  /** Reader r's section begins. */
  lemma {:induction false} BeginsFollows(s: State, s': State, h: Record, r: nat)
    requires Follows(s, h) && r < |s.readers| == |s'.readers|
    requires s'.writers == s.writers && s'.route == s.route && s'.clock == h.steps + 1
    requires s'.readers == s.readers[r := Inside({}, h.steps + 1)]
    ensures Follows(s', h.(begun := h.begun[r := h.steps + 1], current := h.current[r := |h.published| - 1],
                           read := h.read[r := {}], steps := h.steps + 1))
  {
    WithoutSet(h.begun, r, h.steps + 1);
    WithoutSet(h.current, r, |h.published| - 1);
    WithoutSet(h.read, r, {});
    OneReader(s, s', h, h.(begun := h.begun[r := h.steps + 1], current := h.current[r := |h.published| - 1],
                           read := h.read[r := {}], steps := h.steps + 1), r);
  }

  lemma {:induction false} StoreEpochStep(s: State, h: Record, r: nat)
    requires r < |s.readers| && r < |s.slots| && s.readers[r].Locking? && h.published != []
    ensures var s' := Next(s, StoreEpoch(r));
            && s'.writers == s.writers && s'.route == s.route && s'.clock == s.clock + 1
            && s'.readers == s.readers[r := Inside({}, s.clock + 1)]
    ensures Told(s, h, StoreEpoch(r))
            == h.(begun := h.begun[r := h.steps + 1], current := h.current[r := |h.published| - 1],
                  read := h.read[r := {}], steps := h.steps + 1)
  {
  }

  lemma {:induction false} StoreEpochFollows(s: State, h: Record, r: nat)
    requires Follows(s, h)
    ensures Follows(Next(s, StoreEpoch(r)), Told(s, h, StoreEpoch(r)))
  {
    if r < |s.readers| && r < |s.slots| && s.readers[r].Locking? {
      StoreEpochStep(s, h, r);
      BeginsFollows(s, Next(s, StoreEpoch(r)), h, r);
    } else {
      TickFollows(s, h);
    }
  }

  /** Reader r is given the entry that is published. */
  lemma {:induction false} GivenFollows(s: State, s': State, h: Record, r: nat)
    requires Follows(s, h) && r < |s.readers| == |s'.readers| && s.readers[r].Inside? && r in h.read
    requires s'.writers == s.writers && s'.route == s.route && s'.clock == h.steps + 1
    requires s'.readers == s.readers[r := Inside(s.readers[r].held + {s.route}, s.readers[r].since)]
    ensures Follows(s', h.(read := h.read[r := h.read[r] + {|h.published| - 1}], steps := h.steps + 1))
  {
    assert ReaderFollows(h, r, s.readers[r]);
    var more := h.read[r] + {|h.published| - 1};
    WithoutSet(h.read, r, more);
    EntriesMore(h.published, h.read[r], |h.published| - 1);
    OneReader(s, s', h, h.(read := h.read[r := more], steps := h.steps + 1), r);
  }

  lemma {:induction false} DereferenceStep(s: State, h: Record, r: nat)
    requires r < |s.readers| && s.readers[r].Inside? && r in h.read && h.published != []
    ensures var s' := Next(s, Dereference(r));
            && s'.writers == s.writers && s'.route == s.route && s'.clock == s.clock + 1
            && s'.readers == s.readers[r := Inside(s.readers[r].held + {s.route}, s.readers[r].since)]
    ensures Told(s, h, Dereference(r))
            == h.(read := h.read[r := h.read[r] + {|h.published| - 1}], steps := h.steps + 1)
  {
  }

  lemma {:induction false} DereferenceFollows(s: State, h: Record, r: nat)
    requires Follows(s, h)
    ensures Follows(Next(s, Dereference(r)), Told(s, h, Dereference(r)))
  {
    if r < |s.readers| && s.readers[r].Inside? {
      assert r in h.read by {
        assert ReaderFollows(h, r, s.readers[r]);
      }
      DereferenceStep(s, h, r);
      GivenFollows(s, Next(s, Dereference(r)), h, r);
    } else {
      TickFollows(s, h);
    }
  }

  lemma {:induction false} AllocateFollows(s: State, h: Record, w: nat, entry: Entry)
    requires Follows(s, h)
    ensures Follows(Next(s, Allocate(w, entry)), Told(s, h, Allocate(w, entry)))
  {
    if w < |s.writers| && s.writers[w].Resting? && entry !in s.live {
      WithoutSet(h.made, w, entry);
      OneWriter(s, Next(s, Allocate(w, entry)), h, Told(s, h, Allocate(w, entry)), w);
    } else {
      TickFollows(s, h);
    }
  }

  lemma {:induction false} AdvanceFollows(s: State, h: Record, w: nat)
    requires Follows(s, h)
    ensures Follows(Next(s, Advance(w)), Told(s, h, Advance(w)))
  {
    if w < |s.writers| && s.writers[w].Advancing? {
      WithoutSet(h.advanced, w, h.steps + 1);
      assert WriterFollows(h, w, s.writers[w]);
      OneWriter(s, Next(s, Advance(w)), h, Told(s, h, Advance(w)), w);
    } else {
      TickFollows(s, h);
    }
  }

  lemma {:induction false} WaitFollows(s: State, h: Record, a: Action, w: nat)
    requires Follows(s, h) && (a == Check(w) || a == Delete(w))
    ensures Follows(Next(s, a), Told(s, h, a))
  {
    if w < |s.writers| {
      assert WriterFollows(h, w, s.writers[w]);
      OneWriter(s, Next(s, a), h, h.(steps := h.steps + 1), w);
    } else {
      TickFollows(s, h);
    }
  }

  lemma {:induction false} NextFollows(s: State, h: Record, a: Action)
    requires Follows(s, h)
    ensures Follows(Next(s, a), Told(s, h, a))
  {
    match a
    case Exchange(w) => ExchangeFollows(s, h, w);
    case Allocate(w, entry) => AllocateFollows(s, h, w, entry);
    case Advance(w) => AdvanceFollows(s, h, w);
    case Check(w) => WaitFollows(s, h, a, w);
    case Delete(w) => WaitFollows(s, h, a, w);
    case Dereference(r) => DereferenceFollows(s, h, r);
    case LoadEpoch(r) => LoadEpochFollows(s, h, r);
    case StoreEpoch(r) => StoreEpochFollows(s, h, r);
    case Unlock(r) => UnlockFollows(s, h, r);
    case Use(_, _) => TickFollows(s, h);
  }
}
