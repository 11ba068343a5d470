/**
 The immutable sorted table: key range, Bloom filter, sparse index, and a lookup that never
 misses a stored entry.
 */
module LsmSSTable {
  import opened ByteStrings
  import opened LsmRuns
  import opened LsmBloom

  const INDEX_INTERVAL: nat := 4

  datatype IndexEntry = IndexEntry(key: Key, offset: nat)

  datatype SSTable = SSTable(entries: seq<Entry>, index: seq<IndexEntry>, bloom: Bloom, minKey: Key, maxKey: Key)

  ghost predicate Sampled(entries: seq<Entry>, index: seq<IndexEntry>, b: int) {
    0 <= b < |index| && INDEX_INTERVAL * b < |entries|
    && index[b] == IndexEntry(entries[INDEX_INTERVAL * b].key, INDEX_INTERVAL * b)
  }

  ghost predicate AllSampled(entries: seq<Entry>, index: seq<IndexEntry>) {
    forall b :: 0 <= b < |index| ==> Sampled(entries, index, b)
  }

  ghost predicate Admits(bloom: Bloom, entries: seq<Entry>, i: int) {
    0 <= i < |entries| && MayHold(bloom, entries[i].key)
  }

  ghost predicate AdmitsFirst(bloom: Bloom, entries: seq<Entry>, n: int) {
    forall i :: 0 <= i < n ==> Admits(bloom, entries, i)
  }

  /** What the constructor establishes. */
  ghost predicate TableOk(t: SSTable) {
    && t.entries != []
    && Sorted(t.entries)
    && t.minKey == t.entries[0].key && t.maxKey == t.entries[|t.entries| - 1].key
    && |t.index| == (|t.entries| + INDEX_INTERVAL - 1) / INDEX_INTERVAL
    && AllSampled(t.entries, t.index)
    && WellFormed(t.bloom)
    && AdmitsFirst(t.bloom, t.entries, |t.entries|)
  }

  /** The filter's size comes from a floating-point formula; only its bounds matter. */
  method MakeBloom() returns (b: Bloom)
    ensures WellFormed(b)
  {
    var numBits: nat, numHashes: nat :| numBits >= 64 && 1 <= numHashes < TWO_64 by {
      assert 64 >= 64 && 1 <= 1 as nat < TWO_64;
    }
    b := Bloom(seq((numBits + 63) / 64, _ => 0), numBits, numHashes);
  }

  lemma {:induction false} AddSample(entries: seq<Entry>, index: seq<IndexEntry>, i: nat)
    requires AllSampled(entries, index) && i < |entries| && i == INDEX_INTERVAL * |index|
    ensures AllSampled(entries, index + [IndexEntry(entries[i].key, i)])
  {
    var index' := index + [IndexEntry(entries[i].key, i)];
    forall b | 0 <= b < |index'|
      ensures Sampled(entries, index', b)
    {
      assert b < |index| ==> Sampled(entries, index, b);
    }
  }

  lemma {:induction false} AdmitNext(before: Bloom, bloom: Bloom, entries: seq<Entry>, i: nat)
    requires i < |entries| && AdmitsFirst(before, entries, i) && MayHold(bloom, entries[i].key)
    requires forall other :: MayHold(before, other) ==> MayHold(bloom, other)
    ensures AdmitsFirst(bloom, entries, i + 1)
  {
    forall j | 0 <= j < i + 1
      ensures Admits(bloom, entries, j)
    {
      assert j < i ==> Admits(before, entries, j);
    }
  }

  method Build(entries: seq<Entry>) returns (t: SSTable)
    requires entries != [] && Sorted(entries)
    ensures TableOk(t) && t.entries == entries
  {
    var bloom := MakeBloom();
    var index := [];
    for i := 0 to |entries|
      invariant WellFormed(bloom) && AdmitsFirst(bloom, entries, i)
      invariant |index| == (i + INDEX_INTERVAL - 1) / INDEX_INTERVAL && AllSampled(entries, index)
    {
      var wider := Add(bloom, entries[i].key);
      AdmitNext(bloom, wider, entries, i);
      bloom := wider;
      if i % INDEX_INTERVAL == 0 {
        AddSample(entries, index, i);
        index := index + [IndexEntry(entries[i].key, i)];
      }
    }
    t := SSTable(entries, index, bloom, entries[0].key, entries[|entries| - 1].key);
  }

  predicate AtMost(a: Key, b: Key) {
    !Less(b, a)
  }

  lemma {:induction false} EntriesOrdered(t: SSTable, i: nat, j: nat)
    requires TableOk(t) && i <= j < |t.entries|
    ensures AtMost(t.entries[i].key, t.entries[j].key)
    ensures i < j ==> Less(t.entries[i].key, t.entries[j].key)
  {
    LessIrreflexive(t.entries[i].key);
    if i < j && Less(t.entries[j].key, t.entries[i].key) {
      LessTransitive(t.entries[i].key, t.entries[j].key, t.entries[i].key);
    }
  }

  lemma {:induction false} LessIsAtMost(a: Key, b: Key)
    requires Less(a, b)
    ensures AtMost(a, b)
  {
    LessIrreflexive(a);
    if Less(b, a) { LessTransitive(a, b, a); }
  }

  lemma {:induction false} LessAtMost(a: Key, b: Key, c: Key)
    requires Less(a, b) || AtMost(a, b)
    requires Less(b, c) || AtMost(b, c)
    ensures AtMost(a, c)
    ensures Less(a, b) || Less(b, c) ==> Less(a, c)
  {
    if Less(a, b) { LessIsAtMost(a, b); }
    if Less(b, c) { LessIsAtMost(b, c); }
    LessTotal(a, b);
    LessTotal(b, c);
    LessTotal(a, c);
    LessIrreflexive(a);
    if Less(a, b) && Less(b, c) { LessTransitive(a, b, c); }
    if Less(c, a) {
      if Less(a, b) { LessTransitive(c, a, b); }
      if Less(b, c) { LessTransitive(b, c, a); }
    }
  }

  /** A key outside [minKey, maxKey] is not stored. */
  lemma {:induction false} OutsideRange(t: SSTable, key: Key)
    requires TableOk(t) && (Less(key, t.minKey) || Less(t.maxKey, key))
    ensures Lookup(t.entries, key) == None
  {
    LookupFinds(t.entries, key);
    if Lookup(t.entries, key).Some? {
      var i :| 0 <= i < |t.entries| && t.entries[i] == Lookup(t.entries, key).value;
      EntriesOrdered(t, 0, i);
      EntriesOrdered(t, i, |t.entries| - 1);
    }
  }

  /** Between two neighbouring samples lies everything that could equal the key. */
  ghost predicate Block(t: SSTable, key: Key, b: int)
    requires TableOk(t)
  {
    && 0 <= b < |t.index|
    && AtMost(t.index[b].key, key)
    && (b + 1 < |t.index| ==> Less(key, t.index[b + 1].key))
  }

  /** The binary search over the sparse index. */
  method FindBlock(t: SSTable, key: Key) returns (block: nat)
    requires TableOk(t) && AtMost(t.minKey, key)
    ensures Block(t, key, block)
  {
    assert Sampled(t.entries, t.index, 0);
    var low, high := 0, |t.index| - 1;
    block := 0;
    while low <= high
      invariant 0 <= low <= high + 1 <= |t.index|
      invariant block == if low == 0 then 0 else low - 1
      invariant AtMost(t.index[block].key, key)
      invariant high + 1 < |t.index| ==> Less(key, t.index[high + 1].key)
      decreases high - low
    {
      var mid := low + (high - low) / 2;
      if AtMost(t.index[mid].key, key) {
        block := mid;
        low := mid + 1;
      } else {
        if mid == 0 {
          break;
        }
        high := mid - 1;
      }
    }
  }

  lemma {:induction false} BlockHolds(t: SSTable, key: Key, b: nat)
    requires TableOk(t) && Block(t, key, b)
    ensures t.index[b].offset < |t.entries|
    ensures forall i :: 0 <= i < t.index[b].offset ==> t.entries[i].key != key
    ensures b + 1 < |t.index| ==> forall i :: t.index[b + 1].offset <= i < |t.entries| ==> t.entries[i].key != key
    ensures b + 1 < |t.index| ==> t.index[b].offset <= t.index[b + 1].offset <= |t.entries|
  {
    assert Sampled(t.entries, t.index, b);
    var start := t.index[b].offset;
    forall i | 0 <= i < start
      ensures t.entries[i].key != key
    {
      EntriesOrdered(t, i, start);
    }
    if b + 1 < |t.index| {
      assert Sampled(t.entries, t.index, b + 1);
      var stop := t.index[b + 1].offset;
      forall i | stop <= i < |t.entries|
        ensures t.entries[i].key != key
      {
        EntriesOrdered(t, stop, i);
        LessIrreflexive(t.index[b + 1].key);
        LessIrreflexive(key);
      }
    }
  }

  lemma {:induction false} NotThere(t: SSTable, key: Key)
    requires TableOk(t) && forall i :: 0 <= i < |t.entries| ==> t.entries[i].key != key
    ensures Lookup(t.entries, key) == None
  {
    LookupFinds(t.entries, key);
  }

  /** The filter never rules out a stored key. */
  lemma {:induction false} NotAdmitted(t: SSTable, key: Key)
    requires TableOk(t) && !MayHold(t.bloom, key)
    ensures Lookup(t.entries, key) == None
  {
    forall i | 0 <= i < |t.entries|
      ensures t.entries[i].key != key
    {
      assert Admits(t.bloom, t.entries, i);
    }
    NotThere(t, key);
  }

  /** Range check, filter, index and block scan together are an exact lookup. */
  method Get(t: SSTable, key: Key) returns (r: Option<Entry>)
    requires TableOk(t)
    ensures r == Lookup(t.entries, key)
  {
    if Less(key, t.minKey) || Less(t.maxKey, key) {
      OutsideRange(t, key);
      return None;
    }
    var admitted := MayContain(t.bloom, key);
    if !admitted {
      NotAdmitted(t, key);
      return None;
    }
    if |t.index| == 0 {
      return None;
    }
    var block := FindBlock(t, key);
    BlockHolds(t, key, block);
    var start := t.index[block].offset;
    var stop := if block + 1 < |t.index| then t.index[block + 1].offset else |t.entries|;
    for i := start to stop
      invariant forall j :: 0 <= j < i ==> t.entries[j].key != key
    {
      if t.entries[i].key == key {
        LookupAt(t.entries, i);
        return Some(t.entries[i]);
      }
      if Less(key, t.entries[i].key) {
        forall j | i <= j < |t.entries|
          ensures t.entries[j].key != key
        {
          EntriesOrdered(t, i, j);
        }
        NotThere(t, key);
        return None;
      }
    }
    NotThere(t, key);
    return None;
  }
}
