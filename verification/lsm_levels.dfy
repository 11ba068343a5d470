/**
 Levels of tables: what a lookup in a level finds, what a merge of tables contains, and why
 moving tables one level down changes no answer.
 */
module LsmLevels {
  import opened ByteStrings
  import opened LsmRuns
  import opened LsmSSTable

  type Table = SSTable

  predicate InRange(t: Table, k: Key) {
    AtMost(t.minKey, k) && AtMost(k, t.maxKey)
  }

  /** The newest hit of a list of tables ordered from the newest to the oldest. */
  function FirstHit(tables: seq<Table>, k: Key): Option<Entry> {
    if tables == [] then None
    else if Lookup(tables[0].entries, k).Some? then Lookup(tables[0].entries, k)
    else FirstHit(tables[1..], k)
  }

  function OrElse(a: Option<Entry>, b: Option<Entry>): Option<Entry> {
    if a.Some? then a else b
  }

  ghost predicate AllOk(tables: seq<Table>) {
    forall i :: 0 <= i < |tables| ==> TableOk(tables[i])
  }

  predicate Apart(a: Table, b: Table) {
    Less(a.maxKey, b.minKey) || Less(b.maxKey, a.minKey)
  }

  /** No two tables of the list have overlapping key ranges. */
  ghost predicate Disjoint(tables: seq<Table>) {
    forall i, j :: 0 <= i < j < |tables| ==> Apart(tables[i], tables[j])
  }

  /** A level below the first: tables in key order with disjoint ranges. */
  ghost predicate Ordered(tables: seq<Table>) {
    forall i, j :: 0 <= i < j < |tables| ==> Less(tables[i].maxKey, tables[j].minKey)
  }

  lemma {:induction false} OrderedIsDisjoint(tables: seq<Table>)
    requires Ordered(tables)
    ensures Disjoint(tables)
  {
  }

  // ----- hits

  lemma {:induction false} HitInRange(t: Table, k: Key)
    requires TableOk(t) && Lookup(t.entries, k).Some?
    ensures InRange(t, k)
  {
    if Less(k, t.minKey) || Less(t.maxKey, k) {
      OutsideRange(t, k);
    }
  }

  lemma {:induction false} NonEmptyRange(t: Table)
    requires TableOk(t)
    ensures AtMost(t.minKey, t.maxKey)
  {
    EntriesOrdered(t, 0, |t.entries| - 1);
  }

  lemma {:induction false} ApartRanges(a: Table, b: Table, k: Key)
    requires Apart(a, b) && InRange(a, k)
    ensures !InRange(b, k)
  {
    if InRange(b, k) {
      if Less(a.maxKey, b.minKey) {
        LessAtMost(k, a.maxKey, b.minKey);
      } else {
        LessAtMost(k, b.maxKey, a.minKey);
      }
    }
  }

  lemma {:induction false} FirstHitAppend(a: seq<Table>, b: seq<Table>, k: Key)
    ensures FirstHit(a + b, k) == OrElse(FirstHit(a, k), FirstHit(b, k))
  {
    if a == [] {
      assert a + b == b;
    } else {
      assert (a + b)[1..] == a[1..] + b;
      FirstHitAppend(a[1..], b, k);
    }
  }

  lemma {:induction false} FirstHitNone(tables: seq<Table>, k: Key)
    requires forall i :: 0 <= i < |tables| ==> Lookup(tables[i].entries, k) == None
    ensures FirstHit(tables, k) == None
  {
    if tables != [] {
      assert Lookup(tables[0].entries, k) == None;
      forall i | 0 <= i < |tables[1..]|
        ensures Lookup(tables[1..][i].entries, k) == None
      {
        assert tables[1..][i] == tables[i + 1];
      }
      FirstHitNone(tables[1..], k);
    }
  }

  lemma {:induction false} FirstHitFrom(tables: seq<Table>, k: Key) returns (i: nat)
    requires FirstHit(tables, k).Some?
    ensures i < |tables| && Lookup(tables[i].entries, k) == FirstHit(tables, k)
  {
    if Lookup(tables[0].entries, k).Some? {
      i := 0;
    } else {
      var j := FirstHitFrom(tables[1..], k);
      i := j + 1;
    }
  }

  /** In a disjoint list the table whose range holds the key decides. */
  lemma {:induction false} DisjointHit(tables: seq<Table>, k: Key, i: nat)
    requires AllOk(tables) && Disjoint(tables) && i < |tables| && InRange(tables[i], k)
    ensures FirstHit(tables, k) == Lookup(tables[i].entries, k)
  {
    forall j | 0 <= j < |tables| && j != i
      ensures Lookup(tables[j].entries, k) == None
    {
      assert Apart(tables[i], tables[j]) by {
        if i < j { assert Apart(tables[i], tables[j]); } else { assert Apart(tables[j], tables[i]); }
      }
      ApartRanges(tables[i], tables[j], k);
      if Lookup(tables[j].entries, k).Some? {
        HitInRange(tables[j], k);
      }
    }
    assert tables == tables[..i] + ([tables[i]] + tables[i + 1..]);
    FirstHitAppend(tables[..i], [tables[i]] + tables[i + 1..], k);
    FirstHitAppend([tables[i]], tables[i + 1..], k);
    FirstHitNone(tables[..i], k);
    FirstHitNone(tables[i + 1..], k);
    assert FirstHit([tables[i]], k) == Lookup(tables[i].entries, k);
  }

  lemma {:induction false} NoRangeNoHit(tables: seq<Table>, k: Key)
    requires AllOk(tables) && forall i :: 0 <= i < |tables| ==> !InRange(tables[i], k)
    ensures FirstHit(tables, k) == None
  {
    forall i | 0 <= i < |tables|
      ensures Lookup(tables[i].entries, k) == None
    {
      if Lookup(tables[i].entries, k).Some? {
        HitInRange(tables[i], k);
      }
    }
    FirstHitNone(tables, k);
  }

  /** The order of a disjoint list does not matter for lookups. */
  lemma {:induction false} SameTablesSameHits(a: seq<Table>, b: seq<Table>, k: Key)
    requires AllOk(a) && Disjoint(a) && AllOk(b) && Disjoint(b)
    requires forall t :: t in a <==> t in b
    ensures FirstHit(a, k) == FirstHit(b, k)
  {
    if i :| 0 <= i < |a| && InRange(a[i], k) {
      assert a[i] in b;
      var j :| 0 <= j < |b| && b[j] == a[i];
      DisjointHit(a, k, i);
      DisjointHit(b, k, j);
    } else {
      NoRangeNoHit(a, k);
      forall j | 0 <= j < |b|
        ensures !InRange(b[j], k)
      {
        assert b[j] in a;
      }
      NoRangeNoHit(b, k);
    }
  }

  // ----- sorting by smallest key

  /** Insertion in a list sorted by minKey. */
  function InsertByMin(t: Table, sorted: seq<Table>): seq<Table> {
    if sorted == [] || Less(t.minKey, sorted[0].minKey) then [t] + sorted
    else [sorted[0]] + InsertByMin(t, sorted[1..])
  }

  /** std::sort with the comparison of smallest keys. */
  function SortByMin(tables: seq<Table>): seq<Table> {
    if tables == [] then [] else InsertByMin(tables[|tables| - 1], SortByMin(tables[..|tables| - 1]))
  }

  lemma {:induction false} InsertMembers(t: Table, sorted: seq<Table>)
    ensures forall x :: x in InsertByMin(t, sorted) <==> x == t || x in sorted
  {
    if sorted != [] && !Less(t.minKey, sorted[0].minKey) {
      InsertMembers(t, sorted[1..]);
      assert sorted == [sorted[0]] + sorted[1..];
    }
  }

  lemma {:induction false} SortMembers(tables: seq<Table>)
    ensures forall x :: x in SortByMin(tables) <==> x in tables
  {
    if tables != [] {
      var n := |tables| - 1;
      SortMembers(tables[..n]);
      InsertMembers(tables[n], SortByMin(tables[..n]));
      assert tables == tables[..n] + [tables[n]];
    }
  }

  lemma {:induction false} ApartOrder(a: Table, b: Table)
    requires TableOk(a) && TableOk(b) && Apart(a, b)
    ensures Less(a.minKey, b.minKey) <==> Less(a.maxKey, b.minKey)
    ensures !Less(a.minKey, b.minKey) <==> Less(b.maxKey, a.minKey)
  {
    NonEmptyRange(a);
    NonEmptyRange(b);
    if Less(a.maxKey, b.minKey) {
      LessAtMost(a.minKey, a.maxKey, b.minKey);
      if Less(b.maxKey, a.minKey) {
        LessAtMost(b.minKey, b.maxKey, a.minKey);
        LessTransitive(a.minKey, b.minKey, a.minKey);
        LessIrreflexive(a.minKey);
      }
    } else {
      LessAtMost(b.minKey, b.maxKey, a.minKey);
      if Less(a.minKey, b.minKey) {
        LessTransitive(a.minKey, b.minKey, a.minKey);
        LessIrreflexive(a.minKey);
      }
    }
  }

  lemma {:induction false} InsertOrdered(t: Table, sorted: seq<Table>)
    requires TableOk(t) && AllOk(sorted) && Ordered(sorted)
    requires forall i :: 0 <= i < |sorted| ==> Apart(t, sorted[i])
    ensures Ordered(InsertByMin(t, sorted))
  {
    if sorted == [] {
    } else if Less(t.minKey, sorted[0].minKey) {
      ApartOrder(t, sorted[0]);
      NonEmptyRange(sorted[0]);
      forall i | 0 <= i < |sorted|
        ensures Less(t.maxKey, sorted[i].minKey)
      {
        if i > 0 {
          LessAtMost(sorted[0].minKey, sorted[0].maxKey, sorted[i].minKey);
          LessTransitive(t.maxKey, sorted[0].minKey, sorted[i].minKey);
        }
      }
    } else {
      ApartOrder(t, sorted[0]);
      InsertOrdered(t, sorted[1..]);
      InsertMembers(t, sorted[1..]);
      var rest := InsertByMin(t, sorted[1..]);
      forall i | 0 <= i < |rest|
        ensures Less(sorted[0].maxKey, rest[i].minKey)
      {
        if rest[i] != t {
          assert rest[i] in sorted[1..];
          var j :| 0 <= j < |sorted[1..]| && sorted[1..][j] == rest[i];
          assert Less(sorted[0].maxKey, sorted[j + 1].minKey);
        }
      }
    }
  }

  lemma {:induction false} SortOrdered(tables: seq<Table>)
    requires AllOk(tables) && Disjoint(tables)
    ensures Ordered(SortByMin(tables)) && AllOk(SortByMin(tables))
  {
    SortMembers(tables);
    if tables != [] {
      var n := |tables| - 1;
      SortOrdered(tables[..n]);
      SortMembers(tables[..n]);
      var sorted := SortByMin(tables[..n]);
      forall i | 0 <= i < |sorted|
        ensures Apart(tables[n], sorted[i])
      {
        assert sorted[i] in tables[..n];
        var j :| 0 <= j < n && tables[j] == sorted[i];
        assert Apart(tables[j], tables[n]);
      }
      InsertOrdered(tables[n], sorted);
    }
    forall i | 0 <= i < |SortByMin(tables)|
      ensures TableOk(SortByMin(tables)[i])
    {
      assert SortByMin(tables)[i] in tables;
    }
  }

  // ----- merging

  /** Put every entry of a run into a map. */
  function AddRun(acc: seq<Entry>, run: seq<Entry>): seq<Entry>
    decreases |run|
  {
    if run == [] then acc else Upsert(AddRun(acc, run[..|run| - 1]), run[|run| - 1])
  }

  /** Put every table of a list into a map, the first table first. */
  function AddTables(acc: seq<Entry>, tables: seq<Table>): seq<Entry> {
    if tables == [] then acc else AddRun(AddTables(acc, tables[..|tables| - 1]), tables[|tables| - 1].entries)
  }

  function Reverse(tables: seq<Table>): seq<Table> {
    if tables == [] then [] else [tables[|tables| - 1]] + Reverse(tables[..|tables| - 1])
  }

  lemma {:induction false} AddRunLookup(acc: seq<Entry>, run: seq<Entry>, k: Key)
    requires Sorted(acc) && Sorted(run)
    ensures Sorted(AddRun(acc, run))
    ensures Lookup(AddRun(acc, run), k) == OrElse(Lookup(run, k), Lookup(acc, k))
    decreases |run|
  {
    if run != [] {
      var n := |run| - 1;
      AddRunLookup(acc, run[..n], k);
      UpsertSorted(AddRun(acc, run[..n]), run[n]);
      UpsertLookup(AddRun(acc, run[..n]), run[n], k);
      assert run == run[..n] + [run[n]];
      LookupAppend(run[..n], [run[n]], k);
      if k == run[n].key {
        LookupAt(run, n);
      }
    }
  }

  /** Later tables override earlier ones. */
  lemma {:induction false} AddTablesLookup(acc: seq<Entry>, tables: seq<Table>, k: Key)
    requires Sorted(acc) && AllOk(tables)
    ensures Sorted(AddTables(acc, tables))
    ensures Lookup(AddTables(acc, tables), k) == OrElse(FirstHit(Reverse(tables), k), Lookup(acc, k))
  {
    if tables != [] {
      var n := |tables| - 1;
      AddTablesLookup(acc, tables[..n], k);
      AddRunLookup(AddTables(acc, tables[..n]), tables[n].entries, k);
      assert Reverse(tables)[1..] == Reverse(tables[..n]);
    }
  }

  lemma {:induction false} ReverseMembers(tables: seq<Table>)
    ensures |Reverse(tables)| == |tables|
    ensures forall i :: 0 <= i < |tables| ==> Reverse(tables)[i] == tables[|tables| - 1 - i]
  {
    if tables != [] {
      ReverseMembers(tables[..|tables| - 1]);
    }
  }

  lemma {:induction false} ReverseTwice(tables: seq<Table>)
    ensures Reverse(Reverse(tables)) == tables
  {
    ReverseMembers(tables);
    ReverseMembers(Reverse(tables));
  }

  lemma {:induction false} ReverseDisjoint(tables: seq<Table>, k: Key)
    requires AllOk(tables) && Disjoint(tables)
    ensures FirstHit(Reverse(tables), k) == FirstHit(tables, k)
  {
    ReverseMembers(tables);
    var r := Reverse(tables);
    forall i, j | 0 <= i < j < |r|
      ensures Apart(r[i], r[j])
    {
      assert Apart(tables[|tables| - 1 - j], tables[|tables| - 1 - i]);
    }
    forall t | t in tables ensures t in r {
      var i :| 0 <= i < |tables| && tables[i] == t;
      assert r[|tables| - 1 - i] == t;
    }
    SameTablesSameHits(r, tables, k);
  }

  // ----- dropping tombstones

  function DropTombstones(run: seq<Entry>): seq<Entry>
    decreases |run|
  {
    if run == [] then []
    else DropTombstones(run[..|run| - 1]) + if run[|run| - 1].tombstone then [] else [run[|run| - 1]]
  }

  lemma {:induction false} DropMembers(run: seq<Entry>)
    ensures forall e :: e in DropTombstones(run) <==> e in run && !e.tombstone
    decreases |run|
  {
    if run != [] {
      DropMembers(run[..|run| - 1]);
      assert run == run[..|run| - 1] + [run[|run| - 1]];
    }
  }

  lemma {:induction false} DropSorted(run: seq<Entry>)
    requires Sorted(run)
    ensures Sorted(DropTombstones(run))
    decreases |run|
  {
    if run != [] {
      var n := |run| - 1;
      var kept := DropTombstones(run[..n]);
      DropSorted(run[..n]);
      DropMembers(run[..n]);
      forall i | 0 <= i < |kept|
        ensures Less(kept[i].key, run[n].key)
      {
        assert kept[i] in run[..n];
        var j :| 0 <= j < n && run[j] == kept[i];
      }
    }
  }

  lemma {:induction false} DropLookup(run: seq<Entry>, k: Key)
    requires Sorted(run)
    ensures Lookup(DropTombstones(run), k) ==
            if Lookup(run, k).Some? && Lookup(run, k).value.tombstone then None else Lookup(run, k)
    decreases |run|
  {
    if run != [] {
      var n := |run| - 1;
      DropLookup(run[..n], k);
      assert run == run[..n] + [run[n]];
      LookupAppend(run[..n], [run[n]], k);
      LookupAppend(DropTombstones(run[..n]), if run[n].tombstone then [] else [run[n]], k);
      if run[n].key == k {
        NotBefore(run, n, k);
      }
    }
  }

  /** The keys of a sorted run are distinct. */
  lemma {:induction false} NotBefore(run: seq<Entry>, n: nat, k: Key)
    requires Sorted(run) && n < |run| && run[n].key == k
    ensures Lookup(run[..n], k) == None
  {
    LookupFinds(run[..n], k);
    if Lookup(run[..n], k).Some? {
      var j :| 0 <= j < n && run[..n][j] == Lookup(run[..n], k).value;
      LessIrreflexive(k);
    }
  }
}
