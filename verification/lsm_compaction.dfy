/**
 One compaction: the tables picked on a level and the overlapping ones below are merged into
 fresh tables; no lookup notices.
 */
module LsmCompaction {
  import opened ByteStrings
  import opened LsmRuns
  import opened LsmSSTable
  import opened LsmLevels

  const MAX_LEVELS: nat := 4

  predicate Overlaps(t: Table, low: Key, high: Key) {
    !(Less(t.maxKey, low) || Less(high, t.minKey))
  }

  function Overlapping(tables: seq<Table>, low: Key, high: Key): seq<Table> {
    if tables == [] then []
    else
      var last := tables[|tables| - 1];
      Overlapping(tables[..|tables| - 1], low, high) + if Overlaps(last, low, high) then [last] else []
  }

  function Retained(tables: seq<Table>, low: Key, high: Key): seq<Table> {
    if tables == [] then []
    else
      var last := tables[|tables| - 1];
      Retained(tables[..|tables| - 1], low, high) + if Overlaps(last, low, high) then [] else [last]
  }

  /** All entries of a list of tables, in order. */
  function Flat(tables: seq<Table>): seq<Entry> {
    if tables == [] then [] else Flat(tables[..|tables| - 1]) + tables[|tables| - 1].entries
  }

  lemma {:induction false} SplitMembers(tables: seq<Table>, low: Key, high: Key)
    ensures forall t :: t in Overlapping(tables, low, high) <==> t in tables && Overlaps(t, low, high)
    ensures forall t :: t in Retained(tables, low, high) <==> t in tables && !Overlaps(t, low, high)
  {
    if tables != [] {
      SplitMembers(tables[..|tables| - 1], low, high);
      assert tables == tables[..|tables| - 1] + [tables[|tables| - 1]];
    }
  }

  lemma {:induction false} SplitKeeps(tables: seq<Table>, low: Key, high: Key)
    requires AllOk(tables) && Disjoint(tables)
    ensures AllOk(Overlapping(tables, low, high)) && Disjoint(Overlapping(tables, low, high))
    ensures AllOk(Retained(tables, low, high)) && Disjoint(Retained(tables, low, high))
  {
    SplitDisjoint(tables, low, high);
    SplitMembers(tables, low, high);
    PartOk(tables, Overlapping(tables, low, high));
    PartOk(tables, Retained(tables, low, high));
  }

  lemma {:induction false} PartOk(tables: seq<Table>, part: seq<Table>)
    requires AllOk(tables) && forall t :: t in part ==> t in tables
    ensures AllOk(part)
  {
    forall i | 0 <= i < |part|
      ensures TableOk(part[i])
    {
      assert part[i] in part;
    }
  }

  lemma {:induction false} SplitDisjoint(tables: seq<Table>, low: Key, high: Key)
    requires Disjoint(tables)
    ensures Disjoint(Overlapping(tables, low, high)) && Disjoint(Retained(tables, low, high))
  {
    if tables != [] {
      var n := |tables| - 1;
      SplitDisjoint(tables[..n], low, high);
      SplitMembers(tables[..n], low, high);
      forall t | t in tables[..n]
        ensures Apart(t, tables[n])
      {
        var i :| 0 <= i < n && tables[i] == t;
        assert Apart(tables[i], tables[n]);
      }
      AppendDisjoint(Overlapping(tables[..n], low, high), tables[n]);
      AppendDisjoint(Retained(tables[..n], low, high), tables[n]);
      assert Overlapping(tables[..n], low, high) + [] == Overlapping(tables[..n], low, high);
      assert Retained(tables[..n], low, high) + [] == Retained(tables[..n], low, high);
    }
  }

  lemma {:induction false} AppendDisjoint(part: seq<Table>, t: Table)
    requires Disjoint(part)
    requires forall x :: x in part ==> Apart(x, t)
    ensures Disjoint(part + [t])
  {
  }

  lemma {:induction false} SplitHits(tables: seq<Table>, low: Key, high: Key, k: Key)
    requires AllOk(tables) && Disjoint(tables)
    ensures FirstHit(tables, k) == OrElse(FirstHit(Overlapping(tables, low, high), k),
              FirstHit(Retained(tables, low, high), k))
    ensures FirstHit(Overlapping(tables, low, high), k).Some? ==> FirstHit(Retained(tables, low, high), k) == None
  {
    var o, r := Overlapping(tables, low, high), Retained(tables, low, high);
    SplitMembers(tables, low, high);
    SplitKeeps(tables, low, high);
    if i :| 0 <= i < |tables| && InRange(tables[i], k) {
      DisjointHit(tables, k, i);
      if Overlaps(tables[i], low, high) {
        assert tables[i] in o;
        var j :| 0 <= j < |o| && o[j] == tables[i];
        DisjointHit(o, k, j);
        OthersMiss(tables, r, k, i);
      } else {
        assert tables[i] in r;
        var j :| 0 <= j < |r| && r[j] == tables[i];
        DisjointHit(r, k, j);
        OthersMiss(tables, o, k, i);
      }
    } else {
      NoRangeNoHit(tables, k);
      forall j | 0 <= j < |o| ensures !InRange(o[j], k) { assert o[j] in tables; }
      forall j | 0 <= j < |r| ensures !InRange(r[j], k) { assert r[j] in tables; }
      NoRangeNoHit(o, k);
      NoRangeNoHit(r, k);
    }
  }

  /** Tables other than the one whose range holds the key do not answer. */
  lemma {:induction false} OthersMiss(tables: seq<Table>, part: seq<Table>, k: Key, i: nat)
    requires AllOk(tables) && Disjoint(tables) && AllOk(part) && i < |tables| && InRange(tables[i], k)
    requires forall t :: t in part ==> t in tables && t != tables[i]
    ensures FirstHit(part, k) == None
  {
    forall j | 0 <= j < |part|
      ensures !InRange(part[j], k)
    {
      assert part[j] in part;
      var m :| 0 <= m < |tables| && tables[m] == part[j];
      if m < i {
        assert Apart(tables[m], tables[i]);
      } else {
        assert Apart(tables[i], tables[m]);
      }
      ApartRanges(tables[i], tables[m], k);
    }
    NoRangeNoHit(part, k);
  }

  // ----- fresh tables

  lemma {:induction false} FlatHit(tables: seq<Table>, k: Key)
    ensures FirstHit(tables, k) == Lookup(Flat(tables), k)
  {
    if tables != [] {
      var n := |tables| - 1;
      FlatHit(tables[..n], k);
      assert tables == tables[..n] + [tables[n]];
      FirstHitAppend(tables[..n], [tables[n]], k);
      LookupAppend(Flat(tables[..n]), tables[n].entries, k);
    }
  }

  lemma {:induction false} FlatMembers(tables: seq<Table>)
    ensures forall i, e :: 0 <= i < |tables| && e in tables[i].entries ==> e in Flat(tables)
  {
    if tables != [] {
      var n := |tables| - 1;
      FlatMembers(tables[..n]);
      forall i, e | 0 <= i < |tables| && e in tables[i].entries
        ensures e in Flat(tables)
      {
        if i < n {
          assert tables[..n][i] == tables[i];
        }
      }
    }
  }

  lemma {:induction false} FlatOrdered(tables: seq<Table>)
    requires AllOk(tables) && Sorted(Flat(tables))
    ensures Ordered(tables)
  {
    if tables != [] {
      var n := |tables| - 1;
      var init := tables[..n];
      var front := Flat(init);
      SortedFront(front, tables[n].entries);
      FlatOrdered(init);
      FlatMembers(init);
      forall i | 0 <= i < n
        ensures Less(init[i].maxKey, tables[n].minKey)
      {
        LastBefore(init, tables[n], i);
      }
    }
  }

  lemma {:induction false} SortedFront(front: seq<Entry>, back: seq<Entry>)
    requires Sorted(front + back)
    ensures Sorted(front)
  {
    assert forall i :: 0 <= i < |front| ==> front[i] == (front + back)[i];
  }

  lemma {:induction false} LastBefore(init: seq<Table>, t: Table, i: nat)
    requires AllOk(init) && TableOk(t) && Sorted(Flat(init) + t.entries) && i < |init|
    requires forall i, e :: 0 <= i < |init| && e in init[i].entries ==> e in Flat(init)
    ensures Less(init[i].maxKey, t.minKey)
  {
    var last := init[i].entries[|init[i].entries| - 1];
    assert last in init[i].entries;
    SortedAcross(Flat(init), t.entries, last);
  }

  lemma {:induction false} SortedAcross(front: seq<Entry>, back: seq<Entry>, e: Entry)
    requires Sorted(front + back) && e in front && back != []
    ensures Less(e.key, back[0].key)
  {
    var p :| 0 <= p < |front| && front[p] == e;
    var flat := front + back;
    assert flat[p] == e && flat[|front|] == back[0];
  }

  // ----- the theorem about one compaction

  /** The tables picked for a compaction lie within [low, high]. */
  ghost predicate Within(tables: seq<Table>, low: Key, high: Key) {
    forall i :: 0 <= i < |tables| ==> AtMost(low, tables[i].minKey) && AtMost(tables[i].maxKey, high)
  }

  function Merged(picked: seq<Table>, below: seq<Table>): seq<Entry> {
    AddTables(AddTables([], below), Reverse(picked))
  }

  lemma {:induction false} MergedLookup(picked: seq<Table>, below: seq<Table>, k: Key)
    requires AllOk(picked) && AllOk(below) && Disjoint(below)
    ensures Sorted(Merged(picked, below))
    ensures Lookup(Merged(picked, below), k) == OrElse(FirstHit(picked, k), FirstHit(below, k))
  {
    AddTablesLookup([], below, k);
    ReverseDisjoint(below, k);
    ReverseMembers(picked);
    forall i | 0 <= i < |Reverse(picked)|
      ensures TableOk(Reverse(picked)[i])
    {
      assert TableOk(picked[|picked| - 1 - i]);
    }
    AddTablesLookup(AddTables([], below), Reverse(picked), k);
    ReverseTwice(picked);
  }

  /** A retained table lies wholly on one side of everything that is merged. */
  lemma {:induction false} RetainedBeside(t: Table, picked: seq<Table>, next: seq<Table>, low: Key, high: Key, k: Key)
    requires AllOk(picked) && AllOk(next) && Disjoint(next) && Within(picked, low, high) && AtMost(low, high)
    requires t in Retained(next, low, high)
    requires Lookup(Merged(picked, Overlapping(next, low, high)), k).Some?
    ensures if Less(t.maxKey, low) then Less(t.maxKey, k) else Less(k, t.minKey)
  {
    var o := Overlapping(next, low, high);
    SplitMembers(next, low, high);
    SplitKeeps(next, low, high);
    MergedLookup(picked, o, k);
    assert t in next;
    var m :| 0 <= m < |next| && next[m] == t;
    NonEmptyRange(t);
    if FirstHit(picked, k).Some? {
      var i := FirstHitFrom(picked, k);
      HitInRange(picked[i], k);
      LessAtMost(low, picked[i].minKey, k);
      LessAtMost(k, picked[i].maxKey, high);
      if Less(t.maxKey, low) {
        LessAtMost(t.maxKey, low, k);
      } else {
        LessAtMost(k, high, t.minKey);
      }
    } else {
      var i := FirstHitFrom(o, k);
      HitInRange(o[i], k);
      assert o[i] in next && o[i] in o;
      var p :| 0 <= p < |next| && next[p] == o[i];
      assert p != m;
      assert Apart(next[m], next[p]) by {
        if p < m { assert Apart(next[p], next[m]); } else { assert Apart(next[m], next[p]); }
      }
      Beside(t, o[i], low, high, k);
    }
  }

  lemma {:induction false} Beside(t: Table, o: Table, low: Key, high: Key, k: Key)
    requires TableOk(t) && TableOk(o) && Apart(t, o) && Overlaps(o, low, high) && !Overlaps(t, low, high)
    requires InRange(o, k)
    requires AtMost(low, high)
    ensures if Less(t.maxKey, low) then Less(t.maxKey, k) else Less(k, t.minKey)
  {
    NonEmptyRange(t);
    if Less(t.maxKey, low) {
      LessAtMost(t.maxKey, low, o.maxKey);
      if Less(o.maxKey, t.minKey) {
        LessAtMost(t.minKey, t.maxKey, o.maxKey);
        LessTransitive(o.maxKey, t.minKey, o.maxKey);
        LessIrreflexive(o.maxKey);
      }
      LessAtMost(t.maxKey, o.minKey, k);
    } else {
      LessAtMost(o.minKey, high, t.minKey);
      if Less(t.maxKey, o.minKey) {
        LessAtMost(o.minKey, t.minKey, t.maxKey);
        LessTransitive(o.minKey, t.maxKey, o.minKey);
        LessIrreflexive(o.minKey);
      }
      LessAtMost(k, o.maxKey, t.minKey);
    }
  }

  lemma {:induction false} FreshBesideRetained(t: Table, c: Table, picked: seq<Table>, next: seq<Table>, low: Key,
          high: Key)
    requires AllOk(picked) && AllOk(next) && Disjoint(next) && Within(picked, low, high) && AtMost(low, high)
    requires t in Retained(next, low, high) && TableOk(c)
    requires forall e :: e in c.entries ==> Lookup(Merged(picked, Overlapping(next, low, high)), e.key).Some?
    ensures Apart(t, c)
  {
    var first, last := c.entries[0], c.entries[|c.entries| - 1];
    assert first in c.entries && last in c.entries;
    RetainedBeside(t, picked, next, low, high, first.key);
    RetainedBeside(t, picked, next, low, high, last.key);
  }

  lemma {:induction false} JoinDisjoint(retained: seq<Table>, made: seq<Table>)
    requires Disjoint(retained) && Disjoint(made)
    requires forall t, c :: t in retained && c in made ==> Apart(t, c)
    ensures Disjoint(retained + made)
  {
    var all := retained + made;
    forall i, j | 0 <= i < j < |all|
      ensures Apart(all[i], all[j])
    {
      if i < |retained| && j >= |retained| {
        assert all[i] in retained && all[j] in made;
      }
    }
  }

  /** The next level after the compaction: still ordered and disjoint, and for every key it
      answers what the picked tables and then the old next level would have answered, except
      that at the bottom a tombstone gives way to "not stored". */
  lemma {:induction false} CompactionKeepsHits(picked: seq<Table>, next: seq<Table>, low: Key, high: Key,
          made: seq<Table>, bottom: bool, k: Key)
    requires AllOk(picked) && AllOk(next) && Disjoint(next) && Within(picked, low, high) && AtMost(low, high)
    requires var merged := Merged(picked, Overlapping(next, low, high));
             AllOk(made) && Flat(made) == if bottom then DropTombstones(merged) else merged
    ensures var result := SortByMin(Retained(next, low, high) + made);
            var hit := OrElse(FirstHit(picked, k), FirstHit(next, k));
            && AllOk(result) && Ordered(result)
            && (FirstHit(result, k) == hit
                || (bottom && hit.Some? && hit.value.tombstone && FirstHit(result, k) == None))
  {
    var o, r := Overlapping(next, low, high), Retained(next, low, high);
    var merged := Merged(picked, o);
    SplitKeeps(next, low, high);
    MergedLookup(picked, o, k);
    MadeFromMerged(merged, made, bottom, k);
    forall t, c | t in r && c in made
      ensures Apart(t, c)
    {
      var i :| 0 <= i < |made| && made[i] == c;
      assert TableOk(made[i]);
      FlatMembers(made);
      FreshBesideRetained(t, c, picked, next, low, high);
    }
    JoinDisjoint(r, made);
    JoinHits(r, made, k);
    SplitHits(next, low, high, k);
    if FirstHit(r, k).Some? && FirstHit(picked, k).Some? {
      RetainedMissesPicked(picked, next, low, high, k);
    }
  }

  /** The fresh tables are disjoint and hold exactly the merged entries that were kept. */
  lemma {:induction false} MadeFromMerged(merged: seq<Entry>, made: seq<Table>, bottom: bool, k: Key)
    requires Sorted(merged) && AllOk(made) && Flat(made) == if bottom then DropTombstones(merged) else merged
    ensures Disjoint(made)
    ensures forall e :: e in Flat(made) ==> Lookup(merged, e.key).Some?
    ensures FirstHit(made, k) == Lookup(Flat(made), k)
    ensures Lookup(Flat(made), k) ==
            if bottom && Lookup(merged, k).Some? && Lookup(merged, k).value.tombstone then None else Lookup(merged, k)
  {
    DropSorted(merged);
    DropMembers(merged);
    DropLookup(merged, k);
    FlatOrdered(made);
    OrderedIsDisjoint(made);
    FlatHit(made, k);
    forall e | e in Flat(made)
      ensures Lookup(merged, e.key).Some?
    {
      assert e in merged;
      var i :| 0 <= i < |merged| && merged[i] == e;
      LookupAt(merged, i);
    }
  }

  lemma {:induction false} JoinHits(r: seq<Table>, made: seq<Table>, k: Key)
    requires AllOk(r) && AllOk(made) && Disjoint(r + made)
    ensures var result := SortByMin(r + made);
            AllOk(result) && Ordered(result) && FirstHit(result, k) == OrElse(FirstHit(r, k), FirstHit(made, k))
  {
    assert AllOk(r + made);
    SortOrdered(r + made);
    SortMembers(r + made);
    OrderedIsDisjoint(SortByMin(r + made));
    SameTablesSameHits(SortByMin(r + made), r + made, k);
    FirstHitAppend(r, made, k);
  }

  lemma {:induction false} RetainedMissesPicked(picked: seq<Table>, next: seq<Table>, low: Key, high: Key, k: Key)
    requires AllOk(picked) && AllOk(next) && Disjoint(next) && Within(picked, low, high) && AtMost(low, high)
    requires FirstHit(picked, k).Some?
    ensures FirstHit(Retained(next, low, high), k) == None
  {
    var r := Retained(next, low, high);
    SplitKeeps(next, low, high);
    MergedLookup(picked, Overlapping(next, low, high), k);
    if FirstHit(r, k).Some? {
      var i := FirstHitFrom(r, k);
      HitInRange(r[i], k);
      assert r[i] in r;
      RetainedBeside(r[i], picked, next, low, high, k);
    }
  }

  // ----- all levels

  ghost predicate LevelsOk(levels: seq<seq<Table>>) {
    && |levels| == MAX_LEVELS
    && (forall i :: 0 <= i < MAX_LEVELS ==> AllOk(levels[i]))
    && (forall i :: 1 <= i < MAX_LEVELS ==> Ordered(levels[i]))
  }

  /** The first hit from level `from` down. */
  function Search(levels: seq<seq<Table>>, from: nat, k: Key): Option<Entry>
    requires from <= |levels|
    decreases |levels| - from
  {
    if from == |levels| then None else OrElse(FirstHit(levels[from], k), Search(levels, from + 1, k))
  }

  /** What a hit means to the caller: a tombstone says "not there". */
  function Answer(hit: Option<Entry>): Option<Value> {
    match hit
    case Some(e) => if e.tombstone then None else Some(e.value)
    case None => None
  }

  lemma {:induction false} SearchSame(a: seq<seq<Table>>, b: seq<seq<Table>>, from: nat, k: Key)
    requires from <= |a| == |b| && forall i :: from <= i < |a| ==> a[i] == b[i]
    ensures Search(a, from, k) == Search(b, from, k)
    decreases |a| - from
  {
    if from < |a| {
      SearchSame(a, b, from + 1, k);
    }
  }

  /** If the answers agree from level `from` on and nothing changed above, they agree. */
  lemma {:induction false} AnswersAgreeAbove(a: seq<seq<Table>>, b: seq<seq<Table>>, at: nat, from: nat, k: Key)
    requires at <= from <= |a| == |b| && forall i :: at <= i < from ==> a[i] == b[i]
    requires Answer(Search(a, from, k)) == Answer(Search(b, from, k))
    ensures Answer(Search(a, at, k)) == Answer(Search(b, at, k))
    decreases from - at
  {
    if at < from {
      AnswersAgreeAbove(a, b, at + 1, from, k);
    }
  }

  /** Only `level` and the level below it differ. */
  ghost predicate SameElsewhere(a: seq<seq<Table>>, b: seq<seq<Table>>, level: nat) {
    |a| == |b| == MAX_LEVELS && forall i :: 0 <= i < MAX_LEVELS && i != level && i != level + 1 ==> a[i] == b[i]
  }

  /** Purging or moving entries between two neighbouring levels changes no answer. */
  lemma {:induction false} TwoLevels(a: seq<seq<Table>>, b: seq<seq<Table>>, level: nat, k: Key)
    requires level + 1 < MAX_LEVELS && SameElsewhere(a, b, level)
    requires var before := OrElse(FirstHit(a[level], k), FirstHit(a[level + 1], k));
             var after := OrElse(FirstHit(b[level], k), FirstHit(b[level + 1], k));
             after == before || (level + 2 == MAX_LEVELS && before.Some? && before.value.tombstone && after == None)
    ensures Answer(Search(a, 0, k)) == Answer(Search(b, 0, k))
  {
    SearchSame(a, b, level + 2, k);
    SearchTwo(a, level, k);
    SearchTwo(b, level, k);
    assert level + 2 == MAX_LEVELS ==> Search(a, level + 2, k) == None;
    AnswersAgreeAbove(a, b, 0, level, k);
  }

  lemma {:induction false} SearchTwo(a: seq<seq<Table>>, level: nat, k: Key)
    requires level + 1 < |a|
    ensures Search(a, level, k) == OrElse(OrElse(FirstHit(a[level], k), FirstHit(a[level + 1], k)),
              Search(a, level + 2, k))
  {
    assert Search(a, level + 1, k) == OrElse(FirstHit(a[level + 1], k), Search(a, level + 2, k));
  }

  /** What compact_level puts in place of `level` and the level below it. */
  ghost predicate IsCompaction(a: seq<seq<Table>>, b: seq<seq<Table>>, level: nat, picked: seq<Table>, low: Key,
          high: Key, made: seq<Table>)
  {
    && level + 1 < MAX_LEVELS && SameElsewhere(a, b, level)
    && IsPick(a[level], b[level], level, picked)
    && Within(picked, low, high) && AtMost(low, high)
    && AllOk(made)
    && IsPurged(Flat(made), Merged(picked, Overlapping(a[level + 1], low, high)), level + 2 == MAX_LEVELS)
    && b[level + 1] == SortByMin(Retained(a[level + 1], low, high) + made)
  }

  /** The whole first level is picked, or the first table of a lower level. */
  predicate IsPick(tables: seq<Table>, rest: seq<Table>, level: nat, picked: seq<Table>) {
    if level == 0 then picked == tables && rest == [] else tables != [] && picked == [tables[0]] && rest == tables[1..]
  }

  predicate IsPurged(run: seq<Entry>, merged: seq<Entry>, bottom: bool) {
    run == if bottom then DropTombstones(merged) else merged
  }

  /** One whole compaction on `level`: every answer stays. */
  lemma {:induction false} CompactionKeepsAnswers(a: seq<seq<Table>>, b: seq<seq<Table>>, level: nat,
          picked: seq<Table>, low: Key, high: Key, made: seq<Table>, k: Key)
    requires LevelsOk(a) && IsCompaction(a, b, level, picked, low, high, made)
    ensures Answer(Search(a, 0, k)) == Answer(Search(b, 0, k))
    ensures AllOk(b[level + 1]) && Ordered(b[level + 1])
  {
    OrderedIsDisjoint(a[level + 1]);
    PickOk(a[level], b[level], level, picked);
    CompactionKeepsHits(picked, a[level + 1], low, high, made, level + 2 == MAX_LEVELS, k);
    PickedFirst(a[level], b[level], level, picked, k);
    TwoLevels(a, b, level, k);
  }

  lemma {:induction false} PickOk(tables: seq<Table>, rest: seq<Table>, level: nat, picked: seq<Table>)
    requires AllOk(tables) && IsPick(tables, rest, level, picked)
    ensures AllOk(picked) && AllOk(rest)
    ensures Ordered(tables) ==> Ordered(rest)
  {
  }

  /** Picking the first table of a disjoint level splits its hits. */
  lemma {:induction false} PickedFirst(tables: seq<Table>, rest: seq<Table>, level: nat, picked: seq<Table>, k: Key)
    requires AllOk(tables) && (level > 0 ==> Ordered(tables)) && IsPick(tables, rest, level, picked)
    ensures FirstHit(tables, k) == OrElse(FirstHit(picked, k), FirstHit(rest, k))
    ensures FirstHit(picked, k).Some? ==> FirstHit(rest, k) == None
  {
    if level == 0 {
      assert FirstHit([], k) == None;
    } else {
      assert tables == picked + rest;
      FirstHitAppend(picked, rest, k);
      if FirstHit(picked, k).Some? {
        assert Lookup(tables[0].entries, k).Some?;
        HitInRange(tables[0], k);
        OrderedIsDisjoint(tables);
        FirstApart(tables, rest);
        OthersMiss(tables, rest, k, 0);
      }
    }
  }

  lemma {:induction false} FirstApart(tables: seq<Table>, rest: seq<Table>)
    requires AllOk(tables) && Ordered(tables) && tables != [] && rest == tables[1..]
    ensures AllOk(rest)
    ensures forall t :: t in rest ==> t in tables && t != tables[0]
  {
    forall t | t in rest
      ensures t in tables && t != tables[0]
    {
      var i :| 0 <= i < |rest| && rest[i] == t;
      assert tables[i + 1] == t;
      assert Less(tables[0].maxKey, tables[i + 1].minKey);
      NonEmptyRange(t);
    }
  }
}
