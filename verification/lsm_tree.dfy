/**
 The LSM tree itself: a memtable with its write-ahead log over leveled tables.  Whatever is
 flushed and compacted, it answers like a plain map.
 */
module LsmTree {
  import opened ByteStrings
  import opened LsmRuns
  import opened LsmSSTable
  import opened LsmLevels
  import opened LsmCompaction

  const MEMTABLE_THRESHOLD: nat := 8
  const L0_COMPACTION_THRESHOLD: nat := 4

  // ----- the loops of compact_level

  /** The smallest and the largest key of the tables to compact. */
  method KeyRange(tables: seq<Table>) returns (low: Key, high: Key)
    requires tables != [] && AllOk(tables)
    ensures Within(tables, low, high) && AtMost(low, high)
  {
    low := tables[0].minKey;
    high := tables[0].maxKey;
    NonEmptyRange(tables[0]);
    LessIrreflexive(low);
    LessIrreflexive(high);
    for i := 0 to |tables|
      invariant AtMost(low, high) && AtMost(low, tables[0].minKey) && AtMost(tables[0].maxKey, high)
      invariant forall j :: 0 <= j < i ==> AtMost(low, tables[j].minKey) && AtMost(tables[j].maxKey, high)
    {
      ghost var low0, high0 := low, high;
      low := if Less(tables[i].minKey, low) then tables[i].minKey else low;
      high := if Less(high, tables[i].maxKey) then tables[i].maxKey else high;
      LessIrreflexive(low);
      LessIrreflexive(high);
      LessAtMost(low, low0, high0);
      LessAtMost(low, high0, high);
      LessAtMost(low, low0, tables[0].minKey);
      LessAtMost(tables[0].maxKey, high0, high);
      forall j | 0 <= j < i
        ensures AtMost(low, tables[j].minKey) && AtMost(tables[j].maxKey, high)
      {
        LessAtMost(low, low0, tables[j].minKey);
        LessAtMost(tables[j].maxKey, high0, high);
      }
    }
  }

  method SplitByOverlap(tables: seq<Table>, low: Key, high: Key) returns (overlapping: seq<Table>, retained: seq<Table>)
    ensures overlapping == Overlapping(tables, low, high) && retained == Retained(tables, low, high)
  {
    overlapping, retained := [], [];
    for i := 0 to |tables|
      invariant overlapping == Overlapping(tables[..i], low, high)
      invariant retained == Retained(tables[..i], low, high)
    {
      assert tables[..i + 1][..i] == tables[..i];
      if Overlaps(tables[i], low, high) {
        overlapping := overlapping + [tables[i]];
      } else {
        retained := retained + [tables[i]];
      }
    }
    assert tables[..|tables|] == tables;
  }

  /** Insert every entry of a table into the merge map. */
  method MergeTable(start: seq<Entry>, t: Table) returns (acc: seq<Entry>)
    ensures acc == AddRun(start, t.entries)
  {
    acc := start;
    for i := 0 to |t.entries|
      invariant acc == AddRun(start, t.entries[..i])
    {
      assert t.entries[..i + 1][..i] == t.entries[..i];
      acc := Upsert(acc, t.entries[i]);
    }
    assert t.entries[..|t.entries|] == t.entries;
  }

  /** The older level first, then the picked tables from the oldest to the newest. */
  method Merge(picked: seq<Table>, below: seq<Table>) returns (merged: seq<Entry>)
    ensures merged == Merged(picked, below)
  {
    merged := [];
    for i := 0 to |below|
      invariant merged == AddTables([], below[..i])
    {
      assert below[..i + 1][..i] == below[..i];
      merged := MergeTable(merged, below[i]);
    }
    assert below[..|below|] == below;
    ReverseMembers(picked);
    for i := |picked| downto 0
      invariant merged == AddTables(AddTables([], below), Reverse(picked)[..|picked| - i])
    {
      var done := |picked| - i - 1;
      assert Reverse(picked)[..done + 1][..done] == Reverse(picked)[..done];
      merged := MergeTable(merged, picked[i]);
    }
    assert Reverse(picked)[..|picked|] == Reverse(picked);
  }

  method PurgeTombstones(merged: seq<Entry>, bottom: bool) returns (kept: seq<Entry>)
    ensures kept == if bottom then DropTombstones(merged) else merged
  {
    kept := [];
    for i := 0 to |merged|
      invariant kept == if bottom then DropTombstones(merged[..i]) else merged[..i]
    {
      assert merged[..i + 1][..i] == merged[..i];
      if bottom && merged[i].tombstone {
        continue;
      }
      kept := kept + [merged[i]];
    }
    assert merged[..|merged|] == merged;
  }

  lemma {:induction false} Stretch(run: seq<Entry>, i: nat, stop: nat)
    requires Sorted(run) && i <= stop <= |run|
    ensures Sorted(run[i..stop])
    ensures run[..i] + run[i..stop] == run[..stop]
  {
  }

  /** Cut a run into tables of at most twice the memtable's size. */
  method MakeTables(run: seq<Entry>) returns (made: seq<Table>)
    requires Sorted(run)
    ensures AllOk(made) && Flat(made) == run
  {
    made := [];
    var i := 0;
    while i < |run|
      invariant i <= |run| && AllOk(made) && Flat(made) == run[..i]
      decreases |run| - i
    {
      var stop := if i + 2 * MEMTABLE_THRESHOLD < |run| then i + 2 * MEMTABLE_THRESHOLD else |run|;
      Stretch(run, i, stop);
      var t := Build(run[i..stop]);
      ghost var before := made;
      made := made + [t];
      assert made[..|before|] == before;
      i := stop;
    }
    assert run[..|run|] == run;
  }

  // ----- plain maps

  datatype Op = Put(key: Key, value: Value) | Remove(key: Key) | Flush

  function Step(m: map<Key, Value>, op: Op): map<Key, Value> {
    match op
    case Put(k, v) => m[k := v]
    case Remove(k) => m - {k}
    case Flush => m
  }

  function PlainMap(ops: seq<Op>): map<Key, Value> {
    if ops == [] then map[] else Step(PlainMap(ops[..|ops| - 1]), ops[|ops| - 1])
  }

  function MapGet(m: map<Key, Value>, k: Key): Option<Value> {
    if k in m then Some(m[k]) else None
  }

  /** The memtable that a write-ahead log rebuilds. */
  function Recover(wal: seq<Op>): seq<Entry> {
    if wal == [] then []
    else
      var run := Recover(wal[..|wal| - 1]);
      match wal[|wal| - 1]
      case Put(k, v) => Upsert(run, Entry(k, v, false))
      case Remove(k) => Upsert(run, Entry(k, [], true))
      case Flush => run
  }

  /** One compaction: pick tables on `level`, merge them with the overlapping ones below, and
      replace both. */
  method MergeDown(levels: seq<seq<Table>>, level: nat) returns (result: seq<seq<Table>>)
    requires LevelsOk(levels) && level + 1 < MAX_LEVELS && levels[level] != []
    ensures LevelsOk(result) && SameElsewhere(levels, result, level)
    ensures result[level] == if level == 0 then [] else levels[level][1..]
    ensures forall k :: Answer(Search(result, 0, k)) == Answer(Search(levels, 0, k))
  {
    var here, below := levels[level], levels[level + 1];
    var picked := if level == 0 then here else [here[0]];
    var rest := if level == 0 then [] else here[1..];
    PickOk(here, rest, level, picked);
    var low, high := KeyRange(picked);
    var made, sorted := MergeInto(below, picked, low, high, level + 2 == MAX_LEVELS);
    result := levels[level := rest][level + 1 := sorted];
    TwoReplaced(levels, level, rest, sorted);
    AllAnswersKept(levels, result, level, picked, low, high, made);
  }

  lemma {:induction false} TwoReplaced(levels: seq<seq<Table>>, level: nat, rest: seq<Table>, sorted: seq<Table>)
    requires |levels| == MAX_LEVELS && level + 1 < MAX_LEVELS
    ensures var result := levels[level := rest][level + 1 := sorted];
            SameElsewhere(levels, result, level) && result[level] == rest && result[level + 1] == sorted
  {
  }

  /** The new next level: what is retained of the old one and the fresh tables, sorted. */
  method MergeInto(below: seq<Table>, picked: seq<Table>, low: Key, high: Key, bottom: bool)
    returns (made: seq<Table>, sorted: seq<Table>)
    requires AllOk(below) && Ordered(below) && AllOk(picked)
    ensures AllOk(made) && IsPurged(Flat(made), Merged(picked, Overlapping(below, low, high)), bottom)
    ensures sorted == SortByMin(Retained(below, low, high) + made)
  {
    var overlapping, retained := SplitByOverlap(below, low, high);
    var merged := Merge(picked, overlapping);
    MergedSorted(below, picked, low, high);
    var kept := PurgeTombstones(merged, bottom);
    made := MakeTables(kept);
    sorted := SortByMin(retained + made);
  }

  lemma {:induction false} MergedSorted(next: seq<Table>, picked: seq<Table>, low: Key, high: Key)
    requires AllOk(next) && Ordered(next) && AllOk(picked)
    ensures var merged := Merged(picked, Overlapping(next, low, high)); Sorted(merged) && Sorted(DropTombstones(merged))
  {
    OrderedIsDisjoint(next);
    SplitKeeps(next, low, high);
    MergedLookup(picked, Overlapping(next, low, high), []);
    DropSorted(Merged(picked, Overlapping(next, low, high)));
  }

  lemma {:induction false} AllAnswersKept(a: seq<seq<Table>>, b: seq<seq<Table>>, level: nat, picked: seq<Table>,
          low: Key, high: Key, made: seq<Table>)
    requires LevelsOk(a) && IsCompaction(a, b, level, picked, low, high, made)
    ensures LevelsOk(b)
    ensures forall k :: Answer(Search(b, 0, k)) == Answer(Search(a, 0, k))
  {
    CompactionKeepsAnswers(a, b, level, picked, low, high, made, []);
    CompactedLevels(a, b, level, picked);
    forall k: Key
      ensures Answer(Search(b, 0, k)) == Answer(Search(a, 0, k))
    {
      CompactionKeepsAnswers(a, b, level, picked, low, high, made, k);
    }
  }

  class LSMTree {
    var memtable: seq<Entry>
    var levels: seq<seq<Table>>
    var wal: seq<Op>

    /** Sorted memtable, well-formed levels, and a log from which the memtable can be rebuilt. */
    ghost predicate Consistent()
      reads this
    {
      && Sorted(memtable)
      && LevelsOk(levels)
      && Recover(wal) == memtable
    }

    /** Between two calls the memtable and the first level are also below their thresholds. */
    ghost predicate Valid()
      reads this
    {
      Consistent() && |memtable| < MEMTABLE_THRESHOLD && |levels[0]| < L0_COMPACTION_THRESHOLD
    }

    /** What a lookup means, from the newest to the oldest place. */
    ghost function View(k: Key): Option<Value>
      requires Consistent()
      reads this
    {
      Answer(OrElse(Lookup(memtable, k), Search(levels, 0, k)))
    }

    constructor ()
      ensures Valid() && forall k :: View(k) == None
    {
      memtable := [];
      levels := [[], [], [], []];
      wal := [];
      new;
      forall k: Key
        ensures View(k) == None
      {
        EmptySearch(levels, 0, k);
      }
    }

    method Put(key: Key, value: Value)
      requires Valid()
      modifies this
      ensures Valid()
      ensures View(key) == Some(value)
      ensures forall k :: k != key ==> View(k) == old(View(k))
    {
      Write(Op.Put(key, value), Entry(key, value, false));
      if |memtable| >= MEMTABLE_THRESHOLD {
        FlushMemtable();
      }
    }

    method Remove(key: Key)
      requires Valid()
      modifies this
      ensures Valid()
      ensures View(key) == None
      ensures forall k :: k != key ==> View(k) == old(View(k))
    {
      Write(Op.Remove(key), Entry(key, [], true));
      if |memtable| >= MEMTABLE_THRESHOLD {
        FlushMemtable();
      }
    }

    /** Log the operation, then put its entry in the memtable. */
    method Write(op: Op, e: Entry)
      requires Valid()
      requires op == (if e.tombstone then Op.Remove(e.key) else Op.Put(e.key, e.value))
      requires e.tombstone ==> e.value == []
      modifies this
      ensures Consistent() && levels == old(levels) && |memtable| <= |old(memtable)| + 1
      ensures View(e.key) == Answer(Some(e))
      ensures forall k :: k != e.key ==> View(k) == old(View(k))
    {
      wal := wal + [op];
      memtable := Upsert(memtable, e);
      UpsertSorted(old(memtable), e);
      UpsertSize(old(memtable), e);
      assert wal[..|wal| - 1] == old(wal);
      forall k: Key
        ensures Lookup(memtable, k) == if k == e.key then Some(e) else Lookup(old(memtable), k)
      {
        UpsertLookup(old(memtable), e, k);
      }
    }

    method Flush()
      requires Valid()
      modifies this
      ensures Valid() && memtable == []
      ensures forall k :: View(k) == old(View(k))
    {
      FlushMemtable();
    }

    method FlushMemtable()
      requires Consistent() && |levels[0]| < L0_COMPACTION_THRESHOLD
      modifies this
      ensures Valid() && memtable == []
      ensures forall k :: View(k) == old(View(k))
    {
      if memtable == [] {
        return;
      }
      var table := Build(memtable);
      levels := levels[0 := [table] + levels[0]];
      memtable := [];
      wal := [];
      FlushedLevels(old(levels), levels, table);
      forall k: Key
        ensures View(k) == old(View(k))
      {
        FlushKeepsAnswer(old(levels), levels, table, k);
      }
      if |levels[0]| >= L0_COMPACTION_THRESHOLD {
        CompactLevel(0);
      }
    }

    method CompactLevel(level: nat)
      requires Consistent() && (level == 0 ==> levels[0] != [])
      modifies this`levels
      ensures Consistent()
      ensures forall i :: 0 <= i < level && i < MAX_LEVELS ==> levels[i] == old(levels)[i]
      ensures level < MAX_LEVELS - 1 && old(levels)[level] != [] ==>
                levels[level] == if level == 0 then [] else old(levels)[level][1..]
      ensures level >= MAX_LEVELS - 1 || old(levels)[level] == [] ==> levels == old(levels)
      ensures forall k :: View(k) == old(View(k))
      decreases MAX_LEVELS - level
    {
      if level >= MAX_LEVELS - 1 {
        return;
      }
      if level > 0 && levels[level] == [] {
        return;
      }
      var next := level + 1;
      levels := MergeDown(levels, level);
      var capacity := L0_COMPACTION_THRESHOLD * Power2(next);
      if |levels[next]| > capacity && next < MAX_LEVELS - 1 {
        CompactLevel(next);
      }
    }

    method Get(key: Key) returns (r: Option<Value>)
      requires Valid()
      ensures r == View(key)
    {
      var hit := Lookup(memtable, key);
      if hit.Some? {
        return Answer(hit);
      }
      for i := 0 to |levels[0]|
        invariant FirstHit(levels[0], key) == FirstHit(levels[0][i..], key)
      {
        var res := LsmSSTable.Get(levels[0][i], key);
        if res.Some? {
          return Answer(res);
        }
        assert levels[0][i..][1..] == levels[0][i + 1..];
      }
      for lvl := 1 to MAX_LEVELS
        invariant Search(levels, 0, key) == Search(levels, lvl, key)
      {
        var res := GetInLevel(levels[lvl], key);
        if res.Some? {
          return Answer(res);
        }
      }
      return None;
    }
  }

  lemma {:induction false} UpsertSize(run: seq<Entry>, e: Entry)
    ensures |Upsert(run, e)| <= |run| + 1
    decreases |run|
  {
    if run != [] {
      UpsertSize(run[1..], e);
    }
  }

  /** 1 << n */
  function Power2(n: nat): nat {
    if n == 0 then 1 else 2 * Power2(n - 1)
  }

  /** The binary search by key range in a level of disjoint tables. */
  method GetInLevel(tables: seq<Table>, key: Key) returns (r: Option<Entry>)
    requires AllOk(tables) && Ordered(tables)
    ensures r == FirstHit(tables, key)
  {
    OrderedIsDisjoint(tables);
    if tables == [] {
      return None;
    }
    var low, high := 0, |tables| - 1;
    while low <= high
      invariant 0 <= low <= high + 1 <= |tables|
      invariant forall i :: 0 <= i < low ==> Less(tables[i].maxKey, key)
      invariant forall i :: high < i < |tables| ==> Less(key, tables[i].minKey)
      decreases high - low
    {
      var mid := low + (high - low) / 2;
      if InRange(tables[mid], key) {
        DisjointHit(tables, key, mid);
        r := LsmSSTable.Get(tables[mid], key);
        return;
      } else if Less(key, tables[mid].minKey) {
        AllAbove(tables, key, mid);
        if mid == 0 {
          break;
        }
        high := mid - 1;
      } else {
        AllBelow(tables, key, mid);
        low := mid + 1;
      }
    }
    forall i | 0 <= i < |tables|
      ensures !InRange(tables[i], key)
    {
    }
    NoRangeNoHit(tables, key);
    return None;
  }

  lemma {:induction false} AllAbove(tables: seq<Table>, key: Key, mid: nat)
    requires AllOk(tables) && Ordered(tables) && mid < |tables| && Less(key, tables[mid].minKey)
    ensures forall i :: mid <= i < |tables| ==> Less(key, tables[i].minKey)
  {
    forall i | mid < i < |tables|
      ensures Less(key, tables[i].minKey)
    {
      NonEmptyRange(tables[mid]);
      LessAtMost(key, tables[mid].minKey, tables[mid].maxKey);
      LessTransitive(key, tables[mid].maxKey, tables[i].minKey);
    }
  }

  lemma {:induction false} AllBelow(tables: seq<Table>, key: Key, mid: nat)
    requires AllOk(tables) && Ordered(tables) && mid < |tables|
    requires !InRange(tables[mid], key) && !Less(key, tables[mid].minKey)
    ensures forall i :: 0 <= i <= mid ==> Less(tables[i].maxKey, key)
  {
    forall i | 0 <= i < mid
      ensures Less(tables[i].maxKey, key)
    {
      LessAtMost(tables[i].maxKey, tables[mid].minKey, key);
    }
  }

  lemma {:induction false} EmptySearch(levels: seq<seq<Table>>, from: nat, k: Key)
    requires from <= |levels| && forall i :: 0 <= i < |levels| ==> levels[i] == []
    ensures Search(levels, from, k) == None
    decreases |levels| - from
  {
    if from < |levels| {
      EmptySearch(levels, from + 1, k);
    }
  }

  lemma {:induction false} FlushedLevels(a: seq<seq<Table>>, b: seq<seq<Table>>, table: Table)
    requires LevelsOk(a) && TableOk(table) && b == a[0 := [table] + a[0]]
    ensures LevelsOk(b)
  {
    forall i | 0 <= i < MAX_LEVELS
      ensures AllOk(b[i])
    {
      assert AllOk(a[i]);
    }
    assert forall i :: 1 <= i < MAX_LEVELS ==> b[i] == a[i];
  }

  /** The flushed memtable answers first, as the memtable did. */
  lemma {:induction false} FlushKeepsAnswer(a: seq<seq<Table>>, b: seq<seq<Table>>, table: Table, k: Key)
    requires LevelsOk(a) && b == a[0 := [table] + a[0]]
    ensures Search(b, 0, k) == OrElse(Lookup(table.entries, k), Search(a, 0, k))
  {
    assert ([table] + a[0])[1..] == a[0];
    assert a[1..] == b[1..];
    SearchSame(a, b, 1, k);
  }

  lemma {:induction false} CompactedLevels(a: seq<seq<Table>>, b: seq<seq<Table>>, level: nat, picked: seq<Table>)
    requires LevelsOk(a) && level + 1 < MAX_LEVELS && SameElsewhere(a, b, level)
    requires IsPick(a[level], b[level], level, picked)
    requires AllOk(b[level + 1]) && Ordered(b[level + 1])
    ensures LevelsOk(b)
  {
    PickOk(a[level], b[level], level, picked);
    forall i | 0 <= i < MAX_LEVELS
      ensures AllOk(b[i]) && (i >= 1 ==> Ordered(b[i]))
    {
      assert AllOk(a[i]);
    }
  }

  /** After any run of operations the tree answers every key like the plain map. */
  method Run(ops: seq<Op>) returns (tree: LSMTree)
    ensures fresh(tree) && tree.Valid()
    ensures forall k :: tree.View(k) == MapGet(PlainMap(ops), k)
  {
    tree := new LSMTree();
    for i := 0 to |ops|
      invariant fresh(tree) && tree.Valid()
      invariant forall k :: tree.View(k) == MapGet(PlainMap(ops[..i]), k)
    {
      assert ops[..i + 1][..i] == ops[..i];
      match ops[i]
      case Put(k, v) => tree.Put(k, v);
      case Remove(k) => tree.Remove(k);
      case Flush => tree.Flush();
    }
    assert ops[..|ops|] == ops;
  }
}
