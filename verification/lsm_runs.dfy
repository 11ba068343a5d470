/**
 Sorted runs of entries.
 */
module LsmRuns {

  import opened ByteStrings

  type Key = Bytes
  type Value = Bytes

  datatype Option<+T> = None | Some(value: T)

  datatype Entry = Entry(key: Key, value: Value, tombstone: bool)

  // ----- sorted runs

  /** Entries in strictly increasing key order: the contents of a std::map in iteration order. */
  ghost predicate Sorted(run: seq<Entry>) {
    forall i, j :: 0 <= i < j < |run| ==> Less(run[i].key, run[j].key)
  }

  function Lookup(run: seq<Entry>, k: Key): Option<Entry>
    decreases |run|
  {
    if run == [] then None
    else if run[0].key == k then Some(run[0])
    else Lookup(run[1..], k)
  }

  /** map[e.key] = e */
  function Upsert(run: seq<Entry>, e: Entry): seq<Entry>
    decreases |run|
  {
    if run == [] then [e]
    else if Less(e.key, run[0].key) then [e] + run
    else if e.key == run[0].key then [e] + run[1..]
    else [run[0]] + Upsert(run[1..], e)
  }

  lemma {:induction false} LookupFinds(run: seq<Entry>, k: Key)
    ensures match Lookup(run, k)
            case Some(e) => e.key == k && exists i :: 0 <= i < |run| && run[i] == e
            case None => forall i :: 0 <= i < |run| ==> run[i].key != k
    decreases |run|
  {
    if run != [] && run[0].key != k {
      LookupFinds(run[1..], k);
      if Lookup(run, k).Some? {
        var i :| 0 <= i < |run[1..]| && run[1..][i] == Lookup(run, k).value;
        assert run[i + 1] == Lookup(run, k).value;
      } else {
        assert forall i :: 1 <= i < |run| ==> run[i] == run[1..][i - 1];
      }
    }
  }

  lemma {:induction false} LookupAt(run: seq<Entry>, i: nat)
    requires Sorted(run) && i < |run|
    ensures Lookup(run, run[i].key) == Some(run[i])
    decreases |run|
  {
    if i > 0 {
      LessIrreflexive(run[i].key);
      assert run[0].key != run[i].key;
      assert run[1..][i - 1] == run[i];
      LookupAt(run[1..], i - 1);
    }
  }

  lemma {:induction false} LookupAppend(a: seq<Entry>, b: seq<Entry>, k: Key)
    ensures Lookup(a + b, k) == if Lookup(a, k).Some? then Lookup(a, k) else Lookup(b, k)
    decreases |a|
  {
    if a == [] {
      assert a + b == b;
    } else {
      assert (a + b)[1..] == a[1..] + b;
      LookupAppend(a[1..], b, k);
    }
  }

  lemma {:induction false} UpsertKeys(run: seq<Entry>, e: Entry)
    ensures forall i :: 0 <= i < |Upsert(run, e)| ==> Upsert(run, e)[i] == e || Upsert(run, e)[i] in run
    decreases |run|
  {
    if run != [] {
      UpsertKeys(run[1..], e);
      var u := Upsert(run, e);
      assert forall x :: x in run[1..] ==> x in run;
    }
  }

  lemma {:induction false} UpsertSorted(run: seq<Entry>, e: Entry)
    requires Sorted(run)
    ensures Sorted(Upsert(run, e))
    decreases |run|
  {
    if run != [] {
      LessTotal(e.key, run[0].key);
      if Less(e.key, run[0].key) {
        forall i | 0 <= i < |run|
          ensures Less(e.key, run[i].key)
        {
          if i > 0 {
            LessTransitive(e.key, run[0].key, run[i].key);
          }
        }
      } else if e.key != run[0].key {
        UpsertSorted(run[1..], e);
        UpsertKeys(run[1..], e);
        var rest := Upsert(run[1..], e);
        forall i | 0 <= i < |rest|
          ensures Less(run[0].key, rest[i].key)
        {
          if rest[i] != e {
            var j :| 0 <= j < |run[1..]| && run[1..][j] == rest[i];
            assert run[j + 1] == rest[i];
          }
        }
      }
    }
  }

  lemma {:induction false} UpsertLookup(run: seq<Entry>, e: Entry, k: Key)
    requires Sorted(run)
    ensures Lookup(Upsert(run, e), k) == if k == e.key then Some(e) else Lookup(run, k)
    decreases |run|
  {
    if run != [] {
      if Less(e.key, run[0].key) {
        assert ([e] + run)[1..] == run;
      } else if e.key == run[0].key {
        assert ([e] + run[1..])[1..] == run[1..];
      } else {
        var u := Upsert(run[1..], e);
        assert ([run[0]] + u)[1..] == u;
        UpsertLookup(run[1..], e, k);
      }
    }
  }
}
