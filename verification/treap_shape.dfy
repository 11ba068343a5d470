/**
 The priorities of the treap.  An insertion gives its priority to a new key and leaves every
 other key its own; and when no two keys share a priority, what is stored fixes the whole tree,
 so the root digest does not depend on the order of the insertions.
 */
module TreapShapes {
  import opened ByteStrings
  import opened TreapProofs
  import opened TreapInsertion

  /** A node of the tree carries the key with that priority. */
  predicate Ranked(t: Tree, x: Bytes, p: nat) {
    t.Node? && ((t.key == x && t.priority == p) || Ranked(t.left, x, p) || Ranked(t.right, x, p))
  }

  ghost predicate DistinctPriorities(t: Tree) {
    forall x, y, p {:trigger Ranked(t, x, p), Ranked(t, y, p)} :: Ranked(t, x, p) && Ranked(t, y, p) ==> x == y
  }

  /** The same keys, with the same values and the same priorities. */
  ghost predicate SameEntries(a: Tree, b: Tree) {
    && (forall x, v :: Member(a, x, v) <==> Member(b, x, v))
    && (forall x, p :: Ranked(a, x, p) <==> Ranked(b, x, p))
  }

  lemma {:induction false} RankedHasKey(t: Tree, x: Bytes, p: nat)
    requires Ranked(t, x, p)
    ensures HasKey(t, x)
  {
    if !(t.key == x && t.priority == p) {
      if Ranked(t.left, x, p) { RankedHasKey(t.left, x, p); } else { RankedHasKey(t.right, x, p); }
    }
  }

  /** A new key has the given priority; a key that is replaced and all other keys keep theirs. */
  ghost predicate GivesPriority(t: Tree, r: Tree, key: Bytes, priority: nat) {
    forall x, p ::
      Ranked(r, x, p) <==> if x == key && !HasKey(t, key) then p == priority else Ranked(t, x, p)
  }

  /** An insertion gives its priority to the key if it is new, and changes no other priority. */
  lemma {:induction false} InsertGivesPriority(t: Tree, key: Bytes, value: Bytes, priority: nat)
    requires SearchOrdered(t)
    ensures GivesPriority(t, Insert(t, key, value, priority), key, priority)
  {
    forall x, p: nat
      ensures Ranked(Insert(t, key, value, priority), x, p)
              <==> if x == key && !HasKey(t, key) then p == priority else Ranked(t, x, p)
    {
      InsertPriorities(t, key, value, priority, x, p);
    }
  }

  lemma {:induction false} InsertPriorities(t: Tree, key: Bytes, value: Bytes, priority: nat, x: Bytes, p: nat)
    requires SearchOrdered(t)
    ensures Ranked(Insert(t, key, value, priority), x, p)
            <==> if x == key && !HasKey(t, key) then p == priority else Ranked(t, x, p)
  {
    match t
    case Empty =>
    case Node(k, _, q, left, right) =>
      LessTotal(key, k);
      LessIrreflexive(k);
      if Less(key, k) {
        InsertPriorities(left, key, value, priority, x, p);
        NotAbove(t, key, p);
      } else if Less(k, key) {
        InsertPriorities(right, key, value, priority, x, p);
        NotBelow(t, key, p);
      }
  }

  /** A key below the root's is not in the right subtree. */
  lemma {:induction false} NotAbove(t: Tree, key: Bytes, p: nat)
    requires SearchOrdered(t) && t.Node? && Less(key, t.key)
    ensures !HasKey(t.right, key) && !Ranked(t.right, key, p)
  {
    LessIrreflexive(t.key);
    if HasKey(t.right, key) {
      LessTransitive(t.key, key, t.key);
    }
    if Ranked(t.right, key, p) {
      RankedHasKey(t.right, key, p);
    }
  }

  lemma {:induction false} NotBelow(t: Tree, key: Bytes, p: nat)
    requires SearchOrdered(t) && t.Node? && Less(t.key, key)
    ensures !HasKey(t.left, key) && !Ranked(t.left, key, p)
  {
    LessIrreflexive(t.key);
    if HasKey(t.left, key) {
      LessTransitive(t.key, key, t.key);
    }
    if Ranked(t.left, key, p) {
      RankedHasKey(t.left, key, p);
    }
  }

  lemma {:induction false} RootOutranks(t: Tree, x: Bytes, p: nat)
    requires HeapOrdered(t) && Ranked(t, x, p)
    ensures p <= t.priority
  {
    if !(t.key == x && t.priority == p) {
      if Ranked(t.left, x, p) { RootOutranks(t.left, x, p); } else { RootOutranks(t.right, x, p); }
    }
  }

  /** The root of a tree without shared priorities is the key of highest priority. */
  lemma {:induction false} SameRoot(a: Tree, b: Tree)
    requires SearchOrdered(a) && HeapOrdered(a) && HeapOrdered(b) && DistinctPriorities(a)
    requires SameEntries(a, b) && a.Node? && b.Node?
    ensures a.key == b.key && a.value == b.value && a.priority == b.priority
  {
    assert Ranked(a, a.key, a.priority) && Ranked(b, b.key, b.priority);
    RootOutranks(b, a.key, a.priority);
    RootOutranks(a, b.key, b.priority);
    assert Member(b, b.key, b.value);
    RootValue(a, b.value);
  }

  lemma {:induction false} RootValue(t: Tree, v: Bytes)
    requires SearchOrdered(t) && t.Node? && Member(t, t.key, v)
    ensures v == t.value
  {
    LessIrreflexive(t.key);
    if Member(t.left, t.key, v) { MemberHasKey(t.left, t.key, v); }
    if Member(t.right, t.key, v) { MemberHasKey(t.right, t.key, v); }
  }

  /** The subtrees hold the entries on either side of the root. */
  lemma {:induction false} Sides(t: Tree, x: Bytes, v: Bytes, p: nat)
    requires SearchOrdered(t) && t.Node?
    ensures Member(t.left, x, v) <==> Member(t, x, v) && Less(x, t.key)
    ensures Member(t.right, x, v) <==> Member(t, x, v) && Less(t.key, x)
    ensures Ranked(t.left, x, p) <==> Ranked(t, x, p) && Less(x, t.key)
    ensures Ranked(t.right, x, p) <==> Ranked(t, x, p) && Less(t.key, x)
  {
    LessIrreflexive(t.key);
    if Member(t.left, x, v) { MemberHasKey(t.left, x, v); }
    if Member(t.right, x, v) { MemberHasKey(t.right, x, v); }
    if Ranked(t.left, x, p) { RankedHasKey(t.left, x, p); }
    if Ranked(t.right, x, p) { RankedHasKey(t.right, x, p); }
    if Less(x, t.key) && Less(t.key, x) { LessTransitive(x, t.key, x); LessIrreflexive(x); }
  }

  lemma {:induction false} SameSides(a: Tree, b: Tree)
    requires SearchOrdered(a) && SearchOrdered(b) && SameEntries(a, b) && a.Node? && b.Node? && a.key == b.key
    ensures SameEntries(a.left, b.left) && SameEntries(a.right, b.right)
  {
    forall x, v
      ensures Member(a.left, x, v) <==> Member(b.left, x, v)
      ensures Member(a.right, x, v) <==> Member(b.right, x, v)
    {
      Sides(a, x, v, 0);
      Sides(b, x, v, 0);
    }
    forall x, p: nat
      ensures Ranked(a.left, x, p) <==> Ranked(b.left, x, p)
      ensures Ranked(a.right, x, p) <==> Ranked(b.right, x, p)
    {
      Sides(a, x, [], p);
      Sides(b, x, [], p);
    }
  }

  /** Search order, heap order and the entries fix the tree when no priority is shared. */
  lemma {:induction false} EntriesFixTheTree(a: Tree, b: Tree)
    requires SearchOrdered(a) && SearchOrdered(b) && HeapOrdered(a) && HeapOrdered(b)
    requires DistinctPriorities(a) && SameEntries(a, b)
    ensures a == b
    decreases a
  {
    if a.Empty? {
      if b.Node? {
        assert Member(b, b.key, b.value);
      }
    } else {
      assert Member(a, a.key, a.value);
      SameRoot(a, b);
      SameSides(a, b);
      SmallerDistinct(a);
      EntriesFixTheTree(a.left, b.left);
      EntriesFixTheTree(a.right, b.right);
    }
  }

  lemma {:induction false} SmallerDistinct(t: Tree)
    requires DistinctPriorities(t) && t.Node?
    ensures DistinctPriorities(t.left) && DistinctPriorities(t.right)
  {
    forall x, y, p | Ranked(t.left, x, p) && Ranked(t.left, y, p)
      ensures x == y
    {
      assert Ranked(t, x, p) && Ranked(t, y, p);
    }
    forall x, y, p | Ranked(t.right, x, p) && Ranked(t.right, y, p)
      ensures x == y
    {
      assert Ranked(t, x, p) && Ranked(t, y, p);
    }
  }

  // ----- whole runs of insertions

  datatype Entry = Entry(key: Bytes, value: Bytes, priority: nat)

  /** The treap after the insertions, first to last. */
  function Build(entries: seq<Entry>): Tree {
    if entries == [] then Empty
    else
      var e := entries[|entries| - 1];
      Insert(Build(entries[..|entries| - 1]), e.key, e.value, e.priority)
  }

  ghost predicate DistinctKeys(entries: seq<Entry>) {
    forall i, j {:trigger entries[i], entries[j]} :: 0 <= i < j < |entries| ==> entries[i].key != entries[j].key
  }

  ghost predicate OnePerPriority(entries: seq<Entry>) {
    forall d, e {:trigger d in entries, e in entries} ::
      d in entries && e in entries && d.priority == e.priority ==> d == e
  }

  ghost predicate Stores(entries: seq<Entry>, x: Bytes, v: Bytes) {
    exists e :: e in entries && e.key == x && e.value == v
  }

  ghost predicate Ranks(entries: seq<Entry>, x: Bytes, p: nat) {
    exists e :: e in entries && e.key == x && e.priority == p
  }

  lemma {:induction false} LastEntry(entries: seq<Entry>)
    requires entries != []
    ensures forall e {:trigger e in entries} ::
              e in entries <==> e in entries[..|entries| - 1] || e == entries[|entries| - 1]
  {
    assert entries == entries[..|entries| - 1] + [entries[|entries| - 1]];
  }

  /** A run of insertions of different keys stores exactly its entries, in search and heap order. */
  lemma {:induction false} BuildHolds(entries: seq<Entry>)
    requires DistinctKeys(entries)
    ensures SearchOrdered(Build(entries)) && HeapOrdered(Build(entries))
    ensures forall x, v :: Member(Build(entries), x, v) <==> Stores(entries, x, v)
    ensures forall x, p :: Ranked(Build(entries), x, p) <==> Ranks(entries, x, p)
    ensures forall x :: HasKey(Build(entries), x) <==> exists e :: e in entries && e.key == x
    decreases |entries|
  {
    if entries != [] {
      var before, e := entries[..|entries| - 1], entries[|entries| - 1];
      var t := Build(before);
      BuildHolds(before);
      LastEntry(entries);
      InsertKeepsSearchOrder(t, e.key, e.value, e.priority);
      InsertKeepsHeapOrder(t, e.key, e.value, e.priority);
      NewKey(entries);
      forall x, v ensures Member(Build(entries), x, v) <==> Stores(entries, x, v) {
        InsertMembers(t, e.key, e.value, e.priority, x, v);
        assert Stores(before, x, v) ==> Stores(entries, x, v);
      }
      forall x, p: nat ensures Ranked(Build(entries), x, p) <==> Ranks(entries, x, p) {
        InsertPriorities(t, e.key, e.value, e.priority, x, p);
        assert Ranks(before, x, p) ==> Ranks(entries, x, p);
      }
      forall x ensures HasKey(Build(entries), x) <==> exists d :: d in entries && d.key == x {
        InsertKeys(t, e.key, e.value, e.priority, x);
      }
    }
  }

  lemma {:induction false} NewKey(entries: seq<Entry>)
    requires DistinctKeys(entries) && entries != []
    ensures forall e {:trigger e in entries[..|entries| - 1]} ::
              e in entries[..|entries| - 1] ==> e.key != entries[|entries| - 1].key
  {
  }

  /** Whatever the order in which different keys of different priorities are inserted, the treap
      is the same, and so is its root digest. */
  lemma {:induction false} OrderOfInsertionsIsIrrelevant(h: Hash, first: seq<Entry>, second: seq<Entry>)
    requires DistinctKeys(first) && DistinctKeys(second) && OnePerPriority(first)
    requires forall e :: e in first <==> e in second
    ensures Build(first) == Build(second) && DigestOf(h, Build(first)) == DigestOf(h, Build(second))
  {
    BuildHolds(first);
    BuildHolds(second);
    var a, b := Build(first), Build(second);
    forall x, v ensures Member(a, x, v) <==> Member(b, x, v) {
      assert Stores(first, x, v) <==> Stores(second, x, v);
    }
    forall x, p: nat ensures Ranked(a, x, p) <==> Ranked(b, x, p) {
      assert Ranks(first, x, p) <==> Ranks(second, x, p);
    }
    forall x, y, p | Ranked(a, x, p) && Ranked(a, y, p)
      ensures x == y
    {
      assert Ranks(first, x, p) && Ranks(first, y, p);
    }
    EntriesFixTheTree(a, b);
  }
}
