/**
 Insertion with rotations as a function on trees: it updates exactly one key and keeps the
 search order and the heap order.
 */
module TreapInsertion {
  import opened ByteStrings
  import opened TreapProofs

  function RotateRight(t: Tree): Tree
    requires t.Node? && t.left.Node?
  {
    Node(t.left.key, t.left.value, t.left.priority, t.left.left,
        Node(t.key, t.value, t.priority, t.left.right, t.right))
  }

  function RotateLeft(t: Tree): Tree
    requires t.Node? && t.right.Node?
  {
    Node(t.right.key, t.right.value, t.right.priority, Node(t.key, t.value, t.priority, t.left, t.right.left),
        t.right.right)
  }

  function Insert(t: Tree, key: Bytes, value: Bytes, priority: nat): (r: Tree)
    ensures r.Node?
  {
    match t
    case Empty => Node(key, value, priority, Empty, Empty)
    case Node(k, v, p, left, right) =>
      if Less(key, k) then
        var grown := Node(k, v, p, Insert(left, key, value, priority), right);
        if grown.left.priority > p then RotateRight(grown) else grown
      else if Less(k, key) then
        var grown := Node(k, v, p, left, Insert(right, key, value, priority));
        if grown.right.priority > p then RotateLeft(grown) else grown
      else Node(k, value, p, left, right)
  }

  predicate AtMostPriority(t: Tree, p: nat) {
    t.Node? ==> t.priority <= p
  }

  predicate HeapOrdered(t: Tree) {
    match t
    case Empty => true
    case Node(_, _, p, left, right) =>
      AtMostPriority(left, p) && AtMostPriority(right, p) && HeapOrdered(left) && HeapOrdered(right)
  }

  lemma {:induction false} InsertKeys(t: Tree, key: Bytes, value: Bytes, priority: nat, x: Bytes)
    ensures HasKey(Insert(t, key, value, priority), x) <==> HasKey(t, x) || x == key
  {
    match t
    case Empty =>
    case Node(k, _, _, left, right) =>
      LessTotal(key, k);
      InsertKeys(left, key, value, priority, x);
      InsertKeys(right, key, value, priority, x);
  }

  lemma {:induction false} RotationsKeepOrder(t: Tree)
    requires SearchOrdered(t) && t.Node?
    ensures t.left.Node? ==> SearchOrdered(RotateRight(t))
    ensures t.right.Node? ==> SearchOrdered(RotateLeft(t))
  {
    if t.left.Node? {
      var r := RotateRight(t);
      forall x | HasKey(r.right, x)
        ensures Less(r.key, x)
      {
        assert HasKey(t.left, r.key);
        if HasKey(t.right, x) { LessTransitive(r.key, t.key, x); }
      }
      assert SearchOrdered(r.right) by {
        assert forall x :: HasKey(t.left.right, x) ==> HasKey(t.left, x);
      }
    }
    if t.right.Node? {
      var r := RotateLeft(t);
      forall x | HasKey(r.left, x)
        ensures Less(x, r.key)
      {
        assert HasKey(t.right, r.key);
        if HasKey(t.left, x) { LessTransitive(x, t.key, r.key); }
      }
      assert SearchOrdered(r.left) by {
        assert forall x :: HasKey(t.right.left, x) ==> HasKey(t.right, x);
      }
    }
  }

  /** Search order is kept, and the tree holds afterwards what it held before, with the given
      value for the given key. */
  lemma {:induction false} InsertKeepsSearchOrder(t: Tree, key: Bytes, value: Bytes, priority: nat)
    requires SearchOrdered(t)
    ensures SearchOrdered(Insert(t, key, value, priority))
  {
    match t
    case Empty =>
    case Node(k, v, p, left, right) =>
      LessTotal(key, k);
      if Less(key, k) {
        var l := Insert(left, key, value, priority);
        InsertKeepsSearchOrder(left, key, value, priority);
        forall x | HasKey(l, x) ensures Less(x, k) { InsertKeys(left, key, value, priority, x); }
        RotationsKeepOrder(Node(k, v, p, l, right));
      } else if Less(k, key) {
        var r := Insert(right, key, value, priority);
        InsertKeepsSearchOrder(right, key, value, priority);
        forall x | HasKey(r, x) ensures Less(k, x) { InsertKeys(right, key, value, priority, x); }
        RotationsKeepOrder(Node(k, v, p, left, r));
      }
  }

  lemma {:induction false} MemberHasKey(t: Tree, key: Bytes, value: Bytes)
    requires Member(t, key, value)
    ensures HasKey(t, key)
  {
    if !(t.key == key && t.value == value) {
      if Member(t.left, key, value) { MemberHasKey(t.left, key, value); } else { MemberHasKey(t.right, key, value); }
    }
  }

  lemma {:induction false} InsertMembers(t: Tree, key: Bytes, value: Bytes, priority: nat, x: Bytes, v: Bytes)
    requires SearchOrdered(t)
    ensures Member(Insert(t, key, value, priority), x, v) <==> if x == key then v == value else Member(t, x, v)
  {
    match t
    case Empty =>
    case Node(k, w, p, left, right) =>
      LessTotal(key, k);
      LessIrreflexive(k);
      if Less(key, k) {
        InsertMembers(left, key, value, priority, x, v);
        if x == key && Member(right, x, v) {
          MemberHasKey(right, x, v);
          LessTransitive(k, key, k);
        }
      } else if Less(k, key) {
        InsertMembers(right, key, value, priority, x, v);
        if x == key && Member(left, x, v) {
          MemberHasKey(left, x, v);
          LessTransitive(k, key, k);
        }
      } else {
        if x == key && Member(left, x, v) { MemberHasKey(left, x, v); }
        if x == key && Member(right, x, v) { MemberHasKey(right, x, v); }
      }
  }

  /** Heap order is kept: a rotation happens exactly where the new node outranks its parent. */
  lemma {:induction false} InsertKeepsHeapOrder(t: Tree, key: Bytes, value: Bytes, priority: nat)
    requires HeapOrdered(t)
    ensures var r := Insert(t, key, value, priority);
            && HeapOrdered(r)
            && (t.Node? ==>
                  r.priority == t.priority
                  || (r.priority > t.priority && AtMostPriority(r.left, t.priority)
                         && AtMostPriority(r.right, t.priority)))
  {
    match t
    case Empty =>
    case Node(k, v, p, left, right) =>
      if Less(key, k) {
        InsertKeepsHeapOrder(left, key, value, priority);
      } else if Less(k, key) {
        InsertKeepsHeapOrder(right, key, value, priority);
      }
  }
}
