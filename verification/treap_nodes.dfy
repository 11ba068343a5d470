/**
 The treap as the program builds it: nodes on the heap that carry the digest of their subtree
 and are rotated in place.
 */
module TreapNodes {
  import opened ByteStrings
  import opened TreapProofs
  import opened TreapInsertion
  import opened TreapShapes

  datatype Option<+T> = None | Some(value: T)

  ghost function TreeOf(n: TreapNode?): Tree
    reads n
  {
    if n == null then Empty else n.tree
  }

  ghost function Nodes(n: TreapNode?): set<TreapNode>
    reads n
  {
    if n == null then {} else n.repr
  }

  lemma {:induction false} DigestOfNode(h: Hash, key: Bytes, value: Bytes, priority: nat, left: Tree, right: Tree)
    ensures DigestOf(h, Node(key, value, priority, left, right)) == HashNode(h, key, value, DigestOf(h, left),
              DigestOf(h, right))
    ensures DigestOf(h, Empty) == h(EmptyPayload())
  {
  }

  function ChildHash(h: Hash, n: TreapNode?): Digest
    reads n
  {
    if n != null then n.subtreeHash else h(EmptyPayload())
  }

  lemma {:induction false} ChildHashIsDigest(h: Hash, n: TreapNode?)
    requires n != null ==> n.Valid(h)
    ensures ChildHash(h, n) == DigestOf(h, TreeOf(n))
  {
    DigestOfNode(h, [], [], 0, Empty, Empty);
  }

  class TreapNode {
    var key: Bytes
    var value: Bytes
    var priority: nat
    var left: TreapNode?
    var right: TreapNode?
    var subtreeHash: Digest
    ghost var repr: set<TreapNode>
    ghost var tree: Tree

    /** The node's children are valid and separate, `tree` is the tree below it, and the stored
        digest is the digest of that tree. */
    ghost predicate Valid(h: Hash)
      reads this, repr
      ensures Valid(h) ==> this in repr && tree.Node?
      decreases repr
    {
      && Shape(h)
      && subtreeHash == DigestOf(h, tree)
    }

    /** As Valid, before the digest has been brought up to date. */
    ghost predicate Shape(h: Hash)
      reads this, repr
      ensures Shape(h) ==> this in repr && tree.Node?
      decreases repr, 0
    {
      && this in repr
      && (left != null ==> left in repr && left.repr <= repr && this !in left.repr && left.Valid(h))
      && (right != null ==> right in repr && right.repr <= repr && this !in right.repr && right.Valid(h))
      && (left != null && right != null ==> left.repr !! right.repr)
      && tree == Node(key, value, priority, TreeOf(left), TreeOf(right))
    }

    constructor (h: Hash, key: Bytes, value: Bytes, priority: nat)
      ensures Valid(h) && fresh(repr)
      ensures tree == Node(key, value, priority, Empty, Empty)
    {
      this.key := key;
      this.value := value;
      this.priority := priority;
      left, right := null, null;
      subtreeHash := HashNode(h, key, value, h(EmptyPayload()), h(EmptyPayload()));
      repr := {this};
      tree := Node(key, value, priority, Empty, Empty);
      DigestOfNode(h, key, value, priority, Empty, Empty);
    }

    method UpdateHash(h: Hash)
      requires Shape(h)
      modifies this`subtreeHash
      ensures Valid(h)
    {
      var leftHash := ChildHash(h, left);
      var rightHash := ChildHash(h, right);
      subtreeHash := HashNode(h, key, value, leftHash, rightHash);
      DigestOfNode(h, key, value, priority, TreeOf(left), TreeOf(right));
    }
  }

  /** A right rotation in place; both digests are recomputed. */
  method RotateNodeRight(h: Hash, y: TreapNode) returns (x: TreapNode)
    requires y.Shape(h) && y.left != null
    modifies y, y.left
    ensures x == old(y.left) && x.Valid(h) && x.repr == old(y.repr)
    ensures x.tree == RotateRight(old(y.tree))
  {
    x := y.left;
    assert x.Shape(h);
    ghost var all := y.repr;
    ghost var t := RotateRight(y.tree);
    ghost var a, b, c := x.left, x.right, y.right;
    y.left := x.right;
    y.tree := t.right;
    y.repr := {y} + Nodes(y.left) + Nodes(y.right);
    assert (b != null ==> b.Valid(h)) && (c != null ==> c.Valid(h));
    y.UpdateHash(h);
    assert a != null ==> a.Valid(h);
    x.right := y;
    x.tree := t;
    x.repr := all;
    x.UpdateHash(h);
  }

  method RotateNodeLeft(h: Hash, x: TreapNode) returns (y: TreapNode)
    requires x.Shape(h) && x.right != null
    modifies x, x.right
    ensures y == old(x.right) && y.Valid(h) && y.repr == old(x.repr)
    ensures y.tree == RotateLeft(old(x.tree))
  {
    y := x.right;
    assert y.Shape(h);
    ghost var all := x.repr;
    ghost var t := RotateLeft(x.tree);
    ghost var a, b, c := x.left, y.left, y.right;
    x.right := y.left;
    x.tree := t.left;
    x.repr := {x} + Nodes(x.left) + Nodes(x.right);
    assert (a != null ==> a.Valid(h)) && (b != null ==> b.Valid(h));
    x.UpdateHash(h);
    assert c != null ==> c.Valid(h);
    y.left := x;
    y.tree := t;
    y.repr := all;
    y.UpdateHash(h);
  }

  /** Insertion below `node`, whose tree is `t`: the nodes are updated in place to the tree that
      Insert describes, with every digest up to date. */
  method InsertRec(h: Hash, node: TreapNode?, key: Bytes, value: Bytes, priority: nat, ghost t: Tree)
    returns (r: TreapNode)
    requires (node != null ==> node.Valid(h)) && TreeOf(node) == t
    modifies Nodes(node)
    ensures r.Valid(h) && r.tree == Insert(t, key, value, priority)
    ensures SearchOrdered(t) ==> GivesPriority(t, r.tree, key, priority)
    ensures fresh(r.repr - old(Nodes(node)))
    decreases t
  {
    if SearchOrdered(t) {
      InsertGivesPriority(t, key, value, priority);
    }
    if node == null {
      r := new TreapNode(h, key, value, priority);
      return;
    }
    if Less(key, node.key) {
      var l := InsertRec(h, node.left, key, value, priority, t.left);
      r := AttachLeft(h, node, l);
    } else if Less(node.key, key) {
      var n := InsertRec(h, node.right, key, value, priority, t.right);
      r := AttachRight(h, node, n);
    } else {
      node.value := value;
      node.tree := Insert(t, key, value, priority);
      node.UpdateHash(h);
      r := node;
    }
  }

  /** Hang a grown left subtree under the node and rotate it up if it outranks the node. */
  method AttachLeft(h: Hash, node: TreapNode, l: TreapNode) returns (r: TreapNode)
    requires l.Valid(h) && node !in l.repr
    requires node.right != null ==> node.right.Valid(h) && node !in node.right.repr && node.right.repr !! l.repr
    modifies node, l
    ensures r.Valid(h) && r.repr == {node} + old(l.repr) + old(Nodes(node.right))
    ensures var grown := Node(old(node.key), old(node.value), old(node.priority), old(l.tree), old(TreeOf(node.right)));
            r.tree == if old(l.priority) > old(node.priority) then RotateRight(grown) else grown
  {
    node.left := l;
    node.tree := Node(node.key, node.value, node.priority, l.tree, TreeOf(node.right));
    node.repr := {node} + l.repr + Nodes(node.right);
    r := node;
    if l.priority > node.priority {
      r := RotateNodeRight(h, node);
    }
    r.UpdateHash(h);
  }

  method AttachRight(h: Hash, node: TreapNode, n: TreapNode) returns (r: TreapNode)
    requires n.Valid(h) && node !in n.repr
    requires node.left != null ==> node.left.Valid(h) && node !in node.left.repr && node.left.repr !! n.repr
    modifies node, n
    ensures r.Valid(h) && r.repr == {node} + old(n.repr) + old(Nodes(node.left))
    ensures var grown := Node(old(node.key), old(node.value), old(node.priority), old(TreeOf(node.left)), old(n.tree));
            r.tree == if old(n.priority) > old(node.priority) then RotateLeft(grown) else grown
  {
    node.right := n;
    node.tree := Node(node.key, node.value, node.priority, TreeOf(node.left), n.tree);
    node.repr := {node} + n.repr + Nodes(node.left);
    r := node;
    if n.priority > node.priority {
      r := RotateNodeLeft(h, node);
    }
    r.UpdateHash(h);
  }

  /** The treap object; priorities come from a generator that is not modelled. */
  class AuthenticatedTreap {
    const h: Hash
    var root: TreapNode?

    ghost predicate Valid()
      reads this, root, Nodes(root)
    {
      && (root != null ==> root.Valid(h))
      && SearchOrdered(TreeOf(root)) && HeapOrdered(TreeOf(root))
    }

    constructor (h: Hash)
      ensures Valid() && this.h == h && TreeOf(root) == Empty
    {
      this.h := h;
      root := null;
    }

    method GetRoot() returns (digest: Digest)
      requires Valid()
      ensures digest == DigestOf(h, TreeOf(root))
    {
      digest := ChildHash(h, root);
      ChildHashIsDigest(h, root);
    }

    /** The treap maps the key to the value afterwards, everything else as before; a new key has
        the given priority and no other priority changes; search order, heap order and all
        digests hold again. */
    method Insert(key: Bytes, value: Bytes, priority: nat)
      requires Valid()
      modifies this, Nodes(root)
      ensures Valid()
      ensures TreeOf(root) == TreapInsertion.Insert(old(TreeOf(root)), key, value, priority)
      ensures forall x, v ::
                Member(TreeOf(root), x, v) <==> if x == key then v == value else Member(old(TreeOf(root)), x, v)
      ensures GivesPriority(old(TreeOf(root)), TreeOf(root), key, priority)
    {
      ghost var t := TreeOf(root);
      root := InsertRec(h, root, key, value, priority, t);
      InsertKeepsSearchOrder(t, key, value, priority);
      InsertKeepsHeapOrder(t, key, value, priority);
      forall x, v
        ensures Member(TreeOf(root), x, v) <==> if x == key then v == value else Member(t, x, v)
      {
        InsertMembers(t, key, value, priority, x, v);
      }
    }

    /** A proof is returned exactly for stored keys, with the stored value, and every verifier
        that knows the root digest accepts it. */
    method ProveMembership(key: Bytes) returns (result: Option<Proof>)
      requires Valid()
      ensures result.Some? <==> HasKey(TreeOf(root), key)
      ensures result.Some? ==> AcceptsMembership(h, DigestOf(h, TreeOf(root)), result.value)
                               && result.value.key == key && Member(TreeOf(root), key, result.value.value)
    {
      HonestProofsVerify(h, TreeOf(root), key);
      SearchFindsMembers(TreeOf(root), key);
      var current := root;
      var ancestors: seq<PathStep> := [];
      ghost var t := TreeOf(root);
      while current != null
        invariant (current != null ==> current.Valid(h)) && TreeOf(current) == t
        invariant OnTheWay(h, TreeOf(root), key, ancestors, t)
        decreases t
      {
        ChildHashIsDigest(h, current.left);
        ChildHashIsDigest(h, current.right);
        OneStepFurther(h, TreeOf(root), key, ancestors, t);
        if current.key == key {
          return Some(Proof(true, key, current.value, ChildHash(h, current.left), ChildHash(h, current.right),
              ancestors));
        }
        if Less(key, current.key) {
          ancestors := ancestors + [PathStep(current.key, current.value, false, ChildHash(h, current.right))];
          current, t := current.left, t.left;
        } else {
          ancestors := ancestors + [PathStep(current.key, current.value, true, ChildHash(h, current.left))];
          current, t := current.right, t.right;
        }
      }
      return None;
    }

    /** The proof claims absence exactly for keys that are not stored, and is accepted then. */
    method ProveNonMembership(key: Bytes) returns (proof: Proof)
      requires Valid()
      ensures proof.key == key && (proof.exists_ <==> HasKey(TreeOf(root), key))
      ensures !proof.exists_ ==> AcceptsNonMembership(h, DigestOf(h, TreeOf(root)), proof)
    {
      HonestProofsVerify(h, TreeOf(root), key);
      SearchFindsMembers(TreeOf(root), key);
      var unused := seq(32, _ => 0);
      var current := root;
      var ancestors: seq<PathStep> := [];
      ghost var t := TreeOf(root);
      while current != null
        invariant (current != null ==> current.Valid(h)) && TreeOf(current) == t
        invariant OnTheWay(h, TreeOf(root), key, ancestors, t)
        decreases t
      {
        ChildHashIsDigest(h, current.left);
        ChildHashIsDigest(h, current.right);
        OneStepFurther(h, TreeOf(root), key, ancestors, t);
        if current.key == key {
          return Proof(true, key, [], unused, unused, ancestors);
        }
        if Less(key, current.key) {
          ancestors := ancestors + [PathStep(current.key, current.value, false, ChildHash(h, current.right))];
          current, t := current.left, t.left;
        } else {
          ancestors := ancestors + [PathStep(current.key, current.value, true, ChildHash(h, current.left))];
          current, t := current.right, t.right;
        }
      }
      assert ancestors + [] == ancestors;
      return Proof(false, key, [], unused, unused, ancestors);
    }
  }

  /** A search that has collected `ancestors` and stands at the subtree t. */
  ghost predicate OnTheWay(h: Hash, whole: Tree, key: Bytes, ancestors: seq<PathStep>, t: Tree) {
    ancestors + SearchPath(h, t, key) == SearchPath(h, whole, key) && SearchEnd(t, key) == SearchEnd(whole, key)
  }

  lemma {:induction false} OneStepFurther(h: Hash, whole: Tree, key: Bytes, ancestors: seq<PathStep>, t: Tree)
    requires OnTheWay(h, whole, key, ancestors, t) && t.Node?
    ensures t.key == key ==> ancestors == SearchPath(h, whole, key) && SearchEnd(whole, key) == t
    ensures t.key != key && Less(key, t.key) ==>
              OnTheWay(h, whole, key, ancestors + [PathStep(t.key, t.value, false, DigestOf(h, t.right))], t.left)
    ensures t.key != key && !Less(key, t.key) ==>
              OnTheWay(h, whole, key, ancestors + [PathStep(t.key, t.value, true, DigestOf(h, t.left))], t.right)
  {
    if t.key == key {
      assert ancestors + [] == ancestors;
    } else {
      var path := SearchPath(h, t, key);
      assert ancestors + [path[0]] + path[1..] == ancestors + path;
    }
  }
}
