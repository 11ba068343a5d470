/**
 The authenticated treap as a value, its digests, and its proofs: what a verifier accepts is
 true of the tree behind the root digest, or the proof itself yields a hash collision.

 The hash is an arbitrary function from byte strings to 32-byte digests.
 */
module TreapProofs {
  import opened ByteStrings

  type Digest = d: Bytes | |d| == 32 witness seq(32, _ => 0)

  type Hash = Bytes -> Digest

  datatype Tree = Empty | Node(key: Bytes, value: Bytes, priority: nat, left: Tree, right: Tree)

  /** One ancestor on the way to the target, with the digest of the child not taken. */
  datatype PathStep = PathStep(key: Bytes, value: Bytes, wentRight: bool, sibling: Digest)

  /** `ancestors` runs from the root down to the parent of the target. */
  datatype Proof = Proof(exists_: bool, key: Bytes, value: Bytes, targetLeft: Digest, targetRight: Digest,
      ancestors: seq<PathStep>)

  // ----- digests

  /** A length as four bytes, most significant first; longer lengths lose their upper part. */
  function Length32(n: nat): (r: Bytes)
    ensures |r| == 4
  {
    var m := n % 0x1_0000_0000;
    [(m / 0x100 / 0x100 / 0x100) as Byte, (m / 0x100 / 0x100 % 0x100) as Byte, (m / 0x100 % 0x100) as Byte,
        (m % 0x100) as Byte]
  }

  function NodePayload(key: Bytes, value: Bytes, left: Digest, right: Digest): Bytes {
    [2] + Length32(|key|) + key + Length32(|value|) + value + left + right
  }

  /** The bytes of "ADS_EMPTY_NODE". */
  function EmptyPayload(): Bytes {
    [65, 68, 83, 95, 69, 77, 80, 84, 89, 95, 78, 79, 68, 69]
  }

  function HashNode(h: Hash, key: Bytes, value: Bytes, left: Digest, right: Digest): Digest {
    h(NodePayload(key, value, left, right))
  }

  /** What is hashed for the root of a tree. */
  function Payload(h: Hash, t: Tree): Bytes
    decreases t, 0
  {
    match t
    case Empty => EmptyPayload()
    case Node(key, value, _, left, right) => NodePayload(key, value, DigestOf(h, left), DigestOf(h, right))
  }

  function DigestOf(h: Hash, t: Tree): Digest
    decreases t, 1
  {
    h(Payload(h, t))
  }

  // ----- the verifiers

  function StepPayload(step: PathStep, child: Digest): Bytes {
    if step.wentRight then NodePayload(step.key, step.value, step.sibling, child)
    else NodePayload(step.key, step.value, child, step.sibling)
  }

  /** The digest that the ancestors claim for the root, given the target's digest. */
  function FoldUp(h: Hash, ancestors: seq<PathStep>, target: Digest): Digest {
    if ancestors == [] then target
    else h(StepPayload(ancestors[0], FoldUp(h, ancestors[1..], target)))
  }

  predicate StepOrdered(key: Bytes, step: PathStep) {
    if step.wentRight then Less(step.key, key) else Less(key, step.key)
  }

  predicate PathOrdered(key: Bytes, ancestors: seq<PathStep>) {
    forall i :: 0 <= i < |ancestors| ==> StepOrdered(key, ancestors[i])
  }

  function TargetPayload(proof: Proof): Bytes {
    NodePayload(proof.key, proof.value, proof.targetLeft, proof.targetRight)
  }

  ghost predicate AcceptsMembership(h: Hash, root: Digest, proof: Proof) {
    proof.exists_ && PathOrdered(proof.key, proof.ancestors) && FoldUp(h, proof.ancestors,
        h(TargetPayload(proof))) == root
  }

  ghost predicate AcceptsNonMembership(h: Hash, root: Digest, proof: Proof) {
    !proof.exists_ && PathOrdered(proof.key, proof.ancestors) && FoldUp(h, proof.ancestors, h(EmptyPayload())) == root
  }

  /** The two checks shared by both verifiers, as the loops of the program. */
  method FoldAncestors(h: Hash, ancestors: seq<PathStep>, target: Digest) returns (current: Digest)
    ensures current == FoldUp(h, ancestors, target)
  {
    current := target;
    assert ancestors[|ancestors|..] == [];
    for i := |ancestors| downto 0
      invariant current == FoldUp(h, ancestors[i..], target)
    {
      var step := ancestors[i];
      assert ancestors[i..][1..] == ancestors[i + 1..];
      if step.wentRight {
        current := HashNode(h, step.key, step.value, step.sibling, current);
      } else {
        current := HashNode(h, step.key, step.value, current, step.sibling);
      }
    }
    assert ancestors[0..] == ancestors;
  }

  method CheckOrder(key: Bytes, ancestors: seq<PathStep>) returns (ok: bool)
    ensures ok <==> PathOrdered(key, ancestors)
  {
    for i := 0 to |ancestors|
      invariant PathOrdered(key, ancestors[..i])
    {
      if ancestors[i].wentRight && !Less(ancestors[i].key, key) {
        return false;
      }
      if !ancestors[i].wentRight && !Less(key, ancestors[i].key) {
        return false;
      }
      assert forall j :: 0 <= j <= i ==> j < i ==> StepOrdered(key, ancestors[..i][j]);
    }
    assert ancestors[..|ancestors|] == ancestors;
    return true;
  }

  method VerifyMembership(h: Hash, root: Digest, proof: Proof) returns (accepted: bool)
    ensures accepted <==> AcceptsMembership(h, root, proof)
  {
    if !proof.exists_ {
      return false;
    }
    var ordered := CheckOrder(proof.key, proof.ancestors);
    if !ordered {
      return false;
    }
    var current := FoldAncestors(h, proof.ancestors,
                                 HashNode(h, proof.key, proof.value, proof.targetLeft, proof.targetRight));
    return current == root;
  }

  method VerifyNonMembership(h: Hash, root: Digest, proof: Proof) returns (accepted: bool)
    ensures accepted <==> AcceptsNonMembership(h, root, proof)
  {
    if proof.exists_ {
      return false;
    }
    var ordered := CheckOrder(proof.key, proof.ancestors);
    if !ordered {
      return false;
    }
    var current := FoldAncestors(h, proof.ancestors, h(EmptyPayload()));
    return current == root;
  }

  // ----- payloads determine their parts

  const LIMIT: nat := 0x1_0000_0000

  /** The number that four bytes stand for. */
  function Decode32(b: Bytes): nat
    requires |b| == 4
  {
    0x100 * (0x100 * (0x100 * (b[0] as nat) + b[1] as nat) + b[2] as nat) + b[3] as nat
  }

  lemma {:induction false} DecodeLength(n: nat)
    requires n < LIMIT
    ensures Decode32(Length32(n)) == n
  {
    var q1 := n / 0x100;
    var q2 := q1 / 0x100;
    assert n == 0x100 * q1 + n % 0x100;
    assert q1 == 0x100 * q2 + q1 % 0x100;
    assert q2 == 0x100 * (q2 / 0x100) + q2 % 0x100;
  }

  lemma {:induction false} LengthWraps(n: nat)
    ensures Length32(n) == Length32(n % LIMIT)
  {
  }

  /** Four bytes fix a length up to a multiple of 2^32. */
  lemma {:induction false} Length32Injective(a: nat, b: nat)
    ensures Length32(a) == Length32(b) <==> a % LIMIT == b % LIMIT
  {
    LengthWraps(a);
    LengthWraps(b);
    DecodeLength(a % LIMIT);
    DecodeLength(b % LIMIT);
  }

  /** What stands between the key's length field and the digests. */
  function Body(key: Bytes, value: Bytes): Bytes {
    key + Length32(|value|) + value
  }

  lemma {:induction false} PayloadParts(key: Bytes, value: Bytes, left: Digest, right: Digest)
    ensures var p := NodePayload(key, value, left, right);
            && |p| == 73 + |key| + |value|
            && p[0] == 2
            && p[1..5] == Length32(|key|)
            && p[5..5 + |key|] == key
            && p[5 + |key|..9 + |key|] == Length32(|value|)
            && p[9 + |key|..9 + |key| + |value|] == value
            && p[9 + |key| + |value|..41 + |key| + |value|] == left
            && p[41 + |key| + |value|..] == right
            && p[5..9 + |key| + |value|] == Body(key, value)
            && p[9 + |key| + |value|..] == left + right
  {
    assert NodePayload(key, value, left, right) == [2] + Length32(|key|) + Body(key, value) + (left + right);
  }

  // ----- the readings of a payload

  /** The body can also be read with a key of j bytes: the length fields only fix lengths up to a
      multiple of 2^32, and the value's length field must be found behind the j bytes. */
  predicate ReadableAt(key: Bytes, value: Bytes, j: nat) {
    && j <= |key| + |value| && j % LIMIT == |key| % LIMIT
    && Body(key, value)[j..j + 4] == Length32(|value|)
  }

  /** No reading but the intended one. */
  ghost predicate OneReading(key: Bytes, value: Bytes) {
    forall j: nat :: ReadableAt(key, value, j) ==> j == |key|
  }

  /** (k, v) is a reading of the payload of (key, value). */
  predicate ReadsAs(key: Bytes, value: Bytes, k: Bytes, v: Bytes) {
    ReadableAt(key, value, |k|) && Body(key, value) == Body(k, v)
  }

  lemma {:induction false} SameModulus(a: nat, b: nat, c: nat, d: nat)
    requires a % LIMIT == c % LIMIT && a + b == c + d
    ensures b % LIMIT == d % LIMIT
  {
    var q := a / LIMIT - c / LIMIT;
    assert a - c == LIMIT * q;
    assert d == b + LIMIT * q;
  }

  lemma {:induction false} SamePayloadReads(k1: Bytes, v1: Bytes, l1: Digest, r1: Digest, k2: Bytes, v2: Bytes,
          l2: Digest, r2: Digest)
    requires NodePayload(k1, v1, l1, r1) == NodePayload(k2, v2, l2, r2)
    ensures ReadsAs(k2, v2, k1, v1) && l1 == l2 && r1 == r2
  {
    PayloadParts(k1, v1, l1, r1);
    PayloadParts(k2, v2, l2, r2);
    Length32Injective(|k1|, |k2|);
    SameModulus(|k1|, |v1|, |k2|, |v2|);
    Length32Injective(|v1|, |v2|);
    assert Body(k1, v1)[|k1|..|k1| + 4] == Length32(|v1|);
  }

  /** Two pairs have the same payload exactly if one is a reading of the other. */
  lemma {:induction false} SamePayload(k1: Bytes, v1: Bytes, l1: Digest, r1: Digest, k2: Bytes, v2: Bytes, l2: Digest,
          r2: Digest)
    ensures NodePayload(k1, v1, l1, r1) == NodePayload(k2, v2, l2, r2)
            <==> ReadsAs(k2, v2, k1, v1) && l1 == l2 && r1 == r2
  {
    var p1, p2 := NodePayload(k1, v1, l1, r1), NodePayload(k2, v2, l2, r2);
    if p1 == p2 {
      SamePayloadReads(k1, v1, l1, r1, k2, v2, l2, r2);
    } else {
      Length32Injective(|k1|, |k2|);
      assert p1 == [2] + Length32(|k1|) + Body(k1, v1) + l1 + r1;
      assert p2 == [2] + Length32(|k2|) + Body(k2, v2) + l2 + r2;
    }
  }

  /** A payload has one reading exactly if nobody can find the value's length field elsewhere. */
  lemma {:induction false} OneReadingMeans(key: Bytes, value: Bytes, left: Digest, right: Digest)
    ensures OneReading(key, value) <==>
            forall k, v {:trigger NodePayload(k, v, left, right)} ::
              NodePayload(k, v, left, right) == NodePayload(key, value, left, right) ==> k == key && v == value
  {
    forall k, v | OneReading(key, value) && NodePayload(k, v, left, right) == NodePayload(key, value, left, right)
      ensures k == key && v == value
    {
      PayloadInjective(k, v, left, right, key, value, left, right);
    }
    if j: nat :| ReadableAt(key, value, j) && j != |key| {
      var k, v := ReadingAt(key, value, j);
      SamePayload(k, v, left, right, key, value, left, right);
      assert NodePayload(k, v, left, right) == NodePayload(key, value, left, right);
    }
  }

  /** The pair read with a key of j bytes. */
  lemma {:induction false} ReadingAt(key: Bytes, value: Bytes, j: nat) returns (k: Bytes, v: Bytes)
    requires ReadableAt(key, value, j)
    ensures |k| == j && ReadsAs(key, value, k, v)
  {
    var body := Body(key, value);
    k, v := body[..j], body[j + 4..];
    SameModulus(|k|, |v|, |key|, |value|);
    Length32Injective(|v|, |value|);
    assert body == body[..j] + body[j..j + 4] + body[j + 4..];
  }

  /** With one reading the payload determines key, value and digests. */
  lemma {:induction false} PayloadInjective(k1: Bytes, v1: Bytes, l1: Digest, r1: Digest, k2: Bytes, v2: Bytes,
          l2: Digest, r2: Digest)
    requires OneReading(k2, v2) && NodePayload(k1, v1, l1, r1) == NodePayload(k2, v2, l2, r2)
    ensures k1 == k2 && v1 == v2 && l1 == l2 && r1 == r2
  {
    SamePayload(k1, v1, l1, r1, k2, v2, l2, r2);
    PayloadParts(k1, v1, l1, r1);
    PayloadParts(k2, v2, l2, r2);
  }

  /** Strings below 2^32 bytes have one reading. */
  lemma {:induction false} ShortHasOneReading(key: Bytes, value: Bytes)
    requires |key| < LIMIT && |value| < LIMIT
    ensures OneReading(key, value)
  {
  }

  lemma {:induction false} NodeIsNotEmpty(key: Bytes, value: Bytes, left: Digest, right: Digest)
    ensures NodePayload(key, value, left, right) != EmptyPayload()
  {
    PayloadParts(key, value, left, right);
  }

  // ----- what holds of a tree

  predicate Member(t: Tree, key: Bytes, value: Bytes) {
    match t
    case Empty => false
    case Node(k, v, _, left, right) => (k == key && v == value) || Member(left, key, value) || Member(right, key, value)
  }

  predicate HasKey(t: Tree, key: Bytes) {
    match t
    case Empty => false
    case Node(k, _, _, left, right) => k == key || HasKey(left, key) || HasKey(right, key)
  }

  ghost predicate SearchOrdered(t: Tree) {
    match t
    case Empty => true
    case Node(k, _, _, left, right) =>
      && SearchOrdered(left) && SearchOrdered(right)
      && (forall x :: HasKey(left, x) ==> Less(x, k))
      && (forall x :: HasKey(right, x) ==> Less(k, x))
  }

  /** Every string of the tree is below 2^32 bytes. */
  predicate SmallTree(t: Tree) {
    match t
    case Empty => true
    case Node(k, v, _, left, right) => |k| < LIMIT && |v| < LIMIT && SmallTree(left) && SmallTree(right)
  }

  /** Every node of the tree has one reading. */
  ghost predicate Readable(t: Tree) {
    match t
    case Empty => true
    case Node(k, v, _, left, right) => OneReading(k, v) && Readable(left) && Readable(right)
  }

  lemma {:induction false} SmallIsReadable(t: Tree)
    requires SmallTree(t)
    ensures Readable(t)
  {
    match t
    case Empty =>
    case Node(k, v, _, left, right) =>
      ShortHasOneReading(k, v);
      SmallIsReadable(left);
      SmallIsReadable(right);
  }

  // ----- the claims that the strings of the tree allow

  /** Some reading of the node has a key on the given side of x. */
  ghost predicate SideFits(key: Bytes, value: Bytes, x: Bytes, right: bool) {
    exists k, v :: ReadsAs(key, value, k, v) && if right then Less(k, x) else Less(x, k)
  }

  /** Somewhere in the tree a node reads as (x, y), below nodes that can be read so as to send a
      search for x there. */
  ghost predicate Claimable(t: Tree, x: Bytes, y: Bytes) {
    match t
    case Empty => false
    case Node(k, v, _, left, right) =>
      || ReadsAs(k, v, x, y)
      || (SideFits(k, v, x, false) && Claimable(left, x, y))
      || (SideFits(k, v, x, true) && Claimable(right, x, y))
  }

  /** Some empty place lies below nodes that can be read so as to send a search for x there. */
  ghost predicate ClaimableAbsent(t: Tree, x: Bytes) {
    match t
    case Empty => true
    case Node(k, v, _, left, right) =>
      || (SideFits(k, v, x, false) && ClaimableAbsent(left, x))
      || (SideFits(k, v, x, true) && ClaimableAbsent(right, x))
  }

  lemma {:induction false} ReadsAsOnly(key: Bytes, value: Bytes, k: Bytes, v: Bytes)
    requires OneReading(key, value) && ReadsAs(key, value, k, v)
    ensures k == key && v == value
  {
    var d := EmptyDigest();
    SamePayload(k, v, d, d, key, value, d, d);
    PayloadInjective(k, v, d, d, key, value, d, d);
  }

  function EmptyDigest(): Digest {
    seq(32, _ => 0)
  }

  /** With one reading a node, only what is in the tree can be claimed. */
  lemma {:induction false} ReadableClaims(t: Tree, x: Bytes, y: Bytes)
    requires Readable(t) && Claimable(t, x, y)
    ensures Member(t, x, y)
  {
    if ReadsAs(t.key, t.value, x, y) {
      ReadsAsOnly(t.key, t.value, x, y);
    } else if SideFits(t.key, t.value, x, false) && Claimable(t.left, x, y) {
      ReadableClaims(t.left, x, y);
    } else {
      ReadableClaims(t.right, x, y);
    }
  }

  lemma {:induction false} ReadableSide(key: Bytes, value: Bytes, x: Bytes, right: bool)
    requires OneReading(key, value) && SideFits(key, value, x, right)
    ensures if right then Less(key, x) else Less(x, key)
  {
    var k, v :| ReadsAs(key, value, k, v) && if right then Less(k, x) else Less(x, k);
    ReadsAsOnly(key, value, k, v);
  }

  lemma {:induction false} ReadableAbsence(t: Tree, x: Bytes)
    requires Readable(t) && SearchOrdered(t) && ClaimableAbsent(t, x)
    ensures !HasKey(t, x)
  {
    if t.Node? {
      LessIrreflexive(x);
      var right := !(SideFits(t.key, t.value, x, false) && ClaimableAbsent(t.left, x));
      ReadableSide(t.key, t.value, x, right);
      ReadableAbsence(if right then t.right else t.left, x);
      if HasKey(if right then t.left else t.right, x) {
        LessTransitive(x, t.key, x);
      }
    }
  }

  // ----- extracting a collision

  ghost predicate Collision(h: Hash, pair: (Bytes, Bytes)) {
    pair.0 != pair.1 && h(pair.0) == h(pair.1)
  }

  /** Follow the proof's path down the tree and stop at the first place where the payload the
      proof claims is not the payload of the tree. */
  function Extract(h: Hash, t: Tree, ancestors: seq<PathStep>, target: Bytes): (Bytes, Bytes)
    decreases |ancestors|
  {
    if ancestors == [] then (target, Payload(h, t))
    else
      var claimed := StepPayload(ancestors[0], FoldUp(h, ancestors[1..], h(target)));
      if claimed != Payload(h, t) || t.Empty? then (claimed, Payload(h, t))
      else Extract(h, if ancestors[0].wentRight then t.right else t.left, ancestors[1..], target)
  }

  function Below(t: Tree, right: bool): Tree
    requires t.Node?
  {
    if right then t.right else t.left
  }

  lemma {:induction false} OrderedTail(key: Bytes, ancestors: seq<PathStep>)
    requires ancestors != []
    ensures PathOrdered(key, ancestors) <==> StepOrdered(key, ancestors[0]) && PathOrdered(key, ancestors[1..])
  {
    forall i | 0 <= i < |ancestors| && StepOrdered(key, ancestors[0]) && PathOrdered(key, ancestors[1..])
      ensures StepOrdered(key, ancestors[i])
    {
      assert i > 0 ==> ancestors[1..][i - 1] == ancestors[i];
    }
    forall i | 0 <= i < |ancestors[1..]| && PathOrdered(key, ancestors)
      ensures StepOrdered(key, ancestors[1..][i])
    {
      assert ancestors[1..][i] == ancestors[i + 1];
    }
  }

  /** A step whose payload is the node's is a reading of the node, with the true digests. */
  lemma {:induction false} StepReads(h: Hash, t: Tree, step: PathStep, child: Digest)
    requires t.Node?
    ensures StepPayload(step, child) == Payload(h, t) <==>
            && ReadsAs(t.key, t.value, step.key, step.value)
            && child == DigestOf(h, Below(t, step.wentRight)) && step.sibling == DigestOf(h, Below(t, !step.wentRight))
  {
    SamePayload(step.key, step.value, if step.wentRight then step.sibling else child, if step.wentRight then child
        else step.sibling,
                t.key, t.value, DigestOf(h, t.left), DigestOf(h, t.right));
  }

  lemma {:induction false} StepIsNotEmpty(step: PathStep, child: Digest)
    ensures StepPayload(step, child) != EmptyPayload()
  {
    if step.wentRight {
      NodeIsNotEmpty(step.key, step.value, step.sibling, child);
    } else {
      NodeIsNotEmpty(step.key, step.value, child, step.sibling);
    }
  }

  /** What an ordered path that folds to the tree's digest comes to: the extracted pair is a
      collision, or the target is a payload of the tree that the readings allow. */
  lemma {:induction false} ExtractOrClaim(h: Hash, t: Tree, ancestors: seq<PathStep>, target: Bytes, key: Bytes)
    requires FoldUp(h, ancestors, h(target)) == DigestOf(h, t) && PathOrdered(key, ancestors)
    ensures Collision(h, Extract(h, t, ancestors, target))
            || (target == EmptyPayload() && ClaimableAbsent(t, key))
            || TargetIn(t, key, target)
    decreases |ancestors|
  {
    if ancestors == [] {
      if target == Payload(h, t) && t.Node? {
        assert HitsNode(t, target);
      }
    } else {
      var step := ancestors[0];
      var child := FoldUp(h, ancestors[1..], h(target));
      OrderedTail(key, ancestors);
      if StepPayload(step, child) == Payload(h, t) {
        if t.Empty? {
          StepIsNotEmpty(step, child);
        } else {
          StepReads(h, t, step, child);
          assert SideFits(t.key, t.value, key, step.wentRight);
          ExtractOrClaim(h, Below(t, step.wentRight), ancestors[1..], target, key);
        }
      }
    }
  }

  /** The target is the payload of the node's strings with some two digests. */
  ghost predicate HitsNode(t: Tree, target: Bytes) {
    t.Node? && exists left: Digest, right: Digest :: target == NodePayload(t.key, t.value, left, right)
  }

  /** The target is the payload of a node to which readings of its ancestors send the key. */
  ghost predicate TargetIn(t: Tree, key: Bytes, target: Bytes) {
    t.Node? &&
    (|| HitsNode(t, target)
     || (SideFits(t.key, t.value, key, false) && TargetIn(t.left, key, target))
     || (SideFits(t.key, t.value, key, true) && TargetIn(t.right, key, target)))
  }

  lemma {:induction false} TargetIsClaim(t: Tree, x: Bytes, y: Bytes, left: Digest, right: Digest)
    requires TargetIn(t, x, NodePayload(x, y, left, right))
    ensures Claimable(t, x, y)
  {
    if HitsNode(t, NodePayload(x, y, left, right)) {
      var l: Digest, r: Digest :| NodePayload(x, y, left, right) == NodePayload(t.key, t.value, l, r);
      SamePayload(x, y, left, right, t.key, t.value, l, r);
    } else if SideFits(t.key, t.value, x, false) && TargetIn(t.left, x, NodePayload(x, y, left, right)) {
      TargetIsClaim(t.left, x, y, left, right);
    } else {
      TargetIsClaim(t.right, x, y, left, right);
    }
  }

  lemma {:induction false} EmptyIsNoTarget(t: Tree, x: Bytes)
    ensures !TargetIn(t, x, EmptyPayload())
  {
    match t
    case Empty =>
    case Node(k, v, _, left, right) =>
      EmptyIsNoTarget(left, x);
      EmptyIsNoTarget(right, x);
      forall l: Digest, r: Digest
        ensures NodePayload(k, v, l, r) != EmptyPayload()
      {
        NodeIsNotEmpty(k, v, l, r);
      }
  }

  /** From any accepted proof of a claim that the strings of the tree do not allow, the pair
      extracted along the proof's path is a hash collision. */
  lemma {:induction false} MembershipClaims(h: Hash, t: Tree, proof: Proof)
    requires AcceptsMembership(h, DigestOf(h, t), proof) && !Claimable(t, proof.key, proof.value)
    ensures Collision(h, Extract(h, t, proof.ancestors, TargetPayload(proof)))
  {
    ExtractOrClaim(h, t, proof.ancestors, TargetPayload(proof), proof.key);
    NodeIsNotEmpty(proof.key, proof.value, proof.targetLeft, proof.targetRight);
    if TargetIn(t, proof.key, TargetPayload(proof)) {
      TargetIsClaim(t, proof.key, proof.value, proof.targetLeft, proof.targetRight);
    }
  }

  lemma {:induction false} NonMembershipClaims(h: Hash, t: Tree, proof: Proof)
    requires AcceptsNonMembership(h, DigestOf(h, t), proof) && !ClaimableAbsent(t, proof.key)
    ensures Collision(h, Extract(h, t, proof.ancestors, EmptyPayload()))
  {
    ExtractOrClaim(h, t, proof.ancestors, EmptyPayload(), proof.key);
    EmptyIsNoTarget(t, proof.key);
  }

  /** Soundness of membership, if every node has one reading: from any accepted proof of a false
      claim, the pair extracted along the proof's path is a hash collision. */
  lemma {:induction false} MembershipIsSound(h: Hash, t: Tree, proof: Proof)
    requires Readable(t) && AcceptsMembership(h, DigestOf(h, t), proof) && !Member(t, proof.key, proof.value)
    ensures Collision(h, Extract(h, t, proof.ancestors, TargetPayload(proof)))
  {
    if Claimable(t, proof.key, proof.value) {
      ReadableClaims(t, proof.key, proof.value);
    }
    MembershipClaims(h, t, proof);
  }

  /** Soundness of non-membership, for trees in search order. */
  lemma {:induction false} NonMembershipIsSound(h: Hash, t: Tree, proof: Proof)
    requires Readable(t) && SearchOrdered(t)
    requires AcceptsNonMembership(h, DigestOf(h, t), proof) && HasKey(t, proof.key)
    ensures Collision(h, Extract(h, t, proof.ancestors, EmptyPayload()))
  {
    if ClaimableAbsent(t, proof.key) {
      ReadableAbsence(t, proof.key);
    }
    NonMembershipClaims(h, t, proof);
  }

  // ----- what the strings of the tree allow is accepted without a collision

  lemma {:induction false} StepDown(h: Hash, t: Tree, right: bool, x: Bytes, rest: seq<PathStep>, target: Bytes)
    returns (path: seq<PathStep>)
    requires t.Node? && SideFits(t.key, t.value, x, right) && PathOrdered(x, rest)
    requires FoldUp(h, rest, h(target)) == DigestOf(h, Below(t, right))
    requires Extract(h, Below(t, right), rest, target).0 == Extract(h, Below(t, right), rest, target).1
    ensures PathOrdered(x, path) && FoldUp(h, path, h(target)) == DigestOf(h, t)
    ensures Extract(h, t, path, target).0 == Extract(h, t, path, target).1
  {
    var k, v :| ReadsAs(t.key, t.value, k, v) && if right then Less(k, x) else Less(x, k);
    var step := PathStep(k, v, right, DigestOf(h, Below(t, !right)));
    path := [step] + rest;
    assert path[1..] == rest;
    OrderedTail(x, path);
    StepReads(h, t, step, FoldUp(h, rest, h(target)));
  }

  lemma {:induction false} ClaimPath(h: Hash, t: Tree, x: Bytes, y: Bytes)
    returns (path: seq<PathStep>, left: Digest, right: Digest)
    requires Claimable(t, x, y)
    ensures PathOrdered(x, path) && FoldUp(h, path, h(NodePayload(x, y, left, right))) == DigestOf(h, t)
    ensures var pair := Extract(h, t, path, NodePayload(x, y, left, right)); pair.0 == pair.1
  {
    if ReadsAs(t.key, t.value, x, y) {
      path, left, right := [], DigestOf(h, t.left), DigestOf(h, t.right);
      SamePayload(x, y, left, right, t.key, t.value, left, right);
    } else {
      var toRight := !(SideFits(t.key, t.value, x, false) && Claimable(t.left, x, y));
      var rest;
      rest, left, right := ClaimPath(h, Below(t, toRight), x, y);
      path := StepDown(h, t, toRight, x, rest, NodePayload(x, y, left, right));
    }
  }

  lemma {:induction false} AbsencePath(h: Hash, t: Tree, x: Bytes) returns (path: seq<PathStep>)
    requires ClaimableAbsent(t, x)
    ensures PathOrdered(x, path) && FoldUp(h, path, h(EmptyPayload())) == DigestOf(h, t)
    ensures var pair := Extract(h, t, path, EmptyPayload()); pair.0 == pair.1
  {
    if t.Empty? {
      path := [];
    } else {
      var toRight := !(SideFits(t.key, t.value, x, false) && ClaimableAbsent(t.left, x));
      var rest := AbsencePath(h, Below(t, toRight), x);
      path := StepDown(h, t, toRight, x, rest, EmptyPayload());
    }
  }

  ghost predicate ProvesMember(h: Hash, t: Tree, proof: Proof, x: Bytes, y: Bytes) {
    && proof.key == x && proof.value == y && AcceptsMembership(h, DigestOf(h, t), proof)
    && !Collision(h, Extract(h, t, proof.ancestors, TargetPayload(proof)))
  }

  ghost predicate ProvesAbsent(h: Hash, t: Tree, proof: Proof, x: Bytes) {
    && proof.key == x && AcceptsNonMembership(h, DigestOf(h, t), proof)
    && !Collision(h, Extract(h, t, proof.ancestors, EmptyPayload()))
  }

  /** Exactly the claims that the strings of the tree allow have an accepted proof without a
      collision; so membership is sound if and only if these are the members. */
  lemma {:induction false} MembershipExactly(h: Hash, t: Tree, x: Bytes, y: Bytes)
    ensures Claimable(t, x, y) <==> exists proof :: ProvesMember(h, t, proof, x, y)
  {
    if Claimable(t, x, y) {
      var path, left, right := ClaimPath(h, t, x, y);
      assert ProvesMember(h, t, Proof(true, x, y, left, right, path), x, y);
    }
    if proof :| ProvesMember(h, t, proof, x, y) {
      if !Claimable(t, x, y) {
        MembershipClaims(h, t, proof);
      }
    }
  }

  lemma {:induction false} NonMembershipExactly(h: Hash, t: Tree, x: Bytes)
    ensures ClaimableAbsent(t, x) <==> exists proof :: ProvesAbsent(h, t, proof, x)
  {
    if ClaimableAbsent(t, x) {
      var path := AbsencePath(h, t, x);
      assert ProvesAbsent(h, t, Proof(false, x, [], DigestOf(h, Empty), DigestOf(h, Empty), path), x);
    }
    if proof :| ProvesAbsent(h, t, proof, x) {
      if !ClaimableAbsent(t, x) {
        NonMembershipClaims(h, t, proof);
      }
    }
  }

  /** Every accepted false claim of membership yields a collision. */
  ghost predicate MembershipSound(h: Hash, t: Tree) {
    forall proof {:trigger AcceptsMembership(h, DigestOf(h, t), proof)} ::
      AcceptsMembership(h, DigestOf(h, t), proof) && !Member(t, proof.key, proof.value) ==>
        Collision(h, Extract(h, t, proof.ancestors, TargetPayload(proof)))
  }

  /** Every accepted false claim of absence yields a collision. */
  ghost predicate NonMembershipSound(h: Hash, t: Tree) {
    forall proof {:trigger AcceptsNonMembership(h, DigestOf(h, t), proof)} ::
      AcceptsNonMembership(h, DigestOf(h, t), proof) && HasKey(t, proof.key) ==>
        Collision(h, Extract(h, t, proof.ancestors, EmptyPayload()))
  }

  /** Membership is sound exactly for the trees whose strings allow no false claim, whatever the
      hash. */
  lemma {:induction false} MembershipSoundExactly(h: Hash, t: Tree)
    ensures MembershipSound(h, t) <==> forall x, y {:trigger Claimable(t, x, y)} ::
              Claimable(t, x, y) ==> Member(t, x, y)
  {
    if MembershipSound(h, t) {
      forall x, y | Claimable(t, x, y)
        ensures Member(t, x, y)
      {
        MembershipExactly(h, t, x, y);
        var proof :| ProvesMember(h, t, proof, x, y);
        assert AcceptsMembership(h, DigestOf(h, t), proof);
      }
    } else {
      var proof :| AcceptsMembership(h, DigestOf(h, t), proof) && !Member(t, proof.key, proof.value)
        && !Collision(h, Extract(h, t, proof.ancestors, TargetPayload(proof)));
      assert ProvesMember(h, t, proof, proof.key, proof.value);
      MembershipExactly(h, t, proof.key, proof.value);
    }
  }

  /** And so is non-membership. */
  lemma {:induction false} NonMembershipSoundExactly(h: Hash, t: Tree)
    ensures NonMembershipSound(h, t) <==> forall x {:trigger ClaimableAbsent(t, x)} ::
              ClaimableAbsent(t, x) ==> !HasKey(t, x)
  {
    if NonMembershipSound(h, t) {
      forall x | ClaimableAbsent(t, x)
        ensures !HasKey(t, x)
      {
        NonMembershipExactly(h, t, x);
        var proof :| ProvesAbsent(h, t, proof, x);
        assert AcceptsNonMembership(h, DigestOf(h, t), proof);
      }
    } else {
      var proof :| AcceptsNonMembership(h, DigestOf(h, t), proof) && HasKey(t, proof.key)
        && !Collision(h, Extract(h, t, proof.ancestors, EmptyPayload()));
      assert ProvesAbsent(h, t, proof, proof.key);
      NonMembershipExactly(h, t, proof.key);
    }
  }

  /** A case where they are not: a string of 2^32 zero bytes can be taken for the key or for the
      value. */
  lemma {:induction false} LongStringsBreakSoundness(h: Hash)
    ensures var zeros: Bytes := seq(LIMIT, _ => 0);
            var t := Node(zeros, [], 0, Empty, Empty);
            && !Member(t, [], zeros) && Claimable(t, [], zeros)
            && exists proof :: ProvesMember(h, t, proof, [], zeros)
  {
    var zeros: Bytes := seq(LIMIT, _ => 0);
    var t := Node(zeros, [], 0, Empty, Empty);
    var four: Bytes := [0, 0, 0, 0];
    assert Length32(LIMIT) == four && Length32(0) == four;
    assert zeros + four == four + zeros;
    assert Body(zeros, []) == four + zeros && Body([], zeros) == four + zeros;
    assert (four + zeros)[0..4] == four;
    MembershipExactly(h, t, [], zeros);
  }

  // ----- honest proofs

  /** The steps of a search for the key. */
  function SearchPath(h: Hash, t: Tree, key: Bytes): seq<PathStep> {
    match t
    case Empty => []
    case Node(k, v, _, left, right) =>
      if k == key then []
      else if Less(key, k) then [PathStep(k, v, false, DigestOf(h, right))] + SearchPath(h, left, key)
      else [PathStep(k, v, true, DigestOf(h, left))] + SearchPath(h, right, key)
  }

  /** Where a search for the key ends: at its node or at an empty place. */
  function SearchEnd(t: Tree, key: Bytes): Tree {
    match t
    case Empty => Empty
    case Node(k, _, _, left, right) =>
      if k == key then t else if Less(key, k) then SearchEnd(left, key) else SearchEnd(right, key)
  }

  lemma {:induction false} SearchPathFolds(h: Hash, t: Tree, key: Bytes)
    ensures FoldUp(h, SearchPath(h, t, key), DigestOf(h, SearchEnd(t, key))) == DigestOf(h, t)
    ensures PathOrdered(key, SearchPath(h, t, key))
    ensures SearchEnd(t, key).Node? ==> SearchEnd(t, key).key == key
  {
    match t
    case Empty =>
    case Node(k, _, _, left, right) =>
      if k != key {
        LessTotal(key, k);
        var child := if Less(key, k) then left else right;
        SearchPathFolds(h, child, key);
        var path := SearchPath(h, t, key);
        assert path[1..] == SearchPath(h, child, key);
        forall i | 0 <= i < |path|
          ensures StepOrdered(key, path[i])
        {
          assert i > 0 ==> path[i] == path[1..][i - 1];
        }
      }
  }

  lemma {:induction false} SearchFindsMembers(t: Tree, key: Bytes)
    requires SearchOrdered(t)
    ensures SearchEnd(t, key).Node? <==> HasKey(t, key)
    ensures SearchEnd(t, key).Node? ==> Member(t, key, SearchEnd(t, key).value)
  {
    match t
    case Empty =>
    case Node(k, _, _, left, right) =>
      if k != key {
        LessTotal(key, k);
        LessIrreflexive(key);
        if Less(key, k) {
          SearchFindsMembers(left, key);
          if HasKey(right, key) { LessTransitive(key, k, key); }
        } else {
          SearchFindsMembers(right, key);
          if HasKey(left, key) { LessTransitive(key, k, key); }
        }
      }
  }

  function HonestMembership(h: Hash, t: Tree, key: Bytes): Proof {
    var end := SearchEnd(t, key);
    if end.Node? then Proof(true, key, end.value, DigestOf(h, end.left), DigestOf(h, end.right), SearchPath(h, t, key))
    else Proof(false, key, [], DigestOf(h, Empty), DigestOf(h, Empty), SearchPath(h, t, key))
  }

  /** Completeness: the proof built by a search is accepted, as a proof of membership with the
      stored value when the key is there, and of non-membership otherwise. */
  lemma {:induction false} HonestProofsVerify(h: Hash, t: Tree, key: Bytes)
    requires SearchOrdered(t)
    ensures var proof := HonestMembership(h, t, key);
            if HasKey(t, key) then AcceptsMembership(h, DigestOf(h, t), proof) && Member(t, key, proof.value)
            else AcceptsNonMembership(h, DigestOf(h, t), proof)
  {
    SearchPathFolds(h, t, key);
    SearchFindsMembers(t, key);
  }
}
