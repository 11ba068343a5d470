/**
 The Bloom filter: 64-bit words, double hashing, and no false negatives.
 */
module LsmBloom {
  import opened ByteStrings
  import opened LsmRuns

  /** The number of bits and of hashes is fixed when the filter is made. */
  datatype Bloom = Bloom(words: seq<bv64>, numBits: nat, numHashes: nat)

  const TWO_64: nat := 0x1_0000_0000_0000_0000

  /** FNV-1a; 64-bit arithmetic wraps around. */
  function Fnv1a(key: Key, seed: bv64): bv64
    decreases |key|
  {
    if key == [] then 14695981039346656037 ^ seed
    else (Fnv1a(key[..|key| - 1], seed) ^ (key[|key| - 1] as bv64)) * 1099511628211
  }

  predicate WellFormed(b: Bloom) {
    b.numHashes < TWO_64 && |b.words| == (b.numBits + 63) / 64
  }

  /** The two hashes of a key from which all others are derived. */
  datatype Hashes = Hashes(h1: bv64, h2: bv64)

  function HashesOf(key: Key): Hashes {
    Hashes(Fnv1a(key, 0), Fnv1a(key, 0x9e3779b97f4a7c15))
  }

  /** The i-th hash: h1 + i * h2 on 64 bits. */
  function Combined(hs: Hashes, i: nat): bv64 {
    if i == 0 then hs.h1 else Combined(hs, i - 1) + hs.h2
  }

  /** The bit that the i-th hash selects. */
  function BitIndex(hs: Hashes, i: nat, numBits: nat): (bit: nat)
    requires numBits > 0
    ensures bit < numBits
  {
    (Combined(hs, i) as nat) % numBits
  }

  predicate WordBit(w: bv64, k: bv64) {
    k < 64 && (w >> k) & 1 == 1
  }

  function WithBit(w: bv64, k: bv64): bv64
    requires k < 64
  {
    w | (1 << k)
  }

  lemma {:induction false} WithBitOnly(w: bv64, k: bv64, m: bv64)
    requires k < 64 && m < 64
    ensures WordBit(WithBit(w, k), m) <==> WordBit(w, m) || m == k
  {
  }

  function Shift(bit: nat): (k: bv64)
    ensures k < 64
  {
    (bit % 64) as bv64
  }

  predicate TestBit(words: seq<bv64>, bit: nat)
    requires bit / 64 < |words|
  {
    WordBit(words[bit / 64], Shift(bit))
  }

  function SetBit(words: seq<bv64>, bit: nat): seq<bv64>
    requires bit / 64 < |words|
  {
    words[bit / 64 := WithBit(words[bit / 64], Shift(bit))]
  }

  /** Setting a bit sets that bit and no other. */
  lemma {:induction false} SetBitOnly(words: seq<bv64>, bit: nat, other: nat)
    requires bit / 64 < |words| && other / 64 < |words|
    ensures TestBit(SetBit(words, bit), other) <==> TestBit(words, other) || other == bit
  {
    if bit / 64 == other / 64 {
      WithBitOnly(words[bit / 64], Shift(bit), Shift(other));
      SameShift(bit, other);
    }
  }

  lemma {:induction false} SameShift(bit: nat, other: nat)
    requires bit / 64 == other / 64
    ensures Shift(bit) == Shift(other) <==> bit == other
  {
    assert bit == 64 * (bit / 64) + bit % 64 && other == 64 * (other / 64) + other % 64;
    SameWide(bit % 64, other % 64);
  }

  lemma {:induction false} SameWide(x: nat, y: nat)
    requires x < 64 && y < 64
    ensures x as bv64 == y as bv64 <==> x == y
  {
    SixBits(x);
    SixBits(y);
    if x as bv64 == y as bv64 {
      Widened(x as bv6, y as bv6);
    }
  }

  /** A shift fits six bits. */
  lemma {:induction false} SixBits(x: nat)
    requires x < 64
    ensures (x as bv6) as nat == x && (x as bv6) as bv64 == x as bv64
  {
  }

  lemma {:induction false} Widened(a: bv6, b: bv6)
    requires a as bv64 == b as bv64
    ensures a == b
  {
  }

  lemma {:induction false} BitInRange(b: Bloom, hs: Hashes, i: nat)
    requires WellFormed(b) && b.numBits > 0 && i < b.numHashes
    ensures BitIndex(hs, i, b.numBits) / 64 < |b.words|
  {
    WordInRange(BitIndex(hs, i, b.numBits), b.numBits);
  }

  lemma {:induction false} WordInRange(bit: nat, numBits: nat)
    requires bit < numBits
    ensures bit / 64 < (numBits + 63) / 64
  {
  }

  predicate HasBit(b: Bloom, hs: Hashes, i: nat)
    requires WellFormed(b) && b.numBits > 0 && i < b.numHashes
  {
    BitInRange(b, hs, i);
    TestBit(b.words, BitIndex(hs, i, b.numBits))
  }

  /** The first i selected bits are set. */
  ghost predicate HasBits(b: Bloom, hs: Hashes, i: nat)
    requires WellFormed(b) && b.numBits > 0 && i <= b.numHashes
  {
    forall j :: 0 <= j < i ==> HasBit(b, hs, j)
  }

  /** All bits that the key selects are set: the filter cannot rule the key out. */
  ghost predicate MayHold(b: Bloom, key: Key) {
    AllSet(b, HashesOf(key))
  }

  ghost predicate AllSet(b: Bloom, hs: Hashes) {
    WellFormed(b) && (b.numBits > 0 ==> HasBits(b, hs, b.numHashes))
  }

  /** The bit is one of those that the first n hashes select. */
  ghost predicate Selects(hs: Hashes, n: nat, numBits: nat, bit: nat)
    requires numBits > 0
  {
    exists j {:trigger BitIndex(hs, j, numBits)} :: 0 <= j < n && BitIndex(hs, j, numBits) == bit
  }

  /** A bit is set afterwards exactly if it was set before or one of the first n hashes selects it. */
  ghost predicate Adds(words: seq<bv64>, words': seq<bv64>, hs: Hashes, n: nat, numBits: nat)
    requires numBits > 0
  {
    && |words'| == |words|
    && forall bit: nat {:trigger TestBit(words', bit)} :: bit / 64 < |words| ==>
         (TestBit(words', bit) <==> TestBit(words, bit) || Selects(hs, n, numBits, bit))
  }

  lemma {:induction false} AddsNext(words: seq<bv64>, words': seq<bv64>, hs: Hashes, i: nat, numBits: nat)
    requires numBits > 0 && Adds(words, words', hs, i, numBits) && BitIndex(hs, i, numBits) / 64 < |words|
    ensures Adds(words, SetBit(words', BitIndex(hs, i, numBits)), hs, i + 1, numBits)
  {
    var added := BitIndex(hs, i, numBits);
    forall bit: nat | bit / 64 < |words|
      ensures TestBit(SetBit(words', added), bit) <==> TestBit(words, bit) || Selects(hs, i + 1, numBits, bit)
    {
      SetBitOnly(words', added, bit);
      SelectsOneMore(hs, i, numBits, bit);
    }
  }

  lemma {:induction false} SelectsOneMore(hs: Hashes, i: nat, numBits: nat, bit: nat)
    requires numBits > 0
    ensures Selects(hs, i + 1, numBits, bit) <==> Selects(hs, i, numBits, bit) || bit == BitIndex(hs, i, numBits)
  {
  }

  /** With all its bits added a key is admitted, and so is whatever was admitted before. */
  lemma {:induction false} AddsAdmits(b: Bloom, r: Bloom, hs: Hashes, other: Hashes)
    requires WellFormed(b) && b.numBits > 0 && r == b.(words := r.words)
    requires Adds(b.words, r.words, hs, b.numHashes, b.numBits)
    ensures AllSet(r, hs)
    ensures AllSet(b, other) ==> AllSet(r, other)
  {
    forall i | 0 <= i < b.numHashes
      ensures HasBit(r, hs, i)
    {
      BitInRange(b, hs, i);
      assert Selects(hs, b.numHashes, b.numBits, BitIndex(hs, i, b.numBits));
    }
    if AllSet(b, other) {
      forall i | 0 <= i < b.numHashes
        ensures HasBit(r, other, i)
      {
        BitInRange(b, other, i);
        assert HasBit(b, other, i);
      }
    }
  }

  /** Adding a key sets its bits and no others: afterwards the filter admits it and everything it
      admitted before. */
  method Add(b: Bloom, key: Key) returns (r: Bloom)
    requires WellFormed(b)
    ensures WellFormed(r) && r == b.(words := r.words)
    ensures if b.numBits == 0 then r == b else Adds(b.words, r.words, HashesOf(key), b.numHashes, b.numBits)
    ensures MayHold(r, key)
    ensures forall other :: MayHold(b, other) ==> MayHold(r, other)
  {
    r := b;
    if b.numBits == 0 {
      return;
    }
    var hs := HashesOf(key);
    for i := 0 to b.numHashes
      invariant r == b.(words := r.words) && Adds(b.words, r.words, hs, i, b.numBits)
    {
      BitInRange(r, hs, i);
      AddsNext(b.words, r.words, hs, i, b.numBits);
      r := r.(words := SetBit(r.words, BitIndex(hs, i, r.numBits)));
    }
    AddsAdmits(b, r, hs, hs);
    forall other | MayHold(b, other)
      ensures MayHold(r, other)
    {
      AddsAdmits(b, r, hs, HashesOf(other));
    }
  }

  lemma {:induction false} OneMoreBit(b: Bloom, hs: Hashes, i: nat)
    requires WellFormed(b) && b.numBits > 0 && i < b.numHashes && HasBits(b, hs, i)
    ensures HasBits(b, hs, i + 1) <==> HasBit(b, hs, i)
    ensures !HasBit(b, hs, i) ==> !AllSet(b, hs)
  {
  }

  method MayContain(b: Bloom, key: Key) returns (found: bool)
    requires WellFormed(b)
    ensures found <==> MayHold(b, key)
  {
    if b.numBits == 0 {
      return true;
    }
    var hs := HashesOf(key);
    for i := 0 to b.numHashes
      invariant HasBits(b, hs, i)
    {
      var isSet := HasBit(b, hs, i);
      OneMoreBit(b, hs, i);
      if !isSet {
        return false;
      }
    }
    return true;
  }
}
