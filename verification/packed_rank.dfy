/**
 The packed comparison of a fusion node: one subtraction of words compares the sketches in all
 bytes with a query at once.  A word is the number it stands for.
 */
module PackedRank {

  /** 256 to the n. */
  function Width(n: nat): (w: nat)
    ensures w >= 1
  {
    if n == 0 then 1 else 256 * Width(n - 1)
  }

  function ByteAt(word: nat, i: nat): (b: nat)
    ensures b < 256
  {
    if i == 0 then word % 256 else ByteAt(word / 256, i - 1)
  }

  /** Unsigned subtraction in n bytes, wrapping around. */
  function Minus(a: nat, b: nat, n: nat): nat
    requires a < Width(n) && b < Width(n)
  {
    if a >= b then a - b else a + Width(n) - b
  }

  /** The query in each of n bytes. */
  function Replicated(q: nat, n: nat): (r: nat)
    requires q < 256
    ensures r < Width(n)
  {
    if n == 0 then 0 else q + 256 * Replicated(q, n - 1)
  }

  /** Each of the k low bytes holds an indicator bit and a sketch of seven bits. */
  predicate Packed(word: nat, k: nat) {
    forall i {:trigger ByteAt(word, i)} :: 0 <= i < k ==> ByteAt(word, i) >= 128
  }

  function Sketch(word: nat, i: nat): int {
    ByteAt(word, i) - 128
  }

  /** How many of the k low sketches are below the query. */
  function SketchesBelow(word: nat, k: nat, q: nat): nat {
    if k == 0 then 0 else SketchesBelow(word, k - 1, q) + if Sketch(word, k - 1) < q then 1 else 0
  }

  /** A low byte that does not borrow is subtracted by itself. */
  lemma {:induction false} MinusLow(a: nat, b: nat, n: nat)
    requires n > 0 && a < Width(n) && b < Width(n) && a % 256 >= b % 256
    ensures a / 256 < Width(n - 1) && b / 256 < Width(n - 1)
    ensures Minus(a, b, n) % 256 == a % 256 - b % 256 && Minus(a, b, n) / 256 == Minus(a / 256, b / 256, n - 1)
  {
    var c := a % 256 - b % 256;
    assert Width(n) == 256 * Width(n - 1);
    assert Minus(a, b, n) == 256 * Minus(a / 256, b / 256, n - 1) + c;
  }

  /** Where all lower bytes have their indicator bit, byte i of the difference keeps its own
      exactly if the sketch there is at least the query. */
  lemma {:induction false} IndicatorOfDifference(word: nat, q: nat, n: nat, i: nat)
    requires i < n && word < Width(n) && q < 128 && Packed(word, i + 1)
    ensures ByteAt(Minus(word, Replicated(q, n), n), i) >= 128 <==> Sketch(word, i) >= q
    decreases i
  {
    var rep := Replicated(q, n);
    assert rep % 256 == q && rep / 256 == Replicated(q, n - 1);
    assert ByteAt(word, 0) >= 128;
    MinusLow(word, rep, n);
    if i > 0 {
      forall j | 0 <= j < i
        ensures ByteAt(word / 256, j) >= 128
      {
        assert ByteAt(word, j + 1) >= 128;
      }
      IndicatorOfDifference(word / 256, q, n - 1, i - 1);
    }
  }

  lemma {:induction false} ReplicatedIsProduct(q: nat)
    requires q < 256
    ensures Replicated(q, 8) == q * 0x0101_0101_0101_0101 && Width(8) == 0x1_0000_0000_0000_0000
  {
    assert Replicated(q, 1) == q + 256 * Replicated(q, 0);
    assert Replicated(q, 2) == q + 256 * Replicated(q, 1);
    assert Replicated(q, 3) == q + 256 * Replicated(q, 2);
    assert Replicated(q, 4) == q + 256 * Replicated(q, 3);
    assert Replicated(q, 5) == q + 256 * Replicated(q, 4);
    assert Replicated(q, 6) == q + 256 * Replicated(q, 5);
    assert Replicated(q, 7) == q + 256 * Replicated(q, 6);
    assert Width(4) == 0x1_0000_0000;
    assert Width(6) == 0x1_0000_0000_0000;
  }

  /** parallel_rank: the indicators that survive the subtraction, among the k valid bytes, count
      the sketches that are not below the query. */
  method ParallelRank(packedNode: nat, k: nat, qSketch: nat) returns (rank: nat)
    requires packedNode < 0x1_0000_0000_0000_0000 && k <= 8 && qSketch < 256 && Packed(packedNode, k)
    ensures rank == SketchesBelow(packedNode, k, qSketch % 128)
  {
    if k == 0 {
      return 0;
    }
    var q := qSketch % 128;
    var query := q * 0x0101_0101_0101_0101;
    ReplicatedIsProduct(q);
    var diff := Minus(packedNode, query, 8);
    var geqCount := 0;
    var i := 0;
    while i < k
      invariant 0 <= i <= k && geqCount == i - SketchesBelow(packedNode, i, q)
    {
      IndicatorOfDifference(packedNode, q, 8, i);
      if ByteAt(diff, i) >= 128 {
        geqCount := geqCount + 1;
      }
      i := i + 1;
    }
    rank := k - geqCount;
  }
}
