/**
 A min-heap of pairs, as std::priority_queue with std::greater gives it: some least entry comes
 out, the first component deciding before the second.
 */
module PairQueue {

  type Pair = (int, int)

  predicate Before(p: Pair, q: Pair) {
    p.0 < q.0 || (p.0 == q.0 && p.1 <= q.1)
  }

  ghost predicate IsTop(pq: multiset<Pair>, p: Pair) {
    p in pq && forall q {:trigger Before(p, q)} :: q in pq ==> Before(p, q)
  }

  lemma {:induction false} TopExists(pq: multiset<Pair>)
    requires |pq| > 0
    ensures exists p :: IsTop(pq, p)
    decreases |pq|
  {
    var p :| p in pq;
    var rest := pq - multiset{p};
    if |rest| > 0 {
      TopExists(rest);
      var q :| IsTop(rest, q);
      var top := if Before(p, q) then p else q;
      forall r | r in pq
        ensures Before(top, r)
      {
        if r != p {
          assert r in rest;
          assert Before(q, r);
        } else {
          assert Before(p, q) || Before(q, p);
        }
      }
      assert IsTop(pq, top);
    } else {
      forall r | r in pq
        ensures Before(p, r)
      {
        assert r == p || r in rest;
      }
      assert IsTop(pq, p);
    }
  }

  method Pop(pq: multiset<Pair>) returns (p: Pair, rest: multiset<Pair>)
    requires |pq| > 0
    ensures IsTop(pq, p) && rest == pq - multiset{p} && |rest| == |pq| - 1
  {
    TopExists(pq);
    var q: Pair :| q in pq && forall r {:trigger Before(q, r)} :: r in pq ==> Before(q, r);
    p := q;
    rest := pq - multiset{p};
  }
}
