/**
 The union-find structure, with path compression and union by rank.
 */
module DisjointSets {

  /** The number of classes of a labelling is the number of its roots. */
  function Roots(rep: seq<int>): set<int> {
    set v | v in rep && 0 <= v < |rep| && rep[v] == v
  }

  ghost predicate Labelling(rep: seq<int>) {
    forall v {:trigger rep[v]} :: 0 <= v < |rep| ==> 0 <= rep[v] < |rep| && rep[rep[v]] == rep[v]
  }

  function Absorbed(rep: seq<int>, r: int, s: int): seq<int> {
    seq(|rep|, v requires 0 <= v < |rep| => if rep[v] == r then s else rep[v])
  }

  /** rep' has the classes of i and j joined and the others as they were. */
  ghost predicate Merged(rep: seq<int>, rep': seq<int>, i: int, j: int) {
    && |rep'| == |rep| && 0 <= i < |rep| && 0 <= j < |rep|
    && forall a, b {:trigger rep'[a], rep'[b]} :: 0 <= a < |rep| && 0 <= b < |rep| ==>
         (rep'[a] == rep'[b] <==>
            rep[a] == rep[b] || (rep[a] == rep[i] && rep[b] == rep[j]) || (rep[a] == rep[j] && rep[b] == rep[i]))
  }

  lemma {:induction false} AbsorbMerges(rep: seq<int>, i: int, j: int)
    requires Labelling(rep) && 0 <= i < |rep| && 0 <= j < |rep| && rep[i] != rep[j]
    ensures var rep' := Absorbed(rep, rep[i], rep[j]);
            Labelling(rep') && Merged(rep, rep', i, j) && |Roots(rep')| == |Roots(rep)| - 1
  {
    var rep' := Absorbed(rep, rep[i], rep[j]);
    assert rep[rep[i]] == rep[i] && rep[rep[j]] == rep[j];
    forall v | v in Roots(rep') || v in Roots(rep)
      ensures v in Roots(rep') <==> v in Roots(rep) && v != rep[i]
    {
      assert 0 <= v < |rep|;
      assert rep[v] == v && v != rep[i] ==> rep'[v] == v;
    }
    assert Roots(rep') == Roots(rep) - {rep[i]};
  }

  lemma {:induction false} MergedEitherWay(rep: seq<int>, rep': seq<int>, i: int, j: int)
    requires Merged(rep, rep', j, i)
    ensures Merged(rep, rep', i, j)
  {
  }

  class DSU {
    const parent: array<int>
    const rank: array<int>
    ghost var rep: seq<int>
    ghost var top: int

    ghost predicate NodeOk(i: int)
      requires 0 <= i < parent.Length == rank.Length == |rep|
      reads this, parent, rank
    {
      && 0 <= parent[i] < |rep| && 0 <= rep[i] < |rep|
      && rep[parent[i]] == rep[i] && (parent[i] == i <==> rep[i] == i) && rep[rep[i]] == rep[i]
      && rank[i] <= top && (parent[i] != i ==> rank[i] < rank[parent[i]])
    }

    /** rep names the root that each element's parent links lead to; ranks rise along them. */
    ghost predicate Valid()
      reads this, parent, rank
    {
      && parent != rank && parent.Length == rank.Length == |rep|
      && forall i {:trigger NodeOk(i)} :: 0 <= i < |rep| ==> NodeOk(i)
    }

    lemma {:induction false} ValidLabels()
      requires Valid()
      ensures Labelling(rep)
    {
      forall v | 0 <= v < |rep|
        ensures 0 <= rep[v] < |rep| && rep[rep[v]] == rep[v]
      {
        assert NodeOk(v);
      }
    }

    constructor (n: nat)
      ensures Valid() && fresh(parent) && fresh(rank) && |rep| == n
      ensures forall i :: 0 <= i < n ==> rep[i] == i
      ensures |Roots(rep)| == n
    {
      parent := new int[n](i => i);
      rank := new int[n](i => 0);
      rep := seq(n, i => i);
      top := 0;
      new;
      forall i | 0 <= i < n
        ensures NodeOk(i)
      {
      }
      RootsOfAll(n, rep);
    }

    static lemma {:induction false} RootsOfAll(n: nat, rep: seq<int>)
      requires |rep| == n && forall i :: 0 <= i < n ==> rep[i] == i
      ensures |Roots(rep)| == n
    {
      if n == 0 {
        assert Roots(rep) == {};
      } else {
        RootsOfAll(n - 1, rep[..n - 1]);
        assert rep[n - 1] in rep;
        assert Roots(rep) == Roots(rep[..n - 1]) + {n - 1} by {
          forall v | v in Roots(rep) && v != n - 1
            ensures v in Roots(rep[..n - 1])
          {
            assert rep[..n - 1][v] == v;
          }
        }
      }
    }

    method Find(i: int) returns (root: int)
      requires Valid() && 0 <= i < |rep|
      modifies parent
      ensures Valid() && root == rep[i] && 0 <= root < |rep|
      ensures i != root ==> rank[i] < rank[root]
      decreases top - rank[i]
    {
      assert NodeOk(i);
      if parent[i] == i {
        return i;
      }
      root := Find(parent[i]);
      assert NodeOk(i) && NodeOk(root);
      label before:
      parent[i] := root;
      forall v | 0 <= v < |rep|
        ensures NodeOk(v)
      {
        assert old@before(NodeOk(v));
      }
    }

    method Unite(i: int, j: int) returns (joined: bool)
      requires Valid() && 0 <= i < |rep| && 0 <= j < |rep|
      modifies this, parent, rank
      ensures Valid() && |rep| == old(|rep|)
      ensures joined <==> old(rep[i] != rep[j])
      ensures if joined then Merged(old(rep), rep, i, j) && |Roots(rep)| == |Roots(old(rep))| - 1 else rep == old(rep)
    {
      var rootI := Find(i);
      var rootJ := Find(j);
      if rootI == rootJ {
        return false;
      }
      ValidLabels();
      assert NodeOk(rootI) && NodeOk(rootJ);
      AbsorbMerges(rep, i, j);
      AbsorbMerges(rep, j, i);
      if rank[rootI] < rank[rootJ] {
        Attach(rootI, rootJ);
      } else if rank[rootI] > rank[rootJ] {
        Attach(rootJ, rootI);
        MergedEitherWay(old(rep), rep, i, j);
      } else {
        Attach2(rootJ, rootI);
        MergedEitherWay(old(rep), rep, i, j);
      }
      return true;
    }

    /** parent_[r] = s for two roots, s of the higher rank. */
    method Attach(r: int, s: int)
      requires Valid() && 0 <= r < |rep| && 0 <= s < |rep| && rep[r] == r && rep[s] == s && r != s
      requires rank[r] < rank[s]
      modifies this`rep, parent
      ensures Valid() && rep == Absorbed(old(rep), r, s)
    {
      assert NodeOk(r) && NodeOk(s);
      parent[r] := s;
      rep := Absorbed(rep, r, s);
      forall v | 0 <= v < |rep|
        ensures NodeOk(v)
      {
        assert old(NodeOk(v));
      }
    }

    /** The same for equal ranks: s rises by one. */
    method Attach2(r: int, s: int)
      requires Valid() && 0 <= r < |rep| && 0 <= s < |rep| && rep[r] == r && rep[s] == s && r != s
      requires rank[r] == rank[s]
      modifies this, parent, rank
      ensures Valid() && rep == Absorbed(old(rep), r, s)
    {
      assert NodeOk(r) && NodeOk(s);
      parent[r] := s;
      rank[s] := rank[s] + 1;
      rep := Absorbed(rep, r, s);
      top := top + 1;
      forall v | 0 <= v < |rep|
        ensures NodeOk(v)
      {
        assert old(NodeOk(v));
      }
    }
  }
}
