/**
 The adaptive replacement cache: four lists with four maps, and a real target for the size of T1.

 Each map is modelled by the keys it holds; the iterator it would give is the list cell of that
 key.
 */
module ArcCaches {
  import opened ArcLists
  import opened ArcUsage

  datatype Option<V> = None | Some(value: V)

  /** The map holds exactly the listed keys. */
  ghost predicate Holds<K(!new)>(m: set<K>, k: seq<K>) {
    forall x {:trigger x in m} {:trigger x in k} :: x in m <==> x in k
  }

  lemma {:induction false} FrontHolds<K(!new), V>(m: set<K>, t: seq<(K, V)>, key: K, val: V)
    requires Holds(m, KeysOf(t))
    ensures Holds(m + {key}, KeysOf([(key, val)] + t))
  {
    assert KeysOf([(key, val)] + t) == [key] + KeysOf(t);
  }

  lemma {:induction false} DropHolds<K(!new), V>(m: set<K>, t: seq<(K, V)>, key: K, val: V)
    requires Holds(m, KeysOf(t)) && NoDup(KeysOf(t)) && key in KeysOf(t)
    ensures Holds(m - {key}, KeysOf(Drop(t, key))) && Holds(m, KeysOf([(key, val)] + Drop(t, key)))
  {
    DropTakes(t, key);
    FrontHolds(m - {key}, Drop(t, key), key, val);
    assert m - {key} + {key} == m;
  }

  class ARCCache<K(!new, ==), V> {
    const c: nat
    var p: real
    var t1: seq<(K, V)>
    var t2: seq<(K, V)>
    var b1: seq<K>
    var b2: seq<K>
    var mapT1: set<K>
    var mapT2: set<K>
    var mapB1: set<K>
    var mapB2: set<K>
    // the last value put for each key
    ghost var last: map<K, V>
    // when each key was last used, and which were used again while cached or remembered
    ghost var stamps: Stamps<K>

    ghost function Now(): Lists<K, V>
      reads this
    {
      Lists(t1, t2, b1, b2)
    }

    ghost predicate MapsAgree()
      reads this
    {
      Holds(mapT1, KeysOf(t1)) && Holds(mapT2, KeysOf(t2)) && Holds(mapB1, b1) && Holds(mapB2, b2)
    }

    /** The lists equal their maps, no key is listed twice, values are current, and the lists are
        in order of use. */
    ghost predicate Consistent()
      reads this
    {
      MapsAgree() && OncePerKey(Now()) && Current(t1, last) && Current(t2, last) && Ordered(Now(), stamps)
    }

    ghost predicate Valid()
      reads this
    {
      Consistent() && Bounded(Now(), c, p)
    }

    constructor (capacity: nat)
      ensures c == capacity && p == 0.0 && Consistent() && Now() == Lists([], [], [], []) && last == map[]
      ensures Valid() <==> capacity >= 1
    {
      c := capacity;
      p := 0.0;
      t1, t2, b1, b2 := [], [], [], [];
      mapT1, mapT2, mapB1, mapB2 := {}, {}, {}, {};
      last := map[];
      stamps := Stamps(0, map[], {});
    }

    /** A hit gives the last value put for the key and moves it to the front of T2: the key is
        used again now. */
    method Get(key: K) returns (found: Option<V>)
      requires Consistent()
      modifies this
      ensures Consistent() && (old(Valid()) ==> Valid()) && p == old(p) && last == old(last)
      ensures found.Some? <==> Resident(old(Now()), key)
      ensures found.Some? ==> key in last && found.value == last[key]
      ensures Now() == if found.Some? then Touch(old(Now()), key, found.value) else old(Now())
      ensures stamps == if found.Some? then Stamped(old(stamps), key, true) else old(stamps)
    {
      if key in mapT1 {
        var val := ValueOf(t1, key);
        FoundCurrent(t1, key, last);
        TouchOnce(Now(), key, val);
        TouchCurrent(Now(), key, val, last);
        TouchOrdered(Now(), key, val, stamps);
        FrontHolds(mapT2, t2, key, val);
        DropHolds(mapT1, t1, key, val);
        stamps := Stamped(stamps, key, true);
        t2 := [(key, val)] + t2;
        mapT2 := mapT2 + {key};
        t1 := Drop(t1, key);
        mapT1 := mapT1 - {key};
        return Some(val);
      }
      if key in mapT2 {
        var val := ValueOf(t2, key);
        FoundCurrent(t2, key, last);
        TouchOnce(Now(), key, val);
        TouchCurrent(Now(), key, val, last);
        TouchOrdered(Now(), key, val, stamps);
        DropHolds(mapT2, t2, key, val);
        stamps := Stamped(stamps, key, true);
        t2 := [(key, val)] + Drop(t2, key);
        return Some(val);
      }
      return None;
    }

    /** The key that leaves the cache is the least recently used of T1 if T1 exceeds the target,
        or meets it and the key asked for is in B2; else the least recently used of T2. */
    method Replace(key: K)
      requires MapsAgree() && OncePerKey(Now())
      modifies this`t1, this`t2, this`b1, this`b2, this`mapT1, this`mapT2, this`mapB1, this`mapB2
      ensures MapsAgree() && Now() == Replaced(old(Now()), p, key)
      ensures Ordered(old(Now()), stamps) ==>
                (forall x {:trigger Leaves(old(Now()), Now(), x)} ::
                   Leaves(old(Now()), Now(), x) <==> Victim(old(Now()), p, key, stamps, x))
                && Once(Now()) == Once(old(Now())) && Again(Now()) == Again(old(Now()))
    {
      if Ordered(Now(), stamps) {
        ReplacedVictim(Now(), p, key, stamps);
      }
      if t1 != [] && (|t1| > p.Floor || (key in mapB2 && |t1| == p.Floor)) {
        var oldest := t1[|t1| - 1];
        OldestLeaves(t1);
        mapT1 := mapT1 - {oldest.0};
        t1 := Init(t1);
        b1 := [oldest.0] + b1;
        mapB1 := mapB1 + {oldest.0};
      } else if t2 != [] {
        var oldest := t2[|t2| - 1];
        OldestLeaves(t2);
        mapT2 := mapT2 - {oldest.0};
        t2 := Init(t2);
        b2 := [oldest.0] + b2;
        mapB2 := mapB2 + {oldest.0};
      }
    }

    /** The key enters the cache with the new value, as used again if it was cached or remembered.
        A full cache sends out the victim the target names, and complete misses forget the least
        recently used key of a full list. */
    method Put(key: K, val: V)
      requires Consistent()
      modifies this
      ensures Consistent() && (old(Valid()) ==> Valid())
      ensures stamps == Stamped(old(stamps), key, old(Listed(Now(), key)))
      ensures old(Valid()) ==> Evicts(old(Now()), Now(), p, key, old(stamps))
      ensures last == old(last)[key := val] && Resident(Now(), key)
      ensures p == NewTarget(old(Now()), c, old(p), key)
      ensures Now() == ArcLists.Put(old(Now()), c, p, key, val)
    {
      PutKeeps(Now(), NewTarget(Now(), c, p, key), key, val);
      last := last[key := val];
      stamps := Stamped(stamps, key, Listed(Now(), key));
      Store(key, val);
    }

    /** The lists, the maps and the target after a put. */
    method Store(key: K, val: V)
      requires MapsAgree() && OncePerKey(Now())
      modifies this`p, this`t1, this`t2, this`b1, this`b2, this`mapT1, this`mapT2, this`mapB1, this`mapB2
      ensures MapsAgree() && p == NewTarget(old(Now()), c, old(p), key)
      ensures Now() == ArcLists.Put(old(Now()), c, p, key, val)
    {
      if key in mapT1 {
        DropHolds(mapT1, t1, key, val);
        t1 := Drop(t1, key);
        mapT1 := mapT1 - {key};
        EnterT2(key, val);
      } else if key in mapT2 {
        DropHolds(mapT2, t2, key, val);
        t2 := [(key, val)] + Drop(t2, key);
      } else if key in mapB1 {
        GhostHitB1(key, val);
      } else if key in mapB2 {
        GhostHitB2(key, val);
      } else {
        MakeRoom(key);
        FrontHolds(mapT1, t1, key, val);
        t1 := [(key, val)] + t1;
        mapT1 := mapT1 + {key};
      }
    }

    /** What a put of the key takes out of the cache and out of all four lists, with `q` the
        target after it. */
    ghost predicate Evicts(l: Lists<K, V>, m: Lists<K, V>, q: real, key: K, st: Stamps<K>) {
      && (forall x {:trigger Leaves(l, m, x)} ::
            Leaves(l, m, x) <==> !Resident(l, key) && PutVictim(l, c, q, key, st, x))
      && (forall x {:trigger Resident(m, x)} :: Resident(m, x) ==> x == key || Resident(l, x))
      && (forall x {:trigger Forgotten(l, m, x)} :: Forgotten(l, m, x) <==>
            && !Listed(l, key)
            && if |Once(l)| == c then Oldest(Once(l), st, x)
               else Total(l) == 2 * c && Oldest(Again(l), st, x))
    }

    lemma {:induction false} PutKeeps(l: Lists<K, V>, target: real, key: K, val: V)
      requires Consistent() && l == Now() && target == NewTarget(l, c, p, key)
      ensures var m := ArcLists.Put(l, c, target, key, val);
              && OncePerKey(m) && Resident(m, key)
              && Current(m.t1, last[key := val]) && Current(m.t2, last[key := val])
              && Ordered(m, Stamped(stamps, key, Listed(l, key)))
              && (Bounded(l, c, p) ==> Bounded(m, c, target) && Evicts(l, m, target, key, stamps))
    {
      PutOrdered(l, c, p, key, val, stamps);
      PutOnce(l, c, target, key, val);
      PutResident(l, c, target, key, val);
      PutCurrent(l, c, target, key, val, last);
      if Bounded(l, c, p) {
        PutBounded(l, c, p, key, val);
        PutEvicts(l, c, p, key, val, stamps);
        PutForgets(l, c, p, key, val, stamps);
      }
    }

    method ForgetB1(key: K)
      requires Holds(mapB1, b1) && NoDup(b1) && key in b1
      modifies this`b1, this`mapB1
      ensures Holds(mapB1, b1) && b1 == DropKey(old(b1), key)
    {
      DropKeyTakes(b1, key);
      b1 := DropKey(b1, key);
      mapB1 := mapB1 - {key};
    }

    method ForgetB2(key: K)
      requires Holds(mapB2, b2) && NoDup(b2) && key in b2
      modifies this`b2, this`mapB2
      ensures Holds(mapB2, b2) && b2 == DropKey(old(b2), key)
    {
      DropKeyTakes(b2, key);
      b2 := DropKey(b2, key);
      mapB2 := mapB2 - {key};
    }

    method EnterT2(key: K, val: V)
      requires Holds(mapT2, KeysOf(t2))
      modifies this`t2, this`mapT2
      ensures Holds(mapT2, KeysOf(t2)) && t2 == [(key, val)] + old(t2)
    {
      FrontHolds(mapT2, t2, key, val);
      t2 := [(key, val)] + t2;
      mapT2 := mapT2 + {key};
    }

    /** The key was remembered in B1: T1 deserves more room. */
    method GhostHitB1(key: K, val: V)
      requires MapsAgree() && OncePerKey(Now()) && !Resident(Now(), key) && key in b1
      modifies this`p, this`t1, this`t2, this`b1, this`b2, this`mapT1, this`mapT2, this`mapB1, this`mapB2
      ensures MapsAgree() && p == NewTarget(old(Now()), c, old(p), key)
      ensures Now() == ArcLists.Put(old(Now()), c, p, key, val)
    {
      AgreeSizes();
      var delta := if |mapB1| >= |mapB2| then 1.0 else |mapB2| as real / |mapB1| as real;
      p := if c as real < p + delta then c as real else p + delta;
      ReplacedOnce(Now(), p, key);
      Replace(key);
      ForgetB1(key);
      EnterT2(key, val);
    }

    /** The key was remembered in B2: T2 deserves more room. */
    method GhostHitB2(key: K, val: V)
      requires MapsAgree() && OncePerKey(Now()) && !Resident(Now(), key) && key !in b1 && key in b2
      modifies this`p, this`t1, this`t2, this`b1, this`b2, this`mapT1, this`mapT2, this`mapB1, this`mapB2
      ensures MapsAgree() && p == NewTarget(old(Now()), c, old(p), key)
      ensures Now() == ArcLists.Put(old(Now()), c, p, key, val)
    {
      AgreeSizes();
      var delta := if |mapB2| >= |mapB1| then 1.0 else |mapB1| as real / |mapB2| as real;
      p := if 0.0 < p - delta then p - delta else 0.0;
      ReplacedOnce(Now(), p, key);
      Replace(key);
      ForgetB2(key);
      EnterT2(key, val);
    }

    /** A miss: drop the oldest ghost or the oldest entry of T1, or replace. */
    method MakeRoom(key: K)
      requires MapsAgree() && OncePerKey(Now())
      modifies this`t1, this`t2, this`b1, this`b2, this`mapT1, this`mapT2, this`mapB1, this`mapB2
      ensures MapsAgree() && Now() == MadeRoom(old(Now()), c, p, key)
    {
      AgreeSizes();
      ForgetOldest(Now());
      var l1Size := |mapT1| + |mapB1|;
      var l2Size := |mapT2| + |mapB2|;
      if l1Size == c {
        if |mapT1| < c {
          if b1 != [] {
            InitTakes(b1);
            mapB1 := mapB1 - {b1[|b1| - 1]};
            b1 := Init(b1);
          }
          Replace(key);
        } else {
          if t1 != [] {
            OldestLeaves(t1);
            mapT1 := mapT1 - {t1[|t1| - 1].0};
            t1 := Init(t1);
          }
        }
      } else if l1Size < c && l1Size + l2Size >= c {
        if l1Size + l2Size == 2 * c {
          if b2 != [] {
            InitTakes(b2);
            mapB2 := mapB2 - {b2[|b2| - 1]};
            b2 := Init(b2);
          }
        }
        Replace(key);
      }
    }

    /** The maps have as many entries as the lists. */
    lemma {:induction false} AgreeSizes()
      requires MapsAgree() && OncePerKey(Now())
      ensures |mapT1| == |t1| && |mapT2| == |t2| && |mapB1| == |b1| && |mapB2| == |b2|
    {
      KeyCount(mapT1, KeysOf(t1));
      KeyCount(mapT2, KeysOf(t2));
      KeyCount(mapB1, b1);
      KeyCount(mapB2, b2);
    }

    method Size() returns (n: nat)
      requires Consistent()
      ensures n == |t1| + |t2|
    {
      AgreeSizes();
      n := |mapT1| + |mapT2|;
    }
  }

  method ValueOf<K(==), V>(t: seq<(K, V)>, key: K) returns (val: V)
    requires key in KeysOf(t)
    ensures (key, val) in t
  {
    ghost var at :| 0 <= at < |KeysOf(t)| && KeysOf(t)[at] == key;
    var i := 0;
    while t[i].0 != key
      invariant 0 <= i <= at
      decreases at - i
    {
      i := i + 1;
    }
    val := t[i].1;
  }

  lemma {:induction false} FoundCurrent<K(!new), V>(t: seq<(K, V)>, key: K, last: map<K, V>)
    requires Current(t, last)
    ensures forall v {:trigger (key, v) in t} :: (key, v) in t ==> key in last && last[key] == v
  {
  }

  lemma {:induction false} OldestLeaves<K(!new), V>(t: seq<(K, V)>)
    requires NoDup(KeysOf(t)) && t != []
    ensures Taken(KeysOf(t), KeysOf(Init(t)), t[|t| - 1].0)
  {
    InitKeys(t);
    InitTakes(KeysOf(t));
  }

  lemma {:induction false} KeyCount<K(!new)>(m: set<K>, k: seq<K>)
    requires NoDup(k) && Holds(m, k)
    ensures |m| == |k|
    decreases |k|
  {
    if k == [] {
      assert m == {};
    } else {
      var x := k[|k| - 1];
      InitTakes(k);
      KeyCount(m - {x}, Init(k));
    }
  }

  /** With capacity 0 the bound fails at once: the first key put stays. */
  method ZeroCapacityOverflows<K(!new, ==), V>(key: K, val: V) returns (size: nat)
    ensures size == 1
  {
    var cache := new ARCCache<K, V>(0);
    cache.Put(key, val);
    size := cache.Size();
  }
}
