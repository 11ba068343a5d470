/**
 The adaptive replacement cache as two lists in order of use.  Every key carries the time of its
 last use and whether it was used again while it was cached or remembered.  T1 followed by B1
 lists the keys used once and T2 followed by B2 those used again, each from the most recently to
 the least recently used; a put takes its victims from the ends of these lists.
 */
module ArcUsage {
  import opened ArcLists

  /** `used` gives the time of the last use of a key, and `again` the keys that were used while
      they were cached or remembered. */
  datatype Stamps<!K> = Stamps(now: nat, used: map<K, nat>, again: set<K>)

  /** The key is used now; `listed` says whether it is cached or remembered. */
  function Stamped<K>(st: Stamps<K>, key: K, listed: bool): Stamps<K> {
    Stamps(st.now + 1, st.used[key := st.now], if listed then st.again + {key} else st.again - {key})
  }

  function Once<K, V>(l: Lists<K, V>): seq<K> {
    KeysOf(l.t1) + l.b1
  }

  function Again<K, V>(l: Lists<K, V>): seq<K> {
    KeysOf(l.t2) + l.b2
  }

  /** The key is cached or remembered. */
  predicate Listed<K(==), V>(l: Lists<K, V>, key: K) {
    key in Once(l) || key in Again(l)
  }

  predicate Later<K(==)>(st: Stamps<K>, x: K, y: K) {
    x in st.used && y in st.used && st.used[x] > st.used[y]
  }

  /** From the most recently used to the least recently used. */
  ghost predicate Recent<K(!new)>(s: seq<K>, st: Stamps<K>) {
    && (forall i {:trigger s[i]} :: 0 <= i < |s| ==> s[i] in st.used && st.used[s[i]] < st.now)
    && (forall i, j {:trigger s[i], s[j]} :: 0 <= i < j < |s| ==> Later(st, s[i], s[j]))
  }

  ghost predicate Ordered<K(!new), V>(l: Lists<K, V>, st: Stamps<K>) {
    && Recent(Once(l), st) && Recent(Again(l), st)
    && (forall x {:trigger x in Once(l)} :: x in Once(l) ==> x !in st.again)
    && (forall x {:trigger x in Again(l)} :: x in Again(l) ==> x in st.again)
  }

  /** The least recently used key of the list. */
  ghost predicate Oldest<K(!new)>(s: seq<K>, st: Stamps<K>, x: K) {
    x in s && forall y {:trigger y in s} :: y in s && y != x ==> Later(st, y, x)
  }

  // ----- lists in order of use

  lemma {:induction false} OthersRecent<K(!new)>(s: seq<K>, st: Stamps<K>, key: K, listed: bool)
    requires Recent(s, st) && key !in s
    ensures Recent(s, Stamped(st, key, listed))
    ensures Recent([key] + s, Stamped(st, key, listed))
  {
    var st' := Stamped(st, key, listed);
    forall i | 0 <= i < |s|
      ensures s[i] != key && s[i] in st'.used && st'.used[s[i]] < st.now
    {
      assert s[i] in s;
    }
    forall i, j | 0 <= i < j < |s|
      ensures Later(st', s[i], s[j])
    {
      assert Later(st, s[i], s[j]);
    }
    forall i, j | 0 <= i < j < |[key] + s|
      ensures Later(st', ([key] + s)[i], ([key] + s)[j])
    {
      assert i > 0 ==> Later(st', s[i - 1], s[j - 1]);
    }
  }

  lemma {:induction false} RecentOnce<K(!new)>(s: seq<K>, st: Stamps<K>)
    requires Recent(s, st)
    ensures NoDup(s)
  {
    forall i, j | 0 <= i < j < |s|
      ensures s[i] != s[j]
    {
      assert Later(st, s[i], s[j]);
    }
  }

  lemma {:induction false} InitRecent<K(!new)>(s: seq<K>, st: Stamps<K>)
    requires Recent(s, st)
    ensures Recent(Init(s), st)
    ensures forall x {:trigger x in Init(s)} :: x in Init(s) ==> x in s
  {
  }

  lemma {:induction false} TailRecent<K(!new)>(s: seq<K>, st: Stamps<K>)
    requires Recent(s, st) && s != []
    ensures Recent(s[1..], st)
  {
    forall i, j | 0 <= i < j < |s[1..]|
      ensures Later(st, s[1..][i], s[1..][j])
    {
      assert Later(st, s[i + 1], s[j + 1]);
    }
  }

  lemma {:induction false} DropRecent<K(!new)>(s: seq<K>, st: Stamps<K>, key: K)
    requires Recent(s, st) && key in s
    ensures Recent(DropKey(s, key), st) && Taken(s, DropKey(s, key), key)
    decreases |s|
  {
    RecentOnce(s, st);
    DropKeyTakes(s, key);
    TailRecent(s, st);
    if s[0] != key {
      DropRecent(s[1..], st, key);
      BeforeRecent(s, DropKey(s[1..], key), st);
    }
  }

  lemma {:induction false} BeforeRecent<K(!new)>(s: seq<K>, rest: seq<K>, st: Stamps<K>)
    requires Recent(s, st) && s != [] && Recent(rest, st)
    requires forall x {:trigger x in rest} :: x in rest ==> x in s[1..]
    ensures Recent([s[0]] + rest, st)
  {
    forall j | 0 <= j < |rest|
      ensures Later(st, s[0], rest[j])
    {
      var x := rest[j];
      assert x in rest;
      var k :| 0 <= k < |s[1..]| && s[1..][k] == x;
      assert Later(st, s[0], s[k + 1]);
    }
  }

  lemma {:induction false} LastIsOldest<K(!new)>(s: seq<K>, st: Stamps<K>)
    requires Recent(s, st) && s != []
    ensures forall x {:trigger Oldest(s, st, x)} :: Oldest(s, st, x) <==> x == s[|s| - 1]
  {
    var z := s[|s| - 1];
    forall y | y in s && y != z
      ensures Later(st, y, z)
    {
      var i :| 0 <= i < |s| && s[i] == y;
      assert Later(st, s[i], s[|s| - 1]);
    }
    forall x | Oldest(s, st, x)
      ensures x == z
    {
      assert z in s;
    }
  }

  // ----- the two lists after each operation

  lemma {:induction false} DropKeys<K(!new), V>(t: seq<(K, V)>, key: K)
    ensures KeysOf(Drop(t, key)) == DropKey(KeysOf(t), key)
    decreases |t|
  {
    if t != [] {
      TailKeys(t);
      if t[0].0 != key {
        DropKeys(t[1..], key);
        HeadKeys(t[0], Drop(t[1..], key));
      }
    }
  }

  lemma {:induction false} DropLeft<K(!new)>(a: seq<K>, b: seq<K>, key: K)
    requires key in a
    ensures DropKey(a + b, key) == DropKey(a, key) + b
    decreases |a|
  {
    assert (a + b)[1..] == a[1..] + b;
    if a[0] != key {
      DropLeft(a[1..], b, key);
    }
  }

  lemma {:induction false} DropRight<K(!new)>(a: seq<K>, b: seq<K>, key: K)
    requires key !in a
    ensures DropKey(a + b, key) == a + DropKey(b, key)
    decreases |a|
  {
    if a == [] {
      assert a + b == b;
    } else {
      assert (a + b)[1..] == a[1..] + b;
      DropRight(a[1..], b, key);
    }
  }

  function Without<K(==)>(s: seq<K>, key: K): seq<K> {
    if key in s then DropKey(s, key) else s
  }

  /** Moving the oldest of T1 to the front of B1, or of T2 to that of B2, changes neither list. */
  lemma {:induction false} ReplacedLists<K(!new), V>(l: Lists<K, V>, p: real, key: K)
    ensures Once(Replaced(l, p, key)) == Once(l) && Again(Replaced(l, p, key)) == Again(l)
  {
    InitKeys(l.t1);
    InitKeys(l.t2);
    if l.t1 != [] {
      Handed(KeysOf(l.t1), l.b1);
    }
    if l.t2 != [] {
      Handed(KeysOf(l.t2), l.b2);
    }
  }

  lemma {:induction false} Handed<K(!new)>(a: seq<K>, b: seq<K>)
    requires a != []
    ensures Init(a) + ([a[|a| - 1]] + b) == a + b
  {
    assert a == Init(a) + [a[|a| - 1]];
  }

  lemma {:induction false} InitAfter<K(!new)>(a: seq<K>, b: seq<K>)
    requires b != []
    ensures Init(a + b) == a + Init(b)
  {
  }

  lemma {:induction false} FrontedKeys<K(!new), V>(key: K, val: V, t: seq<(K, V)>, b: seq<K>)
    ensures KeysOf([(key, val)] + t) + b == [key] + (KeysOf(t) + b)
  {
    assert KeysOf([(key, val)] + t) == [key] + KeysOf(t);
  }

  /** A use of a listed key takes it out of its list and puts it in front of those used again. */
  ghost predicate Promotes<K(!new), V>(l: Lists<K, V>, m: Lists<K, V>, key: K) {
    Once(m) == Without(Once(l), key) && Again(m) == [key] + Without(Again(l), key)
  }

  lemma {:induction false} TouchPromotes<K(!new), V>(l: Lists<K, V>, key: K, val: V)
    requires OncePerKey(l) && Resident(l, key)
    ensures Promotes(l, Touch(l, key, val), key)
  {
    DropKeys(l.t1, key);
    DropKeys(l.t2, key);
    if key in KeysOf(l.t1) {
      DropLeft(KeysOf(l.t1), l.b1, key);
      FrontedKeys(key, val, l.t2, l.b2);
    } else {
      DropLeft(KeysOf(l.t2), l.b2, key);
      FrontedKeys(key, val, Drop(l.t2, key), l.b2);
    }
  }

  lemma {:induction false} GhostPromotes<K(!new), V>(l: Lists<K, V>, c: nat, p: real, key: K, val: V)
    requires OncePerKey(l) && !Resident(l, key) && (key in l.b1 || key in l.b2)
    ensures Promotes(l, Put(l, c, p, key, val), key)
  {
    var r := Replaced(l, p, key);
    ReplacedLists(l, p, key);
    ReplacedOnce(l, p, key);
    if key in l.b1 {
      DropRight(KeysOf(r.t1), r.b1, key);
      FrontedKeys(key, val, r.t2, r.b2);
    } else {
      DropRight(KeysOf(r.t2), r.b2, key);
      FrontedKeys(key, val, r.t2, DropKey(r.b2, key));
    }
  }

  /** A put of a listed key uses it again. */
  lemma {:induction false} PutPromotes<K(!new), V>(l: Lists<K, V>, c: nat, p: real, key: K, val: V)
    requires OncePerKey(l) && Listed(l, key)
    ensures Promotes(l, Put(l, c, p, key, val), key)
  {
    if Resident(l, key) {
      TouchPromotes(l, key, val);
    } else {
      GhostPromotes(l, c, p, key, val);
    }
  }

  /** A complete miss forgets the least recently used key of a full list. */
  lemma {:induction false} MadeRoomLists<K(!new), V>(l: Lists<K, V>, c: nat, p: real, key: K)
    ensures var m := MadeRoom(l, c, p, key);
            && Once(m) == (if |Once(l)| == c then Init(Once(l)) else Once(l))
            && Again(m) == (if |Once(l)| < c && Total(l) == 2 * c && l.b2 != [] then Init(Again(l)) else Again(l))
  {
    ReplacedLists(l, p, key);
    ReplacedLists(l.(b1 := Init(l.b1)), p, key);
    ReplacedLists(l.(b2 := Init(l.b2)), p, key);
    InitKeys(l.t1);
    if l.b1 != [] {
      InitAfter(KeysOf(l.t1), l.b1);
    } else {
      assert Once(l) == KeysOf(l.t1);
    }
    if l.b2 != [] {
      InitAfter(KeysOf(l.t2), l.b2);
    }
  }

  // ----- what every call keeps

  lemma {:induction false} PromotesOrdered<K(!new), V>(l: Lists<K, V>, m: Lists<K, V>, key: K, st: Stamps<K>)
    requires Ordered(l, st) && Promotes(l, m, key) && Listed(l, key)
    ensures Ordered(m, Stamped(st, key, true))
  {
    if key in Once(l) {
      DropRecent(Once(l), st, key);
      assert key !in Again(l);
    } else {
      DropRecent(Again(l), st, key);
    }
    OthersRecent(Once(m), st, key, true);
    OthersRecent(Without(Again(l), key), st, key, true);
  }

  lemma {:induction false} TouchOrdered<K(!new), V>(l: Lists<K, V>, key: K, val: V, st: Stamps<K>)
    requires OncePerKey(l) && Ordered(l, st) && Resident(l, key)
    ensures Ordered(Touch(l, key, val), Stamped(st, key, true))
  {
    TouchPromotes(l, key, val);
    PromotesOrdered(l, Touch(l, key, val), key, st);
  }

  /** After a put both lists are in order of use again: T1 and B1 hold the keys used once, T2 and
      B2 those used again while cached or remembered. */
  lemma {:induction false} PutOrdered<K(!new), V>(l: Lists<K, V>, c: nat, p: real, key: K, val: V, st: Stamps<K>)
    requires OncePerKey(l) && Ordered(l, st)
    ensures Ordered(Put(l, c, NewTarget(l, c, p, key), key, val), Stamped(st, key, Listed(l, key)))
  {
    var q := NewTarget(l, c, p, key);
    if Listed(l, key) {
      PutPromotes(l, c, q, key, val);
      PromotesOrdered(l, Put(l, c, q, key, val), key, st);
    } else {
      MissOrdered(l, c, p, key, val, st);
    }
  }

  lemma {:induction false} MissOrdered<K(!new), V>(l: Lists<K, V>, c: nat, p: real, key: K, val: V, st: Stamps<K>)
    requires Ordered(l, st) && !Listed(l, key)
    ensures Ordered(Put(l, c, p, key, val), Stamped(st, key, false))
  {
    var m := MadeRoom(l, c, p, key);
    MadeRoomLists(l, c, p, key);
    InitRecent(Once(l), st);
    InitRecent(Again(l), st);
    FrontedKeys(key, val, m.t1, m.b1);
    OthersRecent(Once(m), st, key, false);
    OthersRecent(Again(m), st, key, false);
  }

  // ----- who leaves

  /** The key replace() sends out of the cache: the least recently used of T1 if T1 exceeds the
      target, or meets it and the key asked for is one of B2; else the least recently used of T2. */
  ghost predicate Victim<K(!new), V>(l: Lists<K, V>, p: real, key: K, st: Stamps<K>, x: K) {
    if l.t1 != [] && (|l.t1| > p.Floor || (|l.t1| == p.Floor && key in l.b2)) then Oldest(KeysOf(l.t1), st, x)
    else Oldest(KeysOf(l.t2), st, x)
  }

  ghost predicate Leaves<K(!new), V>(l: Lists<K, V>, m: Lists<K, V>, x: K) {
    Resident(l, x) && !Resident(m, x)
  }

  lemma {:induction false} PrefixRecent<K(!new)>(a: seq<K>, b: seq<K>, st: Stamps<K>)
    requires Recent(a + b, st)
    ensures Recent(a, st)
  {
    assert (a + b)[..|a|] == a;
    forall i, j | 0 <= i < j < |a|
      ensures Later(st, a[i], a[j])
    {
      assert Later(st, (a + b)[i], (a + b)[j]);
    }
    forall i | 0 <= i < |a|
      ensures a[i] in st.used && st.used[a[i]] < st.now
    {
      assert (a + b)[i] == a[i];
    }
  }

  /** replace() sends out its victim and nothing else, and remembers it in its place. */
  lemma {:induction false} ReplacedVictim<K(!new), V>(l: Lists<K, V>, p: real, key: K, st: Stamps<K>)
    requires OncePerKey(l) && Ordered(l, st)
    ensures var m := Replaced(l, p, key);
            && (forall x {:trigger Leaves(l, m, x)} :: Leaves(l, m, x) <==> Victim(l, p, key, st, x))
            && (forall x {:trigger Resident(m, x)} :: Resident(m, x) ==> Resident(l, x))
            && Once(m) == Once(l) && Again(m) == Again(l)
  {
    ReplacedLists(l, p, key);
    PrefixRecent(KeysOf(l.t1), l.b1, st);
    PrefixRecent(KeysOf(l.t2), l.b2, st);
    InitKeys(l.t1);
    InitKeys(l.t2);
    if l.t1 != [] {
      LastIsOldest(KeysOf(l.t1), st);
      InitTakes(KeysOf(l.t1));
    }
    if l.t2 != [] {
      LastIsOldest(KeysOf(l.t2), st);
      InitTakes(KeysOf(l.t2));
    }
  }

  /** The key a put sends out of a full cache: as for replace(), and from T1 also if T2 is empty. */
  ghost predicate PutVictim<K(!new), V>(l: Lists<K, V>, c: nat, p: real, key: K, st: Stamps<K>, x: K) {
    && |l.t1| + |l.t2| == c
    && if l.t1 != [] && (l.t2 == [] || |l.t1| > p.Floor || (|l.t1| == p.Floor && key in l.b2))
       then Oldest(KeysOf(l.t1), st, x)
       else Oldest(KeysOf(l.t2), st, x)
  }

  lemma {:induction false} EnteredT2<K(!new), V>(r: Lists<K, V>, m: Lists<K, V>, key: K, val: V)
    requires m.t1 == r.t1 && m.t2 == [(key, val)] + r.t2
    ensures forall x {:trigger Resident(m, x)} {:trigger Resident(r, x)} ::
              Resident(m, x) <==> x == key || Resident(r, x)
  {
    assert KeysOf(m.t2) == [key] + KeysOf(r.t2);
  }

  lemma {:induction false} EnteredT1<K(!new), V>(r: Lists<K, V>, m: Lists<K, V>, key: K, val: V)
    requires m.t2 == r.t2 && m.t1 == [(key, val)] + r.t1
    ensures forall x {:trigger Resident(m, x)} {:trigger Resident(r, x)} ::
              Resident(m, x) <==> x == key || Resident(r, x)
  {
    assert KeysOf(m.t1) == [key] + KeysOf(r.t1);
  }

  lemma {:induction false} TouchEvicts<K(!new), V>(l: Lists<K, V>, key: K, val: V)
    requires OncePerKey(l) && Resident(l, key)
    ensures forall x {:trigger Resident(l, x)} {:trigger Resident(Touch(l, key, val), x)} ::
              Resident(Touch(l, key, val), x) <==> Resident(l, x)
  {
    if key in KeysOf(l.t1) {
      DropTakes(l.t1, key);
      EnteredT2(l.(t1 := Drop(l.t1, key)), Touch(l, key, val), key, val);
    } else {
      DropTakes(l.t2, key);
      EnteredT2(l.(t2 := Drop(l.t2, key)), Touch(l, key, val), key, val);
    }
  }

  lemma {:induction false} GhostEvicts<K(!new), V>(l: Lists<K, V>, c: nat, p: real, key: K, val: V, st: Stamps<K>)
    requires OncePerKey(l) && Bounded(l, c, p) && Ordered(l, st) && !Resident(l, key) && (key in l.b1 || key in l.b2)
    ensures var q := NewTarget(l, c, p, key);
            var m := Put(l, c, q, key, val);
            && (forall x {:trigger Leaves(l, m, x)} :: Leaves(l, m, x) <==> PutVictim(l, c, q, key, st, x))
            && (forall x {:trigger Resident(m, x)} :: Resident(m, x) ==> x == key || Resident(l, x))
  {
    var q := NewTarget(l, c, p, key);
    GhostHitEvicts(l, c, p, key);
    ReplacedVictim(l, q, key, st);
    var r, m := Replaced(l, q, key), Put(l, c, q, key, val);
    EnteredT2(r, m, key, val);
    forall x
      ensures Leaves(l, m, x) <==> PutVictim(l, c, q, key, st, x)
    {
      assert Leaves(l, r, x) <==> Victim(l, q, key, st, x);
    }
  }

  lemma {:induction false} MissEvicts<K(!new), V>(l: Lists<K, V>, c: nat, p: real, key: K, val: V, st: Stamps<K>)
    requires OncePerKey(l) && Bounded(l, c, p) && Ordered(l, st) && !Listed(l, key)
    ensures var m := Put(l, c, p, key, val);
            && (forall x {:trigger Leaves(l, m, x)} :: Leaves(l, m, x) <==> PutVictim(l, c, p, key, st, x))
            && (forall x {:trigger Resident(m, x)} :: Resident(m, x) ==> x == key || Resident(l, x))
  {
    var r, m := MadeRoom(l, c, p, key), Put(l, c, p, key, val);
    EnteredT1(r, m, key, val);
    RoomVictim(l, c, p, key, st);
    forall x
      ensures Leaves(l, m, x) <==> PutVictim(l, c, p, key, st, x)
    {
      assert Leaves(l, r, x) <==> PutVictim(l, c, p, key, st, x);
    }
  }

  lemma {:induction false} RoomVictim<K(!new), V>(l: Lists<K, V>, c: nat, p: real, key: K, st: Stamps<K>)
    requires OncePerKey(l) && Bounded(l, c, p) && Ordered(l, st) && !Listed(l, key)
    ensures var r := MadeRoom(l, c, p, key);
            && (forall x {:trigger Leaves(l, r, x)} :: Leaves(l, r, x) <==> PutVictim(l, c, p, key, st, x))
            && (forall x {:trigger Resident(r, x)} :: Resident(r, x) ==> Resident(l, x))
  {
    var r := MadeRoom(l, c, p, key);
    if |l.t1| == c {
      PrefixRecent(KeysOf(l.t1), l.b1, st);
      LastIsOldest(KeysOf(l.t1), st);
      InitKeys(l.t1);
      InitTakes(KeysOf(l.t1));
    } else if |l.t1| + |l.t2| == c {
      var l' := if |Once(l)| == c then l.(b1 := Init(l.b1)) else if Total(l) == 2 * c then l.(b2 := Init(l.b2)) else l;
      ShorterOrdered(l, l', st);
      ReplacedVictim(l', p, key, st);
      forall x
        ensures Leaves(l, r, x) <==> PutVictim(l, c, p, key, st, x)
      {
        assert Leaves(l', r, x) <==> Victim(l', p, key, st, x);
      }
    }
  }

  lemma {:induction false} ShorterOrdered<K(!new), V>(l: Lists<K, V>, m: Lists<K, V>, st: Stamps<K>)
    requires OncePerKey(l) && Ordered(l, st)
    requires m == l || m == l.(b1 := Init(l.b1)) || m == l.(b2 := Init(l.b2))
    ensures OncePerKey(m) && Ordered(m, st)
    ensures forall x {:trigger x in m.b2} :: x in m.b2 ==> x in l.b2
  {
    ForgetOldest(l);
    InitRecent(Once(l), st);
    InitRecent(Again(l), st);
    if l.b1 != [] {
      InitAfter(KeysOf(l.t1), l.b1);
    }
    if l.b2 != [] {
      InitAfter(KeysOf(l.t2), l.b2);
    }
  }

  /** A put brings in its key.  If the key was not cached and the cache is full, the victim that
      the target names leaves; nothing else does. */
  lemma {:induction false} PutEvicts<K(!new), V>(l: Lists<K, V>, c: nat, p: real, key: K, val: V, st: Stamps<K>)
    requires OncePerKey(l) && Bounded(l, c, p) && Ordered(l, st)
    ensures var q := NewTarget(l, c, p, key);
            var m := Put(l, c, q, key, val);
            && (forall x {:trigger Leaves(l, m, x)} ::
                  Leaves(l, m, x) <==> !Resident(l, key) && PutVictim(l, c, q, key, st, x))
            && (forall x {:trigger Resident(m, x)} :: Resident(m, x) ==> x == key || Resident(l, x))
  {
    if Resident(l, key) {
      TouchEvicts(l, key, val);
    } else if key in l.b1 || key in l.b2 {
      GhostEvicts(l, c, p, key, val, st);
    } else {
      MissEvicts(l, c, p, key, val, st);
    }
  }

  // ----- what is forgotten

  ghost predicate Forgotten<K(!new), V>(l: Lists<K, V>, m: Lists<K, V>, x: K) {
    Listed(l, x) && !Listed(m, x)
  }

  /** A put of a listed key forgets nothing.  A complete miss forgets the least recently used of
      the keys used once when there are c of these, else, when all four lists hold 2c keys, the
      least recently used of those used again. */
  lemma {:induction false} PutForgets<K(!new), V>(l: Lists<K, V>, c: nat, p: real, key: K, val: V, st: Stamps<K>)
    requires OncePerKey(l) && Bounded(l, c, p) && Ordered(l, st)
    ensures var m := Put(l, c, NewTarget(l, c, p, key), key, val);
            && Listed(m, key)
            && (forall x {:trigger Listed(m, x)} :: Listed(m, x) ==> x == key || Listed(l, x))
            && (forall x {:trigger Forgotten(l, m, x)} :: Forgotten(l, m, x) <==>
                  && !Listed(l, key)
                  && if |Once(l)| == c then Oldest(Once(l), st, x)
                     else Total(l) == 2 * c && Oldest(Again(l), st, x))
  {
    var q := NewTarget(l, c, p, key);
    if Listed(l, key) {
      PutPromotes(l, c, q, key, val);
      PromotedListed(l, Put(l, c, q, key, val), key, st);
    } else {
      MissForgets(l, c, p, key, val, st);
    }
  }

  lemma {:induction false} PromotedListed<K(!new), V>(l: Lists<K, V>, m: Lists<K, V>, key: K, st: Stamps<K>)
    requires Ordered(l, st) && Promotes(l, m, key) && Listed(l, key)
    ensures forall x {:trigger Listed(m, x)} {:trigger Listed(l, x)} :: Listed(m, x) <==> Listed(l, x)
  {
    if key in Once(l) {
      DropRecent(Once(l), st, key);
      assert key !in Again(l);
    } else {
      DropRecent(Again(l), st, key);
    }
  }

  /** A key enters at the front and the last one leaves. */
  lemma {:induction false} EntersAndLeaves<K(!new)>(s: seq<K>, st: Stamps<K>, key: K)
    requires Recent(s, st) && s != [] && key !in s
    ensures forall x {:trigger Oldest(s, st, x)} :: Oldest(s, st, x) <==> x in s && x !in [key] + Init(s)
    ensures forall x {:trigger x in [key] + Init(s)} :: x in [key] + Init(s) ==> x == key || x in s
  {
    RecentOnce(s, st);
    LastIsOldest(s, st);
    InitTakes(s);
  }

  lemma {:induction false} LastLeaves<K(!new)>(s: seq<K>, st: Stamps<K>)
    requires Recent(s, st) && s != []
    ensures forall x {:trigger Oldest(s, st, x)} :: Oldest(s, st, x) <==> x in s && x !in Init(s)
    ensures forall x {:trigger x in Init(s)} :: x in Init(s) ==> x in s
  {
    RecentOnce(s, st);
    LastIsOldest(s, st);
    InitTakes(s);
  }

  lemma {:induction false} MissForgets<K(!new), V>(l: Lists<K, V>, c: nat, p: real, key: K, val: V, st: Stamps<K>)
    requires OncePerKey(l) && Bounded(l, c, p) && Ordered(l, st) && !Listed(l, key)
    ensures var m := Put(l, c, p, key, val);
            && Listed(m, key)
            && (forall x {:trigger Listed(m, x)} :: Listed(m, x) ==> x == key || Listed(l, x))
            && (forall x {:trigger Forgotten(l, m, x)} :: Forgotten(l, m, x) <==>
                  if |Once(l)| == c then Oldest(Once(l), st, x)
                  else Total(l) == 2 * c && Oldest(Again(l), st, x))
  {
    var r := MadeRoom(l, c, p, key);
    MadeRoomLists(l, c, p, key);
    FrontedKeys(key, val, r.t1, r.b1);
    MissForgetsAt(l, Put(l, c, p, key, val), c, key, st);
  }

  lemma {:induction false} MissForgetsAt<K(!new), V>(l: Lists<K, V>, m: Lists<K, V>, c: nat, key: K, st: Stamps<K>)
    requires Ordered(l, st) && !Listed(l, key) && 1 <= c
    requires Once(m) == [key] + (if |Once(l)| == c then Init(Once(l)) else Once(l))
    requires Again(m) == if |Once(l)| < c && Total(l) == 2 * c then Init(Again(l)) else Again(l)
    requires |Once(l)| <= c
    ensures Listed(m, key)
    ensures forall x {:trigger Listed(m, x)} :: Listed(m, x) ==> x == key || Listed(l, x)
    ensures forall x {:trigger Forgotten(l, m, x)} :: Forgotten(l, m, x) <==>
                if |Once(l)| == c then Oldest(Once(l), st, x)
                else Total(l) == 2 * c && Oldest(Again(l), st, x)
  {
    assert key in Once(m);
    if |Once(l)| == c {
      EntersAndLeaves(Once(l), st, key);
    } else if Total(l) == 2 * c {
      LastLeaves(Again(l), st);
    }
  }
}
