/**
 The four lists of the adaptive replacement cache as values: what get, put and replace make of
 them, and what they keep.  Front is index 0, the most recently used end.
 */
module ArcLists {

  datatype Lists<K, V> = Lists(t1: seq<(K, V)>, t2: seq<(K, V)>, b1: seq<K>, b2: seq<K>)

  function KeysOf<K, V>(t: seq<(K, V)>): (k: seq<K>)
    ensures |k| == |t| && forall i :: 0 <= i < |t| ==> k[i] == t[i].0
  {
    seq(|t|, i requires 0 <= i < |t| => t[i].0)
  }

  /** The list without the cell of the key. */
  function Drop<K(==), V>(t: seq<(K, V)>, key: K): seq<(K, V)> {
    if t == [] then [] else if t[0].0 == key then t[1..] else [t[0]] + Drop(t[1..], key)
  }

  function DropKey<K(==)>(b: seq<K>, key: K): seq<K> {
    if b == [] then [] else if b[0] == key then b[1..] else [b[0]] + DropKey(b[1..], key)
  }

  function Init<T>(s: seq<T>): seq<T> {
    if s == [] then [] else s[..|s| - 1]
  }

  /** replace(): the oldest of T1 or of T2 leaves the cache and its key is remembered. */
  function Replaced<K(==), V>(l: Lists<K, V>, p: real, key: K): Lists<K, V> {
    if l.t1 != [] && (|l.t1| > p.Floor || (key in l.b2 && |l.t1| == p.Floor)) then
      Lists(Init(l.t1), l.t2, [l.t1[|l.t1| - 1].0] + l.b1, l.b2)
    else if l.t2 != [] then
      Lists(l.t1, Init(l.t2), l.b1, [l.t2[|l.t2| - 1].0] + l.b2)
    else l
  }

  /** The target size of T1 after a put: it grows when a key of B1 is asked for again and shrinks
      for one of B2. */
  function NewTarget<K(==), V>(l: Lists<K, V>, c: nat, p: real, key: K): real {
    if key in KeysOf(l.t1) || key in KeysOf(l.t2) then p
    else if key in l.b1 then
      var delta := if |l.b1| >= |l.b2| then 1.0 else |l.b2| as real / |l.b1| as real;
      if c as real < p + delta then c as real else p + delta
    else if key in l.b2 then
      var delta := if |l.b2| >= |l.b1| then 1.0 else |l.b1| as real / |l.b2| as real;
      if 0.0 < p - delta then p - delta else 0.0
    else p
  }

  function Resident<K(==), V>(l: Lists<K, V>, key: K): bool {
    key in KeysOf(l.t1) || key in KeysOf(l.t2)
  }

  function Total<K, V>(l: Lists<K, V>): nat {
    |l.t1| + |l.t2| + |l.b1| + |l.b2|
  }

  /** A miss makes room before the new key enters T1. */
  function MadeRoom<K(==), V>(l: Lists<K, V>, c: nat, p: real, key: K): Lists<K, V> {
    var l1, l2 := |l.t1| + |l.b1|, |l.t2| + |l.b2|;
    if l1 == c then
      if |l.t1| < c then Replaced(l.(b1 := Init(l.b1)), p, key) else l.(t1 := Init(l.t1))
    else if l1 < c && l1 + l2 >= c then
      Replaced(if l1 + l2 == 2 * c then l.(b2 := Init(l.b2)) else l, p, key)
    else l
  }

  /** The lists after a put; p is the target after it. */
  function Put<K(==), V>(l: Lists<K, V>, c: nat, p: real, key: K, val: V): Lists<K, V> {
    if key in KeysOf(l.t1) then l.(t1 := Drop(l.t1, key), t2 := [(key, val)] + l.t2)
    else if key in KeysOf(l.t2) then l.(t2 := [(key, val)] + Drop(l.t2, key))
    else if key in l.b1 then
      var r := Replaced(l, p, key);
      r.(b1 := DropKey(r.b1, key), t2 := [(key, val)] + r.t2)
    else if key in l.b2 then
      var r := Replaced(l, p, key);
      r.(b2 := DropKey(r.b2, key), t2 := [(key, val)] + r.t2)
    else
      var m := MadeRoom(l, c, p, key);
      m.(t1 := [(key, val)] + m.t1)
  }

  /** The lists after a get that finds the key. */
  function Touch<K(==), V>(l: Lists<K, V>, key: K, val: V): Lists<K, V> {
    if key in KeysOf(l.t1) then l.(t1 := Drop(l.t1, key), t2 := [(key, val)] + l.t2)
    else l.(t2 := [(key, val)] + Drop(l.t2, key))
  }

  // ----- the four lists hold different keys

  ghost predicate NoDup<K>(s: seq<K>) {
    forall i, j {:trigger s[i], s[j]} :: 0 <= i < j < |s| ==> s[i] != s[j]
  }

  ghost predicate Apart<K(!new)>(a: seq<K>, b: seq<K>) {
    forall x {:trigger x in a} {:trigger x in b} :: x in a ==> x !in b
  }

  /** No key is listed twice, in one list or in two. */
  ghost predicate OncePerKey<K(!new), V>(l: Lists<K, V>) {
    var k1, k2 := KeysOf(l.t1), KeysOf(l.t2);
    && NoDup(k1) && NoDup(k2) && NoDup(l.b1) && NoDup(l.b2)
    && Apart(k1, k2) && Apart(k1, l.b1) && Apart(k1, l.b2) && Apart(k2, l.b1) && Apart(k2, l.b2) && Apart(l.b1, l.b2)
  }

  /** The sizes: the target is in range, T1 and B1 hold at most c, all four at most 2c, and the
      cache is as full as it can be. */
  predicate Bounded<K, V>(l: Lists<K, V>, c: nat, p: real) {
    && 1 <= c && 0.0 <= p <= c as real
    && |l.t1| + |l.b1| <= c && Total(l) <= 2 * c
    && |l.t1| + |l.t2| == if Total(l) < c then Total(l) else c
  }

  /** Every value in the cache is the last one put for its key. */
  ghost predicate Current<K, V>(t: seq<(K, V)>, last: map<K, V>) {
    forall i {:trigger t[i]} :: 0 <= i < |t| ==> t[i].0 in last && last[t[i].0] == t[i].1
  }

  // ----- the elementary changes

  /** b is a with the key taken out. */
  ghost predicate Taken<K(!new)>(a: seq<K>, b: seq<K>, key: K) {
    NoDup(b) && forall x {:trigger x in b} :: x in b <==> x in a && x != key
  }

  lemma {:induction false} TailKeys<K(!new), V>(t: seq<(K, V)>)
    requires t != []
    ensures KeysOf(t) != [] && KeysOf(t)[0] == t[0].0 && KeysOf(t)[1..] == KeysOf(t[1..])
  {
  }

  lemma {:induction false} HeadKeys<K(!new), V>(cell: (K, V), t: seq<(K, V)>)
    ensures KeysOf([cell] + t) == [cell.0] + KeysOf(t)
  {
  }

  lemma {:induction false} DropTakes<K(!new), V>(t: seq<(K, V)>, key: K)
    requires NoDup(KeysOf(t)) && key in KeysOf(t)
    ensures Taken(KeysOf(t), KeysOf(Drop(t, key)), key) && |Drop(t, key)| == |t| - 1
    decreases |t|
  {
    var k := KeysOf(t);
    TailKeys(t);
    assert k == [k[0]] + k[1..];
    HeadOff(k, k[1..]);
    if t[0].0 != key {
      DropTakes(t[1..], key);
      HeadKeys(t[0], Drop(t[1..], key));
      HeadOn(t[0].0, KeysOf(t[1..]), KeysOf(Drop(t[1..], key)), key);
    }
  }

  lemma {:induction false} HeadOn<K(!new)>(h: K, a: seq<K>, b: seq<K>, key: K)
    requires Taken(a, b, key) && h != key && h !in a
    ensures Taken([h] + a, [h] + b, key)
  {
    forall i, j | 0 <= i < j < |[h] + b|
      ensures ([h] + b)[i] != ([h] + b)[j]
    {
      assert b[j - 1] in b;
    }
  }

  lemma {:induction false} HeadOff<K(!new)>(k: seq<K>, rest: seq<K>)
    requires NoDup(k) && k != [] && k == [k[0]] + rest
    ensures Taken(k, rest, k[0])
  {
    forall i, j | 0 <= i < j < |rest|
      ensures rest[i] != rest[j]
    {
      assert rest[i] == k[i + 1] && rest[j] == k[j + 1];
    }
    forall x | x in rest
      ensures x != k[0]
    {
      var i :| 0 <= i < |rest| && rest[i] == x;
      assert k[i + 1] == x;
    }
  }

  lemma {:induction false} DropKeyTakes<K(!new)>(b: seq<K>, key: K)
    requires NoDup(b) && key in b
    ensures Taken(b, DropKey(b, key), key) && |DropKey(b, key)| == |b| - 1
    decreases |b|
  {
    assert b == [b[0]] + b[1..];
    HeadOff(b, b[1..]);
    if b[0] != key {
      DropKeyTakes(b[1..], key);
      HeadOn(b[0], b[1..], DropKey(b[1..], key), key);
    }
  }

  lemma {:induction false} InitTakes<K(!new)>(k: seq<K>)
    requires NoDup(k) && k != []
    ensures Taken(k, Init(k), k[|k| - 1])
  {
    var m := Init(k);
    assert k == m + [k[|k| - 1]];
    forall x | x in m
      ensures x != k[|k| - 1]
    {
      var i :| 0 <= i < |m| && m[i] == x;
      assert k[i] == x;
    }
  }

  lemma {:induction false} InitKeys<K, V>(t: seq<(K, V)>)
    ensures KeysOf(Init(t)) == Init(KeysOf(t))
  {
  }

  lemma {:induction false} Fronted<K(!new)>(k: seq<K>, key: K)
    requires NoDup(k) && key !in k
    ensures NoDup([key] + k)
  {
    forall i, j | 0 <= i < j < |[key] + k|
      ensures ([key] + k)[i] != ([key] + k)[j]
    {
      assert k[j - 1] in k;
    }
  }

  /** A key nowhere listed may enter T1 or T2. */
  lemma {:induction false} EnterT1<K(!new), V>(l: Lists<K, V>, key: K, val: V)
    requires OncePerKey(l) && !Resident(l, key) && key !in l.b1 && key !in l.b2
    ensures OncePerKey(l.(t1 := [(key, val)] + l.t1))
  {
    Fronted(KeysOf(l.t1), key);
    assert KeysOf([(key, val)] + l.t1) == [key] + KeysOf(l.t1);
  }

  lemma {:induction false} EnterT2<K(!new), V>(l: Lists<K, V>, key: K, val: V)
    requires OncePerKey(l) && !Resident(l, key) && key !in l.b1 && key !in l.b2
    ensures OncePerKey(l.(t2 := [(key, val)] + l.t2))
  {
    Fronted(KeysOf(l.t2), key);
    assert KeysOf([(key, val)] + l.t2) == [key] + KeysOf(l.t2);
  }

  lemma {:induction false} LeaveT1<K(!new), V>(l: Lists<K, V>, key: K)
    requires OncePerKey(l) && key in KeysOf(l.t1)
    ensures var m := l.(t1 := Drop(l.t1, key));
            OncePerKey(m) && !Resident(m, key) && key !in m.b1 && key !in m.b2 && |m.t1| == |l.t1| - 1
  {
    DropTakes(l.t1, key);
  }

  lemma {:induction false} LeaveT2<K(!new), V>(l: Lists<K, V>, key: K)
    requires OncePerKey(l) && key in KeysOf(l.t2)
    ensures var m := l.(t2 := Drop(l.t2, key));
            OncePerKey(m) && !Resident(m, key) && key !in m.b1 && key !in m.b2 && |m.t2| == |l.t2| - 1
  {
    DropTakes(l.t2, key);
  }

  lemma {:induction false} LeaveB1<K(!new), V>(l: Lists<K, V>, key: K)
    requires OncePerKey(l) && key in l.b1
    ensures var m := l.(b1 := DropKey(l.b1, key));
            OncePerKey(m) && !Resident(m, key) && key !in m.b1 && key !in m.b2 && |m.b1| == |l.b1| - 1
  {
    DropKeyTakes(l.b1, key);
  }

  lemma {:induction false} LeaveB2<K(!new), V>(l: Lists<K, V>, key: K)
    requires OncePerKey(l) && key in l.b2
    ensures var m := l.(b2 := DropKey(l.b2, key));
            OncePerKey(m) && !Resident(m, key) && key !in m.b1 && key !in m.b2 && |m.b2| == |l.b2| - 1
  {
    DropKeyTakes(l.b2, key);
  }

  lemma {:induction false} ForgetOldest<K(!new), V>(l: Lists<K, V>)
    requires OncePerKey(l)
    ensures OncePerKey(l.(b1 := Init(l.b1))) && OncePerKey(l.(b2 := Init(l.b2))) && OncePerKey(l.(t1 := Init(l.t1)))
    ensures forall x {:trigger x in Init(l.b1)} :: x in Init(l.b1) ==> x in l.b1
    ensures forall x {:trigger x in Init(l.b2)} :: x in Init(l.b2) ==> x in l.b2
    ensures forall x {:trigger x in KeysOf(Init(l.t1))} :: x in KeysOf(Init(l.t1)) ==> x in KeysOf(l.t1)
  {
    InitKeys(l.t1);
    if l.b1 != [] { InitTakes(l.b1); }
    if l.b2 != [] { InitTakes(l.b2); }
    if l.t1 != [] { InitTakes(KeysOf(l.t1)); }
  }

  lemma {:induction false} DemoteT1<K(!new), V>(l: Lists<K, V>, key: K)
    requires OncePerKey(l) && l.t1 != [] && !Resident(l, key)
    ensures var m := Lists(Init(l.t1), l.t2, [l.t1[|l.t1| - 1].0] + l.b1, l.b2);
            OncePerKey(m) && !Resident(m, key) && (key in m.b1 <==> key in l.b1) && m.b2 == l.b2
  {
    var k := KeysOf(l.t1);
    InitKeys(l.t1);
    InitTakes(k);
    assert k[|k| - 1] in k;
    Fronted(l.b1, k[|k| - 1]);
  }

  lemma {:induction false} DemoteT2<K(!new), V>(l: Lists<K, V>, key: K)
    requires OncePerKey(l) && l.t2 != [] && !Resident(l, key)
    ensures var m := Lists(l.t1, Init(l.t2), l.b1, [l.t2[|l.t2| - 1].0] + l.b2);
            OncePerKey(m) && !Resident(m, key) && (key in m.b2 <==> key in l.b2) && m.b1 == l.b1
  {
    var k := KeysOf(l.t2);
    InitKeys(l.t2);
    InitTakes(k);
    assert k[|k| - 1] in k;
    Fronted(l.b2, k[|k| - 1]);
  }

  lemma {:induction false} ReplacedOnce<K(!new), V>(l: Lists<K, V>, p: real, key: K)
    requires OncePerKey(l) && !Resident(l, key)
    ensures var m := Replaced(l, p, key);
            OncePerKey(m) && !Resident(m, key) && (key in m.b1 <==> key in l.b1) && (key in m.b2 <==> key in l.b2)
  {
    if l.t1 != [] {
      DemoteT1(l, key);
    }
    if l.t2 != [] {
      DemoteT2(l, key);
    }
  }

  // ----- what every call keeps

  lemma {:induction false} TouchOnce<K(!new), V>(l: Lists<K, V>, key: K, val: V)
    requires OncePerKey(l) && Resident(l, key)
    ensures OncePerKey(Touch(l, key, val))
    ensures Total(Touch(l, key, val)) == Total(l) && |Touch(l, key, val).b1| == |l.b1|
    ensures |Touch(l, key, val).t1| <= |l.t1|
    ensures |Touch(l, key, val).t1| + |Touch(l, key, val).t2| == |l.t1| + |l.t2|
  {
    if key in KeysOf(l.t1) {
      LeaveT1(l, key);
      EnterT2(l.(t1 := Drop(l.t1, key)), key, val);
    } else {
      LeaveT2(l, key);
      EnterT2(l.(t2 := Drop(l.t2, key)), key, val);
    }
  }

  lemma {:induction false} MadeRoomOnce<K(!new), V>(l: Lists<K, V>, c: nat, p: real, key: K)
    requires OncePerKey(l) && !Resident(l, key) && key !in l.b1 && key !in l.b2
    ensures var m := MadeRoom(l, c, p, key); OncePerKey(m) && !Resident(m, key) && key !in m.b1 && key !in m.b2
  {
    ForgetOldest(l);
    ReplacedOnce(l, p, key);
    ReplacedOnce(l.(b1 := Init(l.b1)), p, key);
    ReplacedOnce(l.(b2 := Init(l.b2)), p, key);
  }

  /** A put keeps every key in one place. */
  lemma {:induction false} PutOnce<K(!new), V>(l: Lists<K, V>, c: nat, p: real, key: K, val: V)
    requires OncePerKey(l)
    ensures OncePerKey(Put(l, c, p, key, val))
  {
    if Resident(l, key) {
      TouchOnce(l, key, val);
    } else {
      ReplacedOnce(l, p, key);
      var r := Replaced(l, p, key);
      if key in l.b1 {
        LeaveB1(r, key);
        EnterT2(r.(b1 := DropKey(r.b1, key)), key, val);
      } else if key in l.b2 {
        LeaveB2(r, key);
        EnterT2(r.(b2 := DropKey(r.b2, key)), key, val);
      } else {
        MadeRoomOnce(l, c, p, key);
        EnterT1(MadeRoom(l, c, p, key), key, val);
      }
    }
  }

  /** How much a hit on a remembered key moves the target: the size of the other list of
      remembered keys over that of its own, and at least 1. */
  function Step(own: nat, other: nat): real
    requires own > 0
  {
    var ratio := other as real / own as real;
    if ratio < 1.0 then 1.0 else ratio
  }

  /** A key of B1 raises the target by its step or to c, one of B2 lowers it by its step or to 0,
      and no other key moves it. */
  lemma {:induction false} TargetInRange<K(!new), V>(l: Lists<K, V>, c: nat, p: real, key: K)
    requires 0.0 <= p <= c as real && OncePerKey(l)
    ensures var q := NewTarget(l, c, p, key);
            && 0.0 <= q <= c as real
            && (key in l.b1 ==> q == p + Step(|l.b1|, |l.b2|) || (q == c as real < p + Step(|l.b1|, |l.b2|)))
            && (key in l.b2 ==> q == p - Step(|l.b2|, |l.b1|) || (q == 0.0 > p - Step(|l.b2|, |l.b1|)))
            && (key !in l.b1 && key !in l.b2 ==> q == p)
  {
    if |l.b1| > 0 {
      RatioAboveOne(|l.b2|, |l.b1|);
    }
    if |l.b2| > 0 {
      RatioAboveOne(|l.b1|, |l.b2|);
    }
  }

  lemma {:induction false} RatioAboveOne(a: nat, b: nat)
    requires b > 0
    ensures a > b ==> a as real / b as real > 1.0
    ensures a <= b ==> a as real / b as real <= 1.0
  {
    var q := a as real / b as real;
    assert q * b as real == a as real;
    TimesRatio(q, b as real);
  }

  lemma {:induction false} TimesRatio(q: real, b: real)
    requires b > 0.0
    ensures q <= 1.0 ==> q * b <= b
    ensures q > 1.0 ==> q * b > b
  {
  }

  /** A key of B1 or B2 is asked for again: replace always finds a victim, because T2 is empty
      only if T1 fills the cache, and then the target is below c. */
  lemma {:induction false} GhostHitEvicts<K(!new), V>(l: Lists<K, V>, c: nat, p: real, key: K)
    requires OncePerKey(l) && Bounded(l, c, p) && !Resident(l, key) && (key in l.b1 || key in l.b2)
    ensures var r := Replaced(l, NewTarget(l, c, p, key), key);
            && Total(r) == Total(l) && |r.t1| + |r.t2| == c - 1
            && |r.t1| + |r.b1| == |l.t1| + |l.b1|
  {
    TargetInRange(l, c, p, key);
    if l.t2 == [] {
      assert |l.t1| == c;
      assert |l.b1| == 0 && key !in l.b1;
      FloorBelow(NewTarget(l, c, p, key), c);
    }
  }

  lemma {:induction false} FloorBelow(p: real, c: nat)
    requires p <= c as real - 1.0 || (p == 0.0 && c >= 1)
    ensures p.Floor < c
  {
  }

  lemma {:induction false} MissBounded<K(!new), V>(l: Lists<K, V>, c: nat, p: real, key: K, val: V)
    requires Bounded(l, c, p) && !Resident(l, key) && key !in l.b1 && key !in l.b2
    ensures Bounded(Put(l, c, p, key, val), c, p)
  {
  }

  lemma {:induction false} GhostBounded<K(!new), V>(l: Lists<K, V>, c: nat, p: real, key: K, val: V)
    requires OncePerKey(l) && Bounded(l, c, p) && !Resident(l, key) && (key in l.b1 || key in l.b2)
    ensures Bounded(Put(l, c, NewTarget(l, c, p, key), key, val), c, NewTarget(l, c, p, key))
  {
    var p' := NewTarget(l, c, p, key);
    TargetInRange(l, c, p, key);
    GhostHitEvicts(l, c, p, key);
    ReplacedOnce(l, p', key);
    var r := Replaced(l, p', key);
    if key in l.b1 {
      LeaveB1(r, key);
    } else {
      LeaveB2(r, key);
    }
  }

  /** Every put keeps the size bounds. */
  lemma {:induction false} PutBounded<K(!new), V>(l: Lists<K, V>, c: nat, p: real, key: K, val: V)
    requires OncePerKey(l) && Bounded(l, c, p)
    ensures Bounded(Put(l, c, NewTarget(l, c, p, key), key, val), c, NewTarget(l, c, p, key))
  {
    if Resident(l, key) {
      TouchOnce(l, key, val);
    } else if key in l.b1 || key in l.b2 {
      GhostBounded(l, c, p, key, val);
    } else {
      MissBounded(l, c, p, key, val);
    }
  }

  // ----- values

  lemma {:induction false} DropCurrent<K(!new), V>(t: seq<(K, V)>, key: K, last: map<K, V>, val: V)
    requires Current(t, last) && NoDup(KeysOf(t))
    ensures Current(Drop(t, key), last) && Current(Drop(t, key), last[key := val])
    decreases |t|
  {
    if t != [] {
      var k := KeysOf(t);
      assert k == [t[0].0] + KeysOf(t[1..]);
      HeadOff(k, KeysOf(t[1..]));
      DropCurrent(t[1..], key, last, val);
      if t[0].0 == key {
        forall i | 0 <= i < |t[1..]|
          ensures t[1..][i].0 in last && last[t[1..][i].0] == t[1..][i].1 && t[1..][i].0 != key
        {
          assert t[1..][i] == t[i + 1];
          assert KeysOf(t[1..])[i] in KeysOf(t[1..]);
        }
      }
    }
  }

  lemma {:induction false} OthersCurrent<K(!new), V>(t: seq<(K, V)>, key: K, last: map<K, V>, val: V)
    requires Current(t, last) && key !in KeysOf(t)
    ensures Current(t, last[key := val])
  {
    forall i | 0 <= i < |t|
      ensures t[i].0 in last[key := val] && last[key := val][t[i].0] == t[i].1
    {
      assert KeysOf(t)[i] in KeysOf(t);
    }
  }

  lemma {:induction false} PutResident<K(!new), V>(l: Lists<K, V>, c: nat, p: real, key: K, val: V)
    ensures Resident(Put(l, c, p, key, val), key)
  {
    var m := Put(l, c, p, key, val);
    if Resident(l, key) || key in l.b1 || key in l.b2 {
      assert KeysOf(m.t2)[0] == key;
    } else {
      assert KeysOf(m.t1)[0] == key;
    }
  }

  lemma {:induction false} ShorterCurrent<K, V>(t: seq<(K, V)>, last: map<K, V>)
    requires Current(t, last)
    ensures Current(Init(t), last)
  {
  }

  lemma {:induction false} FrontedCurrent<K, V>(t: seq<(K, V)>, key: K, val: V, last: map<K, V>)
    requires Current(t, last) && key in last && last[key] == val
    ensures Current([(key, val)] + t, last)
  {
  }

  /** After a put the cache holds the new value for the key and the last values for the others. */
  lemma {:induction false} PutCurrent<K(!new), V>(l: Lists<K, V>, c: nat, p: real, key: K, val: V, last: map<K, V>)
    requires OncePerKey(l) && Current(l.t1, last) && Current(l.t2, last)
    ensures var m := Put(l, c, p, key, val); Current(m.t1, last[key := val]) && Current(m.t2, last[key := val])
  {
    var last' := last[key := val];
    if key in KeysOf(l.t1) {
      DropCurrent(l.t1, key, last, val);
      OthersCurrent(l.t2, key, last, val);
      FrontedCurrent(l.t2, key, val, last');
    } else if key in KeysOf(l.t2) {
      DropCurrent(l.t2, key, last, val);
      OthersCurrent(l.t1, key, last, val);
      FrontedCurrent(Drop(l.t2, key), key, val, last');
    } else {
      OthersCurrent(l.t1, key, last, val);
      OthersCurrent(l.t2, key, last, val);
      NewCurrent(l, c, p, key, val, last');
    }
  }

  lemma {:induction false} NewCurrent<K(!new), V>(l: Lists<K, V>, c: nat, p: real, key: K, val: V, last: map<K, V>)
    requires Current(l.t1, last) && Current(l.t2, last) && !Resident(l, key) && key in last && last[key] == val
    ensures var m := Put(l, c, p, key, val); Current(m.t1, last) && Current(m.t2, last)
  {
    ShorterCurrent(l.t1, last);
    ShorterCurrent(l.t2, last);
    var r := if key in l.b1 || key in l.b2 then Replaced(l, p, key) else MadeRoom(l, c, p, key);
    FrontedCurrent(r.t1, key, val, last);
    FrontedCurrent(r.t2, key, val, last);
  }

  /** The value found for a resident key. */
  lemma {:induction false} TouchCurrent<K(!new), V>(l: Lists<K, V>, key: K, val: V, last: map<K, V>)
    requires OncePerKey(l) && Current(l.t1, last) && Current(l.t2, last) && key in last && last[key] == val
    ensures var m := Touch(l, key, val); Current(m.t1, last) && Current(m.t2, last)
  {
    DropCurrent(l.t1, key, last, val);
    DropCurrent(l.t2, key, last, val);
  }
}
