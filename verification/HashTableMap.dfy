/**
 What the hash table is to its users: growth keeps the entries and turns round those of equal hash,
 and on keys that are pairwise unequal the table is a finite map over any run of operations.
 */
module HashTableMap {
  import opened Basics
  import opened HashTable

  // ----- growth

  function Reverse<T>(s: seq<T>): (r: seq<T>)
    ensures |r| == |s|
    decreases |s|
  {
    if s == [] then [] else [s[|s| - 1]] + Reverse(s[..|s| - 1])
  }

  /** The entries with hash `hv`, in order. */
  function WithHash<K, V>(es: seq<Entry<K, V>>, hv: nat): seq<Entry<K, V>>
    decreases |es|
  {
    if es == [] then []
    else
      var rest := WithHash(es[..|es| - 1], hv);
      if es[|es| - 1].h == hv then rest + [es[|es| - 1]] else rest
  }

  lemma {:induction false} WithHashConcat<K, V>(a: seq<Entry<K, V>>, b: seq<Entry<K, V>>, hv: nat)
    ensures WithHash(a + b, hv) == WithHash(a, hv) + WithHash(b, hv)
    decreases |b|
  {
    if b == [] {
      assert a + b == a;
    } else {
      var rest := b[..|b| - 1];
      assert (a + b)[..|a + b| - 1] == a + rest;
      WithHashConcat(a, rest, hv);
    }
  }

  lemma {:induction false} WithHashBucket<K, V>(es: seq<Entry<K, V>>, n: nat, j: nat, hv: nat)
    requires n > 0
    ensures WithHash(Bucket(es, n, j), hv) == if hv % n == j then Reverse(WithHash(es, hv)) else []
    decreases |es|
  {
    if es != [] {
      var rest, last := es[..|es| - 1], es[|es| - 1];
      WithHashBucket(rest, n, j, hv);
      if last.h % n == j {
        WithHashConcat([last], Bucket(rest, n, j), hv);
        assert WithHash([last], hv) == if last.h == hv then [last] else [] by {
          assert [last][..0] == [];
        }
        if last.h == hv {
          var w := WithHash(rest, hv);
          assert (w + [last])[..|w|] == w;
        }
      } else if last.h == hv {
        assert hv % n != j;
      }
    }
  }

  lemma JoinOne<T>(a: seq<T>, b: seq<T>, c: seq<T>, r: nat, j: nat)
    requires j > 0 && a == (if r < j - 1 then c else []) && b == if r == j - 1 then c else []
    ensures a + b == if r < j then c else []
  {
  }

  lemma {:induction false} WithHashFlat<K, V>(es: seq<Entry<K, V>>, n: nat, j: nat, hv: nat)
    requires n > 0
    ensures WithHash(Flat(es, n, j), hv) == if hv % n < j then Reverse(WithHash(es, hv)) else []
    decreases j
  {
    if j > 0 {
      var a, b := Flat(es, n, j - 1), Bucket(es, n, j - 1);
      WithHashFlat(es, n, j - 1, hv);
      WithHashBucket(es, n, j - 1, hv);
      WithHashConcat(a, b, hv);
      JoinOne(WithHash(a, hv), WithHash(b, hv), Reverse(WithHash(es, hv)), hv % n, j);
    }
  }

  /** Growing keeps every entry, once, and reverses the entries of equal hash. */
  lemma GrowthReversesEqualHashes<K, V>(es: seq<Entry<K, V>>, n: nat, hv: nat)
    requires n > 0 && Distinct(es)
    ensures Distinct(Flat(es, n, n)) && |Flat(es, n, n)| == |es|
    ensures forall e :: e in es <==> e in Flat(es, n, n)
    ensures WithHash(Flat(es, n, n), hv) == Reverse(WithHash(es, hv))
  {
    FlatDistinct(es, n, n);
    FlatCounts(es, n);
    forall e ensures e in es <==> e in Flat(es, n, n) { InFlat(es, n, n, e); }
    WithHashFlat(es, n, n, hv);
  }

  /** Position of the first entry that matches, or -1. */
  ghost function Oldest<K(!new), V>(t: HashTable<K, V>, es: seq<Entry<K, V>>, k: K): (r: int)
    ensures -1 <= r < |es|
    decreases |es|
  {
    if es == [] then -1
    else
      var o := Oldest(t, es[..|es| - 1], k);
      if o >= 0 then o else if t.Matches(es[|es| - 1], k) then |es| - 1 else -1
  }

  /** Value found at a position. */
  ghost function At<K, V>(es: seq<Entry<K, V>>, i: int): Option<Entry<K, V>>
    requires -1 <= i < |es|
  {
    if i < 0 then None else Some(es[i])
  }

  lemma {:induction false} NewestWithHash<K(!new), V>(t: HashTable<K, V>, es: seq<Entry<K, V>>, k: K)
    ensures At(es, t.Newest(es, k)) == At(WithHash(es, t.hash(k)), t.Newest(WithHash(es, t.hash(k)), k))
    decreases |es|
  {
    if es != [] {
      var rest, last := es[..|es| - 1], es[|es| - 1];
      NewestWithHash(t, rest, k);
      var w := WithHash(rest, t.hash(k));
      if last.h == t.hash(k) { assert (w + [last])[..|w|] == w; }
    }
  }

  lemma {:induction false} OldestWithHash<K(!new), V>(t: HashTable<K, V>, es: seq<Entry<K, V>>, k: K)
    ensures At(es, Oldest(t, es, k)) == At(WithHash(es, t.hash(k)), Oldest(t, WithHash(es, t.hash(k)), k))
    decreases |es|
  {
    if es != [] {
      var rest, last := es[..|es| - 1], es[|es| - 1];
      OldestWithHash(t, rest, k);
      var w := WithHash(rest, t.hash(k));
      if last.h == t.hash(k) { assert (w + [last])[..|w|] == w; }
    }
  }

  lemma {:induction false} NewestPrepend<K(!new), V>(t: HashTable<K, V>, e: Entry<K, V>, es: seq<Entry<K, V>>, k: K)
    ensures At([e] + es, t.Newest([e] + es, k)) ==
      if t.Newest(es, k) >= 0 then At(es, t.Newest(es, k)) else if t.Matches(e, k) then Some(e) else None
    decreases |es|
  {
    var all := [e] + es;
    if es == [] {
      assert all[..0] == [];
    } else {
      assert all[..|es|] == [e] + es[..|es| - 1];
      NewestPrepend(t, e, es[..|es| - 1], k);
    }
  }

  lemma {:induction false} NewestReverse<K(!new), V>(t: HashTable<K, V>, es: seq<Entry<K, V>>, k: K)
    ensures At(Reverse(es), t.Newest(Reverse(es), k)) == At(es, Oldest(t, es, k))
    decreases |es|
  {
    if es != [] {
      var rest, last := es[..|es| - 1], es[|es| - 1];
      NewestReverse(t, rest, k);
      NewestPrepend(t, last, Reverse(rest), k);
    }
  }

  /** Of several entries for one key, search finds the newest; after the table grew, the oldest. */
  lemma SearchAfterGrowthFindsOldest<K(!new), V>(t: HashTable<K, V>, es: seq<Entry<K, V>>, n: nat, k: K)
    requires n > 0
    ensures At(Flat(es, n, n), t.Newest(Flat(es, n, n), k)) == At(es, Oldest(t, es, k))
  {
    var f, hv := Flat(es, n, n), t.hash(k);
    NewestWithHash(t, f, k);
    WithHashFlat(es, n, n, hv);
    NewestReverse(t, WithHash(es, hv), k);
    OldestWithHash(t, es, k);
  }

  // ----- a finite map

  /** Equality is an equivalence on the admitted keys, and equal keys have equal hashes. */
  ghost predicate Lawful<K(!new)>(hash: K -> nat, eq: (K, K) -> bool, ok: K -> bool) {
    (forall a :: ok(a) ==> eq(a, a)) &&
    (forall a, b :: ok(a) && ok(b) && eq(a, b) ==> eq(b, a) && hash(a) == hash(b)) &&
    (forall a, b, c :: ok(a) && ok(b) && ok(c) && eq(a, b) && eq(b, c) ==> eq(a, c))
  }

  /** The stored keys are admitted and pairwise unequal. */
  ghost predicate Keyed<K(!new), V>(t: HashTable<K, V>, es: seq<Entry<K, V>>, ok: K -> bool) {
    Lawful(t.hash, t.eqfn, ok) &&
    (forall i :: 0 <= i < |es| ==> ok(es[i].k) && es[i].h == t.hash(es[i].k)) &&
    (forall i, j :: 0 <= i < |es| && 0 <= j < |es| && i != j ==> !t.eqfn(es[i].k, es[j].k))
  }

  ghost function AsMap<K(!new), V>(es: seq<Entry<K, V>>): map<K, V>
    decreases |es|
  {
    if es == [] then map[] else AsMap(es[..|es| - 1])[es[|es| - 1].k := es[|es| - 1].v]
  }

  /** The stored key equal to `k`, if any. */
  ghost function Find<K(!new), V>(m: map<K, V>, eq: (K, K) -> bool, k: K): Option<V> {
    if r :| r in m && eq(k, r) then Some(m[r]) else None
  }

  ghost function Delete<K(!new), V>(m: map<K, V>, eq: (K, K) -> bool, k: K): map<K, V> {
    map r | r in m && !eq(k, r) :: m[r]
  }

  lemma {:induction false} AsMapEntry<K(!new), V>(t: HashTable<K, V>, es: seq<Entry<K, V>>, ok: K -> bool, i: nat)
    requires Keyed(t, es, ok) && i < |es|
    ensures es[i].k in AsMap(es) && AsMap(es)[es[i].k] == es[i].v
    decreases |es|
  {
    var last := |es| - 1;
    if i < last {
      AsMapEntry(t, es[..last], ok, i);
      assert !t.eqfn(es[i].k, es[last].k);
    }
  }

  lemma {:induction false} AsMapKey<K(!new), V>(es: seq<Entry<K, V>>, k: K) returns (i: nat)
    requires k in AsMap(es)
    ensures i < |es| && es[i].k == k
    decreases |es|
  {
    var last := |es| - 1;
    if es[last].k == k { i := last; } else { i := AsMapKey(es[..last], k); }
  }

  /** The map does not depend on the order of the entries. */
  lemma SameEntriesSameMap<K(!new), V>(t: HashTable<K, V>, es: seq<Entry<K, V>>, fs: seq<Entry<K, V>>, ok: K -> bool)
    requires Keyed(t, es, ok) && Keyed(t, fs, ok) && forall e :: e in es <==> e in fs
    ensures AsMap(es) == AsMap(fs)
  {
    SubMap(t, es, fs, ok);
    SubMap(t, fs, es, ok);
  }

  lemma SubMap<K(!new), V>(t: HashTable<K, V>, es: seq<Entry<K, V>>, fs: seq<Entry<K, V>>, ok: K -> bool)
    requires Keyed(t, es, ok) && Keyed(t, fs, ok) && forall e :: e in es ==> e in fs
    ensures forall k :: k in AsMap(es) ==> k in AsMap(fs) && AsMap(fs)[k] == AsMap(es)[k]
  {
    forall k | k in AsMap(es) ensures k in AsMap(fs) && AsMap(fs)[k] == AsMap(es)[k] {
      var i := AsMapKey(es, k);
      AsMapEntry(t, es, ok, i);
      assert es[i] in es;
      var j :| 0 <= j < |fs| && fs[j] == es[i];
      AsMapEntry(t, fs, ok, j);
    }
  }

  lemma KeyedGrowth<K(!new), V>(t: HashTable<K, V>, es: seq<Entry<K, V>>, n: nat, ok: K -> bool)
    requires n > 0 && Distinct(es) && Keyed(t, es, ok)
    ensures Keyed(t, Flat(es, n, n), ok) && AsMap(Flat(es, n, n)) == AsMap(es)
  {
    var f := Flat(es, n, n);
    GrowthReversesEqualHashes(es, n, 0);
    forall i, j | 0 <= i < |f| && 0 <= j < |f| && i != j ensures !t.eqfn(f[i].k, f[j].k) {
      assert f[i] in es && f[j] in es;
      var a :| 0 <= a < |es| && es[a] == f[i];
      var b :| 0 <= b < |es| && es[b] == f[j];
      assert f[i] != f[j] by { if i < j { assert f[i] != f[j]; } else { assert f[j] != f[i]; } }
    }
    forall i | 0 <= i < |f| ensures ok(f[i].k) && f[i].h == t.hash(f[i].k) {
      assert f[i] in es;
    }
    SameEntriesSameMap(t, es, f, ok);
  }

  /** At most one stored key is equal to `k`, and it is the one the chains are searched for. */
  lemma EqualIffNewest<K(!new), V>(t: HashTable<K, V>, es: seq<Entry<K, V>>, ok: K -> bool, k: K, j: nat)
    requires Keyed(t, es, ok) && ok(k) && j < |es|
    ensures t.eqfn(k, es[j].k) <==> t.Newest(es, k) == j
  {
    var i := t.Newest(es, k);
    if i >= 0 && i != j { assert !t.eqfn(es[j].k, es[i].k); }
  }

  /** Search is lookup in the map: on lawful keys it finds a value iff an equal key is stored. */
  lemma SearchIsFind<K(!new), V>(t: HashTable<K, V>, es: seq<Entry<K, V>>, ok: K -> bool, k: K)
    requires Keyed(t, es, ok) && ok(k)
    ensures Find(AsMap(es), t.eqfn, k) == if t.Newest(es, k) < 0 then None else Some(es[t.Newest(es, k)].v)
  {
    var m, i := AsMap(es), t.Newest(es, k);
    forall r | r in m && t.eqfn(k, r) ensures i >= 0 && r == es[i].k {
      var j := AsMapKey(es, r);
      EqualIffNewest(t, es, ok, k, j);
    }
    if i >= 0 { AsMapEntry(t, es, ok, i); }
  }

  /** Remove deletes the equal key, if there is one. */
  lemma RemoveIsDelete<K(!new), V>(t: HashTable<K, V>, es: seq<Entry<K, V>>, ok: K -> bool, k: K)
    requires Keyed(t, es, ok) && ok(k)
    ensures var i := t.Newest(es, k);
      var now := if i < 0 then es else Without(es, i);
      Keyed(t, now, ok) && AsMap(now) == Delete(AsMap(es), t.eqfn, k)
  {
    var i := t.Newest(es, k);
    if i < 0 {
      forall r | r in AsMap(es) ensures !t.eqfn(k, r) {
        var j := AsMapKey(es, r);
        EqualIffNewest(t, es, ok, k, j);
      }
    } else {
      KeyedWithout(t, es, ok, i);
      KeptKeys(t, es, ok, k, i);
      DeletedKey(t, es, ok, k, i);
      assert AsMap(Without(es, i)) == Delete(AsMap(es), t.eqfn, k);
    }
  }

  /** What is left after a removal was there before, under a key unequal to `k`. */
  lemma KeptKeys<K(!new), V>(t: HashTable<K, V>, es: seq<Entry<K, V>>, ok: K -> bool, k: K, i: nat)
    requires Keyed(t, es, ok) && ok(k) && i < |es| && i == t.Newest(es, k) && Keyed(t, Without(es, i), ok)
    ensures forall r :: r in AsMap(Without(es, i)) ==>
      r in AsMap(es) && !t.eqfn(k, r) && AsMap(Without(es, i))[r] == AsMap(es)[r]
  {
    var now := Without(es, i);
    forall r | r in AsMap(now) ensures r in AsMap(es) && !t.eqfn(k, r) && AsMap(now)[r] == AsMap(es)[r] {
      var j := AsMapKey(now, r);
      AsMapEntry(t, now, ok, j);
      var x := if j < i then j else j + 1;
      AsMapEntry(t, es, ok, x);
      EqualIffNewest(t, es, ok, k, x);
    }
  }

  lemma DeletedKey<K(!new), V>(t: HashTable<K, V>, es: seq<Entry<K, V>>, ok: K -> bool, k: K, i: nat)
    requires Keyed(t, es, ok) && ok(k) && i < |es| && i == t.Newest(es, k) && Keyed(t, Without(es, i), ok)
    ensures forall r :: r in AsMap(es) && !t.eqfn(k, r) ==> r in AsMap(Without(es, i))
  {
    var now := Without(es, i);
    forall r | r in AsMap(es) && !t.eqfn(k, r) ensures r in AsMap(now) {
      var x := AsMapKey(es, r);
      EqualIffNewest(t, es, ok, k, x);
      var j := WithoutKeeps(es, i, x);
      AsMapEntry(t, now, ok, j);
    }
  }

  lemma WithoutKeeps<T>(s: seq<T>, at: nat, x: nat) returns (j: nat)
    requires at < |s| && x < |s| && x != at
    ensures j < |s| - 1 && Without(s, at)[j] == s[x]
  {
    j := if x < at then x else x - 1;
  }

  lemma KeyedWithout<K(!new), V>(t: HashTable<K, V>, es: seq<Entry<K, V>>, ok: K -> bool, at: nat)
    requires Keyed(t, es, ok) && at < |es|
    ensures Keyed(t, Without(es, at), ok)
  {
    var now := Without(es, at);
    assert forall j :: 0 <= j < |now| ==> now[j] == es[if j < at then j else j + 1];
  }

  lemma InsertIsUpdate<K(!new), V>(t: HashTable<K, V>, es: seq<Entry<K, V>>, e: Entry<K, V>, ok: K -> bool)
    requires Keyed(t, es, ok) && ok(e.k) && e.h == t.hash(e.k) && Find(AsMap(es), t.eqfn, e.k) == None
    ensures Keyed(t, es + [e], ok) && AsMap(es + [e]) == AsMap(es)[e.k := e.v]
  {
    var now := es + [e];
    assert now[..|es|] == es;
    forall i, j | 0 <= i < |now| && 0 <= j < |now| && i != j ensures !t.eqfn(now[i].k, now[j].k) {
      if i == |es| { NewKeyUnequal(t, es, e, ok, j); }
      else if j == |es| { NewKeyUnequal(t, es, e, ok, i); }
      else { assert now[i] == es[i] && now[j] == es[j]; }
    }
  }

  lemma NewKeyUnequal<K(!new), V>(t: HashTable<K, V>, es: seq<Entry<K, V>>, e: Entry<K, V>, ok: K -> bool, i: nat)
    requires Keyed(t, es, ok) && ok(e.k) && Find(AsMap(es), t.eqfn, e.k) == None && i < |es|
    ensures !t.eqfn(es[i].k, e.k) && !t.eqfn(e.k, es[i].k)
  {
    AsMapEntry(t, es, ok, i);
  }

  // ----- any run of operations

  datatype Op<K, V> = Insert(key: K, value: V) | Search(key: K) | Remove(key: K)

  /** The map after the operation. */
  ghost function Step<K(!new), V>(m: map<K, V>, eq: (K, K) -> bool, op: Op<K, V>): map<K, V> {
    match op
    case Insert(k, v) => m[k := v]
    case Search(_) => m
    case Remove(k) => Delete(m, eq, k)
  }

  ghost function Result<K(!new), V>(m: map<K, V>, eq: (K, K) -> bool, op: Op<K, V>): Option<V> {
    match op
    case Insert(_, _) => None
    case Search(k) => Find(m, eq, k)
    case Remove(k) => Find(m, eq, k)
  }

  ghost function MapAfter<K(!new), V>(m: map<K, V>, eq: (K, K) -> bool, ops: seq<Op<K, V>>): map<K, V>
    decreases |ops|
  {
    if ops == [] then m else Step(MapAfter(m, eq, ops[..|ops| - 1]), eq, ops[|ops| - 1])
  }

  /** Admitted keys only, and no insertion of a key equal to a stored one. */
  ghost predicate Admissible<K(!new), V>(m: map<K, V>, eq: (K, K) -> bool, ok: K -> bool, ops: seq<Op<K, V>>) {
    forall i :: 0 <= i < |ops| ==>
      ok(ops[i].key) && (ops[i].Insert? ==> Find(MapAfter(m, eq, ops[..i]), eq, ops[i].key) == None)
  }

  /** The results so far are those of the map. */
  ghost predicate Agrees<K(!new), V>(m: map<K, V>, eq: (K, K) -> bool, ops: seq<Op<K, V>>, results: seq<Option<V>>) {
    |results| <= |ops| &&
    forall i :: 0 <= i < |results| ==> results[i] == Result(MapAfter(m, eq, ops[..i]), eq, ops[i])
  }

  lemma OneMore<K(!new), V>(m: map<K, V>, eq: (K, K) -> bool, ops: seq<Op<K, V>>, results: seq<Option<V>>, r: Option<V>)
    requires Agrees(m, eq, ops, results) && |results| < |ops|
    requires r == Result(MapAfter(m, eq, ops[..|results|]), eq, ops[|results|])
    ensures Agrees(m, eq, ops, results + [r])
    ensures var i := |results|; MapAfter(m, eq, ops[..i + 1]) == Step(MapAfter(m, eq, ops[..i]), eq, ops[i])
  {
    var i := |results|;
    assert ops[..i + 1][..i] == ops[..i];
  }

  /** Any run of insert, search and remove gives the results of the same run on a finite map. */
  method RunOperations<K(!new), V>(t: HashTable<K, V>, ops: seq<Op<K, V>>, ghost ok: K -> bool)
      returns (results: seq<Option<V>>)
    requires t.Valid() && Keyed(t, t.order, ok)
    requires Admissible(AsMap(t.order), t.eqfn, ok, ops)
    modifies t, t.table, set e | e in t.order
    ensures t.Valid() && Keyed(t, t.order, ok)
    ensures AsMap(t.order) == MapAfter(old(AsMap(t.order)), t.eqfn, ops)
    ensures |results| == |ops| && Agrees(old(AsMap(t.order)), t.eqfn, ops, results)
  {
    ghost var m := AsMap(t.order);
    results := [];
    var i := 0;
    while i < |ops|
      invariant 0 <= i <= |ops| && |results| == i
      invariant t.Valid() && Keyed(t, t.order, ok)
      invariant t.table == old(t.table) || fresh(t.table)
      invariant forall e :: e in t.order ==> e in old(t.order) || fresh(e)
      invariant AsMap(t.order) == MapAfter(m, t.eqfn, ops[..i])
      invariant Agrees(m, t.eqfn, ops, results)
    {
      var r := RunOne(t, ops[i], ok);
      OneMore(m, t.eqfn, ops, results, r);
      results := results + [r];
      i := i + 1;
    }
    assert ops[..|ops|] == ops;
  }

  method RunOne<K(!new), V>(t: HashTable<K, V>, op: Op<K, V>, ghost ok: K -> bool) returns (r: Option<V>)
    requires t.Valid() && Keyed(t, t.order, ok) && ok(op.key)
    requires op.Insert? ==> Find(AsMap(t.order), t.eqfn, op.key) == None
    modifies t, t.table, set e | e in t.order
    ensures t.Valid() && Keyed(t, t.order, ok)
    ensures t.table == old(t.table) || fresh(t.table)
    ensures forall e :: e in t.order ==> e in old(t.order) || fresh(e)
    ensures op.Insert? ==> |t.order| == |old(t.order)| + 1
    ensures AsMap(t.order) == Step(old(AsMap(t.order)), t.eqfn, op)
    ensures r == Result(old(AsMap(t.order)), t.eqfn, op)
  {
    match op
    case Insert(k, v) =>
      RunInsert(t, k, v, ok);
      r := None;
    case Search(k) =>
      SearchIsFind(t, t.order, ok, k);
      r := t.Search(k);
    case Remove(k) =>
      SearchIsFind(t, t.order, ok, k);
      RemoveIsDelete(t, t.order, ok, k);
      r := t.Remove(k);
  }

  method RunInsert<K(!new), V>(t: HashTable<K, V>, k: K, v: V, ghost ok: K -> bool)
    requires t.Valid() && Keyed(t, t.order, ok) && ok(k)
    requires Find(AsMap(t.order), t.eqfn, k) == None
    modifies t, t.table, set e | e in t.order
    ensures t.Valid() && Keyed(t, t.order, ok) && AsMap(t.order) == old(AsMap(t.order))[k := v]
    ensures t.table == old(t.table) || fresh(t.table)
    ensures |t.order| == |old(t.order)| + 1 && forall e :: e in t.order ==> e in old(t.order) || fresh(e)
  {
    ghost var was, grown := t.order, t.Grown();
    assert Keyed(t, grown, ok) && AsMap(grown) == AsMap(was) by { KeyedGrowth(t, was, t.table.Length, ok); }
    t.Insert(k, v);
    ghost var e := t.order[|was|];
    assert t.order == grown + [e];
    InsertIsUpdate(t, grown, e, ok);
  }
}
