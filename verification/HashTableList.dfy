/**
 What the hash table is on any keys, equal ones and unlawful comparisons included: a list of pairs. An
 insertion appends, after turning the list round if the table grows; search and remove take the last match.
 */
module HashTableList {
  import opened Basics
  import opened HashTable
  import opened HashTableMap

  datatype Pair<K, V> = Pair(key: K, value: V)

  /** The list, and the position in the table of primes. */
  datatype Listing<K, V> = Listing(pairs: seq<Pair<K, V>>, primeindex: nat)

  ghost predicate Meets<K(!new)>(hash: K -> nat, eq: (K, K) -> bool, stored: K, k: K) {
    hash(stored) == hash(k) && eq(k, stored)
  }

  /** The last pair whose key a lookup takes for `k`. */
  ghost function LastMatch<K(!new), V>(ps: seq<Pair<K, V>>, hash: K -> nat, eq: (K, K) -> bool, k: K): (r: Option<Pair<K, V>>)
    ensures r == None <==> forall i :: 0 <= i < |ps| ==> !Meets(hash, eq, ps[i].key, k)
    ensures r.Some? ==> r.value in ps && Meets(hash, eq, r.value.key, k)
    decreases |ps|
  {
    if ps == [] then None
    else if Meets(hash, eq, ps[|ps| - 1].key, k) then Some(ps[|ps| - 1])
    else
      var r := LastMatch(ps[..|ps| - 1], hash, eq, k);
      assert forall i :: 0 <= i < |ps| - 1 ==> ps[..|ps| - 1][i] == ps[i];
      r
  }

  ghost function WithoutLast<K(!new), V>(ps: seq<Pair<K, V>>, hash: K -> nat, eq: (K, K) -> bool, k: K): (r: seq<Pair<K, V>>)
    ensures |r| == if LastMatch(ps, hash, eq, k) == None then |ps| else |ps| - 1
    decreases |ps|
  {
    if ps == [] then []
    else if Meets(hash, eq, ps[|ps| - 1].key, k) then ps[..|ps| - 1]
    else WithoutLast(ps[..|ps| - 1], hash, eq, k) + [ps[|ps| - 1]]
  }

  ghost predicate GrowsAt(count: nat, primeindex: nat) {
    primeindex < PRIME_TABLE_LENGTH - 1 && count + 1 > LoadLimit(Prime(primeindex))
  }

  ghost function Append<K(!new), V>(l: Listing<K, V>, p: Pair<K, V>): Listing<K, V> {
    if GrowsAt(|l.pairs|, l.primeindex) then Listing(Reverse(l.pairs) + [p], l.primeindex + 1)
    else l.(pairs := l.pairs + [p])
  }

  ghost function ListStep<K(!new), V>(l: Listing<K, V>, hash: K -> nat, eq: (K, K) -> bool, op: Op<K, V>): Listing<K, V> {
    match op
    case Insert(k, v) => Append(l, Pair(k, v))
    case Search(_) => l
    case Remove(k) => l.(pairs := WithoutLast(l.pairs, hash, eq, k))
  }

  ghost function ValueOf<K(!new), V>(p: Option<Pair<K, V>>): Option<V> {
    if p.Some? then Some(p.value.value) else None
  }

  ghost function ListResult<K(!new), V>(l: Listing<K, V>, hash: K -> nat, eq: (K, K) -> bool, op: Op<K, V>): Option<V> {
    if op.Insert? then None else ValueOf(LastMatch(l.pairs, hash, eq, op.key))
  }

  ghost function ListAfter<K(!new), V>(l: Listing<K, V>, hash: K -> nat, eq: (K, K) -> bool, ops: seq<Op<K, V>>): Listing<K, V>
    decreases |ops|
  {
    if ops == [] then l else ListStep(ListAfter(l, hash, eq, ops[..|ops| - 1]), hash, eq, ops[|ops| - 1])
  }

  // ----- table and list have the same pairs of every hash, in the same order

  ghost function PairsOf<K(!new), V>(es: seq<Entry<K, V>>): (r: seq<Pair<K, V>>)
    ensures |r| == |es|
    decreases |es|
  {
    if es == [] then [] else PairsOf(es[..|es| - 1]) + [Pair(es[|es| - 1].k, es[|es| - 1].v)]
  }

  ghost function OfHash<K(!new), V>(ps: seq<Pair<K, V>>, hash: K -> nat, hv: nat): seq<Pair<K, V>>
    decreases |ps|
  {
    if ps == [] then []
    else
      var rest := OfHash(ps[..|ps| - 1], hash, hv);
      if hash(ps[|ps| - 1].key) == hv then rest + [ps[|ps| - 1]] else rest
  }

  ghost predicate SameOfHash<K(!new), V>(t: HashTable<K, V>, es: seq<Entry<K, V>>, ps: seq<Pair<K, V>>, hv: nat) {
    PairsOf(WithHash(es, hv)) == OfHash(ps, t.hash, hv)
  }

  ghost predicate Hashed<K(!new), V>(t: HashTable<K, V>, es: seq<Entry<K, V>>) {
    forall i :: 0 <= i < |es| ==> es[i].h == t.hash(es[i].k)
  }

  /** The table does what the list says. */
  ghost predicate Lists<K(!new), V>(t: HashTable<K, V>, l: Listing<K, V>)
    reads t
  {
    l.primeindex == t.primeindex && |l.pairs| == |t.order| && forall hv: nat :: SameOfHash(t, t.order, l.pairs, hv)
  }

  lemma {:induction false} PairsAppend<K(!new), V>(es: seq<Entry<K, V>>, e: Entry<K, V>)
    ensures PairsOf(es + [e]) == PairsOf(es) + [Pair(e.k, e.v)]
  {
    assert (es + [e])[..|es|] == es;
  }

  lemma {:induction false} PairsConcat<K(!new), V>(e: Entry<K, V>, es: seq<Entry<K, V>>)
    ensures PairsOf([e] + es) == [Pair(e.k, e.v)] + PairsOf(es)
    decreases |es|
  {
    if es == [] {
      assert [e] + es == [] + [e];
      PairsAppend([], e);
    } else {
      var rest, last := es[..|es| - 1], es[|es| - 1];
      PairsConcat(e, rest);
      assert ([e] + es)[..|es|] == [e] + rest;
      Associative([Pair(e.k, e.v)], PairsOf(rest), [Pair(last.k, last.v)]);
    }
  }

  lemma {:induction false} PairsReverse<K(!new), V>(es: seq<Entry<K, V>>)
    ensures PairsOf(Reverse(es)) == Reverse(PairsOf(es))
    decreases |es|
  {
    if es != [] {
      var rest, last := es[..|es| - 1], es[|es| - 1];
      PairsReverse(rest);
      PairsConcat(last, Reverse(rest));
      assert PairsOf(es)[..|rest|] == PairsOf(rest);
    }
  }

  lemma OfHashAppend<K(!new), V>(ps: seq<Pair<K, V>>, p: Pair<K, V>, hash: K -> nat, hv: nat)
    ensures OfHash(ps + [p], hash, hv) == OfHash(ps, hash, hv) + if hash(p.key) == hv then [p] else []
  {
    assert (ps + [p])[..|ps|] == ps;
  }

  lemma {:induction false} OfHashPrepend<K(!new), V>(p: Pair<K, V>, ps: seq<Pair<K, V>>, hash: K -> nat, hv: nat)
    ensures OfHash([p] + ps, hash, hv) == (if hash(p.key) == hv then [p] else []) + OfHash(ps, hash, hv)
    decreases |ps|
  {
    if ps == [] {
      assert [p] + ps == [] + [p];
      OfHashAppend([], p, hash, hv);
    } else {
      var rest, last := ps[..|ps| - 1], ps[|ps| - 1];
      OfHashPrepend(p, rest, hash, hv);
      assert [p] + ps == ([p] + rest) + [last];
      OfHashAppend([p] + rest, last, hash, hv);
    }
  }

  lemma {:induction false} OfHashReverse<K(!new), V>(ps: seq<Pair<K, V>>, hash: K -> nat, hv: nat)
    ensures OfHash(Reverse(ps), hash, hv) == Reverse(OfHash(ps, hash, hv))
    decreases |ps|
  {
    if ps != [] {
      var rest, last := ps[..|ps| - 1], ps[|ps| - 1];
      OfHashReverse(rest, hash, hv);
      OfHashPrepend(last, Reverse(rest), hash, hv);
      var w := OfHash(rest, hash, hv);
      if hash(last.key) == hv { assert (w + [last])[..|w|] == w; }
    }
  }

  /** A table lists its own entries, in the order they would have been pushed. */
  lemma {:induction false} OwnListing<K(!new), V>(t: HashTable<K, V>, es: seq<Entry<K, V>>, hv: nat)
    requires Hashed(t, es)
    ensures SameOfHash(t, es, PairsOf(es), hv)
    decreases |es|
  {
    if es != [] {
      var rest, last := es[..|es| - 1], es[|es| - 1];
      OwnListing(t, rest, hv);
      OfHashAppend(PairsOf(rest), Pair(last.k, last.v), t.hash, hv);
      if last.h == hv { PairsAppend(WithHash(rest, hv), last); }
    }
  }

  // ----- insertion

  lemma AppendedSame<K(!new), V>(t: HashTable<K, V>, es: seq<Entry<K, V>>, ps: seq<Pair<K, V>>, e: Entry<K, V>, hv: nat)
    requires SameOfHash(t, es, ps, hv) && e.h == t.hash(e.k)
    ensures SameOfHash(t, es + [e], ps + [Pair(e.k, e.v)], hv)
  {
    OfHashAppend(ps, Pair(e.k, e.v), t.hash, hv);
    assert (es + [e])[..|es|] == es;
    if e.h == hv { PairsAppend(WithHash(es, hv), e); }
  }

  lemma GrownSame<K(!new), V>(t: HashTable<K, V>, es: seq<Entry<K, V>>, ps: seq<Pair<K, V>>, n: nat, hv: nat)
    requires n > 0 && Distinct(es) && SameOfHash(t, es, ps, hv)
    ensures SameOfHash(t, Flat(es, n, n), Reverse(ps), hv)
  {
    GrowthReversesEqualHashes(es, n, hv);
    PairsReverse(WithHash(es, hv));
    OfHashReverse(ps, t.hash, hv);
  }

  /** `hashtable_insert` appends to the list, which growth turns round. */
  method InsertOne<K(!new), V>(t: HashTable<K, V>, k: K, v: V, ghost l: Listing<K, V>)
    requires t.Valid() && Lists(t, l)
    modifies t, t.table, set e | e in t.order
    ensures t.Valid() && Lists(t, Append(l, Pair(k, v)))
    ensures t.table == old(t.table) || fresh(t.table)
    ensures |t.order| == |old(t.order)| + 1 && forall e :: e in t.order ==> e in old(t.order) || fresh(e)
  {
    ghost var next, grown, ps, p := Prepared(t, l, Pair(k, v));
    t.Insert(k, v);
    assert t.primeindex == p;
    AppendedListed(t, grown, t.order[|grown|], ps, next);
  }

  /** Both sides of the growth step. */
  lemma Prepared<K(!new), V>(t: HashTable<K, V>, l: Listing<K, V>, p: Pair<K, V>)
    returns (next: Listing<K, V>, grown: seq<Entry<K, V>>, ps: seq<Pair<K, V>>, primeindex: nat)
    requires t.Valid() && Lists(t, l)
    ensures next == Append(l, p) && next == Listing(ps + [p], primeindex)
    ensures grown == t.Grown() && primeindex == t.primeindex + (if t.Grows() then 1 else 0)
    ensures |grown| == |ps| == |t.order| && forall hv: nat :: SameOfHash(t, grown, ps, hv)
  {
    grown, ps := t.Grown(), if t.Grows() then Reverse(l.pairs) else l.pairs;
    GrownListed(t, l, p, grown, ps);
    next, primeindex := Append(l, p), t.primeindex + if t.Grows() then 1 else 0;
  }

  lemma AppendedListed<K(!new), V>(t: HashTable<K, V>, es: seq<Entry<K, V>>, e: Entry<K, V>, ps: seq<Pair<K, V>>,
                                   next: Listing<K, V>)
    requires t.Valid() && |t.order| == |es| + 1 && t.order[..|es|] == es && t.order[|es|] == e && |ps| == |es|
    requires (forall hv: nat :: SameOfHash(t, es, ps, hv)) && next == Listing(ps + [Pair(e.k, e.v)], t.primeindex)
    ensures Lists(t, next)
  {
    assert t.order == es + [e];
    forall hv: nat ensures SameOfHash(t, t.order, ps + [Pair(e.k, e.v)], hv) {
      assert SameOfHash(t, es, ps, hv);
      AppendedSame(t, es, ps, e, hv);
    }
  }

  lemma GrownListed<K(!new), V>(t: HashTable<K, V>, l: Listing<K, V>, p: Pair<K, V>, grown: seq<Entry<K, V>>, ps: seq<Pair<K, V>>)
    requires t.Valid() && Lists(t, l) && grown == t.Grown() && ps == if t.Grows() then Reverse(l.pairs) else l.pairs
    ensures forall hv: nat :: SameOfHash(t, grown, ps, hv)
    ensures |grown| == |ps| == |t.order|
    ensures Append(l, p) == Listing(ps + [p], if t.Grows() then t.primeindex + 1 else t.primeindex)
  {
    if t.Grows() { GrowthReversesEqualHashes(t.order, t.table.Length, 0); }
    forall hv: nat ensures SameOfHash(t, grown, ps, hv) {
      assert SameOfHash(t, t.order, l.pairs, hv);
      GrownSame(t, t.order, l.pairs, t.table.Length, hv);
    }
  }

  // ----- search

  lemma {:induction false} MatchOfHash<K(!new), V>(ps: seq<Pair<K, V>>, hash: K -> nat, eq: (K, K) -> bool, k: K)
    ensures LastMatch(ps, hash, eq, k) == LastMatch(OfHash(ps, hash, hash(k)), hash, eq, k)
    decreases |ps|
  {
    if ps != [] {
      var rest, last := ps[..|ps| - 1], ps[|ps| - 1];
      MatchOfHash(rest, hash, eq, k);
      var w := OfHash(rest, hash, hash(k));
      if hash(last.key) == hash(k) { assert (w + [last])[..|w|] == w; }
    }
  }

  lemma {:induction false} NewestIsLast<K(!new), V>(t: HashTable<K, V>, es: seq<Entry<K, V>>, k: K)
    requires Hashed(t, es)
    ensures var i := t.Newest(es, k);
      LastMatch(PairsOf(es), t.hash, t.eqfn, k) == if i < 0 then None else Some(Pair(es[i].k, es[i].v))
    decreases |es|
  {
    if es != [] {
      var rest := es[..|es| - 1];
      NewestIsLast(t, rest, k);
      assert PairsOf(es)[..|rest|] == PairsOf(rest);
    }
  }

  /** Search finds the last match of the list. */
  lemma LookupIsLast<K(!new), V>(t: HashTable<K, V>, l: Listing<K, V>, k: K)
    requires t.Valid() && Lists(t, l)
    ensures t.Lookup(k) == ValueOf(LastMatch(l.pairs, t.hash, t.eqfn, k))
  {
    NewestIsLast(t, t.order, k);
    MatchOfHash(PairsOf(t.order), t.hash, t.eqfn, k);
    OwnListing(t, t.order, t.hash(k));
    assert SameOfHash(t, t.order, l.pairs, t.hash(k));
    MatchOfHash(l.pairs, t.hash, t.eqfn, k);
  }

  // ----- removal

  lemma {:induction false} OfHashWithoutLast<K(!new), V>(ps: seq<Pair<K, V>>, hash: K -> nat, eq: (K, K) -> bool, k: K, hv: nat)
    ensures var w := OfHash(ps, hash, hv);
      OfHash(WithoutLast(ps, hash, eq, k), hash, hv) == if hv == hash(k) then WithoutLast(w, hash, eq, k) else w
    decreases |ps|
  {
    if ps != [] {
      var rest, last := ps[..|ps| - 1], ps[|ps| - 1];
      OfHashWithoutLast(rest, hash, eq, k, hv);
      var w := OfHash(rest, hash, hv);
      if hash(last.key) == hv { assert (w + [last])[..|w|] == w; }
      if !Meets(hash, eq, last.key, k) { OfHashAppend(WithoutLast(rest, hash, eq, k), last, hash, hv); }
    }
  }

  lemma {:induction false} PairsWithoutNewest<K(!new), V>(t: HashTable<K, V>, es: seq<Entry<K, V>>, k: K)
    requires Hashed(t, es)
    ensures var i := t.Newest(es, k);
      PairsOf(if i < 0 then es else Without(es, i)) == WithoutLast(PairsOf(es), t.hash, t.eqfn, k)
    decreases |es|
  {
    if es != [] {
      var rest, last, i := es[..|es| - 1], es[|es| - 1], t.Newest(es, k);
      PairsWithoutNewest(t, rest, k);
      assert PairsOf(es)[..|rest|] == PairsOf(rest);
      if i >= 0 {
        WithoutOne(es, i);
        if i < |rest| { PairsAppend(Without(rest, i), last); }
      }
    }
  }

  lemma WithoutOne<T>(s: seq<T>, i: nat)
    requires i < |s|
    ensures Without(s, i) == if i == |s| - 1 then s[..i] else Without(s[..|s| - 1], i) + [s[|s| - 1]]
  {
  }

  /** Remove takes the last match off the list. */
  lemma RemovedSame<K(!new), V>(t: HashTable<K, V>, es: seq<Entry<K, V>>, ps: seq<Pair<K, V>>, k: K, now: seq<Entry<K, V>>, hv: nat)
    requires Hashed(t, es) && Hashed(t, now) && SameOfHash(t, es, ps, hv)
    requires now == if t.Newest(es, k) < 0 then es else Without(es, t.Newest(es, k))
    ensures SameOfHash(t, now, WithoutLast(ps, t.hash, t.eqfn, k), hv)
  {
    PairsWithoutNewest(t, es, k);
    OwnListing(t, now, hv);
    OwnListing(t, es, hv);
    OfHashWithoutLast(PairsOf(es), t.hash, t.eqfn, k, hv);
    OfHashWithoutLast(ps, t.hash, t.eqfn, k, hv);
  }

  method RemoveOne<K(!new), V>(t: HashTable<K, V>, k: K, ghost l: Listing<K, V>) returns (r: Option<V>)
    requires t.Valid() && Lists(t, l)
    modifies t, t.table, set e | e in t.order
    ensures t.Valid() && Lists(t, l.(pairs := WithoutLast(l.pairs, t.hash, t.eqfn, k))) && t.table == old(t.table)
    ensures r == ValueOf(LastMatch(l.pairs, t.hash, t.eqfn, k))
    ensures forall e :: e in t.order ==> e in old(t.order)
  {
    ghost var was, i := t.order, t.Newest(t.order, k);
    LookupIsLast(t, l, k);
    r := t.Remove(k);
    ghost var now := if i < 0 then was else Without(was, i);
    assert t.order == now;
    forall hv: nat ensures SameOfHash(t, now, WithoutLast(l.pairs, t.hash, t.eqfn, k), hv) {
      assert SameOfHash(t, was, l.pairs, hv);
      RemovedSame(t, was, l.pairs, k, now, hv);
    }
  }

  // ----- any run

  ghost predicate ListAgrees<K(!new), V>(l: Listing<K, V>, hash: K -> nat, eq: (K, K) -> bool, ops: seq<Op<K, V>>,
                                         results: seq<Option<V>>)
  {
    |results| <= |ops| &&
    forall i :: 0 <= i < |results| ==> results[i] == ListResult(ListAfter(l, hash, eq, ops[..i]), hash, eq, ops[i])
  }

  lemma OneMoreAgrees<K(!new), V>(l: Listing<K, V>, hash: K -> nat, eq: (K, K) -> bool, ops: seq<Op<K, V>>,
                                  results: seq<Option<V>>, now: Listing<K, V>, r: Option<V>)
    requires ListAgrees(l, hash, eq, ops, results) && |results| < |ops|
    requires now == ListAfter(l, hash, eq, ops[..|results|]) && r == ListResult(now, hash, eq, ops[|results|])
    ensures ListAgrees(l, hash, eq, ops, results + [r])
  {
    var i := |results|;
    forall j | 0 <= j < i + 1 ensures (results + [r])[j] == ListResult(ListAfter(l, hash, eq, ops[..j]), hash, eq, ops[j]) {
      if j < i { assert (results + [r])[j] == results[j]; }
    }
  }

  lemma OneMoreStep<K(!new), V>(l: Listing<K, V>, hash: K -> nat, eq: (K, K) -> bool, ops: seq<Op<K, V>>, i: nat)
    requires i < |ops|
    ensures ListAfter(l, hash, eq, ops[..i + 1]) == ListStep(ListAfter(l, hash, eq, ops[..i]), hash, eq, ops[i])
  {
    assert ops[..i + 1][..i] == ops[..i];
  }

  method DoOne<K(!new), V>(t: HashTable<K, V>, op: Op<K, V>, ghost l: Listing<K, V>) returns (r: Option<V>)
    requires t.Valid() && Lists(t, l)
    modifies t, t.table, set e | e in t.order
    ensures t.Valid() && Lists(t, ListStep(l, t.hash, t.eqfn, op)) && r == ListResult(l, t.hash, t.eqfn, op)
    ensures t.table == old(t.table) || fresh(t.table)
    ensures forall e :: e in t.order ==> e in old(t.order) || fresh(e)
  {
    match op
    case Insert(k, v) =>
      InsertOne(t, k, v, l);
      r := None;
    case Search(k) =>
      LookupIsLast(t, l, k);
      r := t.Search(k);
    case Remove(k) =>
      r := RemoveOne(t, k, l);
  }

  /** Any run of insert, search and remove, on any keys and any comparison, gives the results of the same run on the list. */
  method RunAnyOperations<K(!new), V>(t: HashTable<K, V>, ops: seq<Op<K, V>>, ghost l: Listing<K, V>)
      returns (results: seq<Option<V>>)
    requires t.Valid() && Lists(t, l)
    modifies t, t.table, set e | e in t.order
    ensures t.Valid() && Lists(t, ListAfter(l, t.hash, t.eqfn, ops))
    ensures |results| == |ops| && ListAgrees(l, t.hash, t.eqfn, ops, results)
  {
    results := [];
    ghost var now, hash, eq := l, t.hash, t.eqfn;
    assert ops[..0] == [];
    var i := 0;
    while i < |ops|
      invariant 0 <= i == |results| <= |ops| && t.Valid() && Lists(t, now)
      invariant now == ListAfter(l, hash, eq, ops[..i])
      invariant t.table == old(t.table) || fresh(t.table)
      invariant forall e :: e in t.order ==> e in old(t.order) || fresh(e)
      invariant ListAgrees(l, hash, eq, ops, results)
    {
      var r := DoOne(t, ops[i], now);
      OneMoreAgrees(l, hash, eq, ops, results, now, r);
      OneMoreStep(l, hash, eq, ops, i);
      now := ListStep(now, hash, eq, ops[i]);
      results := results + [r];
      i := i + 1;
    }
    assert ops[..i] == ops;
  }

  // ----- a table made from a list

  /** The list after inserting all pairs, from an empty table. */
  ghost function Listed<K(!new), V>(pairs: seq<Pair<K, V>>, primeindex: nat): Listing<K, V>
    decreases |pairs|
  {
    if pairs == [] then Listing([], primeindex) else Append(Listed(pairs[..|pairs| - 1], primeindex), pairs[|pairs| - 1])
  }

  lemma {:induction false} ReverseKeeps<T>(s: seq<T>)
    ensures multiset(Reverse(s)) == multiset(s)
    decreases |s|
  {
    if s != [] {
      ReverseKeeps(s[..|s| - 1]);
      assert s == s[..|s| - 1] + [s[|s| - 1]];
    }
  }

  lemma AppendKeeps<K(!new), V>(l: Listing<K, V>, p: Pair<K, V>)
    ensures multiset(Append(l, p).pairs) == multiset(l.pairs) + multiset{p}
  {
    ReverseKeeps(l.pairs);
  }

  /** It has the pairs, each as often as it was inserted. */
  lemma {:induction false} ListedKeeps<K(!new), V>(pairs: seq<Pair<K, V>>, primeindex: nat)
    ensures multiset(Listed(pairs, primeindex).pairs) == multiset(pairs)
    decreases |pairs|
  {
    if pairs != [] {
      var rest := pairs[..|pairs| - 1];
      ListedKeeps(rest, primeindex);
      AppendKeeps(Listed(rest, primeindex), pairs[|pairs| - 1]);
      assert pairs == rest + [pairs[|pairs| - 1]];
    }
  }

  /** While nothing grows it is the list itself. */
  lemma {:induction false} ListedSmall<K(!new), V>(pairs: seq<Pair<K, V>>, primeindex: nat)
    requires primeindex < PRIME_TABLE_LENGTH && |pairs| <= LoadLimit(Prime(primeindex))
    ensures Listed(pairs, primeindex) == Listing(pairs, primeindex)
    decreases |pairs|
  {
    if pairs != [] {
      var rest := pairs[..|pairs| - 1];
      ListedSmall(rest, primeindex);
      assert Listed(rest, primeindex).pairs == rest;
      assert pairs == rest + [pairs[|pairs| - 1]];
    }
  }

  /** Create a table and insert every pair. */
  method IndexAll<K(!new), V>(minsize: nat, pairs: seq<Pair<K, V>>, hash: K -> nat, eq: (K, K) -> bool)
      returns (t: HashTable<K, V>, ghost primeindex: nat)
    requires minsize <= 0x4000_0000
    ensures fresh(t) && t.Valid() && t.hash == hash && t.eqfn == eq && t.entrycount == |pairs|
    ensures primeindex < PRIME_TABLE_LENGTH && forall i :: 0 <= i < primeindex ==> Prime(i) <= minsize
    ensures Lists(t, Listed(pairs, primeindex))
  {
    var created: HashTable?<K, V> := HashTable<K, V>.Create(minsize, hash, eq);
    t := created;
    primeindex := t.primeindex;
    var i := 0;
    while i < |pairs|
      invariant 0 <= i <= |pairs| && fresh(t) && fresh(t.table) && forall e :: e in t.order ==> fresh(e)
      invariant t.Valid() && t.hash == hash && t.eqfn == eq && |t.order| == i && Lists(t, Listed(pairs[..i], primeindex))
    {
      assert pairs[..i + 1][..i] == pairs[..i];
      InsertOne(t, pairs[i].key, pairs[i].value, Listed(pairs[..i], primeindex));
      i := i + 1;
    }
    assert pairs[..|pairs|] == pairs;
  }

  /** What is found does not depend on the order, as far as that it is found and is a match. */
  lemma MatchAmong<K(!new), V>(ps: seq<Pair<K, V>>, pairs: seq<Pair<K, V>>, hash: K -> nat, eq: (K, K) -> bool, k: K)
    requires multiset(ps) == multiset(pairs)
    ensures LastMatch(ps, hash, eq, k) == None <==> forall i :: 0 <= i < |pairs| ==> !Meets(hash, eq, pairs[i].key, k)
    ensures LastMatch(ps, hash, eq, k).Some? ==> LastMatch(ps, hash, eq, k).value in pairs
  {
    var r := LastMatch(ps, hash, eq, k);
    if r.Some? {
      assert r.value in multiset(pairs);
      var j :| 0 <= j < |pairs| && pairs[j] == r.value;
      assert Meets(hash, eq, pairs[j].key, k);
    } else {
      forall i | 0 <= i < |pairs| ensures !Meets(hash, eq, pairs[i].key, k) {
        assert pairs[i] in multiset(ps);
        var j :| 0 <= j < |ps| && ps[j] == pairs[i];
      }
    }
  }

  /** A lookup fails iff no pair's key has the hash and is equal; else it gives the value of such a pair. */
  lemma LookupInIndex<K(!new), V>(t: HashTable<K, V>, pairs: seq<Pair<K, V>>, primeindex: nat, k: K)
    requires t.Valid() && Lists(t, Listed(pairs, primeindex))
    ensures t.Lookup(k) == None <==> forall i :: 0 <= i < |pairs| ==> !Meets(t.hash, t.eqfn, pairs[i].key, k)
    ensures t.Lookup(k).Some? ==> exists p :: p in pairs && Meets(t.hash, t.eqfn, p.key, k) && t.Lookup(k) == Some(p.value)
  {
    var l := Listed(pairs, primeindex);
    var r := LastMatch(l.pairs, t.hash, t.eqfn, k);
    LookupIsLast(t, l, k);
    ListedKeeps(pairs, primeindex);
    MatchAmong(l.pairs, pairs, t.hash, t.eqfn, k);
    if r.Some? { assert r.value in pairs; }
  }

  /** A match behind which there is none is the last one. */
  lemma {:induction false} LastIs<K(!new), V>(ps: seq<Pair<K, V>>, hash: K -> nat, eq: (K, K) -> bool, k: K, i: nat)
    requires i < |ps| && Meets(hash, eq, ps[i].key, k)
    requires forall j :: i < j < |ps| ==> !Meets(hash, eq, ps[j].key, k)
    ensures LastMatch(ps, hash, eq, k) == Some(ps[i])
    decreases |ps|
  {
    if i < |ps| - 1 { LastIs(ps[..|ps| - 1], hash, eq, k, i); }
  }

  /** Keys that meet the same stored keys are answered alike. */
  lemma {:induction false} SameMatches<K(!new), V>(ps: seq<Pair<K, V>>, hash: K -> nat, eq: (K, K) -> bool, k: K, other: K)
    requires forall s :: Meets(hash, eq, s, k) <==> Meets(hash, eq, s, other)
    ensures LastMatch(ps, hash, eq, k) == LastMatch(ps, hash, eq, other)
    decreases |ps|
  {
    if ps != [] {
      assert Meets(hash, eq, ps[|ps| - 1].key, k) <==> Meets(hash, eq, ps[|ps| - 1].key, other);
      SameMatches(ps[..|ps| - 1], hash, eq, k, other);
    }
  }
}
