/**
 Christopher Clark's chained hash table as used by libcandbc: entries on singly linked chains,
 a table that grows through a list of primes, and chains relinked in place.
 Allocation never fails here. The ghost sequence `order` says in which order the entries would
 have to be pushed onto empty chains to give the table as it is.
 */
module HashTable {
  import opened Basics

  class Entry<K, V> {
    const k: K
    const v: V
    const h: nat
    var next: Entry?<K, V>

    constructor (k: K, v: V, h: nat)
      ensures this.k == k && this.v == v && this.h == h && this.next == null
    {
      this.k, this.v, this.h, this.next := k, v, h, null;
    }
  }

  // ----- the primes and the load limit

  const PRIME_TABLE_LENGTH: nat := 26

  function Prime(i: nat): (p: nat)
    requires i < PRIME_TABLE_LENGTH
    ensures p >= 53
  {
    if i == 0 then 53 else if i == 1 then 97 else if i == 2 then 193 else if i == 3 then 389
    else if i == 4 then 769 else if i == 5 then 1543 else if i == 6 then 3079 else if i == 7 then 6151
    else if i == 8 then 12289 else if i == 9 then 24593 else if i == 10 then 49157 else if i == 11 then 98317
    else if i == 12 then 196613 else if i == 13 then 393241 else if i == 14 then 786433
    else if i == 15 then 1572869 else if i == 16 then 3145739 else if i == 17 then 6291469
    else if i == 18 then 12582917 else if i == 19 then 25165843 else if i == 20 then 50331653
    else if i == 21 then 100663319 else if i == 22 then 201326611 else if i == 23 then 402653189
    else if i == 24 then 805306457 else 1610612741
  }

  /** `ceil(size * 0.65)` over the rationals. */
  function LoadLimit(size: nat): nat {
    (size * 13 + 19) / 20
  }

  lemma PrimesGrow(i: nat)
    requires i + 1 < PRIME_TABLE_LENGTH
    ensures Prime(i) + 44 <= Prime(i + 1)
    ensures LoadLimit(Prime(i)) < LoadLimit(Prime(i + 1))
  {
  }

  // ----- chains

  /** Chain `j` of `n` after pushing the entries of `order` one after the other. */
  ghost function Bucket<K, V>(order: seq<Entry<K, V>>, n: nat, j: nat): (r: seq<Entry<K, V>>)
    requires n > 0
    ensures forall e :: e in r ==> e in order && e.h % n == j
    decreases |order|
  {
    if order == [] then []
    else
      var last := order[|order| - 1];
      var rest := Bucket(order[..|order| - 1], n, j);
      if last.h % n == j then [last] + rest else rest
  }

  predicate Distinct<K, V>(es: seq<Entry<K, V>>) {
    forall i, j :: 0 <= i < j < |es| ==> es[i] != es[j]
  }

  ghost predicate Linked<K, V>(head: Entry?<K, V>, chain: seq<Entry<K, V>>)
    reads set e | e in chain
  {
    head == (if chain == [] then null else chain[0]) &&
    (forall i {:trigger chain[i].next} :: 0 <= i < |chain| - 1 ==> chain[i].next == chain[i + 1]) &&
    (chain != [] ==> chain[|chain| - 1].next == null)
  }

  /** Chains `from` to `to` of the table hold the entries of `order`. */
  ghost predicate Threads<K, V>(table: array<Entry?<K, V>>, order: seq<Entry<K, V>>, from: int, to: int)
    requires 0 <= from <= to <= table.Length
    reads table, set e | e in order
  {
    table.Length > 0 &&
    forall j :: from <= j < to ==> Linked(table[j], Bucket(order, table.Length, j))
  }

  lemma {:induction false} InBucket<K, V>(order: seq<Entry<K, V>>, n: nat, j: nat, e: Entry<K, V>)
    requires n > 0
    ensures e in Bucket(order, n, j) <==> e in order && e.h % n == j
    decreases |order|
  {
    if order != [] {
      var rest := order[..|order| - 1];
      assert order == rest + [order[|order| - 1]];
      InBucket(rest, n, j, e);
    }
  }

  lemma {:induction false} BucketDistinct<K, V>(order: seq<Entry<K, V>>, n: nat, j: nat)
    requires n > 0 && Distinct(order)
    ensures Distinct(Bucket(order, n, j))
    decreases |order|
  {
    if order != [] {
      var rest, last := order[..|order| - 1], order[|order| - 1];
      BucketDistinct(rest, n, j);
      InBucket(rest, n, j, last);
    }
  }

  lemma BucketPush<K, V>(order: seq<Entry<K, V>>, n: nat, j: nat, e: Entry<K, V>)
    requires n > 0
    ensures Bucket(order + [e], n, j) == if e.h % n == j then [e] + Bucket(order, n, j) else Bucket(order, n, j)
  {
    assert (order + [e])[..|order|] == order;
  }

  /** Chains `0` to `j` one after the other. */
  ghost function Flat<K, V>(order: seq<Entry<K, V>>, n: nat, j: nat): (r: seq<Entry<K, V>>)
    requires n > 0
    ensures forall e :: e in r ==> e in order && e.h % n < j
    decreases j
  {
    if j == 0 then [] else Flat(order, n, j - 1) + Bucket(order, n, j - 1)
  }

  lemma {:induction false} InFlat<K, V>(order: seq<Entry<K, V>>, n: nat, j: nat, e: Entry<K, V>)
    requires n > 0
    ensures e in Flat(order, n, j) <==> e in order && e.h % n < j
    decreases j
  {
    if j > 0 {
      InFlat(order, n, j - 1, e);
      InBucket(order, n, j - 1, e);
    }
  }

  lemma {:induction false} FlatDistinct<K, V>(order: seq<Entry<K, V>>, n: nat, j: nat)
    requires n > 0 && Distinct(order)
    ensures Distinct(Flat(order, n, j))
    decreases j
  {
    if j > 0 {
      FlatDistinct(order, n, j - 1);
      BucketDistinct(order, n, j - 1);
      var a, b := Flat(order, n, j - 1), Bucket(order, n, j - 1);
      forall x, y | 0 <= x < |a| && 0 <= y < |b| ensures a[x] != b[y] {
        InFlat(order, n, j - 1, a[x]);
        InBucket(order, n, j - 1, b[y]);
      }
    }
  }

  /** `s` without position `at`. */
  function Without<T>(s: seq<T>, at: nat): seq<T>
    requires at < |s|
  {
    s[..at] + s[at + 1..]
  }

  /** Other chains do not notice that an entry is gone. */
  lemma {:induction false} OtherBucketWithout<K, V>(order: seq<Entry<K, V>>, n: nat, j: nat, at: nat)
    requires n > 0 && at < |order| && order[at].h % n != j
    ensures Bucket(Without(order, at), n, j) == Bucket(order, n, j)
    decreases |order|
  {
    var last := |order| - 1;
    var rest := order[..last];
    if at == last {
      assert Without(order, at) == rest;
    } else {
      OtherBucketWithout(rest, n, j, at);
      assert Without(order, at) == Without(rest, at) + [order[last]];
      BucketPush(Without(rest, at), n, j, order[last]);
    }
  }

  lemma FirstPosition<T>(c: seq<T>, m: nat)
    requires m < |c| && c[m] == c[0] && forall i, j :: 0 <= i < j < |c| ==> c[i] != c[j]
    ensures m == 0 && Without(c, m) == c[1..]
  {
  }

  lemma WithoutCons<T>(x: T, d: seq<T>, m: nat)
    requires m < |d|
    ensures Without([x] + d, m + 1) == [x] + Without(d, m)
  {
  }

  /** Its own chain loses exactly that entry. */
  lemma {:induction false} OwnBucketWithout<K, V>(order: seq<Entry<K, V>>, n: nat, j: nat, at: nat, m: nat)
    requires n > 0 && at < |order| && Distinct(order)
    requires m < |Bucket(order, n, j)| && Bucket(order, n, j)[m] == order[at]
    ensures Bucket(Without(order, at), n, j) == Without(Bucket(order, n, j), m)
    decreases |order|
  {
    var last := |order| - 1;
    var rest, x := order[..last], order[last];
    var c, d := Bucket(order, n, j), Bucket(rest, n, j);
    if at == last {
      assert c == [x] + d;
      BucketDistinct(order, n, j);
      FirstPosition(c, m);
      assert Without(order, at) == rest;
    } else {
      assert Without(order, at) == Without(rest, at) + [x];
      BucketPush(Without(rest, at), n, j, x);
      if x.h % n == j {
        assert c == [x] + d && c[0] != order[at];
        OwnBucketWithout(rest, n, j, at, m - 1);
        WithoutCons(x, d, m - 1);
      } else {
        OwnBucketWithout(rest, n, j, at, m);
      }
    }
  }

  class HashTable<K(!new), V> {
    var table: array<Entry?<K, V>>
    var entrycount: nat
    var loadlimit: nat
    var primeindex: nat
    /** `hash(h, k)`: the mixer applied to the user's hash function. */
    const hash: K -> nat
    const eqfn: (K, K) -> bool
    ghost var order: seq<Entry<K, V>>

    /** Everything but the count. */
    ghost predicate Shape()
      reads this, table, set e | e in order
    {
      primeindex < PRIME_TABLE_LENGTH && table.Length == Prime(primeindex) && loadlimit == LoadLimit(table.Length) &&
      Distinct(order) &&
      (forall i :: 0 <= i < |order| ==> order[i].h == hash(order[i].k)) &&
      Threads(table, order, 0, table.Length)
    }

    ghost predicate Valid()
      reads this, table, set e | e in order
    {
      Shape() && entrycount == |order| && (entrycount <= loadlimit || primeindex == PRIME_TABLE_LENGTH - 1)
    }

    constructor Allocate(size: nat, pindex: nat, hash: K -> nat, eqfn: (K, K) -> bool)
      requires pindex < PRIME_TABLE_LENGTH && size == Prime(pindex)
      ensures Valid() && fresh(table) && order == [] && primeindex == pindex
      ensures this.hash == hash && this.eqfn == eqfn
    {
      this.hash, this.eqfn := hash, eqfn;
      primeindex, entrycount, loadlimit, order := pindex, 0, LoadLimit(size), [];
      new;
      table := EmptyTable(size);
    }

    /** `create_hashtable`: the smallest listed prime above `minsize`, or null if that is too much. */
    static method Create(minsize: nat, hash: K -> nat, eqfn: (K, K) -> bool) returns (t: HashTable?<K, V>)
      ensures t == null <==> minsize > 0x4000_0000
      ensures t != null ==> fresh(t) && fresh(t.table) && t.Valid() && t.order == [] && t.hash == hash && t.eqfn == eqfn
      ensures t != null ==> t.table.Length > minsize && t.primeindex < PRIME_TABLE_LENGTH
      ensures t != null ==> forall i :: 0 <= i < t.primeindex ==> Prime(i) <= minsize
    {
      if minsize > 0x4000_0000 { return null; }
      var pindex, size := 0, Prime(0);
      while pindex < PRIME_TABLE_LENGTH
        invariant 0 <= pindex <= PRIME_TABLE_LENGTH
        invariant forall i :: 0 <= i < pindex ==> Prime(i) <= minsize
      {
        if Prime(pindex) > minsize {
          size := Prime(pindex);
          break;
        }
        pindex := pindex + 1;
      }
      assert pindex < PRIME_TABLE_LENGTH by { assert Prime(PRIME_TABLE_LENGTH - 1) > minsize; }
      t := new HashTable.Allocate(size, pindex, hash, eqfn);
    }

    /** `hashtable_expand`. */
    method Expand() returns (grown: bool)
      requires Shape()
      modifies this, table, set e | e in order
      ensures Shape() && entrycount == old(entrycount)
      ensures grown == (old(primeindex) != PRIME_TABLE_LENGTH - 1)
      ensures if grown
              then primeindex == old(primeindex) + 1 && fresh(table) &&
                   order == Flat(old(order), old(table.Length), old(table.Length)) &&
                   |order| == |old(order)|
              else primeindex == old(primeindex) && order == old(order) && table == old(table)
    {
      if primeindex == PRIME_TABLE_LENGTH - 1 { return false; }
      primeindex := primeindex + 1;
      var newsize := Prime(primeindex);
      var newtable := Relink(table, newsize, order);
      FlatDistinct(order, table.Length, table.Length);
      FlatCounts(order, table.Length);
      order := Flat(order, table.Length, table.Length);
      table := newtable;
      loadlimit := LoadLimit(newsize);
      grown := true;
    }

    /** An insertion makes the table grow. */
    ghost predicate Grows()
      reads this
    {
      entrycount + 1 > loadlimit && primeindex != PRIME_TABLE_LENGTH - 1
    }

    /** The order after the growth step an insertion may start with. */
    ghost function Grown(): seq<Entry<K, V>>
      reads this, table
      requires table.Length > 0
    {
      if Grows() then Flat(order, table.Length, table.Length) else order
    }

    /** `hashtable_insert`. */
    method Insert(k: K, v: V)
      requires Valid()
      modifies this, table, set e | e in order
      ensures Valid() && (table == old(table) || fresh(table))
      ensures primeindex == old(primeindex) + if old(Grows()) then 1 else 0
      ensures |order| == |old(order)| + 1 && order[..|old(order)|] == old(Grown())
      ensures var e := order[|old(order)|]; fresh(e) && e.k == k && e.v == v
    {
      ghost var grownOrder := Grown();
      entrycount := entrycount + 1;
      if entrycount > loadlimit {
        if primeindex + 1 < PRIME_TABLE_LENGTH { PrimesGrow(primeindex); }
        var _ := Expand();
      }
      PushFront(k, v);
      assert order[..|order| - 1] == grownOrder;
    }

    /** The tail of `hashtable_insert`: a new entry at the head of its chain. */
    method PushFront(k: K, v: V)
      requires Shape()
      modifies this, table
      ensures Shape() && table == old(table) && primeindex == old(primeindex) && entrycount == old(entrycount)
      ensures |order| == |old(order)| + 1 && order[..|old(order)|] == old(order)
      ensures var e := order[|old(order)|]; fresh(e) && e.k == k && e.v == v
    {
      var e := new Entry(k, v, hash(k));
      LinkFront(table, e, order);
      order := order + [e];
    }

    /** `(hashvalue == e->h) && (h->eqfn(k, e->k))` */
    predicate Matches(e: Entry<K, V>, k: K) {
      e.h == hash(k) && eqfn(k, e.k)
    }

    /** Position in `es` of the last entry that matches `k`, or -1. */
    ghost function Newest(es: seq<Entry<K, V>>, k: K): (r: int)
      ensures -1 <= r < |es|
      ensures r >= 0 ==> Matches(es[r], k)
      ensures forall i :: r < i < |es| ==> !Matches(es[i], k)
      decreases |es|
    {
      if es == [] then -1
      else if Matches(es[|es| - 1], k) then |es| - 1
      else Newest(es[..|es| - 1], k)
    }

    /** The first match on the key's chain is the newest match of all. */
    lemma {:induction false} FirstIsNewest(es: seq<Entry<K, V>>, k: K, n: nat, m: nat)
      requires n > 0 && m <= |Bucket(es, n, hash(k) % n)|
      requires forall x :: 0 <= x < m ==> !Matches(Bucket(es, n, hash(k) % n)[x], k)
      ensures m == |Bucket(es, n, hash(k) % n)| ==> Newest(es, k) == -1
      ensures m < |Bucket(es, n, hash(k) % n)| && Matches(Bucket(es, n, hash(k) % n)[m], k) ==>
        Newest(es, k) >= 0 && es[Newest(es, k)] == Bucket(es, n, hash(k) % n)[m]
      decreases |es|
    {
      if es != [] {
        var rest, last := es[..|es| - 1], es[|es| - 1];
        var j := hash(k) % n;
        var c, d := Bucket(es, n, j), Bucket(rest, n, j);
        if last.h % n == j {
          assert c == [last] + d;
          if m > 0 {
            assert c[0] == last;
            assert forall x :: 0 <= x < m - 1 ==> d[x] == c[x + 1];
            FirstIsNewest(rest, k, n, m - 1);
          }
        } else {
          FirstIsNewest(rest, k, n, m);
        }
      }
    }

    /**
     The loop along a chain shared by search, remove and the iterator's search: the first matching
     entry, with its predecessor on the chain, or null.
     */
    method Locate(k: K) returns (index: nat, parent: Entry?<K, V>, e: Entry?<K, V>, ghost m: nat)
      requires Valid()
      ensures index < table.Length
      ensures e == null <==> Newest(order, k) < 0
      ensures e != null ==> e == order[Newest(order, k)]
      ensures e != null ==> OnChain(index, parent, e, m)
    {
      index := hash(k) % table.Length;
      parent := null;
      e := table[index];
      ghost var c := Bucket(order, table.Length, index);
      m := 0;
      while e != null
        invariant 0 <= m <= |c|
        invariant e == if m < |c| then c[m] else null
        invariant parent == if m > 0 then c[m - 1] else null
        invariant forall x :: 0 <= x < m ==> !Matches(c[x], k)
        decreases |c| - m
      {
        if e.h == hash(k) && eqfn(k, e.k) {
          FirstIsNewest(order, k, table.Length, m);
          return;
        }
        parent := e;
        e := e.next;
        m := m + 1;
      }
      FirstIsNewest(order, k, table.Length, m);
    }

    /** `e` is at position `m` of chain `index` and `parent` is its predecessor there. */
    ghost predicate OnChain(index: nat, parent: Entry?<K, V>, e: Entry?<K, V>, m: nat)
      reads this, table
    {
      index < table.Length &&
      var c := Bucket(order, table.Length, index);
      m < |c| && c[m] == e && parent == if m > 0 then c[m - 1] else null
    }

    /** The head of a chain. */
    lemma HeadOfChain(j: nat)
      requires Valid() && j < table.Length
      ensures table[j] == null <==> Bucket(order, table.Length, j) == []
      ensures table[j] != null ==> OnChain(j, null, table[j], 0)
    {
      assert Linked(table[j], Bucket(order, table.Length, j));
    }

    /** The successor on a chain. */
    lemma NextOnChain(index: nat, parent: Entry?<K, V>, e: Entry<K, V>, m: nat)
      requires Valid() && OnChain(index, parent, e, m)
      ensures var c := Bucket(order, table.Length, index);
        Distinct(c) && e in order && e.next == if m + 1 < |c| then c[m + 1] else null
    {
      var c := Bucket(order, table.Length, index);
      BucketDistinct(order, table.Length, index);
      assert Linked(table[index], c);
      assert c[m] in c;
    }

    /** `hashtable_search`. */
    method Search(k: K) returns (v: Option<V>)
      requires Valid()
      ensures v == Lookup(k)
    {
      var index, parent, e, m := Locate(k);
      v := if e == null then None else Some(e.v);
    }

    /** The value of the newest matching entry. */
    ghost function Lookup(k: K): Option<V>
      reads this
    {
      var i := Newest(order, k);
      if i < 0 then None else Some(order[i].v)
    }

    /** Taking an entry off its chain and out of the count. */
    method Drop(index: nat, parent: Entry?<K, V>, e: Entry<K, V>, ghost at: nat, ghost m: nat)
      requires Valid() && at < |order| && order[at] == e && OnChain(index, parent, e, m)
      modifies this, table, parent
      ensures Valid() && table == old(table) && primeindex == old(primeindex)
      ensures order == Without(old(order), at)
    {
      Unlink(table, index, parent, e, order, at, m);
      entrycount := entrycount - 1;
      order := Without(order, at);
    }

    /** `hashtable_remove`. The variable `pE` is the link that points to `e`: of `parent`, or the table's. */
    method Remove(k: K) returns (v: Option<V>)
      requires Valid()
      modifies this, table, set e | e in order
      ensures Valid() && table == old(table) && primeindex == old(primeindex)
      ensures v == old(Lookup(k))
      ensures order == if v == None then old(order) else Without(old(order), old(Newest(order, k)))
    {
      var index, parent, e, m := Locate(k);
      if e == null { return None; }
      v := Some(e.v);
      Drop(index, parent, e, Newest(order, k), m);
    }
  }

  method EmptyTable<K, V>(size: nat) returns (table: array<Entry?<K, V>>)
    requires size > 0
    ensures fresh(table) && table.Length == size
    ensures Threads(table, [], 0, size)
  {
    table := new Entry?<K, V>[size](_ => null);
  }

  /** The loops of `hashtable_expand`: all entries move to a new table. */
  method Relink<K, V>(table: array<Entry?<K, V>>, newsize: nat, ghost was: seq<Entry<K, V>>)
      returns (newtable: array<Entry?<K, V>>)
    requires newsize > 0 && Distinct(was) && Threads(table, was, 0, table.Length)
    modifies table, was
    ensures fresh(newtable) && newtable.Length == newsize
    ensures Threads(newtable, Flat(was, table.Length, table.Length), 0, newsize)
  {
    newtable := EmptyTable(newsize);
    var i := 0;
    while i < table.Length
      invariant 0 <= i <= table.Length && newtable.Length == newsize && fresh(newtable)
      invariant Threads(table, was, i, table.Length)
      invariant Threads(newtable, Flat(was, table.Length, i), 0, newsize)
    {
      MoveChain(table, newtable, was, i);
      i := i + 1;
    }
  }

  /** Concatenating all chains neither loses nor duplicates entries. */
  lemma FlatCounts<K, V>(order: seq<Entry<K, V>>, n: nat)
    requires n > 0 && Distinct(order)
    ensures |Flat(order, n, n)| == |order|
  {
    var f := Flat(order, n, n);
    FlatDistinct(order, n, n);
    forall e ensures e in f <==> e in order { InFlat(order, n, n, e); }
    DistinctSet(f);
    DistinctSet(order);
    assert (set e | e in f) == (set e | e in order);
  }

  lemma {:induction false} DistinctSet<T>(s: seq<T>)
    requires forall i, j :: 0 <= i < j < |s| ==> s[i] != s[j]
    ensures |set x | x in s| == |s|
  {
    if s != [] {
      var rest, last := s[..|s| - 1], s[|s| - 1];
      DistinctSet(rest);
      assert (set x | x in s) == (set x | x in rest) + {last};
    }
  }

  /** The inner loop of `hashtable_expand`: every entry of chain `i` goes to the head of its new chain. */
  method MoveChain<K, V>(table: array<Entry?<K, V>>, newtable: array<Entry?<K, V>>, ghost was: seq<Entry<K, V>>, i: nat)
    requires table != newtable && i < table.Length && Distinct(was)
    requires Threads(table, was, i, table.Length) && newtable.Length > 0
    requires Threads(newtable, Flat(was, table.Length, i), 0, newtable.Length)
    modifies table, newtable, was
    ensures Threads(table, was, i + 1, table.Length)
    ensures Threads(newtable, Flat(was, table.Length, i + 1), 0, newtable.Length)
  {
    var n := table.Length;
    ghost var c, m := Bucket(was, n, i), 0;
    ghost var moved := Flat(was, n, i);
    BucketDistinct(was, n, i);
    assert c[0..] == c;
    assert moved + c[..0] == moved;
    while table[i] != null
      invariant 0 <= m <= |c|
      invariant Linked(table[i], c[m..])
      invariant Threads(table, was, i + 1, n)
      invariant Threads(newtable, moved + c[..m], 0, newtable.Length)
      decreases |c| - m
    {
      var e := table[i];
      assert e == c[m] == c[m..][0] && e in was;
      ghost var before := moved + c[..m];
      assert e !in before;
      MoveOne(table, newtable, was, i, before, c[m..]);
      assert before + [c[m]] == moved + c[..m + 1];
      assert c[m..][1..] == c[m + 1..];
      m := m + 1;
    }
    assert moved + c[..m] == Flat(was, n, i + 1);
  }

  /** `h->table[i] = e->next; e->next = newtable[index]; newtable[index] = e;` for the head of chain `i`. */
  method MoveOne<K, V>(table: array<Entry?<K, V>>, newtable: array<Entry?<K, V>>,
                       ghost was: seq<Entry<K, V>>, i: nat, ghost moved: seq<Entry<K, V>>, ghost rest: seq<Entry<K, V>>)
    requires table != newtable && i < table.Length && newtable.Length > 0
    requires rest != [] && Linked(table[i], rest) && Distinct(rest)
    requires rest[0] !in moved && rest[0].h % table.Length == i
    requires Threads(table, was, i + 1, table.Length)
    requires Threads(newtable, moved, 0, newtable.Length)
    modifies table, newtable, rest[0]
    ensures Linked(table[i], rest[1..])
    ensures Threads(table, was, i + 1, table.Length)
    ensures Threads(newtable, moved + [rest[0]], 0, newtable.Length)
  {
    var e := table[i];
    assert e == rest[0];
    table[i] := e.next;
    LinkFront(newtable, e, moved);
  }

  /** `e->next = table[index]; table[index] = e;` */
  method LinkFront<K, V>(table: array<Entry?<K, V>>, e: Entry<K, V>, ghost order: seq<Entry<K, V>>)
    requires table.Length > 0 && e !in order && Threads(table, order, 0, table.Length)
    modifies table, e
    ensures Threads(table, order + [e], 0, table.Length)
  {
    var index := e.h % table.Length;
    e.next := table[index];
    table[index] := e;
    forall j | 0 <= j < table.Length ensures Linked(table[j], Bucket(order + [e], table.Length, j)) {
      BucketPush(order, table.Length, j, e);
      assert old(Linked(table[j], Bucket(order, table.Length, j)));
    }
  }

  /** `*pE = e->next`, where `pE` is the link of `parent` or, without one, the table's. */
  method Unlink<K, V>(table: array<Entry?<K, V>>, index: nat, parent: Entry?<K, V>, e: Entry<K, V>,
                      ghost order: seq<Entry<K, V>>, ghost at: nat, ghost m: nat)
    requires index < table.Length && Distinct(order) && Threads(table, order, 0, table.Length)
    requires at < |order| && order[at] == e
    requires var c := Bucket(order, table.Length, index);
             m < |c| && c[m] == e && parent == if m > 0 then c[m - 1] else null
    modifies table, parent
    ensures Threads(table, Without(order, at), 0, table.Length)
  {
    ghost var c := Bucket(order, table.Length, index);
    BucketDistinct(order, table.Length, index);
    if parent == null {
      table[index] := e.next;
    } else {
      parent.next := e.next;
    }
    OwnBucketWithout(order, table.Length, index, at, m);
    assert Linked(table[index], Without(c, m));
    forall j | 0 <= j < table.Length
      ensures Linked(table[j], Bucket(Without(order, at), table.Length, j))
    {
      if j != index {
        OtherBucketWithout(order, table.Length, j, at);
        assert old(Linked(table[j], Bucket(order, table.Length, j)));
      }
    }
  }
}
