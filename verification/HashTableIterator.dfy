/**
 The hash table's iterator, which can remove the entry it stands on.
 */
module HashTableIterator {
  import opened HashTable

  /** Chains `j` and up, one after the other. */
  ghost function FlatFrom<K, V>(order: seq<Entry<K, V>>, n: nat, j: nat): seq<Entry<K, V>>
    requires n > 0
    decreases if j < n then n - j else 0
  {
    if j >= n then [] else Bucket(order, n, j) + FlatFrom(order, n, j + 1)
  }

  lemma {:induction false} FlatSplits<K, V>(order: seq<Entry<K, V>>, n: nat, j: nat)
    requires n > 0 && j <= n
    ensures Flat(order, n, n) == Flat(order, n, j) + FlatFrom(order, n, j)
    decreases n - j
  {
    if j < n { FlatSplits(order, n, j + 1); }
  }

  /** From its first entry on, a walk meets every entry exactly once. */
  lemma WalkOrderIsAll<K, V>(order: seq<Entry<K, V>>, n: nat)
    requires n > 0 && Distinct(order)
    ensures var w := FlatFrom(order, n, 0);
      Distinct(w) && |w| == |order| && forall e :: e in w <==> e in order
  {
    FlatSplits(order, n, 0);
    assert Flat(order, n, n) == FlatFrom(order, n, 0);
    FlatDistinct(order, n, n);
    FlatCounts(order, n);
    forall e ensures e in FlatFrom(order, n, 0) <==> e in order { InFlat(order, n, n, e); }
  }

  lemma {:induction false} FlatFromWithout<K, V>(order: seq<Entry<K, V>>, n: nat, j: nat, at: nat)
    requires n > 0 && at < |order| && order[at].h % n < j
    ensures FlatFrom(Without(order, at), n, j) == FlatFrom(order, n, j)
    decreases if j < n then n - j else 0
  {
    if j < n {
      OtherBucketWithout(order, n, j, at);
      FlatFromWithout(order, n, j + 1, at);
    }
  }

  lemma {:induction false} SkipEmpty<K, V>(order: seq<Entry<K, V>>, n: nat, i: nat, j: nat)
    requires n > 0 && i <= j <= n
    requires forall x :: i <= x < j ==> Bucket(order, n, x) == []
    ensures FlatFrom(order, n, i) == FlatFrom(order, n, j)
    decreases j - i
  {
    if i < j { SkipEmpty(order, n, i + 1, j); }
  }

  lemma TailOfSuffix<T>(a: seq<T>, p: nat, b: seq<T>)
    requires p < |a|
    ensures (a[p..] + b)[0] == a[p] && (a[p..] + b)[1..] == a[p + 1..] + b
  {
  }

  class Iterator<K(!new), V> {
    var t: HashTable<K, V>
    var e: Entry?<K, V>
    var parent: Entry?<K, V>
    var index: nat
    ghost var pos: nat

    /** `e` is at position `pos` of its chain and `parent` is its true predecessor. */
    ghost predicate Positioned()
      reads this, t, t.table
    {
      t.table.Length > 0 && (e != null ==> t.OnChain(index, parent, e, pos))
    }

    /** The entries still to come, the current one first. */
    ghost function Rest(): seq<Entry<K, V>>
      reads this, t, t.table
    {
      var n := t.table.Length;
      if e == null || n == 0 then []
      else
        var c := Bucket(t.order, n, index);
        if pos <= |c| then c[pos..] + FlatFrom(t.order, n, index + 1) else []
    }

    /** After the current entry: the rest of its chain, then the later chains. */
    lemma RestTail()
      requires Positioned() && e != null
      ensures Rest() != [] && Rest()[0] == e
      ensures Rest()[1..] == Bucket(t.order, t.table.Length, index)[pos + 1..] + FlatFrom(t.order, t.table.Length, index + 1)
    {
      TailOfSuffix(Bucket(t.order, t.table.Length, index), pos, FlatFrom(t.order, t.table.Length, index + 1));
    }

    /** `hashtable_iterator`: the first entry of the table. */
    constructor (t: HashTable<K, V>)
      requires t.Valid()
      ensures Positioned() && this.t == t && Rest() == FlatFrom(t.order, t.table.Length, 0)
    {
      this.t, e, parent, pos := t, null, null, 0;
      index := t.table.Length;
      new;
      if t.entrycount == 0 {
        EmptyWalk(t);
        return;
      }
      var i := NextHead(t, 0);
      if i < t.table.Length {
        e := t.table[i];
        index := i;
      }
    }

    /** The end of `hashtable_iterator_advance`: on to the next chain that is not empty. */
    method NextChain() returns (more: bool)
      requires t.Valid()
      modifies this
      ensures Positioned() && t == old(t) && more == (e != null) && parent == null
      ensures Rest() == FlatFrom(t.order, t.table.Length, old(index) + 1)
    {
      parent := null;
      pos := 0;
      index := index + 1;
      if t.table.Length <= index {
        e := null;
        return false;
      }
      var j := NextHead(t, index);
      index := j;
      e := if j < t.table.Length then t.table[j] else null;
      more := e != null;
    }

    /** `hashtable_iterator_advance` past its first line; `c` is the chain, which may just have lost `e`. */
    method Step(ghost c: seq<Entry<K, V>>, ghost at: nat) returns (more: bool)
      requires e != null && t.Valid()
      requires at < |c| && c[at] == e && e.next == if at + 1 < |c| then c[at + 1] else null
      modifies this
      ensures t == old(t) && more == (e != null)
      ensures at + 1 < |c| ==> e == c[at + 1] && parent == old(e) && index == old(index) && pos == at + 1
      ensures at + 1 == |c| ==> Positioned() && parent == null
      ensures at + 1 == |c| ==> Rest() == FlatFrom(t.order, t.table.Length, old(index) + 1)
    {
      var next := e.next;
      if next != null {
        parent := e;
        e := next;
        pos := at + 1;
        return true;
      }
      more := NextChain();
    }

    /** `hashtable_iterator_advance`. */
    method Advance() returns (more: bool)
      requires t.Valid() && Positioned()
      modifies this
      ensures Positioned() && t == old(t) && more == (e != null)
      ensures Rest() == if old(e) == null then [] else old(Rest())[1..]
    {
      if e == null { return false; }
      ghost var c, at := Bucket(t.order, t.table.Length, index), pos;
      RestTail();
      t.NextOnChain(index, parent, e, pos);
      more := Step(c, at);
    }

    /** `hashtable_iterator_remove`: takes the current entry out of the table and moves on. */
    method Remove() returns (more: bool, ghost at: nat)
      requires t.Valid() && Positioned() && e != null
      modifies this, t, t.table, set x | x in t.order
      ensures t.Valid() && Positioned() && t == old(t) && t.table == old(t.table) && more == (e != null)
      ensures Rest() == old(Rest())[1..]
      ensures at < |old(t.order)| && old(t.order)[at] == old(e) && t.order == Without(old(t.order), at)
    {
      ghost var was := t.order;
      RestTail();
      at := Detach();
      more := MoveOn(was, at);
    }

    /** The first half of `hashtable_iterator_remove`: unlink the current entry. */
    method Detach() returns (ghost at: nat)
      requires t.Valid() && Positioned() && e != null
      modifies t, t.table, set x | x in t.order
      ensures t.Valid() && t.table == old(t.table)
      ensures var c := Bucket(old(t.order), t.table.Length, index);
        e.next == if pos + 1 < |c| then c[pos + 1] else null
      ensures at < |old(t.order)| && old(t.order)[at] == e && t.order == Without(old(t.order), at)
    {
      t.NextOnChain(index, parent, e, pos);
      at :| 0 <= at < |t.order| && t.order[at] == e;
      t.Drop(index, parent, e, at, pos);
    }

    /** The second half of `hashtable_iterator_remove`: advance, and correct the parent. */
    method MoveOn(ghost was: seq<Entry<K, V>>, ghost at: nat) returns (more: bool)
      requires e != null && t.Valid() && index < t.table.Length
      requires Distinct(was) && at < |was| && was[at] == e && t.order == Without(was, at)
      requires var c := Bucket(was, t.table.Length, index);
        pos < |c| && c[pos] == e && parent == (if pos > 0 then c[pos - 1] else null) &&
        e.next == if pos + 1 < |c| then c[pos + 1] else null
      modifies this
      ensures Positioned() && t == old(t) && more == (e != null)
      ensures Rest() == Bucket(was, t.table.Length, old(index))[old(pos) + 1..] + FlatFrom(was, t.table.Length, old(index) + 1)
    {
      ghost var c, p := Bucket(was, t.table.Length, index), pos;
      ghost var d, later := Without(c, p), FlatFrom(was, t.table.Length, index + 1);
      assert Bucket(t.order, t.table.Length, index) == d && FlatFrom(t.order, t.table.Length, index + 1) == later by {
        AfterRemoval(was, t.table.Length, index, at, p);
      }
      WithoutAt(c, p);
      var rememberE, rememberParent := e, parent;
      more := Step(c, p);
      if parent == rememberE {
        parent := rememberParent;
        pos := p;
        assert t.OnChain(index, parent, e, pos);
        assert Rest() == d[p..] + later;
      }
    }
  }

  lemma WithoutAt<T>(c: seq<T>, p: nat)
    requires p < |c|
    ensures Without(c, p)[p..] == c[p + 1..]
    ensures p > 0 ==> Without(c, p)[p - 1] == c[p - 1]
    ensures p + 1 < |c| ==> Without(c, p)[p] == c[p + 1]
  {
  }

  /** `hashtable_iterator_search`: the iterator stands on the newest matching entry, if there is one. */
  method SearchFor<K(!new), V>(itr: Iterator<K, V>, t: HashTable<K, V>, k: K) returns (found: bool)
    requires t.Valid()
    modifies itr
    ensures found == (t.Newest(t.order, k) >= 0)
    ensures found ==> itr.t == t && itr.Positioned() && itr.e == t.order[t.Newest(t.order, k)]
    ensures !found ==> itr.t == old(itr.t) && itr.e == old(itr.e) && itr.parent == old(itr.parent) && itr.index == old(itr.index)
  {
    var index, parent, e, m := t.Locate(k);
    if e == null { return false; }
    itr.index, itr.e, itr.parent, itr.t, itr.pos := index, e, parent, t, m;
    found := true;
  }

  lemma WithoutMembers<T>(s: seq<T>, at: nat)
    requires at < |s| && forall i, j :: 0 <= i < j < |s| ==> s[i] != s[j]
    ensures forall x :: x in Without(s, at) <==> x in s && x != s[at]
  {
    var r := Without(s, at);
    forall x | x in s && x != s[at] ensures x in r {
      var i :| 0 <= i < |s| && s[i] == x;
      assert r[if i < at then i else i - 1] == x;
    }
  }

  /** What a walk has done so far: `all` are the entries it sets out with, `n` those it has passed. */
  ghost predicate Walked<K, V>(all: seq<Entry<K, V>>, order: seq<Entry<K, V>>, n: nat, drop: nat -> bool) {
    n <= |all| && Distinct(all) &&
    (forall i :: 0 <= i < |all| ==> (all[i] in order <==> i >= n || !drop(i))) &&
    (forall e :: e in order ==> e in all)
  }

  lemma StartWalk<K, V>(order: seq<Entry<K, V>>, n: nat, drop: nat -> bool)
    requires n > 0 && Distinct(order)
    ensures Walked(FlatFrom(order, n, 0), order, 0, drop)
  {
    WalkOrderIsAll(order, n);
    var all := FlatFrom(order, n, 0);
    FlatSplits(order, n, 0);
    assert Flat(order, n, n) == all;
    forall i | 0 <= i < |all| ensures all[i] in order {
      assert all[i] in Flat(order, n, n);
    }
  }

  /** Any mix of advancing and removing visits every entry once and leaves exactly those not removed. */
  method Walk<K(!new), V>(t: HashTable<K, V>, drop: nat -> bool) returns (visited: seq<Entry<K, V>>)
    requires t.Valid()
    modifies t, t.table, set e | e in t.order
    ensures t.Valid() && t.table == old(t.table)
    ensures visited == FlatFrom(old(t.order), t.table.Length, 0)
    ensures Walked(visited, t.order, |visited|, drop)
  {
    ghost var all := FlatFrom(t.order, t.table.Length, 0);
    StartWalk(t.order, t.table.Length, drop);
    var itr := new Iterator(t);
    visited := WalkOn(itr, drop, all);
  }

  /** The loop of a walk. */
  method WalkOn<K(!new), V>(itr: Iterator<K, V>, drop: nat -> bool, ghost all: seq<Entry<K, V>>)
      returns (visited: seq<Entry<K, V>>)
    requires itr.t.Valid() && itr.Positioned() && itr.Rest() == all && Walked(all, itr.t.order, 0, drop)
    modifies itr, itr.t, itr.t.table, set x | x in itr.t.order
    ensures itr.t.Valid() && itr.Positioned() && itr.t == old(itr.t) && itr.t.table == old(itr.t.table)
    ensures visited == all && Walked(all, itr.t.order, |all|, drop)
  {
    visited := [];
    while itr.e != null
      invariant itr.t.Valid() && itr.Positioned() && itr.t == old(itr.t) && itr.t.table == old(itr.t.table)
      invariant forall x :: x in itr.t.order ==> x in old(itr.t.order)
      invariant visited <= all && itr.Rest() == all[|visited|..]
      invariant Walked(all, itr.t.order, |visited|, drop)
      decreases |all| - |visited|
    {
      itr.RestTail();
      var e := VisitOne(itr, drop(|visited|), all, |visited|, drop);
      visited := visited + [e];
    }
  }

  /** One turn of a walk. */
  method VisitOne<K(!new), V>(itr: Iterator<K, V>, remove: bool, ghost all: seq<Entry<K, V>>, ghost n: nat,
                              ghost drop: nat -> bool) returns (e: Entry<K, V>)
    requires itr.t.Valid() && itr.Positioned() && itr.e != null && n < |all| && itr.Rest() == all[n..]
    requires Walked(all, itr.t.order, n, drop) && remove == drop(n)
    modifies itr, itr.t, itr.t.table, set x | x in itr.t.order
    ensures itr.t.Valid() && itr.Positioned() && itr.t == old(itr.t) && itr.t.table == old(itr.t.table)
    ensures forall x :: x in itr.t.order ==> x in old(itr.t.order)
    ensures e == all[n] && itr.Rest() == all[n + 1..] && Walked(all, itr.t.order, n + 1, drop)
  {
    itr.RestTail();
    e := itr.e;
    if remove {
      ghost var was := itr.t.order;
      var _, at := itr.Remove();
      WithoutMembers(was, at);
    } else {
      var _ := itr.Advance();
    }
  }

  /** Chain `i` and the chains behind it when the entry at position `p` of chain `i` is gone. */
  lemma AfterRemoval<K, V>(order: seq<Entry<K, V>>, n: nat, i: nat, at: nat, p: nat)
    requires n > 0 && i < n && Distinct(order) && at < |order|
    requires p < |Bucket(order, n, i)| && Bucket(order, n, i)[p] == order[at]
    ensures Bucket(Without(order, at), n, i) == Without(Bucket(order, n, i), p)
    ensures FlatFrom(Without(order, at), n, i + 1) == FlatFrom(order, n, i + 1)
  {
    OwnBucketWithout(order, n, i, at, p);
    FlatFromWithout(order, n, i + 1, at);
  }

  /** The scan for the next chain that is not empty; the table's length if there is none. */
  method NextHead<K(!new), V>(t: HashTable<K, V>, from: nat) returns (j: nat)
    requires t.Valid() && from <= t.table.Length
    ensures from <= j <= t.table.Length
    ensures FlatFrom(t.order, t.table.Length, from) == FlatFrom(t.order, t.table.Length, j)
    ensures j < t.table.Length ==> t.table[j] != null && t.OnChain(j, null, t.table[j], 0)
  {
    j := from;
    while j < t.table.Length && t.table[j] == null
      invariant from <= j <= t.table.Length
      invariant FlatFrom(t.order, t.table.Length, from) == FlatFrom(t.order, t.table.Length, j)
    {
      t.HeadOfChain(j);
      j := j + 1;
    }
    if j < t.table.Length { t.HeadOfChain(j); }
  }

  lemma EmptyWalk<K(!new), V>(t: HashTable<K, V>)
    requires t.Valid() && t.entrycount == 0
    ensures FlatFrom(t.order, t.table.Length, 0) == []
  {
    SkipEmpty(t.order, t.table.Length, 0, t.table.Length);
  }
}
