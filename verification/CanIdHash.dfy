/**
 The message index: the hash table keyed by CAN identifiers, with the J1939 comparison that looks
 only at the parameter group number of extended identifiers.
 */
module CanIdHash {
  import opened Basics
  import opened HashTable
  import opened HashTableMap
  import opened HashTableList

  type Id = bv32

  const MASK_EXT: Id := 0x80000000
  const MASK_11: Id := 0x000007FF
  const MASK_PRI: Id := 0x1C000000
  const MASK_PGN: Id := 0x03FFFF00
  const MASK_SAD: Id := 0x000000FF

  /** `hash_from_canid`. */
  function HashFromCanId(key: Id): Id {
    if key & MASK_EXT != 0 then key & MASK_PGN
    else if key & !MASK_11 != 0 then key & MASK_PGN
    else key
  }

  /** `canids_equal`. */
  predicate CanIdsEqual(key1: Id, key2: Id) {
    if key1 & MASK_EXT != 0 || key2 & MASK_EXT != 0
    then key1 & MASK_PGN == key2 & MASK_PGN
    else key1 == key2
  }

  /** The mixer in `hash`. */
  function Mix(i0: Id): Id {
    var i1 := i0 + !(i0 << 9);
    var i2 := i1 ^ ((i1 >> 14) | (i1 << 18));
    var i3 := i2 + (i2 << 4);
    i3 ^ ((i3 >> 10) | (i3 << 22))
  }

  function Hash(key: Id): nat {
    Mix(HashFromCanId(key)) as nat
  }

  predicate Extended(key: Id) { key & MASK_EXT != 0 }

  predicate Plain(key: Id) { key & MASK_EXT == 0 }

  /** On extended identifiers alone the comparison is an equivalence that the hash respects. */
  lemma ExtendedLawful()
    ensures Lawful(Hash, CanIdsEqual, Extended)
  {
  }

  /** So it is on identifiers without the extended flag. */
  lemma PlainLawful()
    ensures Lawful(Hash, CanIdsEqual, Plain)
  {
  }

  /** Priority and source address can be exchanged freely. */
  lemma PriorityAndSourceIgnored(a: Id, b: Id)
    requires Extended(a)
    ensures CanIdsEqual(a, (a & !(MASK_PRI | MASK_SAD)) | (b & (MASK_PRI | MASK_SAD)))
  {
  }

  /** An extended identifier and an 11-bit one whose low byte, which the comparison ignores, the hash does not. */
  predicate Clash(a: Id, b: Id) {
    (Extended(a) && Plain(b) && b <= MASK_11 && b & MASK_SAD != 0) ||
    (Extended(b) && Plain(a) && a <= MASK_11 && a & MASK_SAD != 0)
  }

  /** Before mixing: the hash of the extended one is the other's without its low byte. */
  lemma HashFromCanIdRespectsIff(a: Id, b: Id)
    requires CanIdsEqual(a, b)
    ensures HashFromCanId(a) != HashFromCanId(b) <==> Clash(a, b)
    ensures Clash(a, b) && Extended(a) ==>
      HashFromCanId(b) == b <= MASK_11 && b & MASK_SAD != 0 && HashFromCanId(a) == b & MASK_PGN
  {
  }

  /** The mixer does not bring these two together, although it is not injective. */
  lemma MixTellsLowByte(b: Id)
    requires b <= MASK_11 && b & MASK_SAD != 0
    ensures Mix(b) != Mix(b & MASK_PGN)
  {
  }

  lemma ApartAsNumbers(x: Id, y: Id)
    requires x != y
    ensures x as nat != y as nat
  {
    assert (x as nat) as Id == x;
  }

  lemma HashTellsLowByte(b: Id)
    requires b <= MASK_11 && b & MASK_SAD != 0
    ensures Mix(b) as nat != Mix(b & MASK_PGN) as nat
  {
    MixTellsLowByte(b);
    ApartAsNumbers(Mix(b), Mix(b & MASK_PGN));
  }

  lemma NoClashSameHash(a: Id, b: Id)
    requires CanIdsEqual(a, b) && !Clash(a, b)
    ensures Hash(a) == Hash(b)
  {
    HashFromCanIdRespectsIff(a, b);
  }

  lemma HashOf(a: Id, x: Id)
    requires HashFromCanId(a) == x
    ensures Hash(a) == Mix(x) as nat
  {
  }

  lemma ClashApart(a: Id, b: Id)
    requires CanIdsEqual(a, b) && Clash(a, b) && Extended(a)
    ensures Hash(a) != Hash(b)
  {
    HashFromCanIdRespectsIff(a, b);
    HashOf(a, b & MASK_PGN);
    HashOf(b, b);
    HashTellsLowByte(b);
  }

  lemma ClashIsSymmetric(a: Id, b: Id)
    requires Clash(a, b) && CanIdsEqual(a, b)
    ensures Clash(b, a) && CanIdsEqual(b, a) && (Extended(a) || Extended(b))
  {
  }

  /** Equal identifiers have different hashes in the table exactly when they clash. */
  lemma HashRespectsEqualityIff(a: Id, b: Id)
    requires CanIdsEqual(a, b)
    ensures Hash(a) != Hash(b) <==> Clash(a, b)
  {
    if Clash(a, b) {
      ClashIsSymmetric(a, b);
      if Extended(a) { ClashApart(a, b); } else { ClashApart(b, a); }
    } else {
      NoClashSameHash(a, b);
    }
  }

  /** Transitivity fails exactly for two different plain identifiers that an extended one ties together. */
  lemma NotTransitiveIff(a: Id, b: Id, c: Id)
    requires CanIdsEqual(a, b) && CanIdsEqual(b, c)
    ensures !CanIdsEqual(a, c) <==> Plain(a) && Extended(b) && Plain(c) && a != c
  {
  }

  /** Three such identifiers. */
  lemma MixedNotTransitive()
    ensures CanIdsEqual(5, 0x80000000) && CanIdsEqual(0x80000000, 6) && !CanIdsEqual(5, 6)
  {
  }

  /** The table is what inserting the messages one after the other makes of an empty one of the smallest size. */
  ghost predicate IsIndex<V>(t: HashTable<Id, V>, messages: seq<Pair<Id, V>>)
    reads t, t.table, set e | e in t.order
  {
    t.Valid() && t.hash == Hash && t.eqfn == CanIdsEqual && Lists(t, Listed(messages, 0))
  }

  /** `messageHash_create`: an index of messages by identifier, which may be equal. */
  method CreateIndex<V>(messages: seq<Pair<Id, V>>) returns (t: HashTable<Id, V>)
    ensures fresh(t) && IsIndex(t, messages) && t.entrycount == |messages|
  {
    ghost var primeindex;
    t, primeindex := IndexAll(16, messages, Hash, CanIdsEqual);
    assert primeindex == 0 by { assert Prime(0) > 16; }
  }

  /** A lookup fails iff every message with an equal identifier clashes with the one looked up. */
  lemma LookupFailsIff<V>(t: HashTable<Id, V>, messages: seq<Pair<Id, V>>, k: Id)
    requires IsIndex(t, messages)
    ensures t.Lookup(k) == None <==>
      forall i :: 0 <= i < |messages| && CanIdsEqual(k, messages[i].key) ==> Clash(k, messages[i].key)
    ensures t.Lookup(k).Some? ==> exists p :: p in messages && CanIdsEqual(k, p.key) && t.Lookup(k) == Some(p.value)
  {
    LookupInIndex(t, messages, 0, k);
    forall i | 0 <= i < |messages|
      ensures Meets(t.hash, t.eqfn, messages[i].key, k) <==>
        CanIdsEqual(k, messages[i].key) && !Clash(k, messages[i].key)
    {
      MeetsIff(t.hash, t.eqfn, messages[i].key, k);
    }
    if t.Lookup(k).Some? {
      var p :| p in messages && Meets(t.hash, t.eqfn, p.key, k) && t.Lookup(k) == Some(p.value);
      MeetsIff(t.hash, t.eqfn, p.key, k);
    }
  }

  lemma MeetsIff(hash: Id -> nat, eq: (Id, Id) -> bool, stored: Id, k: Id)
    requires hash == Hash && eq == CanIdsEqual
    ensures Meets(hash, eq, stored, k) <==> CanIdsEqual(k, stored) && !Clash(k, stored)
  {
    assert eq(k, stored) == CanIdsEqual(k, stored);
    assert hash(k) == Hash(k) && hash(stored) == Hash(stored);
    if CanIdsEqual(k, stored) { HashRespectsEqualityIff(k, stored); }
  }

  predicate OneKind<V>(messages: seq<Pair<Id, V>>, k: Id) {
    forall i :: 0 <= i < |messages| ==> (Extended(messages[i].key) <==> Extended(k))
  }

  /**
   On extended or on plain identifiers alone a lookup finds a message iff one with an equal identifier was
   indexed, however many were, and then one of these.
   */
  lemma LookupFindsEqual<V>(t: HashTable<Id, V>, messages: seq<Pair<Id, V>>, k: Id)
    requires IsIndex(t, messages) && OneKind(messages, k)
    ensures t.Lookup(k) == None <==> forall i :: 0 <= i < |messages| ==> !CanIdsEqual(k, messages[i].key)
    ensures t.Lookup(k).Some? ==> exists p :: p in messages && CanIdsEqual(k, p.key) && t.Lookup(k) == Some(p.value)
  {
    LookupFailsIff(t, messages, k);
    forall i | 0 <= i < |messages| ensures !Clash(k, messages[i].key) {
      assert Extended(messages[i].key) <==> Extended(k);
    }
  }

  /** Which of several equals: as long as the table has not grown, the one that was inserted last. */
  lemma SmallIndexFindsNewest<V>(t: HashTable<Id, V>, messages: seq<Pair<Id, V>>, k: Id, i: nat)
    requires IsIndex(t, messages) && |messages| <= 35 && i < |messages|
    requires CanIdsEqual(k, messages[i].key) && !Clash(k, messages[i].key)
    requires forall j :: i < j < |messages| ==> !CanIdsEqual(k, messages[j].key)
    ensures t.Lookup(k) == Some(messages[i].value)
  {
    ListedSmall(messages, 0);
    LookupIsLast(t, Listed(messages, 0), k);
    MeetsIff(t.hash, t.eqfn, messages[i].key, k);
    forall j | i < j < |messages| ensures !Meets(t.hash, t.eqfn, messages[j].key, k) {
      MeetsIff(t.hash, t.eqfn, messages[j].key, k);
    }
    LastIs(messages, t.hash, t.eqfn, k, i);
  }

  /**
   Priority and source address of an extended identifier looked up make no difference, whatever was indexed.
   */
  lemma LookupIgnoresSourceAndPriority<V>(t: HashTable<Id, V>, messages: seq<Pair<Id, V>>, k: Id, other: Id)
    requires IsIndex(t, messages) && Extended(k) && Extended(other) && CanIdsEqual(k, other)
    ensures t.Lookup(k) == t.Lookup(other)
  {
    LookupIsLast(t, Listed(messages, 0), k);
    LookupIsLast(t, Listed(messages, 0), other);
    forall stored: Id ensures Meets(t.hash, t.eqfn, stored, k) <==> Meets(t.hash, t.eqfn, stored, other) {
      MeetsIff(t.hash, t.eqfn, stored, k);
      MeetsIff(t.hash, t.eqfn, stored, other);
      EqualExtended(k, other, stored);
    }
    SameMatches(Listed(messages, 0).pairs, t.hash, t.eqfn, k, other);
  }

  lemma EqualExtended(a: Id, b: Id, c: Id)
    requires Extended(a) && Extended(b) && CanIdsEqual(a, b)
    ensures CanIdsEqual(a, c) <==> CanIdsEqual(b, c)
    ensures Clash(a, c) <==> Clash(b, c)
  {
  }
}
