/** A bucket of the bucket Merkle tree (core/bmt/bucket.go): a small
    key -> bytes map, the list of its keys, and a cached digest that is only
    refreshed by `ComputeHash`. */
module Buckets {
  import opened Common
  import opened KeyOrder

  /** `Bucket` with its three serialised fields `H`, `Slots` and `Keys`. */
  datatype Bucket = Bucket(h: Digest, slots: map<Key, Bytes>, keys: seq<Key>)

  /** The bucket invariant: `keys` lists exactly the keys of `slots`, each
      once. */
  ghost predicate WellFormed(b: Bucket) {
    && NoDup(b.keys)
    && forall k :: k in b.slots <==> k in b.keys
  }

  /** `NewBucket`: an empty bucket whose digest is the zero hash. */
  function NewBucket(): (b: Bucket)
    ensures IsNil(b.h)
    ensures |b.slots| == 0 && |b.keys| == 0
    ensures WellFormed(b)
  {
    Bucket(ZeroDigest, map[], [])
  }

  /** `Hash()`: the cached digest, whatever the current contents. */
  function Hash(b: Bucket): Digest {
    b.h
  }

  /** `Hash()` returns the digest cached by the last `computeHash` (the zero
      digest for a new bucket): a put leaves it stale, and only recomputing
      brings it up to date with the content. */
  lemma HashIsCachedDigest(b: Bucket, key: Key, value: Option<Bytes>, sha: Hasher)
    ensures IsNil(Hash(NewBucket()))
    ensures Hash(ApplyPut(b, key, value)) == Hash(b)
    ensures Hash(ComputeHash(b, sha)) == sha(ValuesInOrder(SortIfNeeded(b.keys), b.slots))
  {
  }

  /** Go's `m[key]` on a `map[string][]byte`: `nil` for a missing key. */
  function Lookup(slots: map<Key, Bytes>, key: Key): Option<Bytes> {
    if key in slots then Some(slots[key]) else None
  }

  /** The values of `keys`, in that order, appended into one byte string; a
      key without a slot contributes nothing (it reads as `nil`). */
  function ValuesInOrder(keys: seq<Key>, slots: map<Key, Bytes>): Bytes {
    if |keys| == 0 then []
    else AsBytes(Lookup(slots, keys[0])) + ValuesInOrder(keys[1..], slots)
  }

  /** `computeHash`: sort the key list, then digest the values in key order.
      The result is the updated bucket; its digest is `Hash` of it. */
  function ComputeHash(b: Bucket, sha: Hasher): (r: Bucket)
    ensures r.slots == b.slots
    ensures Sorted(r.keys)
    ensures multiset(r.keys) == multiset(b.keys)
    ensures r.h == sha(ValuesInOrder(r.keys, r.slots))
    ensures WellFormed(b) ==> WellFormed(r)
  {
    var keys := SortIfNeeded(b.keys);
    assert WellFormed(b) ==> NoDup(keys) by {
      if WellFormed(b) {
        PermutationKeepsNoDup(b.keys, keys);
      }
    }
    assert forall k :: k in keys <==> k in b.keys by {
      forall k
        ensures k in keys <==> k in b.keys
      {
        assert k in keys <==> k in multiset(keys);
        assert k in b.keys <==> k in multiset(b.keys);
      }
    }
    Bucket(sha(ValuesInOrder(keys, b.slots)), b.slots, keys)
  }

  /** Two well-formed buckets holding the same key -> value map recompute to
      the same bucket, digest included, whatever order their keys were
      inserted in and whatever digests they cached before. */
  lemma DigestDependsOnlyOnSlots(b1: Bucket, b2: Bucket, sha: Hasher)
    requires WellFormed(b1) && WellFormed(b2)
    requires b1.slots == b2.slots
    ensures ComputeHash(b1, sha) == ComputeHash(b2, sha)
  {
    SameElemsSameMultiset(b1.keys, b2.keys);
    SortIfNeededPermutationInvariant(b1.keys, b2.keys);
  }

  /** `hasKey`: a linear scan of the key list. */
  function HasKey(keys: seq<Key>, key: Key): (r: bool)
    ensures r <==> key in keys
  {
    if |keys| == 0 then false
    else keys[0] == key || HasKey(keys[1..], key)
  }

  /** `addKey`: append the key unless it is already listed. */
  function AddKey(keys: seq<Key>, key: Key): (r: seq<Key>)
    ensures key in keys ==> r == keys
    ensures key !in keys ==> r == keys + [key]
  {
    if HasKey(keys, key) then keys else keys + [key]
  }

  /** Position of the first occurrence of `key`. */
  function FirstIndex(keys: seq<Key>, key: Key): (i: nat)
    requires key in keys
    ensures i < |keys| && keys[i] == key
    ensures key !in keys[..i]
  {
    if keys[0] == key then 0
    else
      assert keys == [keys[0]] + keys[1..];
      var j := FirstIndex(keys[1..], key);
      assert keys[..j + 1] == [keys[0]] + keys[1..][..j];
      j + 1
  }

  /** `delKey`: drop the first occurrence of the key, if any. */
  function DelKey(keys: seq<Key>, key: Key): (r: seq<Key>)
    ensures key !in keys ==> r == keys
    ensures key in keys ==>
      var i := FirstIndex(keys, key);
      r == keys[..i] + keys[i + 1..]
  {
    if |keys| == 0 then []
    else if keys[0] == key then keys[1..]
    else
      var tail := keys[1..];
      assert keys == [keys[0]] + tail;
      var rest := DelKey(tail, key);
      assert key in keys ==>
        var j := FirstIndex(tail, key);
        && FirstIndex(keys, key) == j + 1
        && keys[..j + 1] == [keys[0]] + tail[..j]
        && keys[j + 2..] == tail[j + 1..];
      [keys[0]] + rest
  }

  /** On a duplicate-free list `delKey` removes the key entirely and keeps
      every other key. */
  lemma {:induction false} DelKeyRemoves(keys: seq<Key>, key: Key)
    requires NoDup(keys)
    ensures NoDup(DelKey(keys, key))
    ensures forall x :: x in DelKey(keys, key) <==> x in keys && x != key
  {
    if |keys| > 0 {
      NoDupCons(keys);
      if keys[0] != key {
        DelKeyRemoves(keys[1..], key);
        var r := DelKey(keys, key);
        assert r == [keys[0]] + DelKey(keys[1..], key);
        NoDupCons(r);
      }
    }
  }

  /** Whether `put` sees a change: `bytes.Compare` of the stored value and
      the new one is non-zero, `nil` and empty counting as equal. */
  predicate Differs(b: Bucket, key: Key, value: Option<Bytes>) {
    AsBytes(Lookup(b.slots, key)) != AsBytes(value)
  }

  /** The mutation `HashTable.put` performs on the bucket it resolved: a
      `nil` value deletes the key, any other changed value installs it. The
      cached digest is left as it was. */
  function ApplyPut(b: Bucket, key: Key, value: Option<Bytes>): (r: Bucket)
    ensures r.h == b.h
    ensures !Differs(b, key, value) ==> r == b
    ensures Differs(b, key, value) && value.None? ==> r.slots == b.slots - {key}
    ensures Differs(b, key, value) && value.Some? ==> r.slots == b.slots[key := value.value]
    ensures Differs(b, key, value) && value.Some? ==> r.keys == if key in b.keys then b.keys else b.keys + [key]
    ensures Lookup(r.slots, key) == if Differs(b, key, value) then value else Lookup(b.slots, key)
    ensures forall k :: k != key ==> Lookup(r.slots, k) == Lookup(b.slots, k)
    ensures WellFormed(b) ==> WellFormed(r)
  {
    if !Differs(b, key, value) then b
    else if value.None? then
      assert NoDup(b.keys) ==>
             (&& NoDup(DelKey(b.keys, key))
              && forall x :: x in DelKey(b.keys, key) <==> x in b.keys && x != key) by {
        if NoDup(b.keys) {
          DelKeyRemoves(b.keys, key);
        }
      }
      b.(keys := DelKey(b.keys, key), slots := b.slots - {key})
    else
      b.(keys := AddKey(b.keys, key), slots := b.slots[key := value.value])
  }

  /** After a put the bucket holds the new value, up to `nil` versus
      empty. */
  lemma ApplyPutThenLookup(b: Bucket, key: Key, value: Option<Bytes>)
    ensures AsBytes(Lookup(ApplyPut(b, key, value).slots, key)) == AsBytes(value)
    ensures value.Some? && |value.value| > 0 ==> Lookup(ApplyPut(b, key, value).slots, key) == value
  {
  }

  /** Two slot maps that answer every lookup alike are the same map. */
  lemma SlotsExtensional(m1: map<Key, Bytes>, m2: map<Key, Bytes>)
    requires forall k :: Lookup(m1, k) == Lookup(m2, k)
    ensures m1 == m2
  {
    forall k
      ensures k in m1 <==> k in m2
      ensures k in m1 ==> m1[k] == m2[k]
    {
      assert Lookup(m1, k) == Lookup(m2, k);
    }
  }

  /** Puts on two different keys commute as far as the bucket's content is
      concerned: applying them in either order and recomputing gives the same
      bucket and digest. */
  lemma PutOrderIrrelevantForDigest(b: Bucket, k1: Key, v1: Option<Bytes>,
                                    k2: Key, v2: Option<Bytes>, sha: Hasher)
    requires WellFormed(b)
    requires k1 != k2
    ensures ComputeHash(ApplyPut(ApplyPut(b, k1, v1), k2, v2), sha) ==
            ComputeHash(ApplyPut(ApplyPut(b, k2, v2), k1, v1), sha)
  {
    var b12 := ApplyPut(ApplyPut(b, k1, v1), k2, v2);
    var b21 := ApplyPut(ApplyPut(b, k2, v2), k1, v1);
    forall k
      ensures Lookup(b12.slots, k) == Lookup(b21.slots, k)
    {
    }
    SlotsExtensional(b12.slots, b21.slots);
    DigestDependsOnlyOnSlots(b12, b21, sha);
  }
}
