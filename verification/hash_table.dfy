/** The bucket index `HashTable` of core/bmt/bucket.go: a fixed number of
    bucket slots addressed by the first four key bytes, loaded lazily from a
    content-addressed store, with a set of dirty slots to persist.

    Every operation is a pure state transition. The store (`BmtDB`) is a map
    from digest to bucket handed to each operation; whether the table was
    built with a store at all (`db != nil`) is the `hasDb` flag. */
module HashTables {
  import opened Common
  import opened KeyOrder
  import opened Buckets

  /** `errors.New("value not found")`, `ErrDbNotOpen`, and any error the
      store returns. */
  datatype Error = ValueNotFound | DbNotOpen | StoreFailure

  type Store = map<Digest, Bucket>

  datatype HashTable = HashTable(
    hasDb: bool,
    cap: int,
    bucketHash: seq<Digest>,
    buckets: seq<Option<Bucket>>,
    dirty: set<int>)

  /** The shape every operation keeps: `Cap` slots in both arrays, and every
      dirty slot holds an in-memory bucket. */
  ghost predicate Valid(ht: HashTable) {
    && 0 <= ht.cap
    && |ht.bucketHash| == ht.cap
    && |ht.buckets| == ht.cap
    && forall i :: i in ht.dirty ==> 0 <= i < ht.cap && ht.buckets[i].Some?
  }

  /** Every in-memory bucket satisfies the bucket invariant. */
  ghost predicate BucketsWellFormed(ht: HashTable) {
    forall i :: 0 <= i < |ht.buckets| && ht.buckets[i].Some? ==> WellFormed(ht.buckets[i].value)
  }

  ghost predicate StoreWellFormed(store: Store) {
    forall d :: d in store ==> WellFormed(store[d])
  }

  /** `NewHashTable`: `cap` absent buckets, zero recorded digests, nothing
      dirty. A negative capacity makes Go's `make` panic. */
  function NewHashTable(hasDb: bool, cap: int): (ht: HashTable)
    requires 0 <= cap
    ensures Valid(ht) && BucketsWellFormed(ht)
    ensures ht.cap == cap && ht.hasDb == hasDb && ht.dirty == {}
    ensures forall i :: 0 <= i < cap ==> ht.buckets[i].None? && IsNil(ht.bucketHash[i])
  {
    HashTable(hasDb, cap, seq(cap, _ => ZeroDigest), seq(cap, _ => None), {})
  }

  /** `binary.BigEndian.Uint32` of the first four bytes. */
  function BigEndianUint32(key: Key): (v: int)
    requires |key| >= 4
    ensures 0 <= v < 0x1_0000_0000
  {
    key[0] as int * 0x100_0000 + key[1] as int * 0x1_0000 + key[2] as int * 0x100 + key[3] as int
  }

  /** `getIndex`. Go's `%` truncates, but both operands are non-negative here
      (`int(uint32)` on a 64-bit platform), so it agrees with Dafny's. */
  function GetIndex(cap: int, key: Key): (i: int)
    requires cap > 0 && |key| >= 4
    ensures 0 <= i < cap
  {
    BigEndianUint32(key) % cap
  }

  /** The index sees only the first four bytes: keys that share them share a
      bucket, whatever follows. */
  lemma IndexDependsOnlyOnPrefix(cap: int, k1: Key, k2: Key)
    requires cap > 0 && |k1| >= 4 && |k2| >= 4
    requires k1[..4] == k2[..4]
    ensures GetIndex(cap, k1) == GetIndex(cap, k2)
  {
    assert k1[0] == k1[..4][0] && k1[1] == k1[..4][1] && k1[2] == k1[..4][2] && k1[3] == k1[..4][3];
    assert k2[0] == k2[..4][0] && k2[1] == k2[..4][1] && k2[2] == k2[..4][2] && k2[3] == k2[..4][3];
  }

  /** Four one-letter-repeated keys in a table of four slots: "aaaa" (bytes
      0x61) lands in slot 1, "bbbb" in 2, "cccc" in 3 and "dddd" in 0. */
  lemma RepeatedLetterKeysIndices()
    ensures GetIndex(4, [0x61, 0x61, 0x61, 0x61]) == 1
    ensures GetIndex(4, [0x62, 0x62, 0x62, 0x62]) == 2
    ensures GetIndex(4, [0x63, 0x63, 0x63, 0x63]) == 3
    ensures GetIndex(4, [0x64, 0x64, 0x64, 0x64]) == 0
  {
  }

  /** `BmtDB.GetBucket`: a digest the store does not hold is an error. */
  function GetBucket(store: Store, d: Digest): Result<Bucket, Error> {
    if d in store then Ok(store[d]) else Err(StoreFailure)
  }

  /** The bucket `put` works on: the in-memory one, else the stored one when
      the slot has a recorded digest and there is a store, else a new one. */
  function ResolveForPut(ht: HashTable, store: Store, i: int): (r: Result<Bucket, Error>)
    requires Valid(ht) && 0 <= i < ht.cap
    ensures r.Err? <==> ht.buckets[i].None? && !IsNil(ht.bucketHash[i]) && ht.hasDb && ht.bucketHash[i] !in store
    ensures r.Err? ==> r.error == StoreFailure
    ensures ht.buckets[i].Some? ==> r == Ok(ht.buckets[i].value)
    ensures ht.buckets[i].None? && r.Ok? ==>
      if !IsNil(ht.bucketHash[i]) && ht.hasDb then ht.bucketHash[i] in store && r.value == store[ht.bucketHash[i]]
      else r.value == NewBucket()
    ensures BucketsWellFormed(ht) && StoreWellFormed(store) && r.Ok? ==> WellFormed(r.value)
  {
    match ht.buckets[i]
    case Some(b) => Ok(b)
    case None =>
      if !IsNil(ht.bucketHash[i]) && ht.hasDb then GetBucket(store, ht.bucketHash[i])
      else Ok(NewBucket())
  }

  /** `put`. On error the table is left exactly as it was. */
  function Put(ht: HashTable, store: Store, key: Key, value: Option<Bytes>): (r: Result<HashTable, Error>)
    requires Valid(ht) && ht.cap > 0 && |key| >= 4
    ensures var i := GetIndex(ht.cap, key);
      r.Err? <==> ht.buckets[i].None? && !IsNil(ht.bucketHash[i]) && ht.hasDb && ht.bucketHash[i] !in store
    ensures r.Err? ==> r.error == StoreFailure
    ensures r.Ok? ==> Valid(r.value)
    ensures r.Ok? ==>
      && r.value.cap == ht.cap && r.value.hasDb == ht.hasDb && r.value.bucketHash == ht.bucketHash
      && r.value.buckets[GetIndex(ht.cap, key)].Some?
      && forall j :: 0 <= j < ht.cap && j != GetIndex(ht.cap, key) ==> r.value.buckets[j] == ht.buckets[j]
    ensures r.Ok? ==>
      var i := GetIndex(ht.cap, key);
      var b := ResolveForPut(ht, store, i).value;
      if Differs(b, key, value) then r.value.dirty == ht.dirty + {i}
      else r.value.dirty == ht.dirty && r.value.buckets[i] == Some(b)
    ensures r.Ok? ==>
      var i := GetIndex(ht.cap, key);
      var b := ResolveForPut(ht, store, i).value;
      Differs(b, key, value) ==> r.value.buckets[i] == Some(ApplyPut(b, key, value))
    ensures r.Ok? && BucketsWellFormed(ht) && StoreWellFormed(store) ==> BucketsWellFormed(r.value)
  {
    var i := GetIndex(ht.cap, key);
    match ResolveForPut(ht, store, i)
    case Err(e) => Err(e)
    case Ok(b) =>
      var installed := ht.(buckets := ht.buckets[i := Some(b)]);
      if Differs(b, key, value) then
        Ok(installed.(buckets := ht.buckets[i := Some(ApplyPut(b, key, value))], dirty := ht.dirty + {i}))
      else
        Ok(installed)
  }

  /** Re-putting a value byte-equal to the stored one (`nil` and empty alike)
      into an in-memory bucket changes nothing at all. */
  lemma PutUnchangedValueIsNoOp(ht: HashTable, store: Store, key: Key, value: Option<Bytes>)
    requires Valid(ht) && ht.cap > 0 && |key| >= 4
    requires ht.buckets[GetIndex(ht.cap, key)].Some?
    requires AsBytes(Lookup(ht.buckets[GetIndex(ht.cap, key)].value.slots, key)) == AsBytes(value)
    ensures Put(ht, store, key, value) == Ok(ht)
  {
    var i := GetIndex(ht.cap, key);
    assert ht.buckets[i := ht.buckets[i]] == ht.buckets;
  }

  /** The answer of `get` together with the table, which `get` may extend by
      a bucket it loaded from the store. */
  datatype GetReply = GetReply(table: HashTable, result: Result<Option<Bytes>, Error>)

  /** `get`. A key missing from an in-memory bucket reads as `nil` with no
      error; "value not found" is reserved for a slot with nothing in memory
      and nothing to load. */
  function Get(ht: HashTable, store: Store, key: Key): (r: GetReply)
    requires Valid(ht) && ht.cap > 0 && |key| >= 4
    ensures Valid(r.table) && r.table.cap == ht.cap
    ensures var i := GetIndex(ht.cap, key);
      r.result == Err(ValueNotFound) <==> ht.buckets[i].None? && (IsNil(ht.bucketHash[i]) || !ht.hasDb)
    ensures var i := GetIndex(ht.cap, key);
      r.result == Err(StoreFailure) <==>
        ht.buckets[i].None? && !IsNil(ht.bucketHash[i]) && ht.hasDb && ht.bucketHash[i] !in store
    ensures var i := GetIndex(ht.cap, key);
      r.result.Ok? <==> ht.buckets[i].Some? || (!IsNil(ht.bucketHash[i]) && ht.hasDb && ht.bucketHash[i] in store)
    ensures r.result.Err? || ht.buckets[GetIndex(ht.cap, key)].Some? ==> r.table == ht
    ensures r.result.Ok? ==>
      var i := GetIndex(ht.cap, key);
      && r.table == ht.(buckets := ht.buckets[i := r.table.buckets[i]])
      && r.table.buckets[i].Some?
      && r.result.value == Lookup(r.table.buckets[i].value.slots, key)
    ensures var i := GetIndex(ht.cap, key);
      r.result.Ok? && ht.buckets[i].None? ==>
        ht.bucketHash[i] in store && r.table.buckets[i] == Some(store[ht.bucketHash[i]])
  {
    var i := GetIndex(ht.cap, key);
    match ht.buckets[i]
    case Some(b) => GetReply(ht, Ok(Lookup(b.slots, key)))
    case None =>
      if !IsNil(ht.bucketHash[i]) && ht.hasDb then
        match GetBucket(store, ht.bucketHash[i])
        case Err(e) => GetReply(ht, Err(e))
        case Ok(b) => GetReply(ht.(buckets := ht.buckets[i := Some(b)]), Ok(Lookup(b.slots, key)))
      else
        GetReply(ht, Err(ValueNotFound))
  }

  /** After a successful `put(k, v)`, `get(k)` succeeds without touching the
      table and returns `v`, up to `nil` versus empty: exactly `v` when `v`
      is non-empty, and no "value not found" error after a delete. */
  lemma PutThenGet(ht: HashTable, store: Store, key: Key, value: Option<Bytes>)
    requires Valid(ht) && ht.cap > 0 && |key| >= 4
    requires Put(ht, store, key, value).Ok?
    ensures var ht' := Put(ht, store, key, value).value;
      && Get(ht', store, key).table == ht'
      && Get(ht', store, key).result.Ok?
      && AsBytes(Get(ht', store, key).result.value) == AsBytes(value)
    ensures value.Some? && |value.value| > 0 ==>
      Get(Put(ht, store, key, value).value, store, key).result == Ok(value)
  {
    var i := GetIndex(ht.cap, key);
    var b := ResolveForPut(ht, store, i).value;
    ApplyPutThenLookup(b, key, value);
  }

  /** A successful `put(k1, v)` leaves what `get(k2)` answers for every
      other key as it was, with one exception: a slot that had nothing in
      memory and nothing to load answered "value not found" before, and
      after the put creates its bucket it answers `nil` without error. */
  lemma {:induction false} PutKeepsOtherKeys(ht: HashTable, store: Store, k1: Key, value: Option<Bytes>, k2: Key)
    requires Valid(ht) && ht.cap > 0 && |k1| >= 4 && |k2| >= 4 && k1 != k2
    requires Put(ht, store, k1, value).Ok?
    ensures var before := Get(ht, store, k2).result;
      var after := Get(Put(ht, store, k1, value).value, store, k2).result;
      if before == Err(ValueNotFound) && GetIndex(ht.cap, k2) == GetIndex(ht.cap, k1) then after == Ok(None)
      else after == before
  {
    var i := GetIndex(ht.cap, k1);
    var j := GetIndex(ht.cap, k2);
    var ht' := Put(ht, store, k1, value).value;
    if i == j {
      var b := ResolveForPut(ht, store, i).value;
      var b' := ht'.buckets[i].value;
      assert Lookup(b'.slots, k2) == Lookup(b.slots, k2);
    }
  }

  /** One write staged into a batch by `PutBucket`. */
  datatype Staged = Staged(digest: Digest, bucket: Bucket)

  type Batch = seq<Staged>

  /** What `PutBucket(batch, bucket.Hash(), bucket)` stages for slot `i`: the
      bucket under its cached digest. */
  function StagedEntry(buckets: seq<Option<Bucket>>, i: int): Staged
    requires 0 <= i < |buckets| && buckets[i].Some?
  {
    Staged(Hash(buckets[i].value), buckets[i].value)
  }

  /** Every slot named in `order` holds an in-memory bucket. */
  ghost predicate Materialised(buckets: seq<Option<Bucket>>, order: seq<int>) {
    forall k :: 0 <= k < |order| ==> 0 <= order[k] < |buckets| && buckets[order[k]].Some?
  }

  /** `order` visits each element of `s` exactly once: one run of Go's
      randomised `range` over the dirty map. */
  ghost predicate Enumerates(order: seq<int>, s: set<int>) {
    && NoDup(order)
    && (forall k :: 0 <= k < |order| ==> order[k] in s)
    && (forall i :: i in s ==> i in order)
  }

  /** One visit per element: the loop runs exactly `|s|` times. */
  lemma EnumerationLength(order: seq<int>, s: set<int>)
    requires Enumerates(order, s)
    ensures Elems(order) == s
    ensures Visited(order, 0, |order|) == s
    ensures |order| == |s|
  {
    forall x | x in s
      ensures x in Elems(order) && x in Visited(order, 0, |order|)
    {
      var k :| 0 <= k < |order| && order[k] == x;
    }
    NoDupCardinality(order);
  }

  /** The entries staged for `order[lo..hi]`, in that order. */
  function Entries(buckets: seq<Option<Bucket>>, order: seq<int>, lo: int, hi: int): (e: Batch)
    requires 0 <= lo <= hi <= |order| && Materialised(buckets, order)
    ensures |e| == hi - lo
    ensures forall k :: 0 <= k < hi - lo ==> e[k] == StagedEntry(buckets, order[lo + k])
  {
    seq(hi - lo, k requires 0 <= k < hi - lo => StagedEntry(buckets, order[lo + k]))
  }

  /** The slots `order[lo..hi]`. */
  function Visited(order: seq<int>, lo: int, hi: int): set<int>
    requires 0 <= lo <= hi <= |order|
  {
    set k | lo <= k < hi :: order[k]
  }

  /** Where the staging loop stops: at the write the store refuses, if that
      write is reached, else after the last one. */
  function StopAt(order: seq<int>, t: int, fault: Option<nat>): int {
    if fault.Some? && t <= fault.value < |order| then fault.value else |order|
  }

  datatype Staging = Staging(dirty: set<int>, batch: Batch, outcome: Outcome<Error>)

  /** The first loop of `commit`, from step `t` of `order` on. Each step
      first deletes the slot from `dirty`, then stages its bucket; the write
      numbered `fault`, if any, fails and ends the loop with the slot already
      removed. */
  function StageFrom(buckets: seq<Option<Bucket>>, order: seq<int>, t: nat, fault: Option<nat>,
                     dirty: set<int>, batch: Batch): (r: Staging)
    requires t <= |order| && Materialised(buckets, order)
    ensures var stop := StopAt(order, t, fault);
      && r.batch == batch + Entries(buckets, order, t, stop)
      && r.dirty == dirty - Visited(order, t, if stop < |order| then stop + 1 else stop)
      && r.outcome == if stop < |order| then Fail(StoreFailure) else Pass
    decreases |order| - t
  {
    if t == |order| then
      Staging(dirty, batch, Pass)
    else
      var i := order[t];
      var dirty' := dirty - {i};
      if fault == Some(t) then
        assert Visited(order, t, t + 1) == {i};
        Staging(dirty', batch, Fail(StoreFailure))
      else
        var e := StagedEntry(buckets, i);
        var r := StageFrom(buckets, order, t + 1, fault, dirty', batch + [e]);
        var stop := StopAt(order, t, fault);
        assert stop == StopAt(order, t + 1, fault);
        var end := if stop < |order| then stop + 1 else stop;
        assert Visited(order, t, end) == {i} + Visited(order, t + 1, end) by {
          forall x | x in Visited(order, t, end)
            ensures x in {i} + Visited(order, t + 1, end)
          {
            var k :| t <= k < end && order[k] == x;
            if k > t {
              assert x in Visited(order, t + 1, end);
            }
          }
        }
        assert [e] + Entries(buckets, order, t + 1, stop) == Entries(buckets, order, t, stop);
        r
  }

  /** Result of `commit`: the table, the batch with its staged writes, and
      the error if any. */
  datatype CommitReply = CommitReply(table: HashTable, batch: Batch, outcome: Outcome<Error>)

  /** The second loop of `commit`: every in-memory bucket's cached digest is
      copied into `BucketHash`; absent slots keep theirs. */
  function RefreshedHashes(ht: HashTable): (h: seq<Digest>)
    requires Valid(ht)
    ensures |h| == ht.cap
    ensures forall i :: 0 <= i < ht.cap && ht.buckets[i].Some? ==> h[i] == Hash(ht.buckets[i].value)
    ensures forall i :: 0 <= i < ht.cap && ht.buckets[i].None? ==> h[i] == ht.bucketHash[i]
  {
    seq(ht.cap, i requires 0 <= i < ht.cap =>
      if ht.buckets[i].Some? then Hash(ht.buckets[i].value) else ht.bucketHash[i])
  }

  /** Refreshing is idempotent: once every in-memory bucket's digest has
      been recorded, a second pass records the same digests again. */
  lemma RefreshIsIdempotent(ht: HashTable)
    requires Valid(ht)
    ensures Valid(ht.(bucketHash := RefreshedHashes(ht)))
    ensures RefreshedHashes(ht.(bucketHash := RefreshedHashes(ht))) == RefreshedHashes(ht)
  {
  }

  /** `commit`. `order` is the order in which Go's map iteration visits the
      dirty slots; `fault` is the position in that order of the `PutBucket`
      call the store fails, if any. Digests are not recomputed: each bucket
      is staged, and recorded, under the digest it has cached. */
  function Commit(ht: HashTable, batch: Batch, order: seq<int>, fault: Option<nat>): (r: CommitReply)
    requires Valid(ht) && Enumerates(order, ht.dirty)
    ensures Valid(r.table)
    ensures r.table.cap == ht.cap && r.table.hasDb == ht.hasDb && r.table.buckets == ht.buckets
    ensures !ht.hasDb ==> r == CommitReply(ht, batch, Fail(DbNotOpen))
    ensures ht.hasDb && (fault.None? || fault.value >= |order|) ==>
      && r.outcome == Pass
      && r.table.dirty == {}
      && |r.batch| == |batch| + |order|
      && r.batch[..|batch|] == batch
      && (forall k :: 0 <= k < |order| ==> r.batch[|batch| + k] == StagedEntry(ht.buckets, order[k]))
      && (forall i :: 0 <= i < ht.cap ==>
            r.table.bucketHash[i] == if ht.buckets[i].Some? then Hash(ht.buckets[i].value) else ht.bucketHash[i])
    ensures ht.hasDb && fault.Some? && fault.value < |order| ==>
      && r.outcome == Fail(StoreFailure)
      && r.table.bucketHash == ht.bucketHash
      && r.table.dirty == ht.dirty - Visited(order, 0, fault.value + 1)
      && r.batch == batch + Entries(ht.buckets, order, 0, fault.value)
  {
    if !ht.hasDb then
      CommitReply(ht, batch, Fail(DbNotOpen))
    else
      var s := StageFrom(ht.buckets, order, 0, fault, ht.dirty, batch);
      var staged := ht.(dirty := s.dirty);
      if s.outcome.Fail? then
        CommitReply(staged, s.batch, s.outcome)
      else
        EnumerationLength(order, ht.dirty);
        CommitReply(staged.(bucketHash := RefreshedHashes(ht)), s.batch, Pass)
  }

  /** A second commit with no put in between stages nothing and changes
      nothing. */
  lemma CommitTwiceStagesNothing(ht: HashTable, batch: Batch, order: seq<int>, batch2: Batch, fault2: Option<nat>)
    requires Valid(ht) && Enumerates(order, ht.dirty) && ht.hasDb
    ensures var first := Commit(ht, batch, order, None);
      Commit(first.table, batch2, [], fault2) == CommitReply(first.table, batch2, Pass)
  {
    var first := Commit(ht, batch, order, None);
    assert RefreshedHashes(first.table) == first.table.bucketHash;
    assert StageFrom(first.table.buckets, [], 0, fault2, {}, batch2) == Staging({}, batch2, Pass);
  }

  /** `purge`: drop every in-memory bucket and the dirty set; the recorded
      digests stay. */
  function Purge(ht: HashTable): (r: HashTable)
    requires Valid(ht)
    ensures Valid(r) && BucketsWellFormed(r)
    ensures r.cap == ht.cap && r.hasDb == ht.hasDb && r.bucketHash == ht.bucketHash
    ensures r.dirty == {}
    ensures forall i :: 0 <= i < r.cap ==> r.buckets[i].None?
  {
    ht.(buckets := seq(ht.cap, _ => None), dirty := {})
  }

  /** A slot that was never committed has a zero recorded digest, so after
      `purge` a key in it reads as "value not found". */
  lemma PurgeForgetsUncommitted(ht: HashTable, store: Store, key: Key)
    requires Valid(ht) && ht.cap > 0 && |key| >= 4
    requires IsNil(ht.bucketHash[GetIndex(ht.cap, key)])
    ensures Get(Purge(ht), store, key).result == Err(ValueNotFound)
  {
  }

  /** The store after an atomic write of `batch`: later writes win. */
  function ApplyBatch(store: Store, batch: Batch): Store {
    if |batch| == 0 then store
    else
      var last := batch[|batch| - 1];
      ApplyBatch(store, batch[..|batch| - 1])[last.digest := last.bucket]
  }

  /** A staged write not overwritten by a later one under the same digest is
      what the store holds after the batch. */
  lemma {:induction false} LastWriteWins(store: Store, batch: Batch, k: int)
    requires 0 <= k < |batch|
    requires forall k' :: k < k' < |batch| ==> batch[k'].digest != batch[k].digest
    ensures batch[k].digest in ApplyBatch(store, batch)
    ensures ApplyBatch(store, batch)[batch[k].digest] == batch[k].bucket
  {
    if k < |batch| - 1 {
      var init := batch[..|batch| - 1];
      assert init[k] == batch[k];
      LastWriteWins(store, init, k);
    }
  }

  /** After a successful commit and the write of its batch, the digest
      recorded for a dirty slot names that slot's bucket in the store,
      provided no other dirty bucket caches the same digest. */
  lemma CommitRecordsLoadableDigest(ht: HashTable, store: Store, batch: Batch, order: seq<int>, i: int)
    requires Valid(ht) && ht.hasDb && Enumerates(order, ht.dirty)
    requires i in ht.dirty
    requires forall j :: j in ht.dirty && j != i ==> Hash(ht.buckets[j].value) != Hash(ht.buckets[i].value)
    ensures var c := Commit(ht, batch, order, None);
      && c.table.bucketHash[i] == Hash(ht.buckets[i].value)
      && c.table.bucketHash[i] in ApplyBatch(store, c.batch)
      && ApplyBatch(store, c.batch)[c.table.bucketHash[i]] == ht.buckets[i].value
  {
    var c := Commit(ht, batch, order, None);
    var staged := Entries(ht.buckets, order, 0, |order|);
    assert c.batch == batch + staged;
    var m :| 0 <= m < |order| && order[m] == i;
    UniqueStagedDigestLands(store, batch, staged, m, order, ht.buckets, i);
  }

  /** The write staged for slot `i` at step `m` is not overwritten by a later
      staged write when no other dirty bucket shares its digest. */
  lemma UniqueStagedDigestLands(store: Store, batch: Batch, staged: Batch, m: int,
                                order: seq<int>, buckets: seq<Option<Bucket>>, i: int)
    requires Materialised(buckets, order) && NoDup(order)
    requires staged == Entries(buckets, order, 0, |order|)
    requires 0 <= m < |order| && order[m] == i
    requires forall k :: 0 <= k < |order| && order[k] != i ==>
      Hash(buckets[order[k]].value) != Hash(buckets[i].value)
    ensures Hash(buckets[i].value) in ApplyBatch(store, batch + staged)
    ensures ApplyBatch(store, batch + staged)[Hash(buckets[i].value)] == buckets[i].value
  {
    var all := batch + staged;
    var k := |batch| + m;
    assert all[k] == staged[m] == StagedEntry(buckets, i);
    forall k' | k < k' < |all|
      ensures all[k'].digest != all[k].digest
    {
      var m' := k' - |batch|;
      assert all[k'] == staged[m'] == StagedEntry(buckets, order[m']);
    }
    LastWriteWins(store, all, k);
  }

  /** The reload path: commit, write the batch, purge, and a key in a slot
      that was dirty reads back as before, loaded from the store by its
      recorded digest. This needs that digest to be non-zero and distinct
      from the digests of the other dirty buckets; nothing in `commit`
      ensures either, since it does not recompute digests. */
  lemma CommitPurgeReload(ht: HashTable, store: Store, batch: Batch, order: seq<int>, key: Key)
    requires Valid(ht) && ht.cap > 0 && |key| >= 4 && ht.hasDb
    requires Enumerates(order, ht.dirty)
    requires GetIndex(ht.cap, key) in ht.dirty
    requires !IsNil(Hash(ht.buckets[GetIndex(ht.cap, key)].value))
    requires forall j :: j in ht.dirty && j != GetIndex(ht.cap, key) ==>
      Hash(ht.buckets[j].value) != Hash(ht.buckets[GetIndex(ht.cap, key)].value)
    ensures var c := Commit(ht, batch, order, None);
      var store' := ApplyBatch(store, c.batch);
      && Get(Purge(c.table), store', key).result == Get(c.table, store', key).result
      && Get(c.table, store', key).result == Ok(Lookup(ht.buckets[GetIndex(ht.cap, key)].value.slots, key))
  {
    var i := GetIndex(ht.cap, key);
    CommitRecordsLoadableDigest(ht, store, batch, order, i);
  }
}
