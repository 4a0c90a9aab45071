# Bucket Merkle tree index and transaction ordering, in Dafny

This project models two pieces of the tinychain Go code base as pure state
transitions over immutable values, and proves properties of them.

1. **The bucket index of the bucket Merkle tree (`core/bmt/bucket.go`).** A
   `Bucket` is a small key → bytes map. It also holds the list of its keys and
   a cached digest. `computeHash` sorts the key list and hashes the values
   concatenated in key order. A `HashTable` is a fixed array of `Cap` bucket
   slots. A key goes to the slot given by its first four bytes, read
   big-endian, modulo `Cap`. The table loads a bucket lazily from the store
   when that slot has a recorded digest, and it tracks which slots are dirty.
   `commit` stages the dirty buckets into a write batch and copies the cached
   digests into `BucketHash`. `purge` drops the in-memory buckets.
2. **Transaction ordering and guards (`core/types/transaction.go`).** This
   covers the two `Less` comparators and `Swap` used with `sort.Sort`,
   `Cost`, and the control flow of `Sign` and `Verify`.

Files:

- `common.dfy` (`Common`): bytes, `uint64`, the 32-byte `Digest` with its
  zero value (`Hash.Nil()`), and the `Option`/`Result`/`Outcome` wrappers.
  It also has small facts about duplicate-free sequences.
- `key_order.dfy` (`KeyOrder`): Go's byte-wise string order. `sort.Strings`
  is modelled as an insertion sort. The module proves that a sorted
  arrangement of a key list is unique.
- `bucket.dfy` (`Buckets`): `Bucket`, its key-list helpers, `computeHash`,
  and the change `put` makes to a bucket.
- `hash_table.dfy` (`HashTables`): `HashTable`, `getIndex`, `put`, `get`,
  `commit` and `purge`.
- `transaction.dfy` (`Transactions`): the comparators, `Swap`, `Cost`,
  `Sign` and `Verify`.

How the external pieces are represented:

- **SHA-256.** `common.Sha256` is a parameter `sha: Bytes -> Digest`. Nothing
  is assumed of it, not even injectivity. The digest order-independence
  result rests only on the fact that sorting is deterministic.
- **The store (`BmtDB`).** It is a `map<Digest, Bucket>` passed to `Put` and
  `Get`. Whether the table has a store at all (`db != nil`) is the `hasDb`
  flag. `GetBucket` fails when the digest is not in the map.
- **The write batch.** It is a sequence of staged `(digest, bucket)` writes.
  `ApplyBatch` writes a batch into a store, with later writes winning. It is
  used only to state the reload property.
- **Nondeterminism in `commit`.** `commit` walks the dirty set with Go's
  randomised map iteration. Its `order` parameter is any enumeration of the
  dirty set. A failing `PutBucket` is the `fault` parameter: the position in
  that order of the write the store refuses.
- **Crypto calls in `Sign` and `Verify`.** They are parameters: a `Signer`
  (the private key's `Sign` and `GetPublic().Bytes()`) and a `Crypto` record
  (`UnmarshalPublicKey`, `GenAddrByPubkey`, `pubKey.Verify`). The
  transaction's content hash `tx.Hash()` is passed in as a digest.

Behaviour of the code worth knowing, because it is easy to assume
otherwise:

- `commit` does not recompute any digest. It stages each dirty bucket under
  the digest the bucket has cached (`bucket.Hash()`, bucket.go:194). It then
  copies those cached digests into `BucketHash` (bucket.go:201). `put` never
  refreshes a digest either (`ApplyPut` keeps `h`). So a bucket is persisted
  under a fresh digest only if its caller ran `computeHash` first. The
  reload property `CommitPurgeReload` therefore needs the digest to be
  non-zero and distinct from the other dirty buckets' digests.
- Only a `nil` value deletes a key. A non-nil empty value that differs from
  the stored one is stored, as an empty slot. `nil` and empty compare equal
  (`bytes.Compare`), so putting either over the other is a no-op.
- `get` of a key missing from a bucket that is already in memory returns
  `nil` with no error. "value not found" is returned only when the slot has
  no in-memory bucket and nothing to load.
- When a store write fails during `commit`, the failing slot has already
  been removed from the dirty set. So have all slots staged before it. A
  later `commit` on the same table will not stage them again.
- With four slots, the keys `"aaaa"`, `"bbbb"`, `"cccc"` and `"dddd"` land in
  slots 1, 2, 3 and 0. This is because 0x61616161 mod
  4 is 1, and so on (`RepeatedLetterKeysIndices`).
- A `put` into a slot that had nothing in memory and nothing to load creates
  an empty bucket there. After that, `get` of any other key in that slot
  answers `nil` with no error instead of "value not found"
  (`PutKeepsOtherKeys`).
- When `Sign` fails to export the public key, the signature is already on
  the transaction. A second `Sign` then returns that signature with no
  error, as `SignRetryReturnsOrphanSignature` states. The public key holds
  whatever the failed export returned, which is `nil` for an ordinary
  failure.

## Model

| member | source | states |
|---|---|---|
| `Buckets.NewBucket` | core/bmt/bucket.go:21-25 | a fresh bucket has the zero digest, no slots and no keys, and satisfies the bucket invariant (keys duplicate-free, exactly the slot keys) |
| `Buckets.HashIsCachedDigest` | core/bmt/bucket.go:27-29 | `Hash()` is the cached digest: zero for a new bucket, unchanged by a put, and after `computeHash` the hash of the values in sorted key order |
| `Buckets.ComputeHash` | core/bmt/bucket.go:32-45 | the key list ends sorted in Go string order and is a permutation of the old one; the slots are untouched; the digest is the hash of the values concatenated in that sorted order; the bucket invariant is kept |
| `Buckets.DigestDependsOnlyOnSlots` | core/bmt/bucket.go:32-45 | two well-formed buckets with the same key → value map recompute to the same bucket and digest, whatever order their keys were inserted in and whatever digest they cached |
| `KeyOrder.SortIfNeeded` | core/bmt/bucket.go:37-39 | sorting only when the list is unsorted yields a sorted permutation of the key list |
| `KeyOrder.SortedUnique` | core/bmt/bucket.go:37-39 | two sorted lists holding the same keys with the same multiplicities are equal, so the outcome of the sort does not depend on the algorithm |
| `KeyOrder.SortIfNeededPermutationInvariant` | core/bmt/bucket.go:37-39 | key lists that are permutations of each other sort to the same list |
| `KeyOrder.SortKeys` | core/bmt/bucket.go:38 | `sort.Strings` returns a sorted permutation of its input |
| `KeyOrder.KeyLeTotal` | core/bmt/bucket.go:37-38 | Go's string order is total: of two keys one is at most the other |
| `KeyOrder.KeyLeAntisymmetric` | core/bmt/bucket.go:37-38 | two keys each at most the other are equal |
| `KeyOrder.KeyLeTransitive` | core/bmt/bucket.go:37-38 | the string order is transitive |
| `Buckets.HasKey` | core/bmt/bucket.go:48-55 | the scan answers true exactly when the key is in the list |
| `Buckets.AddKey` | core/bmt/bucket.go:57-64 | adding a listed key leaves the list unchanged; adding an unlisted key appends it |
| `Buckets.DelKey` | core/bmt/bucket.go:66-73 | an absent key leaves the list unchanged; otherwise exactly the first occurrence is removed and the rest keep their order |
| `Buckets.DelKeyRemoves` | core/bmt/bucket.go:66-73 | on a duplicate-free list the result is duplicate-free and holds every other key and not the removed one |
| `Buckets.ApplyPut` | core/bmt/bucket.go:147-156 | a byte-equal value (nil and empty alike) leaves the bucket as it is; a differing nil deletes the key; a differing value installs it, appending the key to the key list only if it was not listed; no other key's lookup changes; the cached digest stays; the bucket invariant is kept |
| `Buckets.ApplyPutThenLookup` | core/bmt/bucket.go:147-155 | after a put the key reads back as the value put, up to nil versus empty, and exactly as it when it is non-empty |
| `Buckets.PutOrderIrrelevantForDigest` | core/bmt/bucket.go:147-155 | puts on two different keys, applied in either order, give the same recomputed bucket and digest |
| `HashTables.NewHashTable` | core/bmt/bucket.go:93-101 | `cap` absent slots with zero recorded digests and an empty dirty set |
| `HashTables.GetIndex` | core/bmt/bucket.go:122-125 | the slot index lies in `[0, Cap)` |
| `HashTables.IndexDependsOnlyOnPrefix` | core/bmt/bucket.go:122-125 | keys sharing their first four bytes get the same slot, whatever follows |
| `HashTables.RepeatedLetterKeysIndices` | core/bmt/bucket.go:122-125 | with four slots, "aaaa", "bbbb", "cccc" and "dddd" land in slots 1, 2, 3 and 0 |
| `HashTables.ResolveForPut` | core/bmt/bucket.go:134-146 | put uses the in-memory bucket if any; otherwise the store's bucket under the recorded digest when the digest is non-zero and there is a store, else a new bucket; it fails only when it must load a recorded digest the store lacks; a loaded or new bucket is well-formed when the store's are |
| `HashTables.Put` | core/bmt/bucket.go:127-159 | fails exactly on a failed store load, leaving the table as it was; otherwise only the key's slot changes, it ends materialised, the slot is marked dirty exactly when the value differed, and then it holds the resolved bucket with the put applied (delete on nil, install otherwise), recorded digests are untouched, and the table shape and bucket invariants are kept |
| `HashTables.PutUnchangedValueIsNoOp` | core/bmt/bucket.go:147-148 | re-putting a byte-equal value into an in-memory bucket leaves the whole table unchanged, dirty set included |
| `HashTables.Get` | core/bmt/bucket.go:161-183 | "value not found" exactly when the slot is absent and has a zero digest or no store; a store error exactly when the load fails; on an error nothing changes; it succeeds exactly when the slot is in memory or its non-zero recorded digest can be loaded from a store, and then the answer is the slot lookup (nil for a missing key, no error) and at most that slot gains a bucket, which is the store's bucket under the recorded digest |
| `HashTables.PutThenGet` | core/bmt/bucket.go:127-183 | after a successful put, get succeeds, leaves the table alone and returns the value put (up to nil versus empty; exactly it when non-empty) |
| `HashTables.PutKeepsOtherKeys` | core/bmt/bucket.go:134-157 | a successful put of one key leaves what get answers for every other key unchanged, except that a slot which answered "value not found" answers nil once the put has created its bucket |
| `HashTables.StageFrom` | core/bmt/bucket.go:191-198 | the staging loop appends the buckets of the visited slots under their cached digests, in visiting order, and removes every visited slot from dirty, including the one whose write fails |
| `HashTables.RefreshedHashes` | core/bmt/bucket.go:199-203 | each in-memory slot's recorded digest becomes its bucket's cached digest; an absent slot keeps its recorded digest |
| `HashTables.RefreshIsIdempotent` | core/bmt/bucket.go:199-203 | refreshing the recorded digests a second time changes nothing |
| `HashTables.Commit` | core/bmt/bucket.go:185-205 | without a store: `ErrDbNotOpen` and nothing changes; otherwise, with no failure, it stages exactly one write per dirty slot under the cached digest, empties dirty, and sets each materialised slot's recorded digest to its bucket's cached digest and leaves the rest; on a failure the recorded digests are untouched and dirty has lost the slots visited so far |
| `HashTables.CommitTwiceStagesNothing` | core/bmt/bucket.go:185-205 | a second commit with no put in between stages nothing and changes nothing |
| `HashTables.CommitRecordsLoadableDigest` | core/bmt/bucket.go:191-203 | after a commit whose batch is written, the digest recorded for a dirty slot names that slot's bucket in the store, provided no other dirty bucket caches the same digest |
| `HashTables.Purge` | core/bmt/bucket.go:207-210 | every slot becomes absent and dirty empties; recorded digests, capacity and store stay |
| `HashTables.PurgeForgetsUncommitted` | core/bmt/bucket.go:207-210 | after purge, a key whose slot has a zero recorded digest reads as "value not found" |
| `HashTables.CommitPurgeReload` | core/bmt/bucket.go:185-210 | commit, write the batch, purge: a key in a previously dirty slot reads back its value from the store, given a non-zero and unshared cached digest |
| `Transactions.NonceSortedLess` | core/types/transaction.go:197-199 | `NonceSortedList.Less` is `SortedList.Less` restricted to different nonces: it never orders two transactions of equal nonce |
| `Transactions.SortedLess` | core/types/transaction.go:212-220 | `SortedList.Less` agrees with comparing one priority number per transaction, nonce in the high 64 bits and gas price counted down in the low 64 |
| `Transactions.NonceSortedLessLaws` | core/types/transaction.go:197-199 | `NonceSortedList.Less(i, j)` holds iff nonce i < nonce j, and is a strict weak order |
| `Transactions.SortedLessCases` | core/types/transaction.go:212-220 | `SortedList.Less` holds when nonce i < nonce j, never when nonce i > nonce j, and for equal nonces iff price i > price j; equal nonce and price means neither is less |
| `Transactions.PriorityBeforeIsStrictWeakOrder` | core/types/transaction.go:212-220 | `SortedList.Less` is irreflexive, asymmetric and transitive, and its incomparability is transitive |
| `Transactions.SortedByPriorityMeansNonceThenPrice` | core/types/transaction.go:205-220 | a list with no element less than its predecessor has nonces ascending and, among equal nonces, gas prices descending |
| `Transactions.Swap` | core/types/transaction.go:201-203 | positions i and j are exchanged, every other position is unchanged, and the list is a permutation of the old one (the `SortedList.Swap` at 222-224 is the same code) |
| `Transactions.SwapInvolutive` | core/types/transaction.go:222-224 | swapping the same two positions twice restores the list |
| `Transactions.Cost` | core/types/transaction.go:126-128 | cost exceeds value by exactly the gas limit, computed without wrap-around |
| `Transactions.Sign` | core/types/transaction.go:79-94 | an existing signature is returned with no change and no error; otherwise it reports no error exactly when both the signer and the public-key export succeed, and on success the returned signature is the signer's and is stored with the public key; the economic fields never change; on an error no signature is returned; a failing signer leaves the transaction unchanged; a failing public-key export leaves the new signature and the reply's public key on the transaction |
| `Transactions.SignIgnoresKeyWhenSigned` | core/types/transaction.go:80-82 | on a signed transaction the result does not depend on the key or hash, so no signer is invoked |
| `Transactions.SignRetryReturnsOrphanSignature` | core/types/transaction.go:80-92 | after a `Sign` that failed exporting the public key, signing again returns the stored signature with no error, whatever the key |
| `Transactions.Verify` | core/types/transaction.go:97-124 | `ErrSignNotFound` iff the signature is nil, even when the public key is nil too; `ErrPubkeyNotFound` iff a signature is present and the public key is nil; `ErrAddressNotMatch` only for a derived address that differs from the sender; valid only when the address matches and the signature check says true |
| `Transactions.SignedPassesVerifyGuards` | core/types/transaction.go:79-103 | a transaction signed without error by a key giving non-nil bytes passes both guards of `Verify` |

## Left out

- Locking is not modelled. This covers the `sync.RWMutex` of `Bucket` and `HashTable` and the `atomic.Value` caches of `Transaction`. Every operation is atomic and sequential, including `get`, which writes the slot array under a read lock.
- `HashTable.copy` is not modelled. Its copies share each bucket's `Slots` map with the original, and it dereferences absent buckets, which panics. Neither fits a value model.
- JSON encoding is not modelled: `serialize`/`deserialize` of buckets, tables, transactions and `TxMeta`, and `Transaction.Size`. They depend on a third-party codec.
- The internals of SHA-256 are not modelled. The hash is an arbitrary function.
- The `BmtDB` store and the LevelDB batch are not part of this model. They are a digest → bucket map and a list of staged writes.
- `HashTables.Put`: a store read fails only when the digest is absent. Other I/O failures of `BmtDB.GetBucket`, which could also hit a present digest, are not modelled.
- `HashTables.Get`: likewise, a store read fails only when the digest is absent.
- The root aggregator `bmt.Hash` / `bmt.Commit` and its callers `Transactions.Hash` / `Transactions.Commit` are not part of this model.
- The real cryptography of `Sign` and `Verify` is not modelled: key decoding, address derivation, signing and checking. Their answers are parameters. `Transaction.Hash` (the cached content hash) is passed in as a digest.
- `NonceSortedList.Len` and `SortedList.Len` are the list length. `NewTransaction` and `NewTxData` are the datatype constructor.
- `HashTables.GetIndex`: assumes Go's `int` is 64 bits wide. On a 32-bit platform `int(uint32)` can be negative, and Go's truncating `%` would then give a negative index.
- Go panics are preconditions, not modelled error paths: `NewHashTable` requires a non-negative capacity (`make` panics on a negative one), and `getIndex`, so `HashTables.Put` and `HashTables.Get`, require `Cap > 0` and a key of at least four bytes (a zero divisor or a short slice panics).
- `Transactions.Cost`: a nil `Value` (which panics in Go) is not modelled. `Value` is always an integer.
