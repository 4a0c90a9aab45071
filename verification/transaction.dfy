/** The parts of core/types/transaction.go with logic of their own: the two
    sort orders over transaction lists, `Cost`, and the checks `Sign` and
    `Verify` make before and around their cryptographic calls. The calls
    themselves (signing, key decoding, address derivation, signature
    checking) are parameters whose answers the model takes as given. */
module Transactions {
  import opened Common

  /** `common.Address`, kept as its bytes. */
  type Address = Bytes

  /** `Transaction`: the `txData` fields plus the two signature fields, each
      of which may be `nil`. The hash and size caches are not modelled. */
  datatype Transaction = Transaction(
    nonce: uint64,
    gasPrice: uint64,
    gasLimit: uint64,
    value: int,
    from: Address,
    to: Address,
    payload: Bytes,
    pubKey: Option<Bytes>,
    signature: Option<Bytes>)

  // ---------------------------------------------------------------------
  // Orders

  /** `NonceSortedList.Less` on the two elements it compares. */
  predicate NonceBefore(a: Transaction, b: Transaction) {
    a.nonce < b.nonce
  }

  /** `SortedList.Less` on the two elements it compares: lower nonce first,
      and for equal nonces the higher gas price first. */
  predicate PriorityBefore(a: Transaction, b: Transaction) {
    if a.nonce < b.nonce then true
    else if a.nonce == b.nonce then a.gasPrice > b.gasPrice
    else false
  }

  /** One number that orders transactions as `SortedList` does: the nonce
      in the high 64 bits, the gas price counted down in the low ones. */
  function PriorityKey(tx: Transaction): int {
    tx.nonce as int * 0x1_0000_0000_0000_0000 + (0xFFFF_FFFF_FFFF_FFFF - tx.gasPrice as int)
  }

  /** `SortedList.Less(i, j)`: the same as comparing priority keys. */
  function SortedLess(txs: seq<Transaction>, i: int, j: int): (r: bool)
    requires 0 <= i < |txs| && 0 <= j < |txs|
    ensures r <==> PriorityKey(txs[i]) < PriorityKey(txs[j])
  {
    PriorityBefore(txs[i], txs[j])
  }

  /** `NonceSortedList.Less(i, j)`: `SortedList.Less` without the gas-price
      tie-break, so it never orders two transactions of equal nonce. */
  function NonceSortedLess(txs: seq<Transaction>, i: int, j: int): (r: bool)
    requires 0 <= i < |txs| && 0 <= j < |txs|
    ensures r <==> SortedLess(txs, i, j) && txs[i].nonce != txs[j].nonce
    ensures r ==> SortedLess(txs, i, j)
  {
    NonceBefore(txs[i], txs[j])
  }

  ghost predicate Irreflexive(lt: (Transaction, Transaction) -> bool) {
    forall x :: !lt(x, x)
  }

  ghost predicate Asymmetric(lt: (Transaction, Transaction) -> bool) {
    forall x, y :: lt(x, y) ==> !lt(y, x)
  }

  ghost predicate Transitive(lt: (Transaction, Transaction) -> bool) {
    forall x, y, z :: lt(x, y) && lt(y, z) ==> lt(x, z)
  }

  /** Neither of two elements is below the other. */
  ghost predicate Incomparable(lt: (Transaction, Transaction) -> bool, x: Transaction, y: Transaction) {
    !lt(x, y) && !lt(y, x)
  }

  /** What `sort.Sort` needs of `Less`: a strict order whose incomparability
      is an equivalence. */
  ghost predicate StrictWeakOrder(lt: (Transaction, Transaction) -> bool) {
    && Irreflexive(lt)
    && Asymmetric(lt)
    && Transitive(lt)
    && forall x, y, z :: Incomparable(lt, x, y) && Incomparable(lt, y, z) ==> Incomparable(lt, x, z)
  }

  /** `NonceSortedList.Less` holds exactly when the first nonce is smaller,
      and is a strict weak order. */
  lemma NonceSortedLessLaws(txs: seq<Transaction>)
    ensures forall i, j :: 0 <= i < |txs| && 0 <= j < |txs| ==>
      (NonceSortedLess(txs, i, j) <==> txs[i].nonce < txs[j].nonce)
    ensures StrictWeakOrder(NonceBefore)
  {
  }

  /** `SortedList.Less`: nonce decides when the nonces differ; for equal
      nonces the higher gas price comes first, and equal nonce and price
      means neither is less. */
  lemma SortedLessCases(txs: seq<Transaction>, i: int, j: int)
    requires 0 <= i < |txs| && 0 <= j < |txs|
    ensures txs[i].nonce < txs[j].nonce ==> SortedLess(txs, i, j)
    ensures txs[i].nonce > txs[j].nonce ==> !SortedLess(txs, i, j)
    ensures txs[i].nonce == txs[j].nonce ==> (SortedLess(txs, i, j) <==> txs[i].gasPrice > txs[j].gasPrice)
    ensures txs[i].nonce == txs[j].nonce && txs[i].gasPrice == txs[j].gasPrice ==>
      !SortedLess(txs, i, j) && !SortedLess(txs, j, i)
  {
  }

  /** `SortedList.Less` is a strict weak order, so `sort.Sort` may use it. */
  lemma PriorityBeforeIsStrictWeakOrder()
    ensures StrictWeakOrder(PriorityBefore)
  {
  }

  /** The list as `sort.IsSorted` accepts it for `SortedList`: no element is
      less than the one before it. */
  ghost predicate SortedByPriority(txs: seq<Transaction>) {
    forall i, j :: 0 <= i && j == i + 1 && j < |txs| ==> !SortedLess(txs, j, i)
  }

  /** A list sorted with `SortedList.Less` is what its comment promises:
      nonces ascending, and gas prices descending among equal nonces. */
  lemma {:induction false} SortedByPriorityMeansNonceThenPrice(txs: seq<Transaction>)
    requires SortedByPriority(txs)
    ensures forall i, j :: 0 <= i < j < |txs| ==> txs[i].nonce <= txs[j].nonce
    ensures forall i, j :: 0 <= i < j < |txs| && txs[i].nonce == txs[j].nonce ==>
      txs[i].gasPrice >= txs[j].gasPrice
  {
    if |txs| > 1 {
      var init := txs[..|txs| - 1];
      assert SortedByPriority(init) by {
        forall i, j | 0 <= i && j == i + 1 && j < |init|
          ensures !SortedLess(init, j, i)
        {
          assert init[i] == txs[i] && init[j] == txs[j];
          assert !SortedLess(txs, j, i);
        }
      }
      SortedByPriorityMeansNonceThenPrice(init);
      var n := |txs| - 1;
      assert !SortedLess(txs, n, n - 1) by {
        assert n == (n - 1) + 1;
      }
      forall i | 0 <= i < n
        ensures txs[i].nonce <= txs[n].nonce
        ensures txs[i].nonce == txs[n].nonce ==> txs[i].gasPrice >= txs[n].gasPrice
      {
        assert init[i] == txs[i] && init[n - 1] == txs[n - 1];
      }
    }
  }

  /** `Swap(i, j)` of both list types: exchange two positions. */
  function Swap(txs: seq<Transaction>, i: int, j: int): (r: seq<Transaction>)
    requires 0 <= i < |txs| && 0 <= j < |txs|
    ensures |r| == |txs|
    ensures r[i] == txs[j] && r[j] == txs[i]
    ensures forall k :: 0 <= k < |txs| && k != i && k != j ==> r[k] == txs[k]
    ensures multiset(r) == multiset(txs)
  {
    txs[i := txs[j]][j := txs[i]]
  }

  /** Swapping twice restores the list. */
  lemma SwapInvolutive(txs: seq<Transaction>, i: int, j: int)
    requires 0 <= i < |txs| && 0 <= j < |txs|
    ensures Swap(Swap(txs, i, j), i, j) == txs
  {
  }

  // ---------------------------------------------------------------------
  // Cost

  /** `Cost`: `Value + GasLimit` in `big.Int` arithmetic, so it never wraps;
      it can exceed every `uint64`. */
  function Cost(tx: Transaction): (c: int)
    ensures c - tx.value == tx.gasLimit as int
    ensures tx.value <= c < tx.value + 0x1_0000_0000_0000_0000
  {
    tx.value + tx.gasLimit as int
  }

  // ---------------------------------------------------------------------
  // Sign and Verify

  datatype TxError = ErrSignNotFound | ErrPubkeyNotFound | ErrAddressNotMatch | CryptoError

  /** A Go `([]byte, error)` reply from the crypto library. */
  datatype BytesReply = BytesReply(value: Option<Bytes>, failed: bool)

  /** The private key as `Sign` uses it: `Sign(hash)` and
      `GetPublic().Bytes()`. */
  datatype Signer = Signer(sign: Digest -> BytesReply, publicBytes: BytesReply)

  datatype SignReply = SignReply(tx: Transaction, sig: Option<Bytes>, err: Option<TxError>)

  /** The transaction's economic fields, which the hash covers. */
  predicate SameData(a: Transaction, b: Transaction) {
    && a.nonce == b.nonce && a.gasPrice == b.gasPrice && a.gasLimit == b.gasLimit
    && a.value == b.value && a.from == b.from && a.to == b.to && a.payload == b.payload
  }

  /** `Sign`. `hash` is the transaction's content hash `tx.Hash()`. An
      existing signature is returned as it is and the key is not used. */
  function Sign(tx: Transaction, key: Signer, hash: Digest): (r: SignReply)
    ensures tx.signature.Some? ==> r == SignReply(tx, tx.signature, None)
    ensures SameData(r.tx, tx)
    ensures tx.signature.None? && r.err.None? ==>
      && r.sig == key.sign(hash).value
      && r.tx.signature == r.sig
      && r.tx.pubKey == key.publicBytes.value
    ensures r.err.Some? ==> r.sig.None? && r.err == Some(CryptoError)
    ensures r.err.None? <==> tx.signature.Some? || (!key.sign(hash).failed && !key.publicBytes.failed)
    ensures tx.signature.None? && key.sign(hash).failed ==> r.tx == tx
    ensures tx.signature.None? && !key.sign(hash).failed && key.publicBytes.failed ==>
      && r.err.Some?
      && r.tx.signature == key.sign(hash).value
      && r.tx.pubKey == key.publicBytes.value
  {
    if tx.signature.Some? then
      SignReply(tx, tx.signature, None)
    else
      var s := key.sign(hash);
      if s.failed then
        SignReply(tx, None, Some(CryptoError))
      else
        var signed := tx.(signature := s.value, pubKey := key.publicBytes.value);
        if key.publicBytes.failed then SignReply(signed, None, Some(CryptoError))
        else SignReply(signed, s.value, None)
  }

  /** Signing a signed transaction does not depend on the key or the hash:
      no signer is invoked. */
  lemma SignIgnoresKeyWhenSigned(tx: Transaction, k1: Signer, h1: Digest, k2: Signer, h2: Digest)
    requires tx.signature.Some?
    ensures Sign(tx, k1, h1) == Sign(tx, k2, h2)
  {
  }

  /** A `Sign` whose public-key export fails still leaves the signature on
      the transaction, with the public key holding whatever the failed
      export returned (`nil` for an ordinary failure). Signing it again then
      returns that signature with no error, whatever key is used. */
  lemma SignRetryReturnsOrphanSignature(tx: Transaction, key: Signer, hash: Digest, key2: Signer, hash2: Digest)
    requires tx.signature.None?
    requires !key.sign(hash).failed && key.sign(hash).value.Some?
    requires key.publicBytes.failed
    ensures var first := Sign(tx, key, hash);
      && first.err == Some(CryptoError)
      && Sign(first.tx, key2, hash2) == SignReply(first.tx, key.sign(hash).value, None)
  {
  }

  /** The library calls `Verify` makes once both fields are present:
      `UnmarshalPublicKey`, `GenAddrByPubkey` and `pubKey.Verify`; `None`
      stands for an error return. */
  datatype Crypto = Crypto(
    unmarshal: Bytes -> bool,
    addressOf: Bytes -> Option<Address>,
    check: (Bytes, Digest, Bytes) -> Option<bool>)

  datatype Verdict = Verdict(valid: bool, err: Option<TxError>)

  /** `Verify`, its checks in the order the code makes them. */
  function Verify(tx: Transaction, crypto: Crypto, hash: Digest): (r: Verdict)
    ensures tx.signature.None? ==> r == Verdict(false, Some(ErrSignNotFound))
    ensures r.err == Some(ErrSignNotFound) <==> tx.signature.None?
    ensures r.err == Some(ErrPubkeyNotFound) <==> tx.signature.Some? && tx.pubKey.None?
    ensures r.err == Some(ErrAddressNotMatch) ==>
      tx.pubKey.Some? && crypto.addressOf(tx.pubKey.value).Some? && crypto.addressOf(tx.pubKey.value).value != tx.from
    ensures r.valid ==>
      && r.err.None? && tx.signature.Some? && tx.pubKey.Some?
      && crypto.addressOf(tx.pubKey.value) == Some(tx.from)
      && crypto.check(tx.pubKey.value, hash, tx.signature.value) == Some(true)
  {
    if tx.signature.None? then Verdict(false, Some(ErrSignNotFound))
    else if tx.pubKey.None? then Verdict(false, Some(ErrPubkeyNotFound))
    else
      var pub := tx.pubKey.value;
      if !crypto.unmarshal(pub) then Verdict(false, Some(CryptoError))
      else match crypto.addressOf(pub)
        case None => Verdict(false, Some(CryptoError))
        case Some(address) =>
          if address != tx.from then Verdict(false, Some(ErrAddressNotMatch))
          else match crypto.check(pub, hash, tx.signature.value)
            case None => Verdict(false, Some(CryptoError))
            case Some(equal) => Verdict(equal, None)
  }

  /** A transaction that `Sign` signed without error, with a key whose
      signature and public key are non-nil, passes both guards of
      `Verify`. */
  lemma SignedPassesVerifyGuards(tx: Transaction, key: Signer, hash: Digest, crypto: Crypto)
    requires tx.signature.None?
    requires Sign(tx, key, hash).err.None?
    requires key.sign(hash).value.Some? && key.publicBytes.value.Some?
    ensures var v := Verify(Sign(tx, key, hash).tx, crypto, hash);
      v.err != Some(ErrSignNotFound) && v.err != Some(ErrPubkeyNotFound)
  {
  }
}
