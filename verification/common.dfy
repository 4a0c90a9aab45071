/** Shared vocabulary of the model: machine integers, byte strings, the
    256-bit digest type of the chain's hashing helper, and the
    failure-carrying wrappers used for Go's `(value, error)` returns. */
module Common {

  newtype byte = b: int | 0 <= b < 256

  /** Go's `uint64`. */
  newtype uint64 = x: int | 0 <= x < 0x1_0000_0000_0000_0000

  type Bytes = seq<byte>

  /** Length of a digest in bytes (`common.Hash` is a 32-byte array). */
  const DigestLength: nat := 32

  /** `n` zero bytes. */
  function Zeros(n: nat): (z: Bytes)
    ensures |z| == n
    ensures forall i :: 0 <= i < n ==> z[i] == 0
  {
    if n == 0 then [] else [0] + Zeros(n - 1)
  }

  const ZeroBytes: Bytes := Zeros(DigestLength)

  type Digest = d: Bytes | |d| == DigestLength witness ZeroBytes

  /** The zero value of `common.Hash`; `Hash.Nil()` holds exactly of it. */
  const ZeroDigest: Digest := ZeroBytes

  predicate IsNil(d: Digest) {
    d == ZeroDigest
  }

  /** The hash function is a parameter of every operation that hashes:
      nothing is assumed of it, not even injectivity. */
  type Hasher = Bytes -> Digest

  datatype Option<+T> = None | Some(value: T)

  datatype Result<+T, +E> = Ok(value: T) | Err(error: E)

  datatype Outcome<+E> = Pass | Fail(error: E)

  /** A Go byte slice that may be `nil`; `AsBytes` forgets the difference,
      as `bytes.Compare` and `append` do. */
  function AsBytes(s: Option<Bytes>): Bytes {
    match s
    case None => []
    case Some(b) => b
  }

  predicate NoDup<T(==)>(s: seq<T>) {
    forall i, j :: 0 <= i < j < |s| ==> s[i] != s[j]
  }

  /** A sequence is duplicate-free iff its head is not repeated in its
      duplicate-free tail. */
  lemma NoDupCons<T>(s: seq<T>)
    requires |s| > 0
    ensures NoDup(s) <==> s[0] !in s[1..] && NoDup(s[1..])
  {
    if s[0] !in s[1..] && NoDup(s[1..]) {
      forall i, j | 0 <= i < j < |s|
        ensures s[i] != s[j]
      {
        assert s[j] == s[1..][j - 1];
        if i > 0 {
          assert s[i] == s[1..][i - 1];
        }
      }
    }
    if NoDup(s) {
      forall i, j | 0 <= i < j < |s[1..]|
        ensures s[1..][i] != s[1..][j]
      {
        assert s[1..][i] == s[i + 1] && s[1..][j] == s[j + 1];
      }
    }
  }

  function Elems<T>(s: seq<T>): set<T> {
    set x | x in s
  }

  /** In a sequence without duplicates every element occurs once. */
  lemma {:induction false} NoDupMultiplicity<T>(s: seq<T>, x: T)
    requires NoDup(s)
    ensures multiset(s)[x] == if x in s then 1 else 0
  {
    if |s| > 0 {
      assert s == [s[0]] + s[1..];
      assert NoDup(s[1..]) by {
        forall i, j | 0 <= i < j < |s[1..]|
          ensures s[1..][i] != s[1..][j]
        {
          assert s[1..][i] == s[i + 1] && s[1..][j] == s[j + 1];
        }
      }
      NoDupMultiplicity(s[1..], x);
      if x == s[0] {
        assert x !in s[1..];
      }
    }
  }

  /** Two duplicate-free sequences with the same elements are permutations
      of each other. */
  lemma SameElemsSameMultiset<T>(a: seq<T>, b: seq<T>)
    requires NoDup(a) && NoDup(b)
    requires forall x :: x in a <==> x in b
    ensures multiset(a) == multiset(b)
  {
    forall x
      ensures multiset(a)[x] == multiset(b)[x]
    {
      NoDupMultiplicity(a, x);
      NoDupMultiplicity(b, x);
    }
  }

  /** Rearranging a duplicate-free sequence cannot create a duplicate. */
  lemma PermutationKeepsNoDup<T>(a: seq<T>, b: seq<T>)
    requires NoDup(a)
    requires multiset(a) == multiset(b)
    ensures NoDup(b)
  {
    forall i, j | 0 <= i < j < |b|
      ensures b[i] != b[j]
    {
      if b[i] == b[j] {
        var x := b[i];
        assert b == b[..j] + b[j..];
        assert x in b[..j] && x in b[j..];
        assert multiset(b)[x] == multiset(b[..j])[x] + multiset(b[j..])[x];
        NoDupMultiplicity(a, x);
        assert false;
      }
    }
  }

  /** A duplicate-free sequence has as many distinct elements as entries. */
  lemma {:induction false} NoDupCardinality<T>(s: seq<T>)
    requires NoDup(s)
    ensures |Elems(s)| == |s|
  {
    if |s| > 0 {
      NoDupCons(s);
      NoDupCardinality(s[1..]);
      assert Elems(s) == {s[0]} + Elems(s[1..]) by {
        assert s == [s[0]] + s[1..];
      }
    }
  }
}
