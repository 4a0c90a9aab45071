/** Go compares strings byte by byte, and `sort.Strings` sorts them in that
    order. Bucket keys are modelled as their raw bytes, so this module gives
    the lexicographic order on byte sequences and a sort for key lists. */
module KeyOrder {
  import opened Common

  type Key = Bytes

  /** `a <= b` on Go strings. */
  predicate KeyLe(a: Key, b: Key)
    decreases |a|
  {
    if |a| == 0 then true
    else if |b| == 0 then false
    else if a[0] < b[0] then true
    else if a[0] > b[0] then false
    else KeyLe(a[1..], b[1..])
  }

  lemma {:induction false} KeyLeTotal(a: Key, b: Key)
    ensures KeyLe(a, b) || KeyLe(b, a)
    decreases |a|
  {
    if |a| > 0 && |b| > 0 && a[0] == b[0] {
      KeyLeTotal(a[1..], b[1..]);
    }
  }

  lemma {:induction false} KeyLeAntisymmetric(a: Key, b: Key)
    requires KeyLe(a, b) && KeyLe(b, a)
    ensures a == b
    decreases |a|
  {
    if |a| > 0 {
      KeyLeAntisymmetric(a[1..], b[1..]);
      assert a == [a[0]] + a[1..] && b == [b[0]] + b[1..];
    }
  }

  lemma {:induction false} KeyLeTransitive(a: Key, b: Key, c: Key)
    requires KeyLe(a, b) && KeyLe(b, c)
    ensures KeyLe(a, c)
    decreases |a|
  {
    if |a| > 0 && |b| > 0 && |c| > 0 && a[0] == b[0] && b[0] == c[0] {
      KeyLeTransitive(a[1..], b[1..], c[1..]);
    }
  }

  predicate Sorted(s: seq<Key>) {
    forall i, j :: 0 <= i < j < |s| ==> KeyLe(s[i], s[j])
  }

  /** Places `k` in front of the first element it does not exceed. */
  function Insert(k: Key, s: seq<Key>): (r: seq<Key>)
    ensures multiset(r) == multiset(s) + multiset{k}
    ensures |r| == |s| + 1
  {
    if |s| == 0 then [k]
    else if KeyLe(k, s[0]) then [k] + s
    else
      assert s == [s[0]] + s[1..];
      [s[0]] + Insert(k, s[1..])
  }

  lemma {:induction false} InsertSorted(k: Key, s: seq<Key>)
    requires Sorted(s)
    ensures Sorted(Insert(k, s))
  {
    if |s| == 0 {
    } else if KeyLe(k, s[0]) {
      forall j | 0 <= j < |s|
        ensures KeyLe(k, s[j])
      {
        if j > 0 {
          KeyLeTransitive(k, s[0], s[j]);
        }
      }
    } else {
      KeyLeTotal(k, s[0]);
      var tail := s[1..];
      assert Sorted(tail);
      InsertSorted(k, tail);
      var rest := Insert(k, tail);
      forall x | x in rest
        ensures KeyLe(s[0], x)
      {
        assert x in multiset(rest);
        if x != k {
          assert x in multiset(tail);
          var j :| 0 <= j < |tail| && tail[j] == x;
          assert s[j + 1] == x;
        }
      }
      var r := [s[0]] + rest;
      forall i, j | 0 <= i < j < |r|
        ensures KeyLe(r[i], r[j])
      {
        if i > 0 {
          assert r[i] == rest[i - 1] && r[j] == rest[j - 1];
        } else {
          assert r[j] == rest[j - 1];
          assert rest[j - 1] in rest;
        }
      }
    }
  }

  /** `sort.Strings`: an insertion sort, producing the same output as Go's
      algorithm because a sorted arrangement of a key list is unique. */
  function SortKeys(s: seq<Key>): (r: seq<Key>)
    ensures Sorted(r)
    ensures multiset(r) == multiset(s)
  {
    if |s| == 0 then []
    else
      assert s == [s[0]] + s[1..];
      var rest := SortKeys(s[1..]);
      InsertSorted(s[0], rest);
      Insert(s[0], rest)
  }

  /** The head of a sorted list is at most every element of the list. */
  lemma SortedHeadIsLeast(a: seq<Key>, x: Key)
    requires Sorted(a) && x in a
    ensures KeyLe(a[0], x)
  {
    var i :| 0 <= i < |a| && a[i] == x;
    if i == 0 {
      KeyLeTotal(x, x);
    }
  }

  /** Removing equal heads from equal multisets leaves equal multisets. */
  lemma TailsSameMultiset(a: seq<Key>, b: seq<Key>)
    requires |a| > 0 && |b| > 0 && a[0] == b[0]
    requires multiset(a) == multiset(b)
    ensures multiset(a[1..]) == multiset(b[1..])
  {
    assert a == [a[0]] + a[1..] && b == [b[0]] + b[1..];
    assert multiset(a[1..]) == multiset(a) - multiset{a[0]};
    assert multiset(b[1..]) == multiset(b) - multiset{b[0]};
  }

  /** A sorted arrangement of a multiset of keys is unique. */
  lemma {:induction false} SortedUnique(a: seq<Key>, b: seq<Key>)
    requires Sorted(a) && Sorted(b)
    requires multiset(a) == multiset(b)
    ensures a == b
    decreases |a|
  {
    assert |a| == |multiset(a)| == |multiset(b)| == |b|;
    if |a| > 0 {
      assert a[0] in multiset(b) && b[0] in multiset(a);
      SortedHeadIsLeast(b, a[0]);
      SortedHeadIsLeast(a, b[0]);
      KeyLeAntisymmetric(a[0], b[0]);
      TailsSameMultiset(a, b);
      assert Sorted(a[1..]) && Sorted(b[1..]);
      SortedUnique(a[1..], b[1..]);
      assert a == [a[0]] + a[1..] && b == [b[0]] + b[1..];
    }
  }

  /** The key ordering step of `computeHash`: sort only when the list is not
      already sorted (`sort.StringsAreSorted`). */
  function SortIfNeeded(s: seq<Key>): (r: seq<Key>)
    ensures Sorted(r)
    ensures multiset(r) == multiset(s)
  {
    if Sorted(s) then s else SortKeys(s)
  }

  /** The result of sorting depends only on which keys, with multiplicity,
      the list holds; not on their order. */
  lemma SortIfNeededPermutationInvariant(a: seq<Key>, b: seq<Key>)
    requires multiset(a) == multiset(b)
    ensures SortIfNeeded(a) == SortIfNeeded(b)
  {
    SortedUnique(SortIfNeeded(a), SortIfNeeded(b));
  }
}
