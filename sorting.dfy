/** `std::sort` over a vector, modelled as an in-place sort of an array under a
    three-way comparator.  `std::sort` is not stable, so nothing else in the
    model relies on which of two tied elements comes first: callers use only
    that the result is sorted and a permutation of the input.  A functional
    sort is given as well, as the reference value of a sort whose comparator
    is a total order (then every sorted permutation is that one). */
module Sorting {
  import opened Ordering

  /** `std::sort(v.begin(), v.end(), ...)` over the whole array. */
  method SortInPlace<T(!new)>(a: array<T>, cmp: (T, T) -> Ord)
    requires IsTotalPreorder(cmp)
    modifies a
    ensures Sorted(a[..], cmp)
    ensures multiset(a[..]) == multiset(old(a[..]))
  {
    var i := 0;
    while i < a.Length
      invariant 0 <= i <= a.Length
      invariant Sorted(a[..i], cmp)
      invariant multiset(a[..]) == multiset(old(a[..]))
    {
      var j := i;
      assert a[..i + 1][..i] == a[..i];
      while j > 0 && cmp(a[j - 1], a[j]) == Greater
        invariant 0 <= j <= i
        invariant multiset(a[..]) == multiset(old(a[..]))
        invariant Inserting(a[..i + 1], j, cmp)
      {
        SwapKeepsInserting(a[..i + 1], j, cmp);
        ghost var before := a[..];
        a[j - 1], a[j] := a[j], a[j - 1];
        assert a[..] == before[j - 1 := before[j]][j := before[j - 1]];
        SwapSame(before, j);
        assert a[..i + 1] == before[..i + 1][j - 1 := before[j]][j := before[j - 1]];
        j := j - 1;
      }
      InsertedSorted(a[..i + 1], j, cmp);
      i := i + 1;
    }
    assert a[..a.Length] == a[..];
  }

  /** Swapping two neighbours keeps the elements. */
  lemma SwapSame<T>(s: seq<T>, j: nat)
    requires 0 < j < |s|
    ensures multiset(s[j - 1 := s[j]][j := s[j - 1]]) == multiset(s)
  {
  }

  /** The state of one insertion: `s[j]` is moving left through the sorted `s[..j]`. */
  ghost predicate Inserting<T>(s: seq<T>, j: nat, cmp: (T, T) -> Ord) {
    j < |s| &&
    Sorted(s[..j], cmp) && Sorted(s[j..], cmp) &&
    forall k, l :: 0 <= k < j < l < |s| ==> cmp(s[k], s[l]) != Greater
  }

  lemma SwapKeepsInserting<T(!new)>(s: seq<T>, j: nat, cmp: (T, T) -> Ord)
    requires IsTotalPreorder(cmp)
    requires Inserting(s, j, cmp) && j > 0 && cmp(s[j - 1], s[j]) == Greater
    ensures Inserting(s[j - 1 := s[j]][j := s[j - 1]], j - 1, cmp)
  {
    var t := s[j - 1 := s[j]][j := s[j - 1]];
    assert cmp(s[j], s[j - 1]) == Less by { assert cmp(s[j], s[j - 1]) == Flip(cmp(s[j - 1], s[j])); }
    forall k, l | 0 <= k < l < j - 1 ensures cmp(t[k], t[l]) != Greater {
      assert s[..j][k] == t[k] && s[..j][l] == t[l];
    }
    forall k, l | j - 1 <= k < l < |t| ensures cmp(t[k], t[l]) != Greater {
      if k == j - 1 && l == j {
      } else if k == j - 1 {
        assert s[j..][0] == s[j] && s[j..][l - j] == s[l];
      } else if k == j {
        assert cmp(s[j - 1], s[l]) != Greater;
      } else {
        assert s[j..][k - j] == s[k] && s[j..][l - j] == s[l];
      }
    }
    forall k, l | 0 <= k < j - 1 < l < |t| ensures cmp(t[k], t[l]) != Greater {
      if l == j {
        assert s[..j][k] == s[k] && s[..j][j - 1] == s[j - 1];
      }
    }
  }

  /** Closing step of one insertion: both halves sorted, the boundary in order. */
  lemma InsertedSorted<T(!new)>(s: seq<T>, j: nat, cmp: (T, T) -> Ord)
    requires IsTotalPreorder(cmp)
    requires j < |s|
    requires Sorted(s[..j], cmp) && Sorted(s[j..], cmp)
    requires forall k, l :: 0 <= k < j < l < |s| ==> cmp(s[k], s[l]) != Greater
    requires j > 0 ==> cmp(s[j - 1], s[j]) != Greater
    ensures Sorted(s, cmp)
  {
    forall k, l | 0 <= k < l < |s| ensures cmp(s[k], s[l]) != Greater {
      if l < j {
        assert s[..j][k] == s[k] && s[..j][l] == s[l];
      } else if k >= j {
        assert s[j..][k - j] == s[k] && s[j..][l - j] == s[l];
      } else if l > j {
      } else {
        if k < j - 1 {
          assert s[..j][k] == s[k] && s[..j][j - 1] == s[j - 1];
          assert cmp(s[k], s[j - 1]) != Greater;
        }
      }
    }
  }

  /** Functional insertion sort. */
  function Insert<T>(x: T, s: seq<T>, cmp: (T, T) -> Ord): (r: seq<T>)
    ensures multiset(r) == multiset{x} + multiset(s)
  {
    if s == [] then [x]
    else if cmp(x, s[0]) != Greater then [x] + s
    else
      assert s == [s[0]] + s[1..];
      [s[0]] + Insert(x, s[1..], cmp)
  }

  function SortSeq<T>(s: seq<T>, cmp: (T, T) -> Ord): (r: seq<T>)
    ensures multiset(r) == multiset(s)
  {
    if s == [] then []
    else
      assert s == [s[0]] + s[1..];
      Insert(s[0], SortSeq(s[1..], cmp), cmp)
  }

  lemma {:induction false} InsertSorted<T(!new)>(x: T, s: seq<T>, cmp: (T, T) -> Ord)
    requires IsTotalPreorder(cmp) && Sorted(s, cmp)
    ensures Sorted(Insert(x, s, cmp), cmp)
    decreases |s|
  {
    var r := Insert(x, s, cmp);
    if s == [] {
    } else if cmp(x, s[0]) != Greater {
      forall k, l | 0 <= k < l < |r| ensures cmp(r[k], r[l]) != Greater {
        if k > 0 {
          assert r[k] == s[k - 1] && r[l] == s[l - 1];
        } else if l > 1 {
          assert cmp(s[0], s[l - 1]) != Greater;
        }
      }
    } else {
      assert cmp(s[0], x) != Greater by { assert cmp(s[0], x) == Flip(cmp(x, s[0])); }
      InsertSorted(x, s[1..], cmp);
      var t := Insert(x, s[1..], cmp);
      assert r == [s[0]] + t;
      forall k, l | 0 <= k < l < |r| ensures cmp(r[k], r[l]) != Greater {
        if k > 0 {
          assert r[k] == t[k - 1] && r[l] == t[l - 1];
        } else {
          assert r[l] == t[l - 1] && r[l] in multiset(t);
          assert multiset(t) == multiset{x} + multiset(s[1..]);
          if r[l] != x {
            assert r[l] in multiset(s[1..]);
            var m :| 0 <= m < |s[1..]| && s[1..][m] == r[l];
            assert s[m + 1] == r[l];
          }
        }
      }
    }
  }

  lemma {:induction false} SortSeqSorted<T(!new)>(s: seq<T>, cmp: (T, T) -> Ord)
    requires IsTotalPreorder(cmp)
    ensures Sorted(SortSeq(s, cmp), cmp)
    decreases |s|
  {
    if s != [] {
      SortSeqSorted(s[1..], cmp);
      InsertSorted(s[0], SortSeq(s[1..], cmp), cmp);
    }
  }

  /** Under a total order the result of any sort is `SortSeq`'s, whatever the
      input order: sorting depends only on the multiset of values. */
  lemma SortedIsSortSeq<T(!new)>(s: seq<T>, t: seq<T>, cmp: (T, T) -> Ord)
    requires IsTotalOrder(cmp)
    requires Sorted(t, cmp) && multiset(t) == multiset(s)
    ensures t == SortSeq(s, cmp)
  {
    SortSeqSorted(s, cmp);
    SortedUnique(t, SortSeq(s, cmp), cmp);
  }

  /** A sequence that is already sorted is its own sort. */
  lemma SortSeqOfSorted<T(!new)>(s: seq<T>, cmp: (T, T) -> Ord)
    requires IsTotalOrder(cmp) && Sorted(s, cmp)
    ensures SortSeq(s, cmp) == s
  {
    SortedIsSortSeq(s, s, cmp);
  }
}
