/** Three-way comparisons as C++20 `operator<=>` defines them for the types the
    merge engine compares: characters (as unsigned bytes), strings and vectors
    (lexicographically, a proper prefix first), `std::optional` (`nullopt` below
    every value) and pairs (first component, then second). */
module Ordering {
  import opened Wrappers

  datatype Ord = Less | Equal | Greater

  function Flip(o: Ord): Ord {
    match o
    case Less => Greater
    case Equal => Equal
    case Greater => Less
  }

  /** Lexicographic combination: the second comparison decides a tie of the first. */
  function Then(first: Ord, second: Ord): Ord {
    if first == Equal then second else first
  }

  /** `cmp` is a total preorder: swapping the arguments flips the answer and
      "not greater" is transitive.  This is what `std::sort` needs. */
  ghost predicate IsTotalPreorder<T(!new)>(cmp: (T, T) -> Ord) {
    Flips(cmp) && Transitive(cmp)
  }

  ghost predicate Flips<T(!new)>(cmp: (T, T) -> Ord) {
    forall x, y :: cmp(y, x) == Flip(cmp(x, y))
  }

  ghost predicate Transitive<T(!new)>(cmp: (T, T) -> Ord) {
    forall x, y, z :: cmp(x, y) != Greater && cmp(y, z) != Greater ==> cmp(x, z) != Greater
  }

  /** A total order: a total preorder whose only ties are equal values. */
  ghost predicate IsTotalOrder<T(!new)>(cmp: (T, T) -> Ord) {
    IsTotalPreorder(cmp) && forall x, y :: cmp(x, y) == Equal ==> x == y
  }

  /** `s` is ordered by `cmp`: no element is greater than a later one. */
  ghost predicate Sorted<T>(s: seq<T>, cmp: (T, T) -> Ord) {
    forall i, j :: 0 <= i < j < |s| ==> cmp(s[i], s[j]) != Greater
  }

  /** Unsigned comparison of two characters. */
  function CmpChar(a: char, b: char): Ord {
    if a < b then Less else if a == b then Equal else Greater
  }

  /** `std::lexicographical_compare_three_way` over two sequences. */
  function CmpSeq<T>(a: seq<T>, b: seq<T>, cmp: (T, T) -> Ord): Ord
    decreases |a|
  {
    if a == [] then (if b == [] then Equal else Less)
    else if b == [] then Greater
    else Then(cmp(a[0], b[0]), CmpSeq(a[1..], b[1..], cmp))
  }

  /** `std::optional`'s `<=>`: an absent value is below every present one. */
  function CmpOption<T>(a: Option<T>, b: Option<T>, cmp: (T, T) -> Ord): Ord {
    match (a, b)
    case (None, None) => Equal
    case (None, Some(_)) => Less
    case (Some(_), None) => Greater
    case (Some(x), Some(y)) => cmp(x, y)
  }

  /** `std::string`'s `<=>`: characters compared as unsigned bytes. */
  function CmpString(a: string, b: string): Ord {
    CmpSeq(a, b, CmpChar)
  }

  function CmpOptString(a: Option<string>, b: Option<string>): Ord {
    CmpOption(a, b, CmpString)
  }

  /** Equality and total-order laws of `Then` (used by every lexicographic comparator). */
  lemma ThenFlip(a: Ord, b: Ord)
    ensures Flip(Then(a, b)) == Then(Flip(a), Flip(b))
  {
  }

  lemma CharOrder()
    ensures IsTotalOrder(CmpChar)
  {
  }

  lemma {:induction false} SeqFlip<T(!new)>(a: seq<T>, b: seq<T>, cmp: (T, T) -> Ord)
    requires IsTotalOrder(cmp)
    ensures CmpSeq(b, a, cmp) == Flip(CmpSeq(a, b, cmp))
    decreases |a|
  {
    if a != [] && b != [] {
      SeqFlip(a[1..], b[1..], cmp);
    }
  }

  lemma {:induction false} SeqEqual<T(!new)>(a: seq<T>, b: seq<T>, cmp: (T, T) -> Ord)
    requires IsTotalOrder(cmp)
    ensures CmpSeq(a, b, cmp) == Equal <==> a == b
    decreases |a|
  {
    if a != [] && b != [] {
      SeqEqual(a[1..], b[1..], cmp);
      if CmpSeq(a, b, cmp) == Equal {
        assert a == [a[0]] + a[1..] && b == [b[0]] + b[1..];
      }
    }
  }

  lemma {:induction false} SeqTrans<T(!new)>(a: seq<T>, b: seq<T>, c: seq<T>, cmp: (T, T) -> Ord)
    requires IsTotalOrder(cmp)
    requires CmpSeq(a, b, cmp) != Greater && CmpSeq(b, c, cmp) != Greater
    ensures CmpSeq(a, c, cmp) != Greater
    ensures CmpSeq(a, b, cmp) == Less || CmpSeq(b, c, cmp) == Less ==> CmpSeq(a, c, cmp) == Less
    decreases |a|
  {
    if a != [] && b != [] && c != [] {
      if cmp(a[0], b[0]) == Equal && cmp(b[0], c[0]) == Equal {
        SeqTrans(a[1..], b[1..], c[1..], cmp);
      } else {
        assert cmp(a[0], b[0]) != Greater && cmp(b[0], c[0]) != Greater;
        assert cmp(a[0], c[0]) != Greater;
      }
    }
  }

  lemma StringOrder()
    ensures IsTotalOrder(CmpString)
  {
    CharOrder();
    forall a, b ensures CmpString(b, a) == Flip(CmpString(a, b)) {
      SeqFlip(a, b, CmpChar);
    }
    forall a, b, c | CmpString(a, b) != Greater && CmpString(b, c) != Greater
      ensures CmpString(a, c) != Greater
    {
      SeqTrans(a, b, c, CmpChar);
    }
    forall a, b | CmpString(a, b) == Equal ensures a == b {
      SeqEqual(a, b, CmpChar);
    }
  }

  lemma OptStringOrder()
    ensures IsTotalOrder(CmpOptString)
  {
    StringOrder();
  }

  /** The empty sequence sorts before every other one. */
  lemma EmptyFirst<T>(a: seq<T>, cmp: (T, T) -> Ord)
    requires a != []
    ensures CmpSeq([], a, cmp) == Less
  {
  }

  /** The head of a sorted sequence is not greater than any of its elements. */
  lemma SortedHead<T>(s: seq<T>, x: T, cmp: (T, T) -> Ord)
    requires Sorted(s, cmp) && x in multiset(s)
    requires cmp(s[0], s[0]) == Equal
    ensures cmp(s[0], x) != Greater
  {
    var k :| 0 <= k < |s| && s[k] == x;
    if k > 0 {
      assert cmp(s[0], s[k]) != Greater;
    }
  }

  /** Two sorted permutations of the same values are identical as soon as the
      comparison only ties equal values among them.  This is why a sort whose
      comparator has no ties is deterministic even when it is not stable. */
  lemma {:induction false} SortedUnique<T(!new)>(a: seq<T>, b: seq<T>, cmp: (T, T) -> Ord)
    requires Flips(cmp)
    requires Sorted(a, cmp) && Sorted(b, cmp) && multiset(a) == multiset(b)
    requires forall x, y :: x in multiset(a) && y in multiset(a) && cmp(x, y) == Equal ==> x == y
    ensures a == b
    decreases |a|
  {
    if a == [] {
      assert |b| == |multiset(b)| == 0;
    } else {
      assert |b| == |multiset(b)| == |multiset(a)| == |a|;
      var x, y := a[0], b[0];
      assert x in multiset(a) && y in multiset(b);
      assert cmp(x, x) == Flip(cmp(x, x)) && cmp(y, y) == Flip(cmp(y, y));
      SortedHead(b, x, cmp);
      SortedHead(a, y, cmp);
      assert cmp(y, x) == Flip(cmp(x, y));
      assert x == y;
      assert a == [x] + a[1..] && b == [y] + b[1..];
      assert multiset(a[1..]) == multiset(b[1..]) by {
        assert multiset(a) == multiset{x} + multiset(a[1..]);
        assert multiset(b) == multiset{y} + multiset(b[1..]);
      }
      assert Sorted(a[1..], cmp) && Sorted(b[1..], cmp);
      assert multiset(a[1..]) <= multiset(a);
      SortedUnique(a[1..], b[1..], cmp);
    }
  }
}
