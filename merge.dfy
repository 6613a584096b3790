/** The catalog merge engine of common/merge.cpp: a presort by key, a
    compaction of every run of messages sharing `(context, singular)` into its
    first element, a fold of each message's `(location, comment)` list into at
    most one entry, and a postsort. */
module Merge {
  import opened Wrappers
  import opened Ordering
  import opened Sorting
  import opened Ast

  // ---------------------------------------------------------------- orderings

  /** `std::pair<optional<string>, optional<string>>`'s `<=>`. */
  function CmpEntry(x: Entry, y: Entry): Ord {
    Then(CmpOptString(x.location, y.location), CmpOptString(x.comment, y.comment))
  }

  /** `std::vector<Entry>`'s `<=>`. */
  function CmpEntries(a: seq<Entry>, b: seq<Entry>): Ord {
    CmpSeq(a, b, CmpEntry)
  }

  /** Context first, then singular. */
  function CmpKey(a: Key, b: Key): Ord {
    Then(CmpOptString(a.context, b.context), CmpString(a.singular, b.singular))
  }

  function CmpMsgKey(a: Message, b: Message): Ord {
    CmpKey(KeyOf(a), KeyOf(b))
  }

  /** The comparator of `presort_msgs`: context, singular, extracted comments. */
  function PresortCmp(a: Message, b: Message): Ord {
    Then(CmpKey(KeyOf(a), KeyOf(b)), CmpEntries(a.extractedComments, b.extractedComments))
  }

  /** The comparator of `postsort_msgs`: extracted comments, context, singular. */
  function PostsortCmp(a: Message, b: Message): Ord {
    Then(CmpEntries(a.extractedComments, b.extractedComments), CmpKey(KeyOf(a), KeyOf(b)))
  }

  lemma EntryOrder()
    ensures IsTotalOrder(CmpEntry)
  {
    OptStringOrder();
  }

  lemma EntriesOrder()
    ensures IsTotalOrder(CmpEntries)
  {
    EntryOrder();
    forall a, b ensures CmpEntries(b, a) == Flip(CmpEntries(a, b)) {
      SeqFlip(a, b, CmpEntry);
    }
    forall a, b, c | CmpEntries(a, b) != Greater && CmpEntries(b, c) != Greater
      ensures CmpEntries(a, c) != Greater
    {
      SeqTrans(a, b, c, CmpEntry);
    }
    forall a, b | CmpEntries(a, b) == Equal ensures a == b {
      SeqEqual(a, b, CmpEntry);
    }
  }

  lemma KeyOrder()
    ensures IsTotalOrder(CmpKey)
  {
    OptStringOrder();
    StringOrder();
  }

  lemma MsgKeyPreorder()
    ensures IsTotalPreorder(CmpMsgKey)
  {
    KeyOrder();
  }

  /** Both sort comparators are valid `std::sort` comparators; the presort ties
      only messages with equal key and equal comments, the postsort likewise. */
  lemma PresortPreorder()
    ensures IsTotalPreorder(PresortCmp)
    ensures forall a, b :: PresortCmp(a, b) != Greater ==> CmpMsgKey(a, b) != Greater
  {
    KeyOrder();
    EntriesOrder();
  }

  lemma PostsortPreorder()
    ensures IsTotalPreorder(PostsortCmp)
    ensures forall a, b :: PostsortCmp(a, b) == Equal <==>
      KeyOf(a) == KeyOf(b) && a.extractedComments == b.extractedComments
  {
    KeyOrder();
    EntriesOrder();
  }

  /** A strict step followed by a weak one is strict. */
  lemma LessThenNotGreater<T(!new)>(x: T, y: T, z: T, cmp: (T, T) -> Ord)
    requires IsTotalOrder(cmp)
    requires cmp(x, y) == Less && cmp(y, z) != Greater
    ensures cmp(x, z) == Less
  {
    if cmp(x, z) == Equal {
      assert x == z;
      assert cmp(y, x) == Flip(cmp(x, y));
    }
  }

  // ------------------------------------------------------- combine_elements

  /** The keys of the messages of `s`. */
  function Keys(s: seq<Message>): set<Key> {
    if s == [] then {} else {KeyOf(s[0])} + Keys(s[1..])
  }

  ghost predicate UniqueKeys(s: seq<Message>) {
    forall i, j :: 0 <= i < j < |s| ==> KeyOf(s[i]) != KeyOf(s[j])
  }

  /** The number of leading elements of `s` whose key is `k`. */
  function RunLength(s: seq<Message>, k: Key): (n: nat)
    ensures n <= |s|
    ensures forall i :: 0 <= i < n ==> KeyOf(s[i]) == k
    ensures n < |s| ==> KeyOf(s[n]) != k
  {
    if s == [] || KeyOf(s[0]) != k then 0 else 1 + RunLength(s[1..], k)
  }

  /** All extracted comments of `s`, in order. */
  function Comments(s: seq<Message>): seq<Entry> {
    if s == [] then [] else s[0].extractedComments + Comments(s[1..])
  }

  /** The reference value of `combine_elements`: every maximal run of equal
      keys becomes its first element, carrying the run's comments. */
  function Combine(s: seq<Message>): seq<Message>
    decreases |s|
  {
    if s == [] then []
    else
      var n := 1 + RunLength(s[1..], KeyOf(s[0]));
      [s[0].(extractedComments := Comments(s[..n]))] + Combine(s[n..])
  }

  lemma {:induction false} RunLengthExact(s: seq<Message>, k: Key, n: nat)
    requires n <= |s|
    requires forall i :: 0 <= i < n ==> KeyOf(s[i]) == k
    requires n == |s| || KeyOf(s[n]) != k
    ensures RunLength(s, k) == n
    decreases n
  {
    if n > 0 {
      RunLengthExact(s[1..], k, n - 1);
    }
  }

  lemma {:induction false} CommentsAppend(a: seq<Message>, b: seq<Message>)
    ensures Comments(a + b) == Comments(a) + Comments(b)
    decreases |a|
  {
    if a == [] {
      assert a + b == b;
    } else {
      assert (a + b)[0] == a[0] && (a + b)[1..] == a[1..] + b;
      CommentsAppend(a[1..], b);
    }
  }

  /** One more element of a run adds its comments at the end. */
  lemma CommentsSnoc(s: seq<Message>, b: nat, r: nat)
    requires b <= r < |s|
    ensures Comments(s[b..r + 1]) == Comments(s[b..r]) + s[r].extractedComments
  {
    assert s[b..r + 1] == s[b..r] + [s[r]];
    CommentsAppend(s[b..r], [s[r]]);
    assert [s[r]][1..] == [];
  }

  /** A maximal run `s[b..r]` contributes one combined element. */
  lemma CombineRun(s: seq<Message>, b: nat, r: nat)
    requires b < r <= |s|
    requires forall i :: b < i < r ==> KeyOf(s[i]) == KeyOf(s[b])
    requires r == |s| || KeyOf(s[r]) != KeyOf(s[b])
    ensures Combine(s[b..]) == [s[b].(extractedComments := Comments(s[b..r]))] + Combine(s[r..])
  {
    var t := s[b..];
    RunLengthExact(t[1..], KeyOf(s[b]), r - b - 1);
    assert t[..r - b] == s[b..r] && t[r - b..] == s[r..];
  }

  /** The outer-loop step of `combine_elements`: the run `s[b..r]` adds one
      element to the compacted prefix. */
  lemma CombineStep(s: seq<Message>, prefix: seq<Message>, b: nat, r: nat)
    requires b < r <= |s|
    requires forall i :: b < i < r ==> KeyOf(s[i]) == KeyOf(s[b])
    requires r == |s| || KeyOf(s[r]) != KeyOf(s[b])
    requires Combine(s) == prefix + Combine(s[b..])
    ensures Combine(s) == (prefix + [s[b].(extractedComments := Comments(s[b..r]))]) + Combine(s[r..])
  {
    CombineRun(s, b, r);
    AppendAssoc(prefix, [s[b].(extractedComments := Comments(s[b..r]))], Combine(s[r..]));
  }

  lemma SliceEq<T>(s: seq<T>, t: seq<T>, lo: nat, hi: nat)
    requires lo <= hi <= |s| && hi <= |t|
    requires forall i :: lo <= i < hi ==> s[i] == t[i]
    ensures s[lo..hi] == t[lo..hi]
  {
  }

  lemma SnocEq<T>(s: seq<T>, p: seq<T>, x: T, w: nat)
    requires |p| == w < |s| && s[w] == x
    requires forall i :: 0 <= i < w ==> s[i] == p[i]
    ensures s[..w + 1] == p + [x]
  {
  }

  lemma AppendAssoc<T>(a: seq<T>, b: seq<T>, c: seq<T>)
    ensures a + (b + c) == (a + b) + c
  {
  }

  /** The inner loop of `combine_elements`: appends the comments of every
      following message with the key of `a[b]` to `a[b]` and returns the end of
      that run. */
  method GatherRun(a: array<Message>, b: nat, ghost S: seq<Message>) returns (r: nat)
    requires b < a.Length == |S|
    requires forall i :: b <= i < a.Length ==> a[i] == S[i]
    modifies a
    ensures b < r <= a.Length
    ensures forall i :: b < i < r ==> KeyOf(S[i]) == KeyOf(S[b])
    ensures r == |S| || KeyOf(S[r]) != KeyOf(S[b])
    ensures a[b] == S[b].(extractedComments := Comments(S[b..r]))
    ensures forall i :: 0 <= i < a.Length && i != b ==> a[i] == old(a[i])
  {
    assert Comments(S[b..b + 1]) == S[b].extractedComments by {
      assert S[b..b + 1][1..] == [];
    }
    r := b + 1;
    while r < a.Length && a[r].context == a[b].context && a[r].singular == a[b].singular
      invariant b < r <= a.Length
      invariant forall i :: 0 <= i < a.Length && i != b ==> a[i] == old(a[i])
      invariant a[b] == S[b].(extractedComments := Comments(S[b..r]))
      invariant forall i :: b < i < r ==> KeyOf(S[i]) == KeyOf(S[b])
    {
      CommentsSnoc(S, b, r);
      a[b] := a[b].(extractedComments := a[b].extractedComments + a[r].extractedComments);
      r := r + 1;
    }
  }

  // ------------------------------------------- combine_elements as written

  /** `combine_elements` as the source writes it.  The store at merge.cpp:51
      is skipped only for a single message already in the write slot; the
      base of a longer run that sits in the write slot is moved onto itself.
      That is the first run longer than one when every run before it was a
      single message.  A self-move leaves a standard-library object valid but
      unspecified, so `moved` stands for what it leaves in that slot. */
  function CombinedWith(s: seq<Message>, moved: Message -> Message): seq<Message>
    decreases |s|
  {
    if s == [] then []
    else
      var n := 1 + RunLength(s[1..], KeyOf(s[0]));
      if n == 1 then [s[0]] + CombinedWith(s[1..], moved)
      else [moved(s[0].(extractedComments := Comments(s[..n])))] + Combine(s[n..])
  }

  /** The slot of `Combine(s)` that the self-move hits: the number of leading
      single-message runs, when a longer run follows them.  There is none
      exactly when no two neighbours share a key. */
  function SelfMoveSlot(s: seq<Message>): (j: Option<nat>)
    ensures j.None? <==> forall i :: 0 < i < |s| ==> KeyOf(s[i - 1]) != KeyOf(s[i])
    decreases |s|
  {
    if s == [] then None
    else if 1 < |s| && KeyOf(s[1]) == KeyOf(s[0]) then Some(0)
    else
      assert forall i :: 0 <= i < |s| - 1 ==> s[1..][i] == s[i + 1];
      match SelfMoveSlot(s[1..])
      case None => None
      case Some(j) => Some(j + 1)
  }

  /** What is left under the write position: the as-written rest while
      every run so far was a single message, the reference rest after. */
  function Remaining(s: seq<Message>, r: nat, atStart: bool, moved: Message -> Message): seq<Message>
    requires r <= |s|
  {
    if atStart then CombinedWith(s[r..], moved) else Combine(s[r..])
  }

  /** The code as written differs from `Combine` in the one slot the
      self-move hits, which holds `moved` of the combined message, and
      nowhere else. */
  lemma {:induction false} CombinedWithSlot(s: seq<Message>, moved: Message -> Message)
    ensures |CombinedWith(s, moved)| == |Combine(s)|
    ensures SelfMoveSlot(s).None? ==> CombinedWith(s, moved) == Combine(s)
    ensures SelfMoveSlot(s).Some? ==>
      var j := SelfMoveSlot(s).value;
      j < |Combine(s)| && CombinedWith(s, moved) == Combine(s)[j := moved(Combine(s)[j])]
    decreases |s|
  {
    if s != [] {
      var n := 1 + RunLength(s[1..], KeyOf(s[0]));
      var c := s[0].(extractedComments := Comments(s[..n]));
      assert Combine(s) == [c] + Combine(s[n..]);
      if n == 1 {
        SingleHead(s, moved);
        CombinedWithSlot(s[1..], moved);
        if SelfMoveSlot(s[1..]).Some? {
          var j := SelfMoveSlot(s[1..]).value;
          var t := Combine(s[1..]);
          UpdateCons(s[0], t, j, moved(t[j]));
        }
      } else {
        LongHead(s, moved);
        UpdateCons0(c, moved(c), Combine(s[n..]));
      }
    }
  }

  /** A single message at the front is copied as it is. */
  lemma SingleHead(s: seq<Message>, moved: Message -> Message)
    requires s != [] && RunLength(s[1..], KeyOf(s[0])) == 0
    ensures Combine(s) == [s[0]] + Combine(s[1..])
    ensures CombinedWith(s, moved) == [s[0]] + CombinedWith(s[1..], moved)
    ensures SelfMoveSlot(s) == if SelfMoveSlot(s[1..]).Some? then Some(SelfMoveSlot(s[1..]).value + 1) else None
  {
    SingleComments(s);
    SingleSlot(s);
  }

  lemma SingleComments(s: seq<Message>)
    requires s != []
    ensures s[0].(extractedComments := Comments(s[..1])) == s[0]
  {
    assert s[..1][1..] == [];
    assert Comments(s[..1]) == s[0].extractedComments;
  }

  lemma SingleSlot(s: seq<Message>)
    requires s != [] && RunLength(s[1..], KeyOf(s[0])) == 0
    ensures SelfMoveSlot(s) == if SelfMoveSlot(s[1..]).Some? then Some(SelfMoveSlot(s[1..]).value + 1) else None
  {
    assert 1 < |s| ==> s[1..][0] == s[1];
    assert !(1 < |s| && KeyOf(s[1]) == KeyOf(s[0]));
  }

  /** A longer run at the front is the self-move. */
  lemma LongHead(s: seq<Message>, moved: Message -> Message)
    requires s != [] && RunLength(s[1..], KeyOf(s[0])) > 0
    ensures var n := 1 + RunLength(s[1..], KeyOf(s[0]));
      var c := s[0].(extractedComments := Comments(s[..n]));
      CombinedWith(s, moved) == [moved(c)] + Combine(s[n..]) && SelfMoveSlot(s) == Some(0)
  {
    assert s[1..][0] == s[1];
  }

  lemma UpdateCons<T>(x: T, t: seq<T>, j: nat, v: T)
    requires j < |t|
    ensures [x] + t[j := v] == ([x] + t)[j + 1 := v]
  {
  }

  lemma UpdateCons0<T>(x: T, v: T, t: seq<T>)
    ensures ([x] + t)[0 := v] == [v] + t
  {
  }

  lemma CommentsOne(s: seq<Message>, b: nat)
    requires b < |s|
    ensures Comments(s[b..b + 1]) == s[b].extractedComments
  {
    assert s[b..b + 1][1..] == [];
  }

  /** A maximal run `s[b..r]` as written: moved onto itself when it is
      longer than one, and then the rest is the reference. */
  lemma CombinedRun(s: seq<Message>, b: nat, r: nat, moved: Message -> Message)
    requires b < r <= |s|
    requires forall i :: b < i < r ==> KeyOf(s[i]) == KeyOf(s[b])
    requires r == |s| || KeyOf(s[r]) != KeyOf(s[b])
    ensures var c := s[b].(extractedComments := Comments(s[b..r]));
      CombinedWith(s[b..], moved) ==
        if b + 1 < r then [moved(c)] + Combine(s[r..]) else [c] + CombinedWith(s[r..], moved)
  {
    var t := s[b..];
    var c := s[b].(extractedComments := Comments(s[b..r]));
    HeadRun(s, b, r);
    if b + 1 == r {
      SingleHead(t, moved);
      CommentsOne(s, b);
      assert c == s[b];
      assert CombinedWith(t, moved) == [c] + CombinedWith(s[r..], moved);
    } else {
      LongHead(t, moved);
      assert CombinedWith(t, moved) == [moved(c)] + Combine(s[r..]);
    }
  }

  /** The run at the front of `s[b..]` is `s[b..r]`. */
  lemma HeadRun(s: seq<Message>, b: nat, r: nat)
    requires b < r <= |s|
    requires forall i :: b < i < r ==> KeyOf(s[i]) == KeyOf(s[b])
    requires r == |s| || KeyOf(s[r]) != KeyOf(s[b])
    ensures s[b..] != [] && s[b..][0] == s[b]
    ensures 1 + RunLength(s[b..][1..], KeyOf(s[b..][0])) == r - b
    ensures s[b..][..r - b] == s[b..r] && s[b..][r - b..] == s[r..] && s[b..][1..] == s[b + 1..]
  {
    var t := s[b..];
    var u := t[1..];
    var k := KeyOf(s[b]);
    assert t[0] == s[b];
    forall i | 0 <= i < r - b - 1 ensures KeyOf(u[i]) == k {
      assert u[i] == s[b + 1 + i];
    }
    assert r - b - 1 < |u| ==> u[r - b - 1] == s[r];
    RunLengthExact(u, k, r - b - 1);
    assert t[..r - b] == s[b..r] && t[r - b..] == s[r..];
  }

  /** The outer-loop step as written: the run `s[b..r]` adds one element to
      the compacted prefix, `moved` of it when it is a self-move. */
  lemma CombinedStep(s: seq<Message>, prefix: seq<Message>, b: nat, r: nat, atStart: bool,
                     moved: Message -> Message)
    requires b < r <= |s|
    requires forall i :: b < i < r ==> KeyOf(s[i]) == KeyOf(s[b])
    requires r == |s| || KeyOf(s[r]) != KeyOf(s[b])
    requires CombinedWith(s, moved) == prefix + Remaining(s, b, atStart, moved)
    ensures var c := s[b].(extractedComments := Comments(s[b..r]));
      CombinedWith(s, moved) ==
        (prefix + [if atStart && b + 1 < r then moved(c) else c]) +
        Remaining(s, r, atStart && b + 1 == r, moved)
  {
    var c := s[b].(extractedComments := Comments(s[b..r]));
    if atStart {
      CombinedRun(s, b, r, moved);
    } else {
      CombineRun(s, b, r);
    }
    var y := if atStart && b + 1 < r then moved(c) else c;
    AppendAssoc(prefix, [y], Remaining(s, r, atStart && b + 1 == r, moved));
  }

  /** One pass of the outer loop of `combine_elements`: gathers the run that
      starts at `b` and moves its base to the write slot `w`.  When `w == b`
      the two are the same object, and a run longer than one moves the base
      onto itself. */
  method CompactRun(a: array<Message>, b: nat, w: nat, moved: Message -> Message, ghost S: seq<Message>)
    returns (r: nat)
    requires w <= b < a.Length == |S|
    requires forall i :: b <= i < a.Length ==> a[i] == S[i]
    requires CombinedWith(S, moved) == a[..w] + Remaining(S, b, w == b, moved)
    modifies a
    ensures b < r <= a.Length
    ensures forall i :: r <= i < a.Length ==> a[i] == S[i]
    ensures CombinedWith(S, moved) == a[..w + 1] + Remaining(S, r, w + 1 == r, moved)
  {
    ghost var prefix := a[..w];
    r := GatherRun(a, b, S);
    var x := a[b];
    CombinedStep(S, prefix, b, r, w == b, moved);
    ghost var y := if w == b && b + 1 < r then moved(x) else x;
    ghost var mid := a[..];
    if w + 1 != r {
      if w == b {
        a[w] := moved(x);
      } else {
        a[w] := x;
      }
    } else {
      assert w == b;
    }
    assert a[..] == mid[w := y];
    SnocEq(a[..], prefix, y, w);
  }

  /** `combine_elements`: the vector is compacted in place; the returned length
      is where `erase` cuts it.  The result is the as-written `CombinedWith`,
      with `moved` the outcome of the self-move. */
  method CombineElements(a: array<Message>, moved: Message -> Message) returns (len: nat)
    modifies a
    ensures len <= a.Length
    ensures a[..len] == CombinedWith(old(a[..]), moved)
  {
    ghost var S := a[..];
    var r, w := 0, 0;
    assert S[0..] == S;
    while r < a.Length
      invariant w <= r <= a.Length
      invariant forall i :: r <= i < a.Length ==> a[i] == S[i]
      invariant CombinedWith(S, moved) == a[..w] + Remaining(S, r, w == r, moved)
    {
      r := CompactRun(a, r, w, moved, S);
      w := w + 1;
    }
    assert S[r..] == [];
    len := w;
  }

  // ------------------------------------------------- properties of Combine

  lemma {:induction false} KeyIn(s: seq<Message>, i: nat)
    requires i < |s|
    ensures KeyOf(s[i]) in Keys(s)
    decreases i
  {
    if i > 0 {
      KeyIn(s[1..], i - 1);
    }
  }

  lemma {:induction false} KeysAbsent(s: seq<Message>, k: Key)
    requires forall i :: 0 <= i < |s| ==> KeyOf(s[i]) != k
    ensures k !in Keys(s)
    decreases |s|
  {
    if s != [] {
      assert forall i :: 1 <= i < |s| ==> s[1..][i - 1] == s[i];
      KeysAbsent(s[1..], k);
    }
  }

  lemma {:induction false} KeyWitness(s: seq<Message>, k: Key) returns (i: nat)
    requires k in Keys(s)
    ensures i < |s| && KeyOf(s[i]) == k
    decreases |s|
  {
    if KeyOf(s[0]) == k {
      i := 0;
    } else {
      var j := KeyWitness(s[1..], k);
      i := j + 1;
    }
  }

  lemma {:induction false} KeysAppend(a: seq<Message>, b: seq<Message>)
    ensures Keys(a + b) == Keys(a) + Keys(b)
    decreases |a|
  {
    if a == [] {
      assert a + b == b;
    } else {
      assert (a + b)[0] == a[0] && (a + b)[1..] == a[1..] + b;
      KeysAppend(a[1..], b);
    }
  }

  /** The keys of a sequence of messages that all have key `k`. */
  lemma {:induction false} KeysConst(s: seq<Message>, k: Key)
    requires s != [] && forall i :: 0 <= i < |s| ==> KeyOf(s[i]) == k
    ensures Keys(s) == {k}
    decreases |s|
  {
    if |s| > 1 {
      KeysConst(s[1..], k);
    }
  }

  /** The messages of `s` with key `k`, in order. */
  function WithKey(s: seq<Message>, k: Key): (r: seq<Message>)
    ensures forall m :: m in r ==> m in s && KeyOf(m) == k
  {
    if s == [] then []
    else (if KeyOf(s[0]) == k then [s[0]] else []) + WithKey(s[1..], k)
  }

  /** The first message of `s` with key `k`. */
  function FirstWithKey(s: seq<Message>, k: Key): (m: Message)
    requires k in Keys(s)
    ensures m in s && KeyOf(m) == k
  {
    if KeyOf(s[0]) == k then s[0] else FirstWithKey(s[1..], k)
  }

  lemma {:induction false} WithKeyAppend(a: seq<Message>, b: seq<Message>, k: Key)
    ensures WithKey(a + b, k) == WithKey(a, k) + WithKey(b, k)
    decreases |a|
  {
    if a == [] {
      assert a + b == b;
    } else {
      assert (a + b)[0] == a[0] && (a + b)[1..] == a[1..] + b;
      WithKeyAppend(a[1..], b, k);
    }
  }

  lemma {:induction false} WithKeyAbsent(s: seq<Message>, k: Key)
    requires k !in Keys(s)
    ensures WithKey(s, k) == []
    decreases |s|
  {
    if s != [] {
      WithKeyAbsent(s[1..], k);
    }
  }

  lemma {:induction false} WithKeyAll(s: seq<Message>, k: Key)
    requires forall i :: 0 <= i < |s| ==> KeyOf(s[i]) == k
    ensures WithKey(s, k) == s
    decreases |s|
  {
    if s != [] {
      var t := s[1..];
      assert forall i :: 0 <= i < |t| ==> t[i] == s[i + 1];
      WithKeyAll(t, k);
      assert WithKey(s, k) == [s[0]] + t;
      assert [s[0]] + t == s;
    }
  }

  lemma {:induction false} FirstWithKeySkip(a: seq<Message>, b: seq<Message>, k: Key)
    requires k !in Keys(a) && k in Keys(b)
    ensures k in Keys(a + b) && FirstWithKey(a + b, k) == FirstWithKey(b, k)
    decreases |a|
  {
    KeysAppend(a, b);
    if a == [] {
      assert a + b == b;
    } else {
      assert (a + b)[0] == a[0] && (a + b)[1..] == a[1..] + b;
      FirstWithKeySkip(a[1..], b, k);
    }
  }

  /** The first run of `s`, as `Combine` measures it. */
  lemma FirstRun(s: seq<Message>)
    requires s != []
    ensures 0 < 1 + RunLength(s[1..], KeyOf(s[0])) <= |s|
    ensures forall i :: 0 <= i < 1 + RunLength(s[1..], KeyOf(s[0])) ==> KeyOf(s[i]) == KeyOf(s[0])
    ensures 1 + RunLength(s[1..], KeyOf(s[0])) < |s| ==>
      KeyOf(s[1 + RunLength(s[1..], KeyOf(s[0]))]) != KeyOf(s[0])
  {
    var n := 1 + RunLength(s[1..], KeyOf(s[0]));
    forall i | 0 < i < n ensures KeyOf(s[i]) == KeyOf(s[0]) {
      assert s[i] == s[1..][i - 1];
    }
    if n < |s| {
      assert s[n] == s[1..][n - 1];
    }
  }

  /** `Combine` keeps every comment, in order. */
  lemma {:induction false} CombineComments(s: seq<Message>)
    ensures Comments(Combine(s)) == Comments(s)
    decreases |s|
  {
    if s != [] {
      var n := 1 + RunLength(s[1..], KeyOf(s[0]));
      var x := s[0].(extractedComments := Comments(s[..n]));
      CombineComments(s[n..]);
      ConsComments(x, Combine(s[n..]));
      SplitComments(s, n);
    }
  }

  lemma ConsComments(x: Message, rest: seq<Message>)
    ensures Comments([x] + rest) == x.extractedComments + Comments(rest)
  {
    assert ([x] + rest)[1..] == rest;
  }

  lemma SplitComments(s: seq<Message>, n: nat)
    requires n <= |s|
    ensures Comments(s) == Comments(s[..n]) + Comments(s[n..])
  {
    assert s == s[..n] + s[n..];
    CommentsAppend(s[..n], s[n..]);
  }

  /** `Combine` keeps the set of keys. */
  lemma {:induction false} CombineKeys(s: seq<Message>)
    ensures Keys(Combine(s)) == Keys(s)
    decreases |s|
  {
    if s != [] {
      var n := 1 + RunLength(s[1..], KeyOf(s[0]));
      FirstRun(s);
      var x := s[0].(extractedComments := Comments(s[..n]));
      CombineKeys(s[n..]);
      assert s == s[..n] + s[n..];
      KeysAppend(s[..n], s[n..]);
      assert Combine(s) == [x] + Combine(s[n..]);
      KeysAppend([x], Combine(s[n..]));
      KeysConst(s[..n], KeyOf(s[0]));
      assert Keys([x]) == {KeyOf(x)} by { assert [x][1..] == []; }
    }
  }

  /** No two neighbours in `Combine(s)` share a key, whatever the input order. */
  lemma {:induction false} CombineAdjacent(s: seq<Message>)
    ensures forall i :: 0 <= i < |Combine(s)| - 1 ==>
      KeyOf(Combine(s)[i]) != KeyOf(Combine(s)[i + 1])
    decreases |s|
  {
    if s != [] {
      var n := 1 + RunLength(s[1..], KeyOf(s[0]));
      FirstRun(s);
      CombineAdjacent(s[n..]);
      if n < |s| {
        var t := s[n..];
        var n2 := 1 + RunLength(t[1..], KeyOf(t[0]));
        assert Combine(t)[0] == t[0].(extractedComments := Comments(t[..n2]));
      }
    }
  }

  /** Messages with equal keys stand next to each other. */
  ghost predicate Grouped(s: seq<Message>) {
    forall i, j, l :: 0 <= i < j < l < |s| && KeyOf(s[i]) == KeyOf(s[l]) ==> KeyOf(s[j]) == KeyOf(s[i])
  }

  /** Key-sorted input, as the presort leaves it, is grouped. */
  lemma SortedGrouped(s: seq<Message>)
    requires Sorted(s, CmpMsgKey)
    ensures Grouped(s)
  {
    KeyOrder();
    forall i, j, l | 0 <= i < j < l < |s| && KeyOf(s[i]) == KeyOf(s[l])
      ensures KeyOf(s[j]) == KeyOf(s[i])
    {
      assert CmpMsgKey(s[i], s[j]) != Greater && CmpMsgKey(s[j], s[l]) != Greater;
      assert CmpMsgKey(s[l], s[j]) == Flip(CmpMsgKey(s[j], s[l]));
    }
  }

  /** In grouped input no message after a maximal run has the run's key. */
  lemma AfterRun(s: seq<Message>, n: nat)
    requires Grouped(s) && 0 < n <= |s|
    requires forall i :: 0 <= i < n ==> KeyOf(s[i]) == KeyOf(s[0])
    requires n < |s| ==> KeyOf(s[n]) != KeyOf(s[0])
    ensures KeyOf(s[0]) !in Keys(s[n..])
    ensures Grouped(s[n..])
  {
    var t := s[n..];
    forall p | 0 <= p < |t| ensures KeyOf(t[p]) != KeyOf(s[0]) {
      assert t[p] == s[n + p];
      assert 0 < p ==> 0 < n < n + p;
    }
    KeysAbsent(t, KeyOf(s[0]));
    forall i, j, l | 0 <= i < j < l < |t| && KeyOf(t[i]) == KeyOf(t[l])
      ensures KeyOf(t[j]) == KeyOf(t[i])
    {
      assert t[i] == s[n + i] && t[j] == s[n + j] && t[l] == s[n + l];
    }
  }

  /** On grouped input, in particular after the presort, the keys of
      `Combine(s)` are unique. */
  lemma {:induction false} CombineUnique(s: seq<Message>)
    requires Grouped(s)
    ensures UniqueKeys(Combine(s))
    decreases |s|
  {
    if s != [] {
      var k0 := KeyOf(s[0]);
      var n := 1 + RunLength(s[1..], k0);
      FirstRun(s);
      var x := s[0].(extractedComments := Comments(s[..n]));
      var t := Combine(s[n..]);
      assert Combine(s) == [x] + t;
      AfterRun(s, n);
      CombineUnique(s[n..]);
      CombineKeys(s[n..]);
      assert KeyOf(x) == k0 && k0 !in Keys(t);
      ConsUnique(x, t);
    }
  }

  /** A message whose key the unique-keyed rest lacks keeps the keys unique. */
  lemma ConsUnique(x: Message, t: seq<Message>)
    requires UniqueKeys(t) && KeyOf(x) !in Keys(t)
    ensures UniqueKeys([x] + t)
  {
    var u := [x] + t;
    forall i, j | 0 <= i < j < |u| ensures KeyOf(u[i]) != KeyOf(u[j]) {
      assert u[j] == t[j - 1];
      KeyIn(t, j - 1);
      if 0 < i {
        assert u[i] == t[i - 1];
      }
    }
  }

  /** The messages with the key of a run that no later message has. */
  lemma RunWhole(s: seq<Message>, n: nat)
    requires 0 < n <= |s|
    requires forall i :: 0 <= i < n ==> KeyOf(s[i]) == KeyOf(s[0])
    requires KeyOf(s[0]) !in Keys(s[n..])
    ensures KeyOf(s[0]) in Keys(s)
    ensures WithKey(s, KeyOf(s[0])) == s[..n] && FirstWithKey(s, KeyOf(s[0])) == s[0]
  {
    assert s == s[..n] + s[n..];
    WithKeyAppend(s[..n], s[n..], KeyOf(s[0]));
    WithKeyAbsent(s[n..], KeyOf(s[0]));
    WithKeyAll(s[..n], KeyOf(s[0]));
  }

  /** The messages with a key that a run does not have. */
  lemma RunSkip(s: seq<Message>, n: nat, k: Key)
    requires 0 < n <= |s|
    requires forall i :: 0 <= i < n ==> KeyOf(s[i]) == KeyOf(s[0])
    requires k != KeyOf(s[0]) && k in Keys(s[n..])
    ensures k in Keys(s)
    ensures WithKey(s, k) == WithKey(s[n..], k) && FirstWithKey(s, k) == FirstWithKey(s[n..], k)
  {
    assert s == s[..n] + s[n..];
    KeysConst(s[..n], KeyOf(s[0]));
    WithKeyAppend(s[..n], s[n..], k);
    WithKeyAbsent(s[..n], k);
    FirstWithKeySkip(s[..n], s[n..], k);
  }

  /** On grouped input the survivor with key `k` is the first message with that
      key, carrying the comments of all messages with that key in order; in
      particular it keeps that message's plural and flags. */
  lemma {:induction false} CombineSurvivor(s: seq<Message>, i: nat)
    requires Grouped(s) && i < |Combine(s)|
    ensures KeyOf(Combine(s)[i]) in Keys(s)
    ensures Combine(s)[i] == FirstWithKey(s, KeyOf(Combine(s)[i])).(
      extractedComments := Comments(WithKey(s, KeyOf(Combine(s)[i]))))
    decreases |s|
  {
    var k0 := KeyOf(s[0]);
    var n := 1 + RunLength(s[1..], k0);
    FirstRun(s);
    var x := s[0].(extractedComments := Comments(s[..n]));
    var t := Combine(s[n..]);
    assert Combine(s) == [x] + t;
    AfterRun(s, n);
    if i == 0 {
      RunWhole(s, n);
    } else {
      var y := t[i - 1];
      assert Combine(s)[i] == y;
      CombineSurvivor(s[n..], i - 1);
      var k := KeyOf(y);
      assert k in Keys(s[n..]);
      assert k != k0;
      RunSkip(s, n, k);
      assert y == FirstWithKey(s, k).(extractedComments := Comments(WithKey(s, k)));
    }
  }

  lemma UniqueCons(r: seq<Message>)
    requires r != []
    ensures UniqueKeys(r) <==> KeyOf(r[0]) !in Keys(r[1..]) && UniqueKeys(r[1..])
  {
    var t := r[1..];
    if KeyOf(r[0]) in Keys(t) {
      var j := KeyWitness(t, KeyOf(r[0]));
      assert KeyOf(r[0]) == KeyOf(r[j + 1]);
    } else {
      if UniqueKeys(t) {
        forall i, j | 0 <= i < j < |r| ensures KeyOf(r[i]) != KeyOf(r[j]) {
          if i > 0 {
            assert r[i] == t[i - 1] && r[j] == t[j - 1];
          } else {
            assert r[j] == t[j - 1];
            KeyIn(t, j - 1);
          }
        }
      }
      if UniqueKeys(r) {
        forall i, j | 0 <= i < j < |t| ensures KeyOf(t[i]) != KeyOf(t[j]) {
          assert t[i] == r[i + 1] && t[j] == r[j + 1];
        }
      }
    }
  }

  /** Unique keys are exactly as many as the messages. */
  lemma {:induction false} UniqueKeysCard(r: seq<Message>)
    ensures |Keys(r)| <= |r|
    ensures UniqueKeys(r) <==> |Keys(r)| == |r|
    decreases |r|
  {
    if r != [] {
      UniqueKeysCard(r[1..]);
      UniqueCons(r);
    }
  }

  /** `combine_elements` leaves one message per distinct key. */
  lemma CombineLength(s: seq<Message>)
    requires Grouped(s)
    ensures |Combine(s)| == |Keys(s)|
  {
    CombineUnique(s);
    CombineKeys(s);
    UniqueKeysCard(Combine(s));
  }

  /** A list whose neighbours all differ in key is left as it is. */
  lemma {:induction false} CombineIdentity(s: seq<Message>)
    requires forall i :: 0 < i < |s| ==> KeyOf(s[i - 1]) != KeyOf(s[i])
    ensures Combine(s) == s
    decreases |s|
  {
    if s != [] {
      var t := s[1..];
      assert RunLength(t, KeyOf(s[0])) == 0 by {
        if t != [] {
          assert KeyOf(t[0]) != KeyOf(s[0]);
        }
      }
      assert s[..1] == [s[0]] && [s[0]][1..] == [];
      assert Comments(s[..1]) == s[0].extractedComments;
      assert s[0].(extractedComments := Comments(s[..1])) == s[0];
      assert Combine(s) == [s[0]] + Combine(t);
      forall i | 0 < i < |t| ensures KeyOf(t[i - 1]) != KeyOf(t[i]) {
        assert t[i - 1] == s[i] && t[i] == s[i + 1];
      }
      CombineIdentity(t);
      assert s == [s[0]] + t;
    }
  }

  // --------------------------------------------------------------- merge_msg

  /** The number of leading entries of `s` whose location is `loc`. */
  function LocRun(s: seq<Entry>, loc: Option<string>): (n: nat)
    ensures n <= |s|
    ensures forall i :: 0 <= i < n ==> s[i].location == loc
    ensures n < |s| ==> s[n].location != loc
  {
    if s == [] || s[0].location != loc then 0 else 1 + LocRun(s[1..], loc)
  }

  /** The comment of a run's base after the run: the last present comment
      among the later entries of the run, or the base's own if none has one. */
  function LastComment(own: Option<string>, later: seq<Entry>): Option<string> {
    if later == [] then own
    else if later[|later| - 1].comment.Some? then later[|later| - 1].comment
    else LastComment(own, later[..|later| - 1])
  }

  /** Appending to the front entry: an absent field takes the other's value, a
      present one gets the separator and the other's value. */
  function Join(front: Option<string>, sep: char, more: Option<string>): Option<string> {
    match more
    case None => front
    case Some(m) => if front.Some? then Some(front.value + [sep] + m) else Some(m)
  }

  function Absorb(front: Entry, base: Entry): Entry {
    Entry(Join(front.location, ' ', base.location), Join(front.comment, '\n', base.comment))
  }

  /** The front entry after folding in every run of equal locations of `rest`. */
  function FoldRest(front: Entry, rest: seq<Entry>): Entry
    decreases |rest|
  {
    if rest == [] then front
    else
      var n := 1 + LocRun(rest[1..], rest[0].location);
      FoldRest(Absorb(front, Entry(rest[0].location, LastComment(rest[0].comment, rest[1..n]))), rest[n..])
  }

  /** The extracted comments left by `merge_msg` for an already sorted list. */
  function FoldEntries(es: seq<Entry>): (r: seq<Entry>)
    ensures |r| <= 1
    ensures forall e :: e in r ==> e.location.Some? || e.comment.Some?
  {
    if es == [] then []
    else
      var front := FoldRest(es[0], es[1..]);
      if front.location.Some? || front.comment.Some? then [front] else []
  }

  /** The reference value of `merge_msg` on one message. */
  function Merged(m: Message): (r: Message)
    ensures |r.extractedComments| <= 1
    ensures r == m.(extractedComments := r.extractedComments)
  {
    m.(extractedComments := FoldEntries(SortSeq(m.extractedComments, CmpEntry)))
  }

  function MergedAll(s: seq<Message>): (r: seq<Message>)
    ensures |r| == |s| && forall i :: 0 <= i < |s| ==> r[i] == Merged(s[i])
  {
    seq(|s|, i requires 0 <= i < |s| => Merged(s[i]))
  }

  /** A message whose list is already folded is left as it is. */
  lemma MergedFixed(m: Message)
    requires |m.extractedComments| <= 1
    requires forall e :: e in m.extractedComments ==> e.location.Some? || e.comment.Some?
    ensures Merged(m) == m
  {
    if m.extractedComments != [] {
      var e := m.extractedComments[0];
      assert m.extractedComments == [e];
      assert SortSeq([e], CmpEntry) == Insert(e, SortSeq([], CmpEntry), CmpEntry) == [e];
      assert FoldEntries([e]) == [FoldRest(e, [])] == [e];
    }
  }

  lemma {:induction false} LocRunExact(s: seq<Entry>, loc: Option<string>, n: nat)
    requires n <= |s|
    requires forall i :: 0 <= i < n ==> s[i].location == loc
    requires n == |s| || s[n].location != loc
    ensures LocRun(s, loc) == n
    decreases n
  {
    if n > 0 {
      LocRunExact(s[1..], loc, n - 1);
    }
  }

  /** The outer-loop step of `merge_msg`: the run `t[b..r]` is folded in. */
  lemma FoldStep(t: seq<Entry>, b: nat, r: nat, front: Entry)
    requires b < r <= |t|
    requires forall i :: b < i < r ==> t[i].location == t[b].location
    requires r == |t| || t[r].location != t[b].location
    ensures FoldRest(front, t[b..]) ==
      FoldRest(Absorb(front, Entry(t[b].location, LastComment(t[b].comment, t[b + 1..r]))), t[r..])
  {
    var u := t[b..];
    LocRunExact(u[1..], t[b].location, r - b - 1);
    assert u[0] == t[b] && u[1..r - b] == t[b + 1..r] && u[r - b..] == t[r..];
  }

  /** The inner loop of `merge_msg` and the fold of the run's base into the
      front entry `es[0]`. */
  method FoldRun(es: array<Entry>, b: nat, ghost t: seq<Entry>) returns (r: nat)
    requires 1 <= b < es.Length == |t|
    requires forall i :: b <= i < es.Length ==> es[i] == t[i]
    modifies es
    ensures b < r <= es.Length
    ensures forall i :: r <= i < es.Length ==> es[i] == t[i]
    ensures FoldRest(old(es[0]), t[b..]) == FoldRest(es[0], t[r..])
  {
    r := b + 1;
    while r < es.Length && es[r].location == es[b].location
      invariant b < r <= es.Length
      invariant forall i :: 0 <= i < es.Length && i != b ==> es[i] == old(es[i])
      invariant es[b] == Entry(t[b].location, LastComment(t[b].comment, t[b + 1..r]))
      invariant forall i :: b < i < r ==> t[i].location == t[b].location
    {
      assert t[b + 1..r + 1][..r - b - 1] == t[b + 1..r];
      assert t[b + 1..r + 1][r - b - 1] == t[r] == es[r];
      if es[r].comment != es[b].comment {
        if es[r].comment.Some? {
          es[b] := es[b].(comment := es[r].comment);
        }
      }
      r := r + 1;
    }
    FoldStep(t, b, r, old(es[0]));
    AbsorbBase(es, es[b]);
  }

  /** The appends into the front entry at the end of a run,
      common/merge.cpp:76-89. */
  method AbsorbBase(es: array<Entry>, base: Entry)
    requires es.Length > 0
    modifies es
    ensures es[0] == Absorb(old(es[0]), base)
    ensures forall i :: 0 < i < es.Length ==> es[i] == old(es[i])
  {
    if base.location.Some? {
      if es[0].location.Some? {
        es[0] := es[0].(location := Some(es[0].location.value + " " + base.location.value));
      } else {
        es[0] := es[0].(location := base.location);
      }
    }
    if base.comment.Some? {
      if es[0].comment.Some? {
        es[0] := es[0].(comment := Some(es[0].comment.value + "\n" + base.comment.value));
      } else {
        es[0] := es[0].(comment := base.comment);
      }
    }
  }

  /** One iteration of `merge_msg`: the extracted comments are sorted in place,
      folded into the front entry, and cut to one entry or none. */
  method FoldComments(ec: seq<Entry>) returns (folded: seq<Entry>)
    ensures folded == FoldEntries(SortSeq(ec, CmpEntry))
  {
    var es := new Entry[|ec|](i requires 0 <= i < |ec| => ec[i]);
    assert es[..] == ec;
    EntryOrder();
    SortInPlace(es, CmpEntry);
    SortedIsSortSeq(ec, es[..], CmpEntry);
    ghost var t := es[..];
    if es.Length == 0 {
      return [];
    }
    var r := 1;
    while r < es.Length
      invariant 1 <= r <= es.Length
      invariant forall i :: r <= i < es.Length ==> es[i] == t[i]
      invariant FoldRest(es[0], t[r..]) == FoldRest(t[0], t[1..])
    {
      r := FoldRun(es, r, t);
    }
    assert t[r..] == [];
    folded := if es[0].location.Some? || es[0].comment.Some? then [es[0]] else [];
  }

  /** `merge_msg`: every message's extracted comments are folded. */
  method MergeMsg(a: array<Message>)
    modifies a
    ensures a[..] == MergedAll(old(a[..]))
  {
    ghost var S := a[..];
    for i := 0 to a.Length
      invariant forall j :: 0 <= j < i ==> a[j] == Merged(S[j])
      invariant forall j :: i <= j < a.Length ==> a[j] == S[j]
    {
      MergeOne(a, i);
    }
    MergedAllOf(a[..], S);
  }

  /** The body of `merge_msg`'s loop for the message at `i`. */
  method MergeOne(a: array<Message>, i: nat)
    requires i < a.Length
    modifies a
    ensures a[i] == Merged(old(a[i]))
    ensures forall j :: 0 <= j < a.Length && j != i ==> a[j] == old(a[j])
  {
    var folded := FoldComments(a[i].extractedComments);
    a[i] := a[i].(extractedComments := folded);
  }

  lemma MergedAllOf(r: seq<Message>, s: seq<Message>)
    requires |r| == |s| && forall j :: 0 <= j < |s| ==> r[j] == Merged(s[j])
    ensures r == MergedAll(s)
  {
  }

  // ------------------------------------------------- properties of the fold

  ghost predicate NoLocation(es: seq<Entry>) {
    forall i :: 0 <= i < |es| ==> es[i].location.None?
  }

  ghost predicate NoComment(es: seq<Entry>) {
    forall i :: 0 <= i < |es| ==> es[i].comment.None?
  }

  lemma {:induction false} LastCommentAbsent(own: Option<string>, later: seq<Entry>)
    ensures LastComment(own, later).None? <==> own.None? && NoComment(later)
    decreases |later|
  {
    if later != [] {
      var init := later[..|later| - 1];
      LastCommentAbsent(own, init);
      assert NoComment(later) <==> NoComment(init) && later[|later| - 1].comment.None?;
    }
  }

  /** The first run of `rest`, as `FoldRest` measures it. */
  lemma FirstLocRun(rest: seq<Entry>)
    requires rest != []
    ensures 0 < 1 + LocRun(rest[1..], rest[0].location) <= |rest|
    ensures forall i :: 0 <= i < 1 + LocRun(rest[1..], rest[0].location) ==> rest[i].location == rest[0].location
    ensures 1 + LocRun(rest[1..], rest[0].location) < |rest| ==>
      rest[1 + LocRun(rest[1..], rest[0].location)].location != rest[0].location
  {
    var n := 1 + LocRun(rest[1..], rest[0].location);
    forall i | 0 < i < n ensures rest[i].location == rest[0].location {
      assert rest[i] == rest[1..][i - 1];
    }
    if n < |rest| {
      assert rest[n] == rest[1..][n - 1];
    }
  }

  /** The folded entry has a location iff some entry has one, and a comment iff
      some entry has one. */
  lemma {:induction false} FoldRestAbsent(front: Entry, rest: seq<Entry>)
    ensures FoldRest(front, rest).location.None? <==> front.location.None? && NoLocation(rest)
    ensures FoldRest(front, rest).comment.None? <==> front.comment.None? && NoComment(rest)
    decreases |rest|
  {
    if rest != [] {
      var n := 1 + LocRun(rest[1..], rest[0].location);
      FirstLocRun(rest);
      var base := Entry(rest[0].location, LastComment(rest[0].comment, rest[1..n]));
      FoldRestAbsent(Absorb(front, base), rest[n..]);
      LastCommentAbsent(rest[0].comment, rest[1..n]);
      assert NoLocation(rest) <==> rest[0].location.None? && NoLocation(rest[n..]) by {
        assert forall i :: n <= i < |rest| ==> rest[i] == rest[n..][i - n];
        assert forall i :: 0 <= i < |rest[n..]| ==> rest[n..][i] == rest[n + i];
      }
      assert NoComment(rest) <==> rest[0].comment.None? && NoComment(rest[1..n]) && NoComment(rest[n..]) by {
        if rest[0].comment.None? && NoComment(rest[1..n]) && NoComment(rest[n..]) {
          forall i | 0 <= i < |rest| ensures rest[i].comment.None? {
            if i >= n {
              assert rest[i] == rest[n..][i - n];
            } else if i > 0 {
              assert rest[i] == rest[1..n][i - 1];
            }
          }
        }
        if NoComment(rest) {
          forall i | 0 <= i < |rest[n..]| ensures rest[n..][i].comment.None? {
            assert rest[n..][i] == rest[n + i];
          }
          forall i | 0 <= i < |rest[1..n]| ensures rest[1..n][i].comment.None? {
            assert rest[1..n][i] == rest[1 + i];
          }
        }
      }
    }
  }

  /** `merge_msg` drops the list exactly when no entry has a location or a
      comment. */
  lemma FoldEntriesEmpty(es: seq<Entry>)
    ensures FoldEntries(es) == [] <==> NoLocation(es) && NoComment(es)
  {
    if es != [] {
      FoldRestAbsent(es[0], es[1..]);
      assert NoLocation(es) <==> es[0].location.None? && NoLocation(es[1..]) by {
        if NoLocation(es) {
          forall i | 0 <= i < |es[1..]| ensures es[1..][i].location.None? {
            assert es[1..][i] == es[i + 1];
          }
        }
      }
      assert NoComment(es) <==> es[0].comment.None? && NoComment(es[1..]) by {
        if NoComment(es) {
          forall i | 0 <= i < |es[1..]| ensures es[1..][i].comment.None? {
            assert es[1..][i] == es[i + 1];
          }
        }
      }
    }
  }

  /** The locations of a list of entries. */
  function Locations(es: seq<Entry>): (r: seq<Option<string>>)
    ensures |r| == |es| && forall i :: 0 <= i < |es| ==> r[i] == es[i].location
  {
    if es == [] then [] else [es[0].location] + Locations(es[1..])
  }

  /** `s` without the elements equal to their predecessor. */
  function Dedup<T(==)>(s: seq<T>): seq<T> {
    if |s| <= 1 then s
    else if s[0] == s[1] then Dedup(s[1..])
    else [s[0]] + Dedup(s[1..])
  }

  /** The present values of a list of optional strings. */
  function Present(s: seq<Option<string>>): seq<string> {
    if s == [] then []
    else (if s[0].Some? then [s[0].value] else []) + Present(s[1..])
  }

  /** Successive appends to an optional string. */
  function JoinAll(f: Option<string>, sep: char, xs: seq<string>): Option<string>
    decreases |xs|
  {
    if xs == [] then f else JoinAll(Join(f, sep, Some(xs[0])), sep, xs[1..])
  }

  lemma {:induction false} DedupRun<T>(s: seq<T>, n: nat)
    requires 0 < n <= |s|
    requires forall i :: 0 <= i < n ==> s[i] == s[0]
    requires n < |s| ==> s[n] != s[0]
    ensures Dedup(s) == [s[0]] + Dedup(s[n..])
    decreases n
  {
    if n > 1 {
      DedupRun(s[1..], n - 1);
      assert s[1..][n - 1..] == s[n..];
    } else if |s| > 1 {
      assert s[1..] == s[n..];
    }
  }

  /** The folded location is the front's location followed by every distinct
      location of the remaining entries, joined with single spaces;
      absent locations contribute nothing. */
  lemma {:induction false} FoldLocations(front: Entry, rest: seq<Entry>)
    ensures FoldRest(front, rest).location == JoinAll(front.location, ' ', Present(Dedup(Locations(rest))))
    decreases |rest|
  {
    if rest != [] {
      var n := 1 + LocRun(rest[1..], rest[0].location);
      FirstLocRun(rest);
      var base := Entry(rest[0].location, LastComment(rest[0].comment, rest[1..n]));
      FoldLocations(Absorb(front, base), rest[n..]);
      var ls := Locations(rest);
      DedupRun(ls, n);
      assert Locations(rest[n..]) == ls[n..];
      var tail := Present(Dedup(ls[n..]));
      assert ([ls[0]] + Dedup(ls[n..]))[1..] == Dedup(ls[n..]);
      assert FoldRest(front, rest) == FoldRest(Absorb(front, base), rest[n..]);
      if ls[0].Some? {
        assert Present(Dedup(ls)) == [ls[0].value] + tail;
        assert ([ls[0].value] + tail)[1..] == tail;
      } else {
        assert Present(Dedup(ls)) == tail;
      }
    }
  }

  /** A sorted list with distinct present locations: the sort puts equal
      locations next to each other, so the joined list names each once. */
  lemma SortedDistinctLocations(es: seq<Entry>)
    requires Sorted(es, CmpEntry)
    ensures forall i, j :: 0 <= i < j < |es| && es[i].location == es[j].location ==>
      forall l :: i <= l <= j ==> es[l].location == es[i].location
  {
    forall i, j, l | 0 <= i < j < |es| && es[i].location == es[j].location && i <= l <= j
      ensures es[l].location == es[i].location
    {
      if i < l < j {
        LocationBetween(es[i], es[l], es[j]);
      }
    }
  }

  /** An entry sorted between two with one location has that location too. */
  lemma LocationBetween(x: Entry, y: Entry, z: Entry)
    requires CmpEntry(x, y) != Greater && CmpEntry(y, z) != Greater
    requires x.location == z.location
    ensures y.location == x.location
  {
    OptStringOrder();
    assert CmpOptString(z.location, y.location) == Flip(CmpOptString(y.location, z.location));
  }

  /** The first entry is never compared with its successors: an equal second
      location is appended to it, not merged. */
  lemma FrontNotMerged()
    ensures FoldEntries([Entry(Some("a.c:1"), Some("x")), Entry(Some("a.c:1"), Some("y"))])
      == [Entry(Some("a.c:1 a.c:1"), Some("x\ny"))]
  {
    var rest := [Entry(Some("a.c:1"), Some("y"))];
    assert rest[1..] == [] && rest[1..1] == [];
    assert "a.c:1" + [' '] + "a.c:1" == "a.c:1 a.c:1";
    assert "x" + ['\n'] + "y" == "x\ny";
  }

  /** Later entries with one location leave one location and the last present
      comment of that run. */
  lemma LaterRunMerged()
    ensures FoldEntries([Entry(None, Some("c")), Entry(Some("a.c:1"), Some("x")), Entry(Some("a.c:1"), Some("y"))])
      == [Entry(Some("a.c:1"), Some("c\ny"))]
  {
    var rest := [Entry(Some("a.c:1"), Some("x")), Entry(Some("a.c:1"), Some("y"))];
    assert rest[1..][1..] == [];
    assert LocRun(rest[1..], rest[0].location) == 1;
    assert rest[1..2] == [Entry(Some("a.c:1"), Some("y"))];
    assert rest[2..] == [];
    assert "c" + ['\n'] + "y" == "c\ny";
  }

  // ---------------------------------------------------------- merge_messages

  /** `presort_msgs`. */
  method PresortMsgs(a: array<Message>)
    modifies a
    ensures Sorted(a[..], PresortCmp)
    ensures multiset(a[..]) == multiset(old(a[..]))
  {
    PresortPreorder();
    SortInPlace(a, PresortCmp);
  }

  /** `postsort_msgs`. */
  method PostsortMsgs(a: array<Message>)
    modifies a
    ensures Sorted(a[..], PostsortCmp)
    ensures multiset(a[..]) == multiset(old(a[..]))
  {
    PostsortPreorder();
    SortInPlace(a, PostsortCmp);
  }

  /** `r` is what `merge_messages` may return for `l`: because `std::sort` is
      not stable, the presorted order `p` is any sorted permutation of `l`;
      the result is a postsorted permutation of the compacted and folded `p`. */
  ghost predicate IsMergeOf(l: seq<Message>, r: seq<Message>) {
    exists p :: IsPresorted(l, p) && IsPostsorted(MergedAll(Combine(p)), r)
  }

  ghost predicate IsPresorted(l: seq<Message>, p: seq<Message>) {
    Sorted(p, PresortCmp) && multiset(p) == multiset(l)
  }

  ghost predicate IsPostsorted(x: seq<Message>, r: seq<Message>) {
    Sorted(r, PostsortCmp) && multiset(r) == multiset(x)
  }

  /** The comment list `merge_messages` gives the message with key `k`: all
      comments of the input messages with that key, sorted and folded. */
  function FoldedComments(l: seq<Message>, k: Key): seq<Entry> {
    FoldEntries(SortSeq(Comments(WithKey(l, k)), CmpEntry))
  }

  predicate SameButComments(m: Message, n: Message) {
    m == n.(extractedComments := m.extractedComments)
  }

  lemma SortedWeaken(s: seq<Message>)
    requires Sorted(s, PresortCmp)
    ensures Sorted(s, CmpMsgKey)
  {
    PresortPreorder();
  }

  lemma {:induction false} KeysPointwise(a: seq<Message>, b: seq<Message>)
    requires |a| == |b| && forall i :: 0 <= i < |a| ==> KeyOf(a[i]) == KeyOf(b[i])
    ensures Keys(a) == Keys(b)
    decreases |a|
  {
    if a != [] {
      KeysPointwise(a[1..], b[1..]);
    }
  }

  lemma KeysMultiset(a: seq<Message>, b: seq<Message>)
    requires multiset(a) == multiset(b)
    ensures Keys(a) == Keys(b)
  {
    forall a, b | multiset(a) == multiset(b) ensures Keys(a) <= Keys(b) {
      forall k | k in Keys(a) ensures k in Keys(b) {
        var i := KeyWitness(a, k);
        assert a[i] in multiset(b);
        var j :| 0 <= j < |b| && b[j] == a[i];
        KeyIn(b, j);
      }
    }
  }

  /** Permuting messages permutes their comments with any one key. */
  lemma {:induction false} BagPerm(a: seq<Message>, b: seq<Message>, k: Key)
    requires multiset(a) == multiset(b)
    ensures Bag(a, k) == Bag(b, k)
    decreases |a|
  {
    if a == [] {
      assert |b| == |multiset(b)| == 0;
    } else {
      var x := a[0];
      assert x in multiset(b);
      var j :| 0 <= j < |b| && b[j] == x;
      var b' := b[..j] + b[j + 1..];
      PermTail(a, b, j);
      BagPerm(a[1..], b', k);
      BagCons(a, b, j, k);
    }
  }

  /** The comments with key `k` of the messages in `s`, as a bag. */
  ghost function Bag(s: seq<Message>, k: Key): multiset<Entry> {
    multiset(Comments(WithKey(s, k)))
  }

  lemma BagCons(a: seq<Message>, b: seq<Message>, j: nat, k: Key)
    requires a != [] && j < |b| && b[j] == a[0]
    requires Bag(a[1..], k) == Bag(b[..j] + b[j + 1..], k)
    ensures Bag(a, k) == Bag(b, k)
  {
    BagHead(a, k);
    BagRemove(b, j, a[0], k);
  }

  lemma BagHead(s: seq<Message>, k: Key)
    requires s != []
    ensures Bag(s, k) == Bag(s[1..], k) + Bag([s[0]], k)
  {
    assert s == [s[0]] + s[1..];
    BagAppend([s[0]], s[1..], k);
  }

  lemma BagRemove(s: seq<Message>, j: nat, x: Message, k: Key)
    requires j < |s| && s[j] == x
    ensures Bag(s, k) == Bag(s[..j] + s[j + 1..], k) + Bag([x], k)
  {
    assert s == s[..j] + ([x] + s[j + 1..]);
    BagAppend(s[..j], [x] + s[j + 1..], k);
    BagAppend([x], s[j + 1..], k);
    BagAppend(s[..j], s[j + 1..], k);
  }

  lemma PermTail<T>(a: seq<T>, b: seq<T>, j: nat)
    requires multiset(a) == multiset(b) && j < |b| && a != [] && b[j] == a[0]
    ensures multiset(a[1..]) == multiset(b[..j] + b[j + 1..])
  {
    RemoveAt(b, j);
    RemoveAt(a, 0);
    assert a[..0] + a[1..] == a[1..];
  }

  lemma RemoveAt<T>(s: seq<T>, j: nat)
    requires j < |s|
    ensures multiset(s[..j] + s[j + 1..]) == multiset(s) - multiset{s[j]}
  {
    assert s == s[..j] + [s[j]] + s[j + 1..];
  }

  lemma BagAppend(a: seq<Message>, b: seq<Message>, k: Key)
    ensures Bag(a + b, k) == Bag(a, k) + Bag(b, k)
  {
    WithKeyAppend(a, b, k);
    CommentsAppend(WithKey(a, k), WithKey(b, k));
  }

  /** Every member of a permutation of `MergedAll(c)` is `Merged` of a member of `c`. */
  lemma FromMerged(c: seq<Message>, r: seq<Message>, i: nat) returns (j: nat)
    requires multiset(r) == multiset(MergedAll(c)) && i < |r|
    ensures j < |c| && r[i] == Merged(c[j])
  {
    assert r[i] in multiset(MergedAll(c));
    j :| 0 <= j < |c| && MergedAll(c)[j] == r[i];
  }

  /** What every result of `merge_messages` satisfies. */
  lemma MergeProperties(l: seq<Message>, r: seq<Message>)
    requires IsMergeOf(l, r)
    ensures UniqueKeys(r)
    ensures Keys(r) == Keys(l)
    ensures Sorted(r, PostsortCmp)
    ensures forall i :: 0 <= i < |r| ==> |r[i].extractedComments| <= 1
    ensures forall i, e :: 0 <= i < |r| && e in r[i].extractedComments ==> e.location.Some? || e.comment.Some?
    ensures forall i :: 0 <= i < |r| ==> r[i].extractedComments == FoldedComments(l, KeyOf(r[i]))
    ensures forall i :: 0 <= i < |r| ==> exists j :: 0 <= j < |l| && SameButComments(r[i], l[j])
    ensures forall i, j :: 0 <= i < j < |r| && r[j].extractedComments == [] ==> r[i].extractedComments == []
  {
    var p :| IsPresorted(l, p) && IsPostsorted(MergedAll(Combine(p)), r);
    var c := Combine(p);
    var x := MergedAll(c);
    SortedWeaken(p);
    SortedGrouped(p);
    CombineUnique(p);
    CombineKeys(p);
    KeysMultiset(p, l);
    KeysPointwise(x, c);
    KeysMultiset(r, x);
    UniqueKeysCard(c);
    UniqueKeysCard(r);
    assert |r| == |multiset(r)| == |multiset(x)| == |x|;
    forall i | 0 <= i < |r|
      ensures |r[i].extractedComments| <= 1
      ensures forall e :: e in r[i].extractedComments ==> e.location.Some? || e.comment.Some?
      ensures r[i].extractedComments == FoldedComments(l, KeyOf(r[i]))
      ensures exists j :: 0 <= j < |l| && SameButComments(r[i], l[j])
    {
      var j := FromMerged(c, r, i);
      var k := KeyOf(c[j]);
      CombineSurvivor(p, j);
      var f := FirstWithKey(p, k);
      assert r[i] == Merged(f.(extractedComments := Comments(WithKey(p, k))));
      BagPerm(p, l, k);
      SameSort(Comments(WithKey(p, k)), Comments(WithKey(l, k)));
      assert f in multiset(l);
      var q :| 0 <= q < |l| && l[q] == f;
      assert SameButComments(r[i], l[q]);
    }
  }

  /** Unique keys survive a permutation. */
  lemma UniquePerm(a: seq<Message>, b: seq<Message>)
    requires multiset(a) == multiset(b) && UniqueKeys(a)
    ensures UniqueKeys(b)
  {
    KeysMultiset(a, b);
    UniqueKeysCard(a);
    UniqueKeysCard(b);
    assert |a| == |multiset(a)| == |multiset(b)| == |b|;
  }

  /** A message `merge_msg` has nothing left to do for. */
  ghost predicate Folded(m: Message) {
    |m.extractedComments| <= 1 &&
    forall e :: e in m.extractedComments ==> e.location.Some? || e.comment.Some?
  }

  /** Compacting and folding a permutation of a merged catalog changes nothing. */
  lemma RemergeIdentity(m: seq<Message>, p: seq<Message>)
    requires UniqueKeys(m) && forall i :: 0 <= i < |m| ==> Folded(m[i])
    requires multiset(p) == multiset(m)
    ensures MergedAll(Combine(p)) == p
  {
    UniquePerm(m, p);
    CombineIdentity(p);
    forall i | 0 <= i < |p| ensures MergedAll(p)[i] == p[i] {
      assert p[i] in multiset(m);
      var q :| 0 <= q < |m| && m[q] == p[i];
      assert Folded(m[q]);
      MergedFixed(p[i]);
    }
  }

  /** The postsort of a catalog with unique keys has only one outcome. */
  lemma PostsortUnique(m: seq<Message>, m2: seq<Message>)
    requires UniqueKeys(m) && multiset(m2) == multiset(m)
    requires Sorted(m, PostsortCmp) && Sorted(m2, PostsortCmp)
    ensures m2 == m
  {
    PostsortPreorder();
    forall x, y | x in multiset(m2) && y in multiset(m2) && PostsortCmp(x, y) == Equal
      ensures x == y
    {
      var i :| 0 <= i < |m| && m[i] == x;
      var j :| 0 <= j < |m| && m[j] == y;
      assert KeyOf(m[i]) == KeyOf(m[j]);
    }
    SortedUnique(m2, m, PostsortCmp);
  }

  /** `merge_messages` is idempotent: merging a merged catalog gives it back. */
  lemma MergeIdempotent(l: seq<Message>, m: seq<Message>, m2: seq<Message>)
    requires IsMergeOf(l, m) && IsMergeOf(m, m2)
    ensures m2 == m
  {
    MergeProperties(l, m);
    var p :| IsPresorted(m, p) && IsPostsorted(MergedAll(Combine(p)), m2);
    RemergeIdentity(m, p);
    PostsortUnique(m, m2);
  }

  /** Sorting entries depends only on their multiset. */
  lemma SameSort(a: seq<Entry>, b: seq<Entry>)
    requires multiset(a) == multiset(b)
    ensures SortSeq(a, CmpEntry) == SortSeq(b, CmpEntry)
  {
    EntryOrder();
    SortSeqSorted(a, CmpEntry);
    SortedIsSortSeq(b, SortSeq(a, CmpEntry), CmpEntry);
  }

  // --------------------------------------------------- merge_messages as written

  /** `r` is what `merge_messages` as written may return for `l`, `moved`
      being the outcome of the self-move in `combine_elements`. */
  ghost predicate IsMergeAsWritten(l: seq<Message>, r: seq<Message>, moved: Message -> Message) {
    exists p :: IsPresorted(l, p) && IsPostsorted(MergedAll(CombinedWith(p, moved)), r)
  }

  /** A self-move that leaves the message as it was. */
  ghost predicate SelfMoveKeeps(moved: Message -> Message) {
    forall m :: moved(m) == m
  }

  /** What every result as written satisfies, whatever the self-move left:
      postsorted, every comment list folded, and messages without comments
      first. */
  lemma MergeShape(c: seq<Message>, r: seq<Message>)
    requires IsPostsorted(MergedAll(c), r)
    ensures Sorted(r, PostsortCmp)
    ensures forall i :: 0 <= i < |r| ==> |r[i].extractedComments| <= 1
    ensures forall i, e :: 0 <= i < |r| && e in r[i].extractedComments ==> e.location.Some? || e.comment.Some?
    ensures forall i, j :: 0 <= i < j < |r| && r[j].extractedComments == [] ==> r[i].extractedComments == []
  {
    forall i | 0 <= i < |r|
      ensures |r[i].extractedComments| <= 1
      ensures forall e :: e in r[i].extractedComments ==> e.location.Some? || e.comment.Some?
    {
      var j := FromMerged(c, r, i);
    }
  }

  /** The code as written gives a result of the intended merge when the
      input's keys are unique, so that no self-move happens, or when the
      self-move leaves the message as it was. */
  lemma AsWrittenIsMerge(l: seq<Message>, r: seq<Message>, moved: Message -> Message)
    requires IsMergeAsWritten(l, r, moved)
    requires UniqueKeys(l) || SelfMoveKeeps(moved)
    ensures IsMergeOf(l, r)
  {
    var p :| IsPresorted(l, p) && IsPostsorted(MergedAll(CombinedWith(p, moved)), r);
    CombinedWithSlot(p, moved);
    if UniqueKeys(l) {
      UniquePerm(l, p);
      assert forall i :: 0 < i < |p| ==> KeyOf(p[i - 1]) != KeyOf(p[i]);
    } else {
      var c := Combine(p);
      if SelfMoveSlot(p).Some? {
        var j := SelfMoveSlot(p).value;
        assert moved(c[j]) == c[j];
        assert c[j := c[j]] == c;
      }
    }
    assert CombinedWith(p, moved) == Combine(p);
  }

  /** Whatever the self-move leaves, the code as written returns one message
      per distinct key of the input. */
  lemma AsWrittenLength(l: seq<Message>, r: seq<Message>, moved: Message -> Message)
    requires IsMergeAsWritten(l, r, moved)
    ensures |r| == |Keys(l)|
  {
    var p :| IsPresorted(l, p) && IsPostsorted(MergedAll(CombinedWith(p, moved)), r);
    var x := MergedAll(CombinedWith(p, moved));
    SortedWeaken(p);
    SortedGrouped(p);
    CombineLength(p);
    CombinedWithSlot(p, moved);
    KeysMultiset(p, l);
    assert |r| == |multiset(r)| == |multiset(x)| == |x|;
  }

  /** The self-move loses comments: with libstdc++, whose move assignment of
      a vector to itself leaves it empty, two messages with one key and one
      located comment between them merge into one message without comments,
      where the intended merge keeps that comment. */
  lemma SelfMoveLosesComments(b1: Message, b2: Message, e: Entry, moved: Message -> Message, r: seq<Message>)
    requires KeyOf(b1) == KeyOf(b2) && b1.extractedComments + b2.extractedComments == [e]
    requires e.location.Some?
    requires forall m :: moved(m) == m.(extractedComments := [])
    requires IsMergeAsWritten([b1, b2], r, moved)
    ensures |r| == 1 && r[0].extractedComments == []
    ensures FoldedComments([b1, b2], KeyOf(r[0])) == [e]
  {
    var l := [b1, b2];
    var k := KeyOf(b1);
    var p: seq<Message> :| IsPresorted(l, p) && IsPostsorted(MergedAll(CombinedWith(p, moved)), r);
    var m := PairSelfMoved(l, p, moved);
    var x := MergedAll([m]);
    assert x[0] == Merged(m) && Merged(m).extractedComments == [];
    OnePerm(x, r);
    FoldedPair(b1, b2, e);
  }

  /** Every presorted order of two messages with one key compacts into one
      self-moved message. */
  lemma PairSelfMoved(l: seq<Message>, p: seq<Message>, moved: Message -> Message) returns (m: Message)
    requires |l| == 2 && KeyOf(l[0]) == KeyOf(l[1]) && multiset(p) == multiset(l)
    ensures m == moved(p[0].(extractedComments := Comments(p))) && CombinedWith(p, moved) == [m]
    ensures KeyOf(p[0]) == KeyOf(l[0])
  {
    assert |p| == |multiset(p)| == |multiset(l)| == 2;
    assert p[0] in multiset(l) && p[1] in multiset(l);
    assert l == [l[0], l[1]];
    var k := KeyOf(l[0]);
    assert KeyOf(p[0]) == k && KeyOf(p[1]) == k;
    assert p[1..][1..] == [];
    assert RunLength(p[1..], k) == 1;
    assert p[..2] == p && p[2..] == [];
    m := moved(p[0].(extractedComments := Comments(p)));
  }

  /** A permutation of one message is that message. */
  lemma OnePerm<T>(x: seq<T>, r: seq<T>)
    requires |x| == 1 && multiset(r) == multiset(x)
    ensures r == x
  {
    assert |r| == |multiset(r)| == |multiset(x)| == 1;
    assert r[0] in multiset(x);
  }

  /** The intended comments of the pair's key: the one located comment. */
  lemma FoldedPair(b1: Message, b2: Message, e: Entry)
    requires KeyOf(b1) == KeyOf(b2) && b1.extractedComments + b2.extractedComments == [e]
    requires e.location.Some?
    ensures FoldedComments([b1, b2], KeyOf(b1)) == [e]
  {
    var l := [b1, b2];
    var k := KeyOf(b1);
    assert l[1..] == [b2] && l[1..][1..] == [];
    assert WithKey(l[1..], k) == [b2];
    assert WithKey(l, k) == l;
    assert Comments(l[1..]) == b2.extractedComments;
    assert Comments(l) == [e];
    assert SortSeq([e], CmpEntry) == [e];
  }

  /** `merge_messages`: the four steps on one vector.  The vector shrinks at
      the `erase` of `combine_elements`; the model copies the kept prefix into
      a fresh array of that length. */
  method MergeMessages(messages: seq<Message>, moved: Message -> Message) returns (result: seq<Message>)
    ensures IsMergeAsWritten(messages, result, moved)
    ensures Sorted(result, PostsortCmp)
    ensures forall i :: 0 <= i < |result| ==> |result[i].extractedComments| <= 1
    ensures forall i, e :: 0 <= i < |result| && e in result[i].extractedComments ==>
              e.location.Some? || e.comment.Some?
    ensures forall i, j :: 0 <= i < j < |result| && result[j].extractedComments == [] ==>
              result[i].extractedComments == []
    ensures |result| == |Keys(messages)|
    ensures UniqueKeys(messages) || SelfMoveKeeps(moved) ==>
      IsMergeOf(messages, result) &&
      UniqueKeys(result) && Keys(result) == Keys(messages) &&
      (forall i :: 0 <= i < |result| ==>
         result[i].extractedComments == FoldedComments(messages, KeyOf(result[i]))) &&
      (forall i :: 0 <= i < |result| ==>
         exists j :: 0 <= j < |messages| && SameButComments(result[i], messages[j]))
  {
    ghost var p;
    result, p := MergeSteps(messages, moved);
    MergeShape(CombinedWith(p, moved), result);
    AsWrittenLength(messages, result, moved);
    if UniqueKeys(messages) || SelfMoveKeeps(moved) {
      AsWrittenIsMerge(messages, result, moved);
      MergeProperties(messages, result);
    }
  }

  /** The four steps, with the presorted order they went through. */
  method MergeSteps(messages: seq<Message>, moved: Message -> Message)
    returns (result: seq<Message>, ghost p: seq<Message>)
    ensures IsPresorted(messages, p) && IsPostsorted(MergedAll(CombinedWith(p, moved)), result)
  {
    var a := new Message[|messages|](i requires 0 <= i < |messages| => messages[i]);
    assert a[..] == messages;
    PresortMsgs(a);
    p := a[..];
    var len := CombineElements(a, moved);
    var v := new Message[len](i reads a requires 0 <= i < len <= a.Length => a[i]);
    assert v[..] == CombinedWith(p, moved);
    MergeMsg(v);
    PostsortMsgs(v);
    result := v[..];
  }
}
