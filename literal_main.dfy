/** runtime/i18n.hpp, the main part of a message literal: the text after the
    context, in which `(s)` and `(a|b)` groups tell the singular from the
    plural.  Text outside a group goes to both forms, a committed group puts
    its first alternative into the singular and its second into the plural,
    and an unexpected `(`, `|` or `)` inside an open group writes the group
    so far literally into both forms.

    `extract_singular_plural` is specified by `Run`, a scan over the literal
    without capacity limits, and `measure_singular_plural` by `MeasureRun`,
    which counts as the source does, including its departures from the
    extraction: it counts a backslash outside a group as a character of its
    own, it keeps the pending singular count after a `(` that reopens a
    group, and it does not count a group left open at the end. */
module LiteralMain {
  import opened Wrappers
  import opened CompileTimeStrings
  import opened LiteralContext

  // ------------------------------------------------------------- extraction

  /** The extraction between two characters: the committed singular and
      plural, whether a group is open, and the open group's pending singular
      and (once a `|` or `(s)` opened it) pending plural, which the buffers
      hold behind the committed text.  `committed` records whether some group
      was committed. */
  datatype Split = Split(
    singular: string, plural: string, grouped: bool,
    trySingular: string, tryPlural: Option<string>, committed: bool)

  const Start: Split := Split("", "", false, "", None, false)

  /** The pending plural, empty when there is none. */
  function PendingPlural(st: Split): string {
    if st.tryPlural.Some? then st.tryPlural.value else ""
  }

  /** The text a reverted group writes into both forms: `(`, the pending
      singular and, when there is one, `|` and the pending plural. */
  function RevertText(a: string, b: Option<string>): string {
    "(" + a + (if b.Some? then "|" + b.value else "")
  }

  function Reverted(st: Split): string {
    RevertText(st.trySingular, st.tryPlural)
  }

  /** `d` appended to the pending part of an open group. */
  function Pend(st: Split, d: char): Split {
    if st.tryPlural.Some? then st.(tryPlural := Some(st.tryPlural.value + [d]))
    else st.(trySingular := st.trySingular + [d])
  }

  /** Slots in use in the singular and the plural buffer. */
  function OccS(st: Split): nat {
    |st.singular| + |st.trySingular|
  }

  function OccP(st: Split): nat {
    |st.plural| + |PendingPlural(st)|
  }

  /** The character a plain or escaped character contributes, and the
      position after it; a backslash that ends the literal makes the scan
      dereference past the literal's terminator. */
  function Next(s: string, i: nat): Result<(nat, char)>
    requires i < |s|
  {
    if s[i] != '\\' then Success((i + 1, s[i]))
    else if i + 1 == |s| then Failure(OutOfRange)
    else Success((i + 2, s[i + 1]))
  }

  /** One iteration of the extraction loop at position `i`. */
  function Step(s: string, i: nat, st: Split): (r: Result<(nat, Split)>)
    requires i < |s|
    ensures r.Success? ==> i < r.value.0 <= |s|
  {
    var c := s[i];
    if st.grouped then
      if st.tryPlural.Some? && c == ')' then
        Success((i + 1, Split(st.singular + st.trySingular, st.plural + st.tryPlural.value,
                              false, "", None, true)))
      else if st.tryPlural.None? && c == '|' then
        Success((i + 1, st.(tryPlural := Some(""))))
      else if c == '(' || c == '|' || c == ')' then
        var t := Reverted(st);
        if c == '(' then
          Success((i + 1, st.(singular := st.singular + t, plural := st.plural + t,
                              trySingular := "", tryPlural := None)))
        else
          Success((i + 1, st.(singular := st.singular + t + [c], plural := st.plural + t + [c],
                              grouped := false, trySingular := "", tryPlural := None)))
      else
        match Next(s, i)
        case Failure(e) => Failure(e)
        case Success((n, d)) =>
          Success((n, Pend(st, d)))
    else if c == '(' then
      var marker := Peek(s, i + 1) == 's' && Peek(s, i + 2) == ')';
      Success((i + 1, st.(grouped := true, trySingular := "",
                          tryPlural := if marker then Some("") else None)))
    else
      match Next(s, i)
      case Failure(e) => Failure(e)
      case Success((n, d)) => Success((n, st.(singular := st.singular + [d], plural := st.plural + [d])))
  }

  /** The extraction from position `i` to the end of the literal. */
  function Run(s: string, i: nat, st: Split): Result<Split>
    requires i <= |s|
    decreases |s| - i
  {
    if i == |s| then Success(st)
    else
      match Step(s, i, st)
      case Failure(e) => Failure(e)
      case Success((n, st')) => Run(s, n, st')
  }

  /** A zero-initialised buffer of `n` slots holding `t` at its beginning. */
  function Pad(t: string, n: nat): (r: string)
    requires |t| <= n
    ensures |r| == n && r[..|t|] == t
    ensures forall k :: |t| <= k < n ==> r[k] == NUL
  {
    t + seq(n - |t|, _ => NUL)
  }

  /** `extract_singular_plural<Singular, Plural>` on the main part `s`, as
      the source computes it: the singular and the plural are read out of
      buffers of `Singular + 1` and `Plural + 1` slots.  Without a plural the
      literal is copied with its escapes resolved and must fill the singular
      exactly, or the evaluation throws "Assertion failed"; a write past a
      buffer, or a read past the literal, ends the evaluation. */
  function Extracted(s: string, S: nat, P: nat): Result<(CtString, CtString)> {
    if P == NPOS then
      var ts := Tokens(s);
      if ts != [] && ts[|ts| - 1] == Plain('\\') then Failure(OutOfRange)
      else if |ts| > S + 1 then Failure(OutOfRange)
      else if |ts| != S then Failure(AssertionFailed)
      else Success((Present(Chars(ts)), Absent))
    else
      match Run(s, 0, Start)
      case Failure(_) => Failure(OutOfRange)
      case Success(f) =>
        if OccS(f) > S + 1 || OccP(f) > P + 1 then Failure(OutOfRange)
        else Success((Present(Pad(f.singular + f.trySingular, S + 1)[..S]),
                      Present(Pad(f.plural + PendingPlural(f), P + 1)[..P])))
  }

  // ------------------------------------------------------------ measurement

  /** The counters of `measure_singular_plural`; `tryPlural == None` stands
      for `size_t(-1)`.  The pending counters keep their values after the
      group closes, as the source's do. */
  datatype Counts = Counts(
    singular: nat, plural: nat, grouped: bool, hasPlural: bool,
    trySingular: nat, tryPlural: Option<nat>)

  const Begin: Counts := Counts(0, 0, false, false, 0, None)

  /** One iteration of the measuring loop at position `i`. */
  function MeasureStep(s: string, i: nat, m: Counts): (r: Result<(nat, Counts)>)
    requires i < |s|
    ensures r.Success? ==> i < r.value.0 <= |s|
  {
    var c := s[i];
    if m.grouped then
      if m.tryPlural.Some? && c == ')' then
        Success((i + 1, m.(hasPlural := true, grouped := false,
                           singular := m.singular + m.trySingular,
                           plural := m.plural + m.tryPlural.value)))
      else if m.tryPlural.None? && c == '|' then
        Success((i + 1, m.(tryPlural := Some(0))))
      else if c == '(' || c == '|' || c == ')' then
        var t := m.trySingular + 1 + (if m.tryPlural.Some? then 1 + m.tryPlural.value else 0);
        if c == '(' then
          Success((i + 1, m.(trySingular := t, tryPlural := None,
                             singular := m.singular + t, plural := m.plural + t)))
        else
          Success((i + 1, m.(trySingular := t, tryPlural := None, grouped := false,
                             singular := m.singular + t + 1, plural := m.plural + t + 1)))
      else
        match Next(s, i)
        case Failure(e) => Failure(e)
        case Success((n, _)) =>
          if m.tryPlural.Some? then Success((n, m.(tryPlural := Some(m.tryPlural.value + 1))))
          else Success((n, m.(trySingular := m.trySingular + 1)))
    else if c == '(' then
      var marker := Peek(s, i + 1) == 's' && Peek(s, i + 2) == ')';
      Success((i + 1, m.(grouped := true, trySingular := 0,
                         tryPlural := if marker then Some(0) else None)))
    else
      Success((i + 1, m.(singular := m.singular + 1, plural := m.plural + 1)))
  }

  function MeasureRun(s: string, i: nat, m: Counts): Result<Counts>
    requires i <= |s|
    decreases |s| - i
  {
    if i == |s| then Success(m)
    else
      match MeasureStep(s, i, m)
      case Failure(e) => Failure(e)
      case Success((n, m')) => MeasureRun(s, n, m')
  }

  /** `measure_singular_plural`: the singular's length and the plural's, or
      `size_t(-1)` for the plural when no group was committed. */
  function Measured(s: string): Result<(nat, nat)> {
    match MeasureRun(s, 0, Begin)
    case Failure(e) => Failure(e)
    case Success(m) => Success((m.singular, if m.hasPlural then m.plural else NPOS))
  }

  /** The measuring loop over the counters. */
  method MeasureSingularPlural(s: string) returns (r: Result<(nat, nat)>)
    ensures r == Measured(s)
  {
    var singular: nat, plural: nat := 0, 0;
    var grouped, hasPlural := false, false;
    var trySingular: nat, tryPlural: Option<nat> := 0, None;
    var iter := 0;
    while iter != |s|
      invariant iter <= |s|
      invariant MeasureRun(s, 0, Begin) ==
        MeasureRun(s, iter, Counts(singular, plural, grouped, hasPlural, trySingular, tryPlural))
      decreases |s| - iter
    {
      ghost var m := Counts(singular, plural, grouped, hasPlural, trySingular, tryPlural);
      ghost var step := MeasureStep(s, iter, m);
      var c := s[iter];
      if grouped {
        if tryPlural.Some? && c == ')' {
          hasPlural, grouped := true, false;
          singular := singular + trySingular;
          plural := plural + tryPlural.value;
        } else if tryPlural.None? && c == '|' {
          tryPlural := Some(0);
        } else if c == '(' || c == '|' || c == ')' {
          trySingular := trySingular + 1;
          if tryPlural.Some? {
            trySingular := trySingular + 1 + tryPlural.value;
            tryPlural := None;
          }
          plural := plural + trySingular;
          singular := singular + trySingular;
          if c != '(' {
            grouped := false;
            singular, plural := singular + 1, plural + 1;
          }
        } else {
          if c == '\\' {
            iter := iter + 1;
            if iter == |s| {
              return Failure(OutOfRange);
            }
          }
          if tryPlural.Some? {
            tryPlural := Some(tryPlural.value + 1);
          } else {
            trySingular := trySingular + 1;
          }
        }
      } else if c == '(' {
        grouped := true;
        trySingular := 0;
        if Peek(s, iter + 1) == 's' && Peek(s, iter + 2) == ')' {
          tryPlural := Some(0);
        } else {
          tryPlural := None;
        }
      } else {
        singular, plural := singular + 1, plural + 1;
      }
      iter := iter + 1;
      assert step == Success((iter, Counts(singular, plural, grouped, hasPlural, trySingular, tryPlural)));
    }
    r := Success((singular, if hasPlural then plural else NPOS));
  }

  // ---------------------------------------------------------------- buffers

  /** The zero-initialised buffer `a` holds `t` at its beginning. */
  predicate Holds(a: array<char>, t: string)
    reads a
  {
    |t| <= a.Length &&
    (forall k :: 0 <= k < |t| ==> a[k] == t[k]) &&
    (forall k :: |t| <= k < a.Length ==> a[k] == NUL)
  }

  lemma HoldsPad(a: array<char>, t: string)
    requires Holds(a, t)
    ensures a[..] == Pad(t, a.Length)
  {
  }

  /** `*out++ = c` at the end of the text held. */
  method Put(a: array<char>, pos: nat, ghost t: string, c: char)
    requires Holds(a, t) && pos == |t| < a.Length
    modifies a
    ensures Holds(a, t + [c])
  {
    a[pos] := c;
  }

  /** `std::copy_backward(a + pos, a + end, a + end + 1)` followed by
      `a[pos] = '('`: the parenthesis is inserted in front of the last
      `end - pos` characters held. */
  method InsertParen(a: array<char>, pos: nat, end: nat, ghost x: string, ghost u: string)
    requires Holds(a, x + u) && pos == |x| && end == |x| + |u| < a.Length
    modifies a
    ensures Holds(a, x + "(" + u)
  {
    ghost var old_a := a[..];
    var k := end;
    while k > pos
      invariant pos <= k <= end
      invariant forall p :: 0 <= p < k ==> a[p] == old_a[p]
      invariant forall p :: k < p <= end ==> a[p] == old_a[p - 1]
      invariant forall p :: end < p < a.Length ==> a[p] == NUL
    {
      a[k] := a[k - 1];
      k := k - 1;
    }
    a[pos] := '(';
    ghost var v := x + "(" + u;
    forall p | 0 <= p < |v| ensures a[p] == v[p] {
      if p < pos {
        assert old_a[p] == (x + u)[p];
      } else if p > pos {
        assert old_a[p - 1] == (x + u)[p - 1];
      }
    }
  }

  /** `std::copy(src + from, src + from + |u|, dst + pos)` of the characters
      `u`, written over whatever the destination held from `pos` on. */
  method CopyOver(dst: array<char>, pos: nat, ghost t: string, src: array<char>, from: nat, n: nat, ghost u: string)
    requires n == |u| && dst != src && from + |u| <= src.Length && pos == |t| && pos + |u| <= dst.Length
    requires forall k :: 0 <= k < |u| ==> src[from + k] == u[k]
    requires forall k :: 0 <= k < pos ==> dst[k] == t[k]
    requires forall k :: pos + |u| <= k < dst.Length ==> dst[k] == NUL
    modifies dst
    ensures Holds(dst, t + u)
  {
    var i := 0;
    while i < n
      invariant 0 <= i <= |u|
      invariant forall k :: 0 <= k < pos ==> dst[k] == t[k]
      invariant forall k :: pos <= k < pos + i ==> dst[k] == u[k - pos]
      invariant forall k :: pos + |u| <= k < dst.Length ==> dst[k] == NUL
    {
      dst[pos + i] := src[from + i];
      i := i + 1;
    }
  }

  // ------------------------------------------------------------ the extractor

  /** The output pointers of `extract_singular_plural` as offsets into the
      singular buffer (`out_singular`, `try_singular`) and the plural buffer
      (`out_plural`, `try_plural`, `None` for a null `try_plural`), and
      `grouped`. */
  datatype Cursor = Cursor(os: nat, ts: nat, op: nat, tp: Option<nat>, grouped: bool)

  /** Outside a group nothing is pending. */
  predicate Settled(st: Split) {
    !st.grouped ==> st.trySingular == "" && st.tryPlural.None?
  }

  /** The buffers and pointers represent the extraction state `st`. */
  predicate Mirrors(sing: array<char>, plu: array<char>, cur: Cursor, st: Split)
    reads sing, plu
  {
    cur.grouped == st.grouped && cur.os == |st.singular| && cur.op == |st.plural| &&
    (st.grouped ==>
      cur.ts == cur.os + |st.trySingular| && (cur.tp.Some? <==> st.tryPlural.Some?) &&
      (cur.tp.Some? ==> cur.tp.value == cur.op + |st.tryPlural.value|)) &&
    Settled(st) &&
    Holds(sing, st.singular + st.trySingular) && Holds(plu, st.plural + PendingPlural(st))
  }

  /** The state after a group is reverted by `c`. */
  function AfterRevert(st: Split, c: char): Split {
    var t := Reverted(st);
    if c == '(' then
      st.(singular := st.singular + t, plural := st.plural + t, trySingular := "", tryPlural := None)
    else
      st.(singular := st.singular + t + [c], plural := st.plural + t + [c],
          grouped := false, trySingular := "", tryPlural := None)
  }

  /** `std::copy_backward` of the pending singular one slot up, `(` in front
      of it and, with a pending plural, `|` and the pending plural copied out
      of the plural buffer behind it. */
  method RevertSingular(sing: array<char>, plu: array<char>, os: nat, ts: nat, op: nat, tp: Option<nat>,
                        ghost x: string, ghost a: string, ghost b: Option<string>)
    returns (ts': nat)
    requires sing != plu && Holds(sing, x + a) && os == |x| && ts == os + |a|
    requires tp.Some? <==> b.Some?
    requires b.Some? ==>
      tp.value == op + |b.value| <= plu.Length && forall k :: 0 <= k < |b.value| ==> plu[op + k] == b.value[k]
    requires |x| + |RevertText(a, b)| <= sing.Length
    modifies sing
    ensures Holds(sing, x + RevertText(a, b)) && ts' == os + |RevertText(a, b)|
  {
    InsertParen(sing, os, ts, x, a);
    ts' := ts + 1;
    if tp.Some? {
      Put(sing, ts', x + "(" + a, '|');
      ts' := ts' + 1;
      CopyOver(sing, ts', x + "(" + a + "|", plu, op, tp.value - op, b.value);
      ts' := ts' + (tp.value - op);
      assert x + "(" + a + "|" + b.value == x + RevertText(a, b);
    }
  }

  /** What a `|` or `)` that reverts a group adds behind the group's text. */
  function Closing(c: char): string {
    if c != '(' then [c] else []
  }

  /** The revert branch on the buffers holding `x + a` and `y + b`: the group
      so far is written into the singular buffer and copied into the plural
      buffer, and a `|` or `)` that caused the revert closes the group and is
      written to both forms. */
  method RevertGroup(sing: array<char>, plu: array<char>, cur: Cursor,
                     ghost x: string, ghost a: string, ghost y: string, ghost b: Option<string>, c: char)
    returns (cur': Cursor)
    requires sing != plu && Holds(sing, x + a) && Holds(plu, y + (if b.Some? then b.value else ""))
    requires cur.os == |x| && cur.ts == |x| + |a| && cur.op == |y|
    requires (cur.tp.Some? <==> b.Some?) && (b.Some? ==> cur.tp.value == |y| + |b.value|)
    requires |x| + |RevertText(a, b)| + |Closing(c)| <= sing.Length
    requires |y| + |RevertText(a, b)| + |Closing(c)| <= plu.Length
    modifies sing, plu
    ensures Holds(sing, x + RevertText(a, b) + Closing(c)) && Holds(plu, y + RevertText(a, b) + Closing(c))
    ensures cur' == Cursor(|x| + |RevertText(a, b)| + |Closing(c)|, |x| + |RevertText(a, b)| + |Closing(c)|,
                           |y| + |RevertText(a, b)| + |Closing(c)|, None, c == '(')
  {
    ghost var t := RevertText(a, b);
    ghost var pb := if b.Some? then b.value else "";
    assert b.Some? ==> forall k :: 0 <= k < |pb| ==> plu[cur.op + k] == pb[k] by {
      if b.Some? {
        forall k | 0 <= k < |pb| ensures plu[cur.op + k] == pb[k] {
          assert (y + pb)[cur.op + k] == pb[k];
        }
      }
    }
    var ts := RevertSingular(sing, plu, cur.os, cur.ts, cur.op, cur.tp, x, a, b);
    forall k | 0 <= k < |t| ensures sing[cur.os + k] == t[k] {
      assert (x + t)[cur.os + k] == t[k];
    }
    forall k | 0 <= k < cur.op ensures plu[k] == y[k] {
      assert (y + pb)[k] == y[k];
    }
    CopyOver(plu, cur.op, y, sing, cur.os, ts - cur.os, t);
    cur' := CloseRevert(sing, plu, ts, cur.op + (ts - cur.os), x + t, y + t, c);
  }

  /** A `|` or `)` that caused a revert closes the group and is written to
      both forms; a `(` leaves the new group open with nothing pending. */
  method CloseRevert(sing: array<char>, plu: array<char>, os: nat, op: nat, ghost u: string, ghost v: string, c: char)
    returns (cur': Cursor)
    requires sing != plu && Holds(sing, u) && Holds(plu, v) && os == |u| && op == |v|
    requires os + |Closing(c)| <= sing.Length && op + |Closing(c)| <= plu.Length
    modifies sing, plu
    ensures Holds(sing, u + Closing(c)) && Holds(plu, v + Closing(c))
    ensures cur' == Cursor(os + |Closing(c)|, os + |Closing(c)|, op + |Closing(c)|, None, c == '(')
  {
    if c != '(' {
      Put(sing, os, u, c);
      Put(plu, op, v, c);
      cur' := Cursor(os + 1, os + 1, op + 1, None, false);
    } else {
      assert u + Closing(c) == u && v + Closing(c) == v;
      cur' := Cursor(os, os, op, None, true);
    }
  }

  /** The buffers after a revert represent the state after it. */
  lemma RevertMirrors(sing: array<char>, plu: array<char>, cur': Cursor, st: Split, c: char)
    requires st.grouped
    requires Holds(sing, st.singular + Reverted(st) + Closing(c)) && Holds(plu, st.plural + Reverted(st) + Closing(c))
    requires var n := |Reverted(st)| + |Closing(c)|;
      cur' == Cursor(|st.singular| + n, |st.singular| + n, |st.plural| + n, None, c == '(')
    ensures Mirrors(sing, plu, cur', AfterRevert(st, c))
  {
    var t := Reverted(st);
    var st' := AfterRevert(st, c);
    assert st'.singular + st'.trySingular == st.singular + t + Closing(c);
    assert st'.plural + PendingPlural(st') == st.plural + t + Closing(c);
  }

  /** The revert branch with its writes bounded by the buffers. */
  method RevertStep(sing: array<char>, plu: array<char>, cur: Cursor, ghost st: Split, c: char)
    returns (ok: bool, cur': Cursor)
    requires sing != plu && Mirrors(sing, plu, cur, st) && st.grouped
    modifies sing, plu
    ensures ok ==> Mirrors(sing, plu, cur', AfterRevert(st, c))
    ensures !ok ==> OccS(AfterRevert(st, c)) > sing.Length || OccP(AfterRevert(st, c)) > plu.Length
  {
    var len := cur.ts - cur.os + 1 + (if cur.tp.Some? then 1 + (cur.tp.value - cur.op) else 0);
    var extra := if c != '(' then 1 else 0;
    assert len == |Reverted(st)| && extra == |Closing(c)|;
    if cur.os + len + extra > sing.Length || cur.op + len + extra > plu.Length {
      return false, cur;
    }
    ok := true;
    cur' := RevertGroup(sing, plu, cur, st.singular, st.trySingular, st.plural, st.tryPlural, c);
    RevertMirrors(sing, plu, cur', st, c);
  }

  /** A character of an open group, written behind its pending part. */
  method AppendPending(sing: array<char>, plu: array<char>, cur: Cursor, ghost st: Split, d: char)
    returns (cur': Cursor)
    requires sing != plu && Mirrors(sing, plu, cur, st) && st.grouped
    requires if cur.tp.Some? then cur.tp.value < plu.Length else cur.ts < sing.Length
    modifies sing, plu
    ensures Mirrors(sing, plu, cur', Pend(st, d))
  {
    if cur.tp.Some? {
      Put(plu, cur.tp.value, st.plural + st.tryPlural.value, d);
      assert st.plural + st.tryPlural.value + [d] == st.plural + (st.tryPlural.value + [d]);
      cur' := cur.(tp := Some(cur.tp.value + 1));
    } else {
      Put(sing, cur.ts, st.singular + st.trySingular, d);
      assert st.singular + st.trySingular + [d] == st.singular + (st.trySingular + [d]);
      cur' := cur.(ts := cur.ts + 1);
    }
  }

  /** A character outside a group, written to both forms. */
  method AppendBoth(sing: array<char>, plu: array<char>, cur: Cursor, ghost st: Split, d: char)
    returns (cur': Cursor)
    requires sing != plu && Mirrors(sing, plu, cur, st) && !st.grouped
    requires cur.os < sing.Length && cur.op < plu.Length
    modifies sing, plu
    ensures Mirrors(sing, plu, cur', st.(singular := st.singular + [d], plural := st.plural + [d]))
  {
    assert st.singular + st.trySingular == st.singular;
    assert st.plural + PendingPlural(st) == st.plural;
    Put(sing, cur.os, st.singular, d);
    Put(plu, cur.op, st.plural, d);
    cur' := cur.(os := cur.os + 1, op := cur.op + 1);
  }

  /** The character at `iter` and what it contributes to the buffers, or a
      failed evaluation. */
  method ExtractStep(s: string, iter: nat, sing: array<char>, plu: array<char>, cur: Cursor, ghost st: Split)
    returns (ok: bool, next: nat, cur': Cursor, ghost st': Split)
    requires iter < |s| && sing != plu && Mirrors(sing, plu, cur, st)
    modifies sing, plu
    ensures ok ==> Step(s, iter, st) == Success((next, st')) && Mirrors(sing, plu, cur', st')
    ensures !ok ==> StepOverflows(s, iter, st, sing.Length, plu.Length)
  {
    if cur.grouped {
      ok, next, cur', st' := ExtractInGroup(s, iter, sing, plu, cur, st);
    } else {
      ok, next, cur', st' := ExtractOutside(s, iter, sing, plu, cur, st);
    }
  }

  /** The step at `iter` fails, or leaves more text than the buffers hold. */
  predicate StepOverflows(s: string, iter: nat, st: Split, ns: nat, np: nat)
    requires iter < |s|
  {
    Step(s, iter, st).Failure? ||
    OccS(Step(s, iter, st).value.1) > ns || OccP(Step(s, iter, st).value.1) > np
  }

  method ExtractInGroup(s: string, iter: nat, sing: array<char>, plu: array<char>, cur: Cursor, ghost st: Split)
    returns (ok: bool, next: nat, cur': Cursor, ghost st': Split)
    requires iter < |s| && sing != plu && Mirrors(sing, plu, cur, st) && cur.grouped
    modifies sing, plu
    ensures ok ==> Step(s, iter, st) == Success((next, st')) && Mirrors(sing, plu, cur', st')
    ensures !ok ==> StepOverflows(s, iter, st, sing.Length, plu.Length)
  {
    ok, next, cur', st' := true, iter + 1, cur, st;
    var c := s[iter];
    if cur.tp.Some? && c == ')' {
      cur' := Cursor(cur.ts, cur.ts, cur.tp.value, None, false);
      st' := Split(st.singular + st.trySingular, st.plural + st.tryPlural.value, false, "", None, true);
      assert st'.singular + st'.trySingular == st.singular + st.trySingular;
      assert st'.plural + PendingPlural(st') == st.plural + PendingPlural(st);
    } else if cur.tp.None? && c == '|' {
      cur' := cur.(tp := Some(cur.op));
      st' := st.(tryPlural := Some(""));
      assert st'.plural + PendingPlural(st') == st.plural + PendingPlural(st);
    } else if c == '(' || c == '|' || c == ')' {
      st' := AfterRevert(st, c);
      ok, cur' := RevertStep(sing, plu, cur, st, c);
    } else {
      if c == '\\' {
        if iter + 1 == |s| {
          return false, next, cur', st';
        }
        next := iter + 2;
      }
      var d := s[next - 1];
      st' := Pend(st, d);
      if (cur.tp.Some? && cur.tp.value >= plu.Length) || (cur.tp.None? && cur.ts >= sing.Length) {
        return false, next, cur', st';
      }
      cur' := AppendPending(sing, plu, cur, st, d);
    }
  }

  method ExtractOutside(s: string, iter: nat, sing: array<char>, plu: array<char>, cur: Cursor, ghost st: Split)
    returns (ok: bool, next: nat, cur': Cursor, ghost st': Split)
    requires iter < |s| && sing != plu && Mirrors(sing, plu, cur, st) && !cur.grouped
    modifies sing, plu
    ensures ok ==> Step(s, iter, st) == Success((next, st')) && Mirrors(sing, plu, cur', st')
    ensures !ok ==> StepOverflows(s, iter, st, sing.Length, plu.Length)
  {
    ok, next, cur', st' := true, iter + 1, cur, st;
    var c := s[iter];
    if c == '(' {
      var marker := Peek(s, iter + 1) == 's' && Peek(s, iter + 2) == ')';
      cur' := Cursor(cur.os, cur.os, cur.op, if marker then Some(cur.op) else None, true);
      st' := st.(grouped := true, trySingular := "", tryPlural := if marker then Some("") else None);
    } else {
      if c == '\\' {
        if iter + 1 == |s| {
          return false, next, cur', st';
        }
        next := iter + 2;
      }
      var d := s[next - 1];
      st' := st.(singular := st.singular + [d], plural := st.plural + [d]);
      if cur.os >= sing.Length || cur.op >= plu.Length {
        return false, next, cur', st';
      }
      cur' := AppendBoth(sing, plu, cur, st, d);
    }
  }

  /** Outside a group nothing stays pending, and no step makes less text
      pending or committed. */
  lemma StepGrows(s: string, i: nat, st: Split)
    requires i < |s| && Settled(st) && Step(s, i, st).Success?
    ensures var st' := Step(s, i, st).value.1;
      Settled(st') && OccS(st') >= OccS(st) && OccP(st') >= OccP(st)
  {
  }

  lemma {:induction false} RunGrows(s: string, i: nat, st: Split)
    requires i <= |s| && Settled(st) && Run(s, i, st).Success?
    ensures OccS(Run(s, i, st).value) >= OccS(st) && OccP(Run(s, i, st).value) >= OccP(st)
    decreases |s| - i
  {
    if i < |s| {
      StepGrows(s, i, st);
      var (n, st') := Step(s, i, st).value;
      RunGrows(s, n, st');
    }
  }

  /** A step that fails, or does not fit the buffers, makes the extraction
      fail. */
  lemma StepOverflow(s: string, i: nat, st: Split, S: nat, P: nat)
    requires P != NPOS && i < |s| && Settled(st) && Run(s, 0, Start) == Run(s, i, st)
    requires StepOverflows(s, i, st, S + 1, P + 1)
    ensures Extracted(s, S, P) == Failure(OutOfRange)
  {
    if Step(s, i, st).Success? {
      var (n, st') := Step(s, i, st).value;
      StepGrows(s, i, st);
      if Run(s, n, st').Success? {
        RunGrows(s, n, st');
      }
    }
  }

  /** The copy made when there is no plural: every character with the
      backslash before it dropped, at most `Singular + 1` of them, and the
      check that they fill the singular exactly. */
  method ExtractWithoutPlural(s: string, sing: array<char>) returns (r: Result<(CtString, CtString)>)
    requires sing.Length >= 1 && Holds(sing, "")
    modifies sing
    ensures r == Extracted(s, sing.Length - 1, NPOS)
  {
    var os, iter := 0, 0;
    ghost var done: seq<Token> := [];
    while iter != |s|
      invariant iter <= |s| && Tokens(s) == done + Tokens(s[iter..])
      invariant os == |done| && Holds(sing, Chars(done)) && Plain('\\') !in done
      decreases |s| - iter
    {
      if s[iter] == '\\' && iter + 1 == |s| {
        assert Tokens(s[iter..]) == [Plain('\\')];
        return Failure(OutOfRange);
      }
      ghost var t := NextToken(s, iter, done);
      if os >= sing.Length {
        return Failure(OutOfRange);
      }
      if s[iter] == '\\' {
        iter := iter + 1;
      }
      Put(sing, os, Chars(done), s[iter]);
      os, iter := os + 1, iter + 1;
      done := done + [t];
    }
    assert Tokens(s) == done;
    if os != sing.Length - 1 {
      return Failure(AssertionFailed);
    }
    HoldsPad(sing, Chars(done));
    r := Success((Present(sing[..os]), Absent));
  }

  /** `extract_singular_plural<Singular, Plural>`. */
  method ExtractSingularPlural(s: string, S: nat, P: nat) returns (r: Result<(CtString, CtString)>)
    ensures r == Extracted(s, S, P)
  {
    var sing := new char[S + 1](_ => NUL);
    if P == NPOS {
      r := ExtractWithoutPlural(s, sing);
      return;
    }
    var plu := new char[P + 1](_ => NUL);
    var cur := Cursor(0, 0, 0, None, false);
    ghost var st := Start;
    var iter := 0;
    while iter != |s|
      invariant iter <= |s| && Mirrors(sing, plu, cur, st) && Run(s, 0, Start) == Run(s, iter, st)
      decreases |s| - iter
    {
      var ok, next, cur';
      ghost var st';
      ok, next, cur', st' := ExtractStep(s, iter, sing, plu, cur, st);
      if !ok {
        StepOverflow(s, iter, st, S, P);
        return Failure(OutOfRange);
      }
      iter, cur, st := next, cur', st';
    }
    HoldsPad(sing, st.singular + st.trySingular);
    HoldsPad(plu, st.plural + PendingPlural(st));
    r := Success((Present(sing[..S]), Present(plu[..P])));
  }
}
