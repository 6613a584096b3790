/** runtime/i18n.hpp, `build_I18NString<Str>`: the literal is measured
    (`measure_context` on the whole of it, `measure_singular_plural` on the
    main part after the context), and the three parts are extracted with
    the measured sizes.  A failure anywhere ends the constant evaluation. */
module LiteralBuild {
  import opened Wrappers
  import opened CompileTimeStrings
  import opened LiteralContext
  import opened LiteralMain
  import opened LiteralAgreement

  /** The scan of `measure_context` reaches every token boundary inside the
      literal. */
  lemma {:induction false} ScannedAt(s: string, k: nat) returns (iter: nat, grouped: bool)
    requires k <= |Tokens(s)|
    ensures Scanned(s, iter, k, grouped)
  {
    if k == 0 {
      iter, grouped := 0, false;
      assert Tokens(s)[..0] == [];
    } else {
      var i, g := ScannedAt(s, k - 1);
      assert Tokens(s[i..]) != [];
      Advance(s, i, k - 1, g);
      if s[i] == '\\' && i + 1 != |s| {
        iter, grouped := i + 2, g;
      } else if s[i] == '(' {
        iter, grouped := i + 1, true;
      } else if s[i] == ')' {
        iter, grouped := i + 1, false;
      } else {
        iter, grouped := i + 1, g;
      }
    }
  }

  /** Any number of leading tokens covers at most the literal. */
  lemma SpanWithin(s: string, k: nat)
    requires k <= |Tokens(s)|
    ensures Span(Tokens(s)[..k]) <= |s|
  {
    var iter, grouped := ScannedAt(s, k);
  }

  /** Where the main part begins: just past the separator, or at the
      beginning of a literal without one. */
  function MainStart(s: string): (start: nat)
    ensures start <= |s|
  {
    var k := FirstSeparator(Tokens(s));
    if k == NPOS then 0
    else
      SpanWithin(s, k + 1);
      Span(Tokens(s)[..k + 1])
  }

  /** The context: the tokens before the separator, escapes resolved. */
  function Context(s: string): CtString {
    var k := FirstSeparator(Tokens(s));
    if k == NPOS then Absent else Present(Chars(Tokens(s)[..k]))
  }

  /** The singular and the plural that the main part `main` builds with
      the sizes measured on it, or the failure that ends the evaluation. */
  function Parts(main: string): Result<(CtString, CtString)> {
    match Measured(main)
    case Failure(e) => Failure(e)
    case Success((sizeS, sizeP)) => Extracted(main, sizeS, sizeP)
  }

  /** The three parts the literal builds, or the failure that ends the
      evaluation. */
  function Built(s: string): Result<(CtString, CtString, CtString)> {
    match Parts(s[MainStart(s)..])
    case Failure(e) => Failure(e)
    case Success((singular, plural)) => Success((Context(s), singular, plural))
  }

  /** `build_I18NString<Str>` on the characters `s` of `Str`, whose
      terminator is the NUL at `|s|`. */
  method BuildI18NString(s: string) returns (r: Result<(CtString, CtString, CtString)>)
    requires |s| < NPOS
    ensures r == Built(s)
  {
    var start, context := MeasureContext(s);
    assert start == MainStart(s);
    var lengths := MeasureSingularPlural(s[start..]);
    if lengths.Failure? {
      return Failure(lengths.error);
    }
    var c := ExtractContext(s, context);
    assert c == Success(Context(s));
    var parts := ExtractSingularPlural(s[start..], lengths.value.0, lengths.value.1);
    if parts.Failure? {
      return Failure(parts.error);
    }
    r := Success((c.value, parts.value.0, parts.value.1));
  }

  /** A literal whose main part is tame builds its context, the committed
      singular and, when a group was committed, the plural; otherwise the
      plural is absent. */
  lemma BuildTame(s: string)
    requires Tame(s[MainStart(s)..], 0, Start) && |s| < NPOS / 2
    ensures Run(s[MainStart(s)..], 0, Start).Success? && Built(s).Success?
    ensures var f := Run(s[MainStart(s)..], 0, Start).value;
      Built(s).value == (Context(s), Present(f.singular), if f.committed then Present(f.plural) else Absent)
  {
    PartsTame(s[MainStart(s)..]);
  }

  /** The main part alone. */
  lemma PartsTame(m: string)
    requires Tame(m, 0, Start) && |m| < NPOS / 2
    ensures Run(m, 0, Start).Success?
    ensures var f := Run(m, 0, Start).value;
      Parts(m) == Success((Present(f.singular), if f.committed then Present(f.plural) else Absent))
  {
    MainAgreement(m);
  }

  // ---------------------------------------------------------------- oracles

  /** Without backslashes every character is a plain token. */
  lemma {:induction false} PlainTokens(s: string)
    requires forall k :: 0 <= k < |s| ==> s[k] != '\\'
    ensures |Tokens(s)| == |s|
    ensures forall k :: 0 <= k < |s| ==> Tokens(s)[k] == Plain(s[k])
    decreases |s|
  {
    if s != [] {
      PlainTokens(s[1..]);
      assert Tokens(s) == [Plain(s[0])] + Tokens(s[1..]);
    }
  }

  lemma {:induction false} PlainSpan(ts: seq<Token>)
    requires forall k :: 0 <= k < |ts| ==> ts[k].Plain?
    ensures Span(ts) == |ts|
    decreases |ts|
  {
    if ts != [] {
      PlainSpan(ts[..|ts| - 1]);
    }
  }

  /** Tokens after a `(` up to `k`, none of them a parenthesis, leave the
      group open. */
  lemma {:induction false} OpenSince(ts: seq<Token>, j: nat, k: nat)
    requires j < k <= |ts| && ts[j] == Plain('(')
    requires forall m :: j < m < k ==> ts[m] != Plain('(') && ts[m] != Plain(')')
    ensures OpenParen(ts[..k])
    decreases k
  {
    assert ts[..k][..k - 1] == ts[..k - 1];
    if k - 1 > j {
      OpenSince(ts, j, k - 1);
    }
  }

  lemma {:induction false} NoParen(ts: seq<Token>)
    requires forall m :: 0 <= m < |ts| ==> ts[m] != Plain('(')
    ensures !OpenParen(ts)
    decreases |ts|
  {
    if ts != [] {
      NoParen(ts[..|ts| - 1]);
    }
  }

  /** Text without parentheses or backslashes, read outside a group, goes
      to both forms. */
  lemma {:induction false} PlainRun(s: string, i: nat, j: nat, st: Split)
    requires i <= j <= |s| && !st.grouped
    requires forall k :: i <= k < j ==> s[k] != '(' && s[k] != '\\'
    ensures var st' := st.(singular := st.singular + s[i..j], plural := st.plural + s[i..j]);
      Run(s, i, st) == Run(s, j, st') && Tame(s, i, st) == Tame(s, j, st')
    decreases j - i
  {
    if i == j {
      assert st.singular + s[i..j] == st.singular && st.plural + s[i..j] == st.plural;
    } else {
      var st1 := st.(singular := st.singular + [s[i]], plural := st.plural + [s[i]]);
      assert Step(s, i, st) == Success((i + 1, st1));
      PlainRun(s, i + 1, j, st1);
      SliceCons(s, i, j, st.singular);
      SliceCons(s, i, j, st.plural);
    }
  }

  /** A non-empty slice appended is its first character, then the rest. */
  lemma SliceCons(s: string, i: nat, j: nat, t: string)
    requires i < j <= |s|
    ensures (t + [s[i]]) + s[i + 1..j] == t + s[i..j]
  {
    assert s[i..j] == [s[i]] + s[i + 1..j];
  }

  /** `w` appended to the pending part of an open group. */
  function PendAll(st: Split, w: string): Split {
    if st.tryPlural.Some? then st.(tryPlural := Some(st.tryPlural.value + w))
    else st.(trySingular := st.trySingular + w)
  }

  /** Text without parentheses, `|` or backslashes, read inside a group,
      becomes pending. */
  lemma {:induction false} GroupRun(s: string, i: nat, j: nat, st: Split)
    requires i <= j <= |s| && st.grouped
    requires forall k :: i <= k < j ==> s[k] != '(' && s[k] != ')' && s[k] != '|' && s[k] != '\\'
    ensures Run(s, i, st) == Run(s, j, PendAll(st, s[i..j]))
    ensures Tame(s, i, st) == Tame(s, j, PendAll(st, s[i..j]))
    decreases j - i
  {
    if i == j {
      assert st.trySingular + s[i..j] == st.trySingular;
      assert st.tryPlural.Some? ==> st.tryPlural.value + s[i..j] == st.tryPlural.value;
      assert PendAll(st, s[i..j]) == st;
    } else {
      assert Step(s, i, st) == Success((i + 1, Pend(st, s[i])));
      GroupRun(s, i + 1, j, Pend(st, s[i]));
      assert s[i..j] == [s[i]] + s[i + 1..j];
      assert st.trySingular + [s[i]] + s[i + 1..j] == st.trySingular + s[i..j];
      assert st.tryPlural.Some? ==> st.tryPlural.value + [s[i]] + s[i + 1..j] == st.tryPlural.value + s[i..j];
      assert PendAll(Pend(st, s[i]), s[i + 1..j]) == PendAll(st, s[i..j]);
    }
  }

  /** No parenthesis, `|` or backslash. */
  predicate Unmarked(w: string) {
    forall k :: 0 <= k < |w| ==> w[k] != '(' && w[k] != ')' && w[k] != '|' && w[k] != '\\'
  }

  /** A literal without `|` or backslash has no context. */
  lemma NoContext(s: string)
    requires forall k :: 0 <= k < |s| ==> s[k] != '|' && s[k] != '\\'
    ensures Context(s) == Absent && MainStart(s) == 0
  {
    PlainTokens(s);
  }

  lemma {:induction false} TokensAppend(c: string, r: string)
    requires forall k :: 0 <= k < |c| ==> c[k] != '\\'
    ensures Tokens(c + r) == Tokens(c) + Tokens(r)
    decreases |c|
  {
    if c == [] {
      assert c + r == r;
    } else {
      assert (c + r)[0] == c[0] && (c + r)[1..] == c[1..] + r;
      assert Tokens(c + r) == [Plain(c[0])] + Tokens(c[1..] + r);
      assert Tokens(c) == [Plain(c[0])] + Tokens(c[1..]);
      TokensAppend(c[1..], r);
    }
  }

  /** The text before the first `|` is the context when it holds no `(` and
      no backslash, and the main part is the rest. */
  lemma ContextOf(c: string, m: string)
    requires |c| < NPOS
    requires forall k :: 0 <= k < |c| ==> c[k] != '|' && c[k] != '(' && c[k] != '\\'
    ensures Context(c + "|" + m) == Present(c)
    ensures MainStart(c + "|" + m) == |c| + 1 && (c + "|" + m)[|c| + 1..] == m
  {
    var s := c + "|" + m;
    var c' := c + "|";
    forall k | 0 <= k < |c'| ensures c'[k] != '\\' {
      if k < |c| {
        assert c'[k] == c[k];
      }
    }
    TokensAppend(c', m);
    PlainTokens(c');
    var ts := Tokens(s);
    ContextTokens(c, ts);
  }

  /** Unescaped parentheses stay in the context: `measure_context` counts
      `(` and `)` like any other character and `extract_context` copies
      them, so `(a)b|c` has the context `(a)b`. */
  lemma ContextKeepsParens()
    ensures Context("(a)b|c") == Present("(a)b")
  {
    var s := "(a)b|c";
    var ts := [Plain('('), Plain('a'), Plain(')'), Plain('b'), Plain('|'), Plain('c')];
    assert Tokens(s[5..]) == [Plain('c')];
    assert Tokens(s[4..]) == ts[4..];
    assert Tokens(s[3..]) == ts[3..];
    assert Tokens(s[2..]) == ts[2..];
    assert Tokens(s[1..]) == ts[1..];
    assert Tokens(s) == ts;
    assert OpenParen(ts[..1]);
    assert !OpenParen(ts[..3]) && !OpenParen(ts[..4]);
    assert !IsSeparator(ts, 0) && !IsSeparator(ts, 1) && !IsSeparator(ts, 2) && !IsSeparator(ts, 3);
    assert IsSeparator(ts, 4);
    assert FirstSeparatorFrom(ts, 4) == 4;
    assert FirstSeparator(ts) == 4;
    assert Chars(ts[..4]) == "(a)b";
  }

  lemma ContextTokens(c: string, ts: seq<Token>)
    requires |c| < |ts| && |c| < NPOS && ts[|c|] == Plain('|')
    requires forall k :: 0 <= k < |c| ==> ts[k] == Plain(c[k]) && c[k] != '|' && c[k] != '('
    ensures FirstSeparator(ts) == |c| && Span(ts[..|c| + 1]) == |c| + 1 && Chars(ts[..|c|]) == c
  {
    NoParen(ts[..|c|]);
    assert IsSeparator(ts, |c|);
    PlainSpan(ts[..|c| + 1]);
    assert Chars(ts[..|c|]) == c;
  }

  /** A tame step, and a run and a tame run through it. */
  lemma StepThen(s: string, i: nat, st: Split, n: nat, st': Split)
    requires i < |s| && Step(s, i, st) == Success((n, st'))
    requires if st.grouped then s[i] != '(' else s[i] != '\\'
    ensures Run(s, i, st) == Run(s, n, st') && Tame(s, i, st) == Tame(s, n, st')
  {
  }

  /** Each character of a slice that is unmarked. */
  lemma UnmarkedAt(s: string, i: nat, j: nat, w: string)
    requires i <= j <= |s| && s[i..j] == w && Unmarked(w)
    ensures forall k :: i <= k < j ==> s[k] != '(' && s[k] != ')' && s[k] != '|' && s[k] != '\\'
  {
    forall k | i <= k < j ensures s[k] != '(' && s[k] != ')' && s[k] != '|' && s[k] != '\\' {
      assert s[k] == w[k - i];
    }
  }

  /** Unmarked text `w` from `i` to `j` outside a group. */
  lemma PlainThen(s: string, i: nat, j: nat, w: string, st: Split)
    requires i <= j <= |s| && s[i..j] == w && Unmarked(w) && !st.grouped
    ensures var st' := st.(singular := st.singular + w, plural := st.plural + w);
      Run(s, i, st) == Run(s, j, st') && Tame(s, i, st) == Tame(s, j, st')
  {
    UnmarkedAt(s, i, j, w);
    PlainRun(s, i, j, st);
  }

  /** Unmarked text `w` from `i` to `j` inside a group. */
  lemma GroupThen(s: string, i: nat, j: nat, w: string, st: Split)
    requires i <= j <= |s| && s[i..j] == w && Unmarked(w) && st.grouped
    ensures Run(s, i, st) == Run(s, j, PendAll(st, w)) && Tame(s, i, st) == Tame(s, j, PendAll(st, w))
  {
    UnmarkedAt(s, i, j, w);
    GroupRun(s, i, j, st);
  }

  /** Text without a group goes to both forms, and no plural is made. */
  lemma PlainMain(x: string)
    requires Unmarked(x)
    ensures Tame(x, 0, Start) && Run(x, 0, Start) == Success(Split(x, x, false, "", None, false))
  {
    assert x[0..|x|] == x && "" + x == x;
    PlainThen(x, 0, |x|, x, Start);
  }

  /** `(s)` adds nothing to the singular and `s` to the plural; the text
      around it goes to both. */
  lemma MarkerMain(x: string, y: string)
    requires Unmarked(x) && Unmarked(y)
    ensures var s := x + "(s)" + y;
      Tame(s, 0, Start) && Run(s, 0, Start) == Success(Split(x + y, x + "s" + y, false, "", None, true))
  {
    var s := x + "(s)" + y;
    var n := |x|;
    assert s[0..n] == x && s[n + 3..|s|] == y && s[n] == '(' && s[n + 1] == 's' && s[n + 2] == ')';
    MarkerRun(s, n, x, y);
  }

  /** `x(s)` commits `s` to the plural. */
  lemma MarkerGroup(s: string, n: nat, x: string)
    requires n + 3 <= |s| && s[0..n] == x && Unmarked(x)
    requires s[n] == '(' && s[n + 1] == 's' && s[n + 2] == ')'
    ensures Leads(s, 0, Start, n + 3, Split(x, x + "s", false, "", None, true))
  {
    assert "" + x == x && x + "" == x && "" + ['s'] == "s";
    var st1 := Start.(singular := x, plural := x);
    PlainThen(s, 0, n, x, Start);
    var st2 := st1.(grouped := true, tryPlural := Some(""));
    StepThen(s, n, st1, n + 1, st2);
    var st3 := st2.(tryPlural := Some("s"));
    StepThen(s, n + 1, st2, n + 2, st3);
    StepThen(s, n + 2, st3, n + 3, Split(x, x + "s", false, "", None, true));
  }

  lemma MarkerRun(s: string, n: nat, x: string, y: string)
    requires n + 3 <= |s| && s[0..n] == x && s[n + 3..|s|] == y && Unmarked(x) && Unmarked(y)
    requires s[n] == '(' && s[n + 1] == 's' && s[n + 2] == ')'
    ensures Tame(s, 0, Start) && Run(s, 0, Start) == Success(Split(x + y, x + "s" + y, false, "", None, true))
  {
    MarkerGroup(s, n, x);
    var st4 := Split(x, x + "s", false, "", None, true);
    PlainThen(s, n + 3, |s|, y, st4);
    var f := st4.(singular := x + y, plural := x + "s" + y);
    assert Run(s, |s|, f) == Success(f) && Tame(s, |s|, f);
  }

  /** `(a|b)` adds `a` to the singular and `b` to the plural. */
  lemma AlternativeMain(x: string, a: string, b: string, y: string)
    requires Unmarked(x) && Unmarked(a) && Unmarked(b) && Unmarked(y)
    ensures var s := x + "(" + a + "|" + b + ")" + y;
      Tame(s, 0, Start) && Run(s, 0, Start) == Success(Split(x + a + y, x + b + y, false, "", None, true))
  {
    var s := x + "(" + a + "|" + b + ")" + y;
    var n, p := |x|, |x| + 1 + |a|;
    var q := p + 1 + |b|;
    assert s[0..n] == x && s[n + 1..p] == a && s[p + 1..q] == b && s[q + 1..|s|] == y;
    assert s[n] == '(' && s[p] == '|' && s[q] == ')';
    AlternativeRun(s, n, p, q, x, a, b, y);
  }

  /** A `(` followed by unmarked text and `|` is not an `(s)` marker. */
  lemma NoMarker(s: string, n: nat, p: nat, a: string)
    requires n < p < |s| && s[n + 1..p] == a && Unmarked(a) && s[p] == '|'
    ensures !(Peek(s, n + 1) == 's' && Peek(s, n + 2) == ')')
  {
    if n + 1 < p {
      assert s[n + 1] == a[0];
      if n + 2 < p {
        assert s[n + 2] == a[1];
      }
    }
  }

  /** From `i` in state `st` the extraction runs and is tame exactly as
      from `j` in state `st'`. */
  predicate Leads(s: string, i: nat, st: Split, j: nat, st': Split)
    requires i <= |s| && j <= |s|
  {
    Run(s, i, st) == Run(s, j, st') && Tame(s, i, st) == Tame(s, j, st')
  }

  /** `x(a` up to the `|`. */
  lemma AlternativeOpen(s: string, n: nat, p: nat, x: string, a: string)
    requires n < p < |s| && s[0..n] == x && s[n + 1..p] == a && Unmarked(x) && Unmarked(a)
    requires s[n] == '(' && s[p] == '|'
    ensures Leads(s, 0, Start, p, Split(x, x, true, a, None, false))
  {
    assert "" + x == x && "" + a == a;
    var st1 := Start.(singular := x, plural := x);
    PlainThen(s, 0, n, x, Start);
    var st2 := st1.(grouped := true);
    NoMarker(s, n, p, a);
    StepThen(s, n, st1, n + 1, st2);
    GroupThen(s, n + 1, p, a, st2);
    assert PendAll(st2, a) == st2.(trySingular := a);
  }

  /** `|b)` commits the group. */
  lemma AlternativeClose(s: string, p: nat, q: nat, x: string, a: string, b: string)
    requires p < q < |s| && s[p + 1..q] == b && Unmarked(b) && s[p] == '|' && s[q] == ')'
    ensures Leads(s, p, Split(x, x, true, a, None, false), q + 1, Split(x + a, x + b, false, "", None, true))
  {
    assert "" + b == b;
    var st3 := Split(x, x, true, a, None, false);
    var st4 := st3.(tryPlural := Some(""));
    StepThen(s, p, st3, p + 1, st4);
    GroupThen(s, p + 1, q, b, st4);
    var st5 := st4.(tryPlural := Some(b));
    assert PendAll(st4, b) == st5;
    StepThen(s, q, st5, q + 1, Split(x + a, x + b, false, "", None, true));
  }

  lemma AlternativeRun(s: string, n: nat, p: nat, q: nat, x: string, a: string, b: string, y: string)
    requires n < p < q < |s| && s[0..n] == x && s[n + 1..p] == a && s[p + 1..q] == b && s[q + 1..|s|] == y
    requires Unmarked(x) && Unmarked(a) && Unmarked(b) && Unmarked(y)
    requires s[n] == '(' && s[p] == '|' && s[q] == ')'
    ensures Tame(s, 0, Start) && Run(s, 0, Start) == Success(Split(x + a + y, x + b + y, false, "", None, true))
  {
    AlternativeOpen(s, n, p, x, a);
    AlternativeClose(s, p, q, x, a, b);
    AlternativeTail(s, q, x + a, x + b, y);
  }

  /** Unmarked `y` after a committed group ends the run. */
  lemma AlternativeTail(s: string, q: nat, sing: string, plu: string, y: string)
    requires q < |s| && s[q + 1..|s|] == y && Unmarked(y)
    ensures var f := Split(sing + y, plu + y, false, "", None, true);
      Run(s, q + 1, Split(sing, plu, false, "", None, true)) == Success(f) &&
      Tame(s, q + 1, Split(sing, plu, false, "", None, true))
  {
    var st6 := Split(sing, plu, false, "", None, true);
    PlainThen(s, q + 1, |s|, y, st6);
    var f := st6.(singular := sing + y, plural := plu + y);
    assert Run(s, |s|, f) == Success(f) && Tame(s, |s|, f);
  }

  // ------------------------------------------------------ the literal rules

  /** Without groups both forms are the text, and there is no plural. */
  lemma PlainParts(x: string)
    requires Unmarked(x) && |x| < NPOS / 2
    ensures Parts(x) == Success((Present(x), Absent))
  {
    PlainMain(x);
    PartsTame(x);
  }

  lemma MarkerParts(x: string, y: string)
    requires Unmarked(x) && Unmarked(y) && |x| + |y| + 3 < NPOS / 2
    ensures Parts(x + "(s)" + y) == Success((Present(x + y), Present(x + "s" + y)))
  {
    MarkerMain(x, y);
    PartsTame(x + "(s)" + y);
  }

  lemma AlternativeParts(x: string, a: string, b: string, y: string)
    requires Unmarked(x) && Unmarked(a) && Unmarked(b) && Unmarked(y)
    requires |x| + |a| + |b| + |y| + 3 < NPOS / 2
    ensures Parts(x + "(" + a + "|" + b + ")" + y) == Success((Present(x + a + y), Present(x + b + y)))
  {
    AlternativeMain(x, a, b, y);
    PartsTame(x + "(" + a + "|" + b + ")" + y);
  }

  /** A literal without `|` or backslash is all main part. */
  lemma BuiltWithoutBar(s: string)
    requires forall k :: 0 <= k < |s| ==> s[k] != '|' && s[k] != '\\'
    ensures Built(s) == match Parts(s)
      case Failure(e) => Failure(e)
      case Success((singular, plural)) => Success((Absent, singular, plural))
  {
    NoContext(s);
    assert s[0..] == s;
  }

  /** A `|` inside a group does not separate a context. */
  lemma BarInGroup(x: string, a: string, b: string, y: string)
    requires Unmarked(x) && Unmarked(a) && Unmarked(b) && Unmarked(y)
    ensures var s := x + "(" + a + "|" + b + ")" + y;
      Context(s) == Absent && MainStart(s) == 0
  {
    var s := x + "(" + a + "|" + b + ")" + y;
    var n, p := |x|, |x| + 1 + |a|;
    forall k | 0 <= k < |s| ensures s[k] != '\\' && (s[k] == '|' ==> k == p) && (s[k] == '(' ==> k == n) && (s[k] == ')' ==> n < k) {
      if k < n {
        assert s[k] == x[k];
      } else if n < k < p {
        assert s[k] == a[k - n - 1];
      } else if p < k < p + 1 + |b| {
        assert s[k] == b[k - p - 1];
      } else if p + 1 + |b| < k {
        assert s[k] == y[k - p - 2 - |b|];
      }
    }
    PlainTokens(s);
    var ts := Tokens(s);
    OpenSince(ts, n, p);
    assert !IsSeparator(ts, p);
  }

  /** The text before an unescaped `|` outside a group is the context, and
      the rest is the main part. */
  lemma BuiltWithContext(c: string, m: string)
    requires |c| < NPOS
    requires forall k :: 0 <= k < |c| ==> c[k] != '|' && c[k] != '(' && c[k] != '\\'
    ensures Built(c + "|" + m) == match Parts(m)
      case Failure(e) => Failure(e)
      case Success((singular, plural)) => Success((Present(c), singular, plural))
  {
    ContextOf(c, m);
  }

  // ------------------------------------------------------- the tests' literals

  /** tests/simple.cpp: `(s)` gives `Hello planet!` and `Hello planets!`. */
  lemma PlanetOracle()
    ensures Built("Hello planet(s)!") ==
      Success((Absent, Present("Hello planet!"), Present("Hello planets!")))
  {
    var x, y := "Hello planet", "!";
    assert Unmarked(x) && Unmarked(y);
    assert x + "(s)" + y == "Hello planet(s)!";
    assert x + y == "Hello planet!" && x + "s" + y == "Hello planets!";
    MarkerParts(x, y);
    BuiltWithoutBar(x + "(s)" + y);
  }

  /** tests/simple.cpp: `(person|people)` is a plural and no context. */
  lemma PeopleOracle()
    ensures Built("Hello (person|people)!") ==
      Success((Absent, Present("Hello person!"), Present("Hello people!")))
  {
    var x, a, b, y := "Hello ", "person", "people", "!";
    assert Unmarked(x) && Unmarked(a) && Unmarked(b) && Unmarked(y);
    assert x + "(" + a + "|" + b + ")" + y == "Hello (person|people)!";
    assert x + a + y == "Hello person!" && x + b + y == "Hello people!";
    AlternativeParts(x, a, b, y);
    BarInGroup(x, a, b, y);
    assert "Hello (person|people)!"[0..] == "Hello (person|people)!";
  }

  /** example/guessing.cpp: `play again|yes` has the context `play again`. */
  lemma PlayAgainOracle()
    ensures Built("play again|yes") == Success((Present("play again"), Present("yes"), Absent))
  {
    var c, m := "play again", "yes";
    assert forall k :: 0 <= k < |c| ==> c[k] != '|' && c[k] != '(' && c[k] != '\\';
    assert Unmarked(m);
    assert c + "|" + m == "play again|yes";
    PlainParts(m);
    BuiltWithContext(c, m);
  }
}
