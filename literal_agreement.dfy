/** When `measure_singular_plural` and `extract_singular_plural` of
    runtime/i18n.hpp agree.  The measure counts what the extraction writes
    on every literal that has no backslash outside a group, no `(` inside an
    open group, no backslash ending it inside a group, and no group left
    open at its end; on those, the sizes it measures make the extraction
    succeed and return exactly the committed singular and plural.  Literals
    outside that class show the measure's departures. */
module LiteralAgreement {
  import opened Wrappers
  import opened CompileTimeStrings
  import opened LiteralContext
  import opened LiteralMain

  /** The extraction from `i` in state `st` reads no backslash outside a
      group and no `(` inside one, never fails, and ends outside a group. */
  predicate Tame(s: string, i: nat, st: Split)
    requires i <= |s|
    decreases |s| - i
  {
    if i == |s| then !st.grouped
    else
      (if st.grouped then s[i] != '(' else s[i] != '\\') &&
      match Step(s, i, st)
      case Failure(_) => false
      case Success((n, st')) => Tame(s, n, st')
  }

  // ------------------------------------------------------ the measured sizes

  /** The counters count the extraction state's text. */
  predicate Related(st: Split, m: Counts) {
    m.grouped == st.grouped && m.singular == |st.singular| && m.plural == |st.plural| &&
    m.hasPlural == st.committed &&
    (st.grouped ==>
      m.trySingular == |st.trySingular| && (m.tryPlural.Some? <==> st.tryPlural.Some?) &&
      (st.tryPlural.Some? ==> m.tryPlural.value == |st.tryPlural.value|))
  }

  /** A tame step of the measure moves as far as the extraction's and keeps
      the counters in step with the text. */
  lemma StepRelated(s: string, i: nat, st: Split, m: Counts)
    requires i < |s| && Related(st, m) && Step(s, i, st).Success?
    requires if st.grouped then s[i] != '(' else s[i] != '\\'
    ensures MeasureStep(s, i, m).Success?
    ensures MeasureStep(s, i, m).value.0 == Step(s, i, st).value.0
    ensures Related(Step(s, i, st).value.1, MeasureStep(s, i, m).value.1)
  {
  }

  lemma {:induction false} RunRelated(s: string, i: nat, st: Split, m: Counts)
    requires i <= |s| && Tame(s, i, st) && Related(st, m) && Settled(st)
    ensures Run(s, i, st).Success? && MeasureRun(s, i, m).Success?
    ensures Related(Run(s, i, st).value, MeasureRun(s, i, m).value)
    ensures !Run(s, i, st).value.grouped && Settled(Run(s, i, st).value)
    decreases |s| - i
  {
    if i < |s| {
      StepRelated(s, i, st, m);
      StepGrows(s, i, st);
      var (n, st') := Step(s, i, st).value;
      RunRelated(s, n, st', MeasureStep(s, i, m).value.1);
    }
  }

  // -------------------------------------------------------------- the bound

  /** Text committed to one form plus what is pending, counting the group's
      `(` and `|` as a revert would write them. */
  function Weight(st: Split, committed: string): nat {
    |committed| + |st.trySingular| + |PendingPlural(st)| + (if st.grouped then 2 else 0)
  }

  predicate Bounded(st: Split, i: nat) {
    Weight(st, st.singular) <= 2 * i && Weight(st, st.plural) <= 2 * i
  }

  /** Each character read adds at most two characters to either form. */
  lemma StepBound(s: string, i: nat, st: Split)
    requires i < |s| && Step(s, i, st).Success? && Bounded(st, i)
    ensures Bounded(Step(s, i, st).value.1, Step(s, i, st).value.0)
  {
  }

  lemma {:induction false} RunBound(s: string, i: nat, st: Split)
    requires i <= |s| && Run(s, i, st).Success? && Bounded(st, i)
    ensures Bounded(Run(s, i, st).value, |s|)
    decreases |s| - i
  {
    if i < |s| {
      StepBound(s, i, st);
      var (n, st') := Step(s, i, st).value;
      RunBound(s, n, st');
    }
  }

  // -------------------------------------------------- the text without plural

  /** Just after the `(` of an `(s)` group, or after its `s`: the group is
      sure to commit. */
  predicate Marker(s: string, i: nat, st: Split)
    requires i <= |s|
  {
    st.grouped && st.trySingular == "" &&
    ((st.tryPlural == Some("") && i + 1 < |s| && s[i] == 's' && s[i + 1] == ')') ||
     (st.tryPlural == Some("s") && i < |s| && s[i] == ')'))
  }

  /** Until some group commits, the text `d` read so far is what the
      singular holds, together with what a revert of the open group would
      write. */
  predicate Shows(s: string, i: nat, st: Split, d: string)
    requires i <= |s|
  {
    !st.committed ==>
      (st.singular + (if st.grouped then Reverted(st) else "") == d) ||
      (Marker(s, i, st) && st.singular + "(" + st.tryPlural.value == d)
  }

  /** The tokens read so far are `done`, none of them a lone backslash, and
      the singular shows their text. */
  predicate Flat(s: string, i: nat, st: Split, done: seq<Token>)
    requires i <= |s|
  {
    Tokens(s) == done + Tokens(s[i..]) && Plain('\\') !in done && Shows(s, i, st, Chars(done))
  }

  lemma RevertedPend(st: Split, d: char)
    ensures Reverted(Pend(st, d)) == Reverted(st) + [d]
  {
  }

  /** A tame step reads one token, and keeps `Flat`. */
  lemma FlatStep(s: string, i: nat, st: Split, done: seq<Token>) returns (done': seq<Token>)
    requires i < |s| && Flat(s, i, st, done) && Step(s, i, st).Success?
    requires if st.grouped then s[i] != '(' else s[i] != '\\'
    ensures Flat(s, Step(s, i, st).value.0, Step(s, i, st).value.1, done')
  {
    var t := NextToken(s, i, done);
    done' := done + [t];
    assert t != Plain('\\');
    assert Plain('\\') !in done';
    assert Step(s, i, st).value.0 == i + Width(t);
    if st.grouped {
      ShowsInGroup(s, i, st, Chars(done), t.c);
    } else {
      ShowsOutside(s, i, st, Chars(done));
    }
  }

  /** `c` is the character that the token at `i` denotes. */
  predicate Denotes(s: string, i: nat, c: char)
    requires i < |s|
  {
    c == if s[i] == '\\' && i + 1 < |s| then s[i + 1] else s[i]
  }

  lemma ShowsInGroup(s: string, i: nat, st: Split, d: string, c: char)
    requires i < |s| && Shows(s, i, st, d) && Step(s, i, st).Success?
    requires st.grouped && s[i] != '(' && Denotes(s, i, c)
    ensures Shows(s, Step(s, i, st).value.0, Step(s, i, st).value.1, d + [c])
  {
    var (n, st') := Step(s, i, st).value;
    if !st'.committed {
      if st.tryPlural.None? && s[i] == '|' {
        assert st.singular + Reverted(st) == d;
        assert st'.singular + Reverted(st') == st.singular + Reverted(st) + ['|'];
      } else if s[i] == '|' || s[i] == ')' {
        assert st.singular + Reverted(st) == d;
        assert st'.singular == st.singular + Reverted(st) + [s[i]];
      } else {
        RevertedPend(st, c);
        if Marker(s, i, st) && st.singular + "(" + st.tryPlural.value == d {
          assert s[i] == 's' && c == 's' && n == i + 1;
          assert st'.tryPlural.value == "" + ['s'] == "s";
          assert Marker(s, n, st');
          assert st'.singular + "(" + st'.tryPlural.value == d + [c];
        } else {
          assert st.singular + Reverted(st) == d;
          assert st'.singular + Reverted(st') == d + [c];
        }
      }
    }
  }

  lemma ShowsOutside(s: string, i: nat, st: Split, d: string)
    requires i < |s| && Shows(s, i, st, d) && Step(s, i, st).Success?
    requires !st.grouped && s[i] != '\\'
    ensures Shows(s, Step(s, i, st).value.0, Step(s, i, st).value.1, d + [s[i]])
  {
    var (n, st') := Step(s, i, st).value;
    if !st'.committed && s[i] == '(' {
      if st'.tryPlural.Some? {
        assert Marker(s, n, st');
      } else {
        assert st'.singular + Reverted(st') == d + ['('];
      }
    }
  }

  lemma {:induction false} RunFlat(s: string, i: nat, st: Split, done: seq<Token>)
    requires i <= |s| && Tame(s, i, st) && Flat(s, i, st, done)
    ensures Run(s, i, st).Success?
    ensures Plain('\\') !in Tokens(s)
    ensures !Run(s, i, st).value.committed ==> Run(s, i, st).value.singular == Chars(Tokens(s))
    decreases |s| - i
  {
    if i == |s| {
      assert Tokens(s[i..]) == [];
      assert done == Tokens(s);
    } else {
      var done' := FlatStep(s, i, st, done);
      var (n, st') := Step(s, i, st).value;
      RunFlat(s, n, st', done');
    }
  }

  // ------------------------------------------------------------ the theorem

  /** On a tame literal of fewer than `size_t(-1) / 2` characters the measure
      succeeds, gives the committed singular's length and, when a group was
      committed, the plural's (otherwise `size_t(-1)`), and the extraction
      with those sizes returns exactly the two forms. */
  lemma MainAgreement(s: string)
    requires Tame(s, 0, Start) && |s| < NPOS / 2
    ensures Run(s, 0, Start).Success? && Measured(s).Success?
    ensures var f := Run(s, 0, Start).value;
      Measured(s).value == (|f.singular|, if f.committed then |f.plural| else NPOS) &&
      Extracted(s, Measured(s).value.0, Measured(s).value.1) ==
        Success((Present(f.singular), if f.committed then Present(f.plural) else Absent))
  {
    RunRelated(s, 0, Start, Begin);
    RunBound(s, 0, Start);
    RunFlat(s, 0, Start, []);
    var f := Run(s, 0, Start).value;
    if f.committed {
      assert |f.plural| < NPOS;
      assert f.singular + f.trySingular == f.singular && f.plural + PendingPlural(f) == f.plural;
      assert Pad(f.singular, |f.singular| + 1)[..|f.singular|] == f.singular;
      assert Pad(f.plural, |f.plural| + 1)[..|f.plural|] == f.plural;
    } else {
      var ts := Tokens(s);
      assert ts != [] ==> ts[|ts| - 1] in ts;
    }
  }

  // ------------------------------------------------------- the departures

  /** A backslash outside a group: the measure counts `a\b` as three
      characters, while the copy without a plural resolves the escape to two,
      so the check that the copy fills the singular exactly throws. */
  lemma BackslashOutsideGroup()
    ensures Measured("a\\b") == Success((3, NPOS))
    ensures Extracted("a\\b", 3, NPOS) == Failure(AssertionFailed)
  {
    var s := "a\\b";
    assert Tokens(s[2..]) == [Plain('b')];
    assert Tokens(s) == [Plain('a'), Escape('b')];
  }

  /** An escaped `(` outside a group: the measure counts the backslash and
      then reads the `(` unescaped, so `a\(s)` measures a committed plural of
      singular 2 and plural 3, while the extraction copies `a(s)` into both
      forms, past the end of both buffers. */
  lemma EscapedParenOutsideGroup()
    ensures Measured("a\\(s)") == Success((2, 3))
    ensures Run("a\\(s)", 0, Start) == Success(Split("a(s)", "a(s)", false, "", None, false))
    ensures Extracted("a\\(s)", 2, 3) == Failure(OutOfRange)
  {
    EscapedParenMeasure();
    EscapedParenRun();
  }

  lemma EscapedParenMeasure()
    ensures Measured("a\\(s)") == Success((2, 3))
  {
    var s := "a\\(s)";
    var m2 := Counts(2, 2, false, false, 0, None);
    var m3 := m2.(grouped := true, tryPlural := Some(0));
    assert MeasureStep(s, 2, m2) == Success((3, m3));
    assert MeasureStep(s, 3, m3) == Success((4, m3.(tryPlural := Some(1))));
    assert MeasureRun(s, 0, Begin) == MeasureRun(s, 2, m2);
  }

  lemma EscapedParenRun()
    ensures Run("a\\(s)", 0, Start) == Success(Split("a(s)", "a(s)", false, "", None, false))
  {
    var s := "a\\(s)";
    var f := Split("a(s)", "a(s)", false, "", None, false);
    assert s[1] == '\\' && s[2] == '(' && s[3] == 's' && s[4] == ')';
    assert Next(s, 4) == Success((5, ')')) && Next(s, 3) == Success((4, 's'));
    assert "a(s" + [')'] == "a(s)" && "a(" + ['s'] == "a(s" && "a" + ['('] == "a(";
    assert Step(s, 4, f.(singular := "a(s", plural := "a(s")) == Success((5, f));
    assert Step(s, 3, f.(singular := "a(", plural := "a(")) ==
      Success((4, f.(singular := "a(s", plural := "a(s")));
    assert Step(s, 1, f.(singular := "a", plural := "a")) ==
      Success((3, f.(singular := "a(", plural := "a(")));
    assert Next(s, 0) == Success((1, 'a')) && Next(s, 1) == Success((3, '('));
    assert "" + ['a'] == "a";
    assert Step(s, 0, Start) == Success((1, f.(singular := "a", plural := "a")));
    assert Run(s, 5, f) == Success(f);
    assert Run(s, 0, Start) == Run(s, 1, f.(singular := "a", plural := "a"));
  }

  /** The extraction of `(a(b|c)`: the second `(` writes `(a` into both
      forms and opens a group that commits `b` and `c`. */
  lemma ParenInsideGroupRun()
    ensures Run("(a(b|c)", 0, Start) == Success(Split("(ab", "(ac", false, "", None, true))
  {
    var s := "(a(b|c)";
    var f := Split("(ab", "(ac", false, "", None, true);
    assert Run(s, 7, f) == Success(f);
    var st6 := Split("(a", "(a", true, "b", Some("c"), false);
    assert "(a" + "b" == "(ab" && "(a" + "c" == "(ac";
    assert "" + ['a'] == "a" && "" + ['b'] == "b" && "" + ['c'] == "c";
    assert RevertText("a", None) == "(a";
    assert "" + "(a" == "(a";
    assert Step(s, 6, st6) == Success((7, f));
    var st5 := st6.(tryPlural := Some(""));
    assert Step(s, 5, st5) == Success((6, st6));
    var st4 := st5.(tryPlural := None);
    assert Step(s, 4, st4) == Success((5, st5));
    var st3 := st4.(trySingular := "");
    assert Step(s, 3, st3) == Success((4, st4));
    var st2 := Split("", "", true, "a", None, false);
    assert Step(s, 2, st2) == Success((3, st3));
    var st1 := st2.(trySingular := "");
    assert Step(s, 1, st1) == Success((2, st2));
    assert Step(s, 0, Start) == Success((1, st1));
  }

  /** The measure of `(a(b|c)`: the revert leaves the pending singular
      count at two, and the new group adds one to it. */
  lemma ParenInsideGroupMeasure()
    ensures MeasureRun("(a(b|c)", 0, Begin) == Success(Counts(5, 3, false, true, 3, Some(1)))
  {
    var s := "(a(b|c)";
    var m7 := Counts(5, 3, false, true, 3, Some(1));
    assert MeasureRun(s, 7, m7) == Success(m7);
    var m6 := Counts(2, 2, true, false, 3, Some(1));
    assert MeasureStep(s, 6, m6) == Success((7, m7));
    var m5 := m6.(tryPlural := Some(0));
    assert MeasureStep(s, 5, m5) == Success((6, m6));
    var m4 := m5.(tryPlural := None);
    assert MeasureStep(s, 4, m4) == Success((5, m5));
    var m3 := m4.(trySingular := 2);
    assert MeasureStep(s, 3, m3) == Success((4, m4));
    var m2 := Counts(0, 0, true, false, 1, None);
    assert MeasureStep(s, 2, m2) == Success((3, m3));
    var m1 := m2.(trySingular := 0);
    assert MeasureStep(s, 1, m1) == Success((2, m2));
    assert MeasureStep(s, 0, Begin) == Success((1, m1));
  }

  /** A `(` inside an open group: the measure goes on counting the pending
      singular from where the reverted group left it, so `(a(b|c)` measures
      a singular of five characters where the extraction writes three, and
      the singular comes out padded with two NULs. */
  lemma ParenInsideGroup()
    ensures Measured("(a(b|c)") == Success((5, 3))
    ensures Extracted("(a(b|c)", 5, 3) == Success((Present("(ab" + [NUL, NUL]), Present("(ac")))
  {
    ParenInsideGroupMeasure();
    ParenInsideGroupRun();
    var f := Split("(ab", "(ac", false, "", None, true);
    assert f.singular + f.trySingular == f.singular && f.plural + PendingPlural(f) == f.plural;
    assert Pad(f.singular, 6)[..5] == "(ab" + [NUL, NUL];
    assert Pad(f.plural, 4)[..3] == "(ac";
  }

  /** A group left open at the end: the measure counts only the committed
      singular of `a(b`, one character, and no plural, while the copy
      without a plural writes all three characters, one past the buffer. */
  lemma UnclosedGroup()
    ensures Measured("a(b") == Success((1, NPOS))
    ensures Extracted("a(b", 1, NPOS) == Failure(OutOfRange)
    ensures !Tame("a(b", 0, Start)
  {
    var s := "a(b";
    var m3 := Counts(1, 1, true, false, 1, None);
    assert MeasureRun(s, 3, m3) == Success(m3);
    var m2 := m3.(trySingular := 0);
    assert MeasureStep(s, 2, m2) == Success((3, m3));
    assert MeasureStep(s, 1, Counts(1, 1, false, false, 0, None)) == Success((2, m2));
    assert MeasureStep(s, 0, Begin) == Success((1, Counts(1, 1, false, false, 0, None)));
    assert Tokens(s[2..]) == [Plain('b')];
    assert Tokens(s[1..]) == [Plain('('), Plain('b')];
    assert |Tokens(s)| == 3;
    var f := Split("a", "a", true, "b", None, false);
    assert Tame(s, 3, f) == false;
    assert "" + ['a'] == "a" && "" + ['b'] == "b";
    assert Step(s, 2, f.(trySingular := "")) == Success((3, f));
    assert Step(s, 1, Split("a", "a", false, "", None, false)) == Success((2, f.(trySingular := "")));
    assert Step(s, 0, Start) == Success((1, Split("a", "a", false, "", None, false)));
  }

  /** The measure of `x(s)a(b`: the committed `(s)` group counts, the
      open `(b` does not. */
  lemma OpenGroupMeasure()
    ensures MeasureRun("x(s)a(b", 0, Begin) == Success(Counts(2, 3, true, true, 1, None))
  {
    var s := "x(s)a(b";
    var m7 := Counts(2, 3, true, true, 1, None);
    assert MeasureRun(s, 7, m7) == Success(m7);
    var m6 := m7.(trySingular := 0);
    assert MeasureStep(s, 6, m6) == Success((7, m7));
    var m5 := Counts(2, 3, false, true, 0, Some(1));
    assert MeasureStep(s, 5, m5) == Success((6, m6));
    var m4 := Counts(1, 2, false, true, 0, Some(1));
    assert MeasureStep(s, 4, m4) == Success((5, m5));
    var m3 := Counts(1, 1, true, false, 0, Some(1));
    assert MeasureStep(s, 3, m3) == Success((4, m4));
    var m2 := m3.(tryPlural := Some(0));
    assert MeasureStep(s, 2, m2) == Success((3, m3));
    var m1 := Counts(1, 1, false, false, 0, None);
    assert MeasureStep(s, 1, m1) == Success((2, m2));
    assert MeasureStep(s, 0, Begin) == Success((1, m1));
  }

  /** The extraction of `x(s)a(b`: `xa` and `xsa` committed, `b` pending
      in the open group. */
  lemma OpenGroupRun()
    ensures Run("x(s)a(b", 0, Start) == Success(Split("xa", "xsa", true, "b", None, true))
  {
    var s := "x(s)a(b";
    var f := Split("xa", "xsa", true, "b", None, true);
    assert Run(s, 7, f) == Success(f);
    assert "" + ['b'] == "b";
    var st6 := f.(trySingular := "");
    assert Step(s, 6, st6) == Success((7, f));
    var st5 := Split("xa", "xsa", false, "", None, true);
    assert Step(s, 5, st5) == Success((6, st6));
    var st4 := Split("x", "xs", false, "", None, true);
    assert "x" + ['a'] == "xa" && "xs" + ['a'] == "xsa";
    assert Step(s, 4, st4) == Success((5, st5));
    var st3 := Split("x", "x", true, "", Some("s"), false);
    assert "x" + "" == "x" && "x" + "s" == "xs";
    assert Step(s, 3, st3) == Success((4, st4));
    var st2 := st3.(tryPlural := Some(""));
    assert "" + ['s'] == "s";
    assert Step(s, 2, st2) == Success((3, st3));
    var st1 := Split("x", "x", false, "", None, false);
    assert Step(s, 1, st1) == Success((2, st2));
    assert "" + ['x'] == "x";
    assert Step(s, 0, Start) == Success((1, st1));
  }

  /** A group left open after a committed one: `x(s)a(b` measures a
      singular of two characters, but the extraction's pending `b` occupies
      the singular buffer's third slot, the one that holds the terminating
      NUL, and the singular read out of the first two slots is `xa`. */
  lemma OpenGroupFillsTerminator()
    ensures Measured("x(s)a(b") == Success((2, 3))
    ensures Run("x(s)a(b", 0, Start) == Success(Split("xa", "xsa", true, "b", None, true))
    ensures var f := Split("xa", "xsa", true, "b", None, true);
      OccS(f) == 3 && Pad(f.singular + f.trySingular, 3)[2] == 'b'
    ensures Extracted("x(s)a(b", 2, 3) == Success((Present("xa"), Present("xsa")))
  {
    OpenGroupMeasure();
    OpenGroupRun();
    var f := Split("xa", "xsa", true, "b", None, true);
    assert f.singular + f.trySingular == "xab" && f.plural + PendingPlural(f) == "xsa";
    assert Pad("xab", 3) == "xab" && Pad("xab", 3)[..2] == "xa";
    assert Pad("xsa", 4)[..3] == "xsa";
  }
}
