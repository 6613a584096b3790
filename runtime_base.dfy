/** runtime/i18n/base.hpp: the runtime library's `CompileTimeString` (the
    same structure and constructor as include/i18n/base.hpp), its single
    `join_with_separator`, which tests absence with `if constexpr` and whose
    declared result length `Length1 + 1 + Length2` is computed in `size_t`,
    and `CompileTimeI18NString`, which derives from the run-time string class
    that matches the presence of a plural. */
module RuntimeBase {
  import opened Wrappers
  import opened CompileTimeStrings
  import IncludeBase

  /** `join_with_separator`: an absent first side gives the second one, an
      absent second side the first one, otherwise both around the separator. */
  function Join(a: CtString, sep: char, b: CtString): CtString {
    if a.Absent? then b
    else if b.Absent? then a
    else Present(a.text + [sep] + b.text)
  }

  method JoinWithSeparator(a: CtString, sep: char, b: CtString) returns (r: CtString)
    ensures a.Absent? ==> r == b
    ensures a.Present? && b.Absent? ==> r == a
    ensures a.Present? && b.Present? ==> r.Present? && r.text == a.text + [sep] + b.text
    ensures r == Join(a, sep, b)
  {
    if a.Absent? {
      return b;
    }
    if b.Absent? {
      return a;
    }
    var t := CopyJoin(a.text, sep, b.text);
    r := Present(t);
  }

  /** The declared length of the result type, `Length1 + 1 + Length2` in
      `size_t`. */
  function DeclaredLength(l1: nat, l2: nat): nat {
    (l1 + 1 + l2) % SIZE
  }

  /** The value returned always has the declared type: with an absent side
      the wrap-around of `-1 + 1` makes the declared length the other side's,
      and two absent sides give the absent string. */
  lemma JoinLength(a: CtString, sep: char, b: CtString)
    requires Sized(a) && Sized(b)
    requires a.Present? && b.Present? ==> |a.text| + 1 + |b.text| < NPOS
    ensures Length(Join(a, sep, b)) == DeclaredLength(Length(a), Length(b))
    ensures a.Absent? && b.Absent? <==> Join(a, sep, b).Absent?
  {
    if a.Absent? {
      assert NPOS + 1 + Length(b) == SIZE + Length(b);
    } else if b.Absent? {
      assert Length(a) + 1 + NPOS == SIZE + Length(a);
    }
  }

  /** Wherever an overload of include/i18n/base.hpp is selected, this join
      returns the same string. */
  lemma JoinAgrees(a: CtString, sep: char, b: CtString)
    requires IncludeBase.JoinResolves(a, b)
    ensures Join(a, sep, b) == IncludeBase.Join(a, sep, b)
  {
  }

  /** `idStorage`; `static_assert` requires a msgid. */
  function IdStorage(context: CtString, msgid: CtString, plural: CtString): CtString
    requires msgid.Present?
  {
    Join(Join(context, EOT, msgid), NUL, plural)
  }

  /** The id buffer, and therefore every pointer range into it, is the one of
      include/i18n/base.hpp: the offsets are the same expressions. */
  lemma SameLayout(context: CtString, msgid: CtString, plural: CtString)
    requires msgid.Present?
    ensures IdStorage(context, msgid, plural) == IncludeBase.IdStorage(context, msgid, plural)
  {
    JoinAgrees(context, EOT, msgid);
    JoinAgrees(Join(context, EOT, msgid), NUL, plural);
  }

  /** The base class and the arguments its constructor receives: `idStorage`'s
      beginning and `singular_begin`, and `plural_begin` for a plural
      message.  Offsets are into `idStorage`. */
  datatype Base =
    | I18NString(msgid: nat, singular: nat)
    | I18NPluralString(msgid: nat, singular: nat, plural: nat)

  function BaseOf(context: CtString, msgid: CtString, plural: CtString): Base
    requires msgid.Present?
  {
    var l := IncludeBase.LayoutOf(Absent, context, msgid, plural);
    if Length(plural) == NPOS then I18NString(0, l.singularBegin)
    else I18NPluralString(0, l.singularBegin, l.singularEnd + 1)
  }

  /** A plural message derives from `I18NPluralString`, any other from
      `I18NString`; its pointers handed to the base address the msgid, the
      singular and the plural inside `idStorage`. */
  lemma BaseChoice(context: CtString, msgid: CtString, plural: CtString)
    requires Sized(context) && Sized(plural) && msgid.Present?
    ensures var b := BaseOf(context, msgid, plural);
      var t := IdStorage(context, msgid, plural).text;
      (b.I18NPluralString? <==> plural.Present?) &&
      b.msgid == 0 &&
      b.singular + |msgid.text| <= |t| &&
      t[b.singular..b.singular + |msgid.text|] == msgid.text &&
      (b.I18NPluralString? ==> b.plural <= |t| && t[b.plural..] == plural.text)
  {
    SameLayout(context, msgid, plural);
    IncludeBase.SingularRange(context, msgid, plural);
    IncludeBase.PluralRange(context, msgid, plural);
  }
}
