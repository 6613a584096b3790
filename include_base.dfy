/** include/i18n/base.hpp: the three `join_with_separator` overloads and the
    message-id layout of `CompileTimeI18NString`.  The id of a message is one
    buffer, `idStorage`, holding `context \4 singular \0 plural` with absent
    parts left out together with their separators; the class exposes
    pointers into it.  A pointer is modelled as an offset (into `idStorage`,
    or into the domain string for the domain pointers), a null pointer as
    `None`. */
module IncludeBase {
  import opened Wrappers
  import opened CompileTimeStrings

  /** `operator bool`. */
  function AsBool(s: CtString): bool {
    s.Present?
  }

  /** A call of `join_with_separator` with two absent strings matches the
      second and the third overload equally well and is rejected. */
  predicate JoinResolves(a: CtString, b: CtString) {
    a.Present? || b.Present?
  }

  /** The overload that a call selects: with an absent side the other side
      unchanged, otherwise both sides around the separator. */
  function Join(a: CtString, sep: char, b: CtString): CtString
    requires JoinResolves(a, b)
  {
    if a.Absent? then b
    else if b.Absent? then a
    else Present(a.text + [sep] + b.text)
  }

  /** All three overloads, as the call resolves them. */
  method JoinWithSeparator(a: CtString, sep: char, b: CtString) returns (r: CtString)
    requires JoinResolves(a, b)
    ensures a.Present? && b.Present? ==> r.Present? && r.text == a.text + [sep] + b.text
    ensures a.Absent? ==> r == b
    ensures b.Absent? ==> r == a
    ensures r == Join(a, sep, b)
  {
    if a.Absent? {
      r := b;
    } else if b.Absent? {
      r := a;
    } else {
      var t := CopyJoin(a.text, sep, b.text);
      r := Present(t);
    }
  }

  /** A joined string is present, of length `L1 + 1 + L2` when both sides are,
      and splits back into its two sides at the separator. */
  lemma JoinParts(a: CtString, sep: char, b: CtString)
    requires JoinResolves(a, b)
    ensures Join(a, sep, b).Present?
    ensures a.Present? && b.Present? ==>
      var t := Join(a, sep, b).text;
      Length(Join(a, sep, b)) == Length(a) + 1 + Length(b) &&
      t[..|a.text|] == a.text && t[|a.text|] == sep && t[|a.text| + 1..] == b.text
  {
    if a.Present? && b.Present? {
      var t := a.text + [sep] + b.text;
      assert t[..|a.text|] == a.text;
      assert t[|a.text| + 1..] == b.text;
    }
  }

  /** `idStorage`: the context and the singular joined by `\4`, and the result
      and the plural joined by NUL.  `static_assert` requires a singular. */
  function IdStorage(context: CtString, singular: CtString, plural: CtString): CtString
    requires singular.Present?
  {
    var inner := Join(context, EOT, singular);
    Join(inner, NUL, plural)
  }

  /** The characters of `idStorage`, part by part. */
  function ContextPart(context: CtString): string {
    if context.Present? then context.text + [EOT] else []
  }

  function PluralPart(plural: CtString): string {
    if plural.Present? then [NUL] + plural.text else []
  }

  lemma IdStorageText(context: CtString, singular: CtString, plural: CtString)
    requires singular.Present?
    ensures IdStorage(context, singular, plural).Present?
    ensures IdStorage(context, singular, plural).text ==
      ContextPart(context) + singular.text + PluralPart(plural)
  {
  }

  /** The private pointer members, from `domain_begin` to `plural_end`. */
  datatype Layout = Layout(
    domainBegin: Option<nat>, domainEnd: Option<nat>,
    contextBegin: Option<nat>, contextEnd: Option<nat>,
    singularBegin: nat, singularEnd: nat,
    pluralBegin: Option<nat>, pluralEnd: Option<nat>)

  /** The offsets as the class computes them: absence is tested by
      `length == -1`, and `singular_begin` adds `Context.length + 1` in
      `size_t`, which wraps to 0 for an absent context. */
  function LayoutOf(domain: CtString, context: CtString, singular: CtString, plural: CtString): Layout {
    var db := if Length(domain) == NPOS then None else Some(0);
    var de := if db.Some? then Some(db.value + Length(domain)) else None;
    var cb := if Length(context) == NPOS then None else Some(0);
    var ce := if cb.Some? then Some(cb.value + Length(context)) else None;
    var sb := (Length(context) + 1) % SIZE;
    var se := sb + Length(singular);
    var pb := if Length(plural) == NPOS then None else Some(se + 1);
    var pe := if pb.Some? then Some(pb.value + Length(plural)) else None;
    Layout(db, de, cb, ce, sb, se, pb, pe)
  }

  /** `Context.length + 1` in `size_t` is the length of the context part. */
  lemma SingularOffset(context: CtString)
    requires Sized(context)
    ensures (Length(context) + 1) % SIZE == |ContextPart(context)|
  {
    if context.Absent? {
      assert Length(context) + 1 == SIZE;
    }
  }

  /** The singular range of `idStorage` holds the singular; without a context
      it starts at the beginning of the buffer. */
  lemma SingularRange(context: CtString, singular: CtString, plural: CtString)
    requires Sized(context) && singular.Present?
    ensures var t := IdStorage(context, singular, plural).text;
      var l := LayoutOf(Absent, context, singular, plural);
      l.singularBegin <= l.singularEnd <= |t| &&
      t[l.singularBegin..l.singularEnd] == singular.text &&
      (context.Absent? ==> l.singularBegin == 0)
  {
    IdStorageText(context, singular, plural);
    SingularOffset(context);
    var t := IdStorage(context, singular, plural).text;
    var c := ContextPart(context);
    assert t[|c|..|c| + |singular.text|] == singular.text;
  }

  /** The context range is the context, followed by `\4`; it is null when the
      context is absent. */
  lemma ContextRange(context: CtString, singular: CtString, plural: CtString)
    requires Sized(context) && singular.Present?
    ensures var t := IdStorage(context, singular, plural).text;
      var l := LayoutOf(Absent, context, singular, plural);
      (context.Present? <==> l.contextBegin.Some?) &&
      (l.contextBegin.Some? <==> l.contextEnd.Some?) &&
      (context.Present? ==>
        l.contextBegin == Some(0) && l.contextEnd.value < |t| &&
        t[..l.contextEnd.value] == context.text && t[l.contextEnd.value] == EOT &&
        l.singularBegin == l.contextEnd.value + 1)
  {
    IdStorageText(context, singular, plural);
    SingularOffset(context);
    if context.Present? {
      var t := IdStorage(context, singular, plural).text;
      assert t[..|context.text|] == context.text;
      assert t[|context.text|] == EOT;
    }
  }

  /** The plural range starts one past the singular's end, after a NUL, holds
      the plural and ends the buffer; it is null when the plural is absent,
      and then the singular ends the buffer. */
  lemma PluralRange(context: CtString, singular: CtString, plural: CtString)
    requires Sized(context) && Sized(plural) && singular.Present?
    ensures var t := IdStorage(context, singular, plural).text;
      var l := LayoutOf(Absent, context, singular, plural);
      (plural.Present? <==> l.pluralBegin.Some?) &&
      (l.pluralBegin.Some? <==> l.pluralEnd.Some?) &&
      (plural.Present? ==>
        l.pluralBegin.value == l.singularEnd + 1 && l.singularEnd < |t| &&
        t[l.singularEnd] == NUL && l.pluralEnd.value == |t| &&
        t[l.pluralBegin.value..] == plural.text) &&
      (plural.Absent? ==> l.singularEnd == |t|)
  {
    IdStorageText(context, singular, plural);
    SingularOffset(context);
    var t := IdStorage(context, singular, plural).text;
    var c := ContextPart(context);
    var se := |c| + |singular.text|;
    if plural.Present? {
      assert t[se] == NUL;
      assert t[se + 1..] == plural.text;
    }
  }

  /** The domain pointers are null exactly when the domain is absent (when
      `operator bool` is false), and otherwise span the domain. */
  lemma DomainPointers(domain: CtString, context: CtString, singular: CtString, plural: CtString)
    requires Sized(domain)
    ensures var l := LayoutOf(domain, context, singular, plural);
      (l.domainBegin.None? <==> !AsBool(domain)) &&
      (l.domainEnd.None? <==> !AsBool(domain)) &&
      (AsBool(domain) ==> l.domainBegin == Some(0) && l.domainEnd == Some(|domain.text|))
  {
  }
}
