/** runtime/i18n.hpp, looking a message up: `get_singular` and `get_plural`
    find the singular and the plural in the message id with `strchr` and
    `strlen`, and the conversions fall back to the singular when gettext
    hands back the msgid itself.  `dgettext` and `dngettext` are outside
    the model: their answer is a parameter. */
module Lookup {
  import opened Wrappers
  import opened CompileTimeStrings
  import IncludeBase
  import RuntimeBase
  import LiteralBuild

  /** The end of the C string at offset `i` of a buffer holding `t` and a
      terminating NUL at `|t|`: the first NUL at or after `i`. */
  function StrEnd(t: string, i: nat): (e: nat)
    requires i <= |t|
    ensures i <= e <= |t| && (e < |t| ==> t[e] == NUL)
    ensures forall k :: i <= k < e ==> t[k] != NUL
    decreases |t| - i
  {
    if i == |t| || t[i] == NUL then i else StrEnd(t, i + 1)
  }

  /** The C string at offset `i`. */
  function CString(t: string, i: nat): (r: string)
    requires i <= |t|
    ensures NUL !in r && |r| <= |t| - i
  {
    t[i..StrEnd(t, i)]
  }

  /** `strchr(t + i, c)` for a character `c` other than NUL: the first `c`
      in the C string at `i`, or null. */
  function StrChr(t: string, i: nat, c: char): (r: Option<nat>)
    requires i <= |t| && c != NUL
    ensures r.Some? ==> i <= r.value < StrEnd(t, i) && t[r.value] == c
    ensures r.Some? ==> forall k :: i <= k < r.value ==> t[k] != c
    ensures r.None? ==> forall k :: i <= k < StrEnd(t, i) ==> t[k] != c
    decreases |t| - i
  {
    if i == |t| || t[i] == NUL then None
    else if t[i] == c then Some(i)
    else StrChr(t, i + 1, c)
  }

  /** `get_singular` of the classes that keep only the msgid: one past the
      first `\4` of the msgid string, or the msgid itself. */
  function GetSingular(id: string): (r: nat)
    ensures r <= |id|
    ensures r > 0 ==> id[r - 1] == EOT && forall k :: 0 <= k < r - 1 ==> id[k] != EOT && id[k] != NUL
    ensures r == 0 ==> forall k :: 0 <= k < StrEnd(id, 0) ==> id[k] != EOT
  {
    match StrChr(id, 0, EOT)
    case Some(k) => k + 1
    case None => 0
  }

  /** `get_plural` of those classes: one past the msgid string's NUL. */
  function GetPlural(id: string): (r: nat)
    ensures 0 < r <= |id| + 1
    ensures r <= |id| ==> id[r - 1] == NUL && forall k :: 0 <= k < r - 1 ==> id[k] != NUL
  {
    StrEnd(id, 0) + 1
  }

  predicate Clean(t: string) {
    NUL !in t && EOT !in t
  }

  /** In the id of a message whose context holds no NUL and no `\4` (and,
      without a context, whose singular holds no `\4`), and whose singular
      holds no NUL, `get_singular` finds the singular where the layout puts
      it. */
  lemma SingularFound(context: CtString, singular: CtString, plural: CtString)
    requires Sized(context) && singular.Present? && NUL !in singular.text
    requires context.Present? ==> Clean(context.text)
    requires context.Absent? ==> EOT !in singular.text
    ensures var id := IncludeBase.IdStorage(context, singular, plural).text;
      GetSingular(id) == IncludeBase.LayoutOf(Absent, context, singular, plural).singularBegin &&
      CString(id, GetSingular(id)) == singular.text
  {
    var id := IncludeBase.IdStorage(context, singular, plural).text;
    IncludeBase.IdStorageText(context, singular, plural);
    IncludeBase.SingularOffset(context);
    var c := IncludeBase.ContextPart(context);
    var rest := IncludeBase.PluralPart(plural);
    if context.Present? {
      assert id == context.text + [EOT] + (singular.text + rest);
      SingularAfterContext(context.text, singular.text + rest);
    } else {
      assert id == singular.text + rest;
      SingularWithoutContext(singular.text, rest);
    }
    SingularEnd(id, |c|, singular.text, rest);
  }

  /** Behind a clean context, the singular starts one past the `\4`. */
  lemma SingularAfterContext(context: string, rest: string)
    requires Clean(context)
    ensures GetSingular(context + [EOT] + rest) == |context| + 1
  {
    var id := context + [EOT] + rest;
    var n := |context|;
    forall k | 0 <= k < n ensures id[k] != EOT && id[k] != NUL {
      assert id[k] == context[k];
    }
    assert id[n] == EOT;
    assert StrEnd(id, 0) > n;
  }

  /** Without a context, a singular free of `\4` makes `get_singular` find
      none. */
  lemma SingularWithoutContext(singular: string, rest: string)
    requires Clean(singular)
    requires rest != [] ==> rest[0] == NUL
    ensures GetSingular(singular + rest) == 0
  {
    var id := singular + rest;
    forall k | 0 <= k < |singular| ensures id[k] != EOT && id[k] != NUL {
      assert id[k] == singular[k];
    }
    assert |singular| < |id| ==> id[|singular|] == NUL;
    assert StrEnd(id, 0) <= |singular|;
  }

  /** The C string at the start of the singular ends where the singular
      does. */
  lemma SingularEnd(id: string, b: nat, t: string, rest: string)
    requires b + |t| <= |id| && id[b..b + |t|] == t && id[b + |t|..] == rest && NUL !in t
    requires rest != [] ==> rest[0] == NUL
    ensures CString(id, b) == t
  {
    forall k | b <= k < b + |t| ensures id[k] != NUL {
      assert id[k] == t[k - b];
    }
    assert StrEnd(id, b) == b + |t|;
  }

  /** In the id of a plural message whose context and singular hold no NUL,
      `get_plural` finds the plural where the layout puts it. */
  lemma PluralFound(context: CtString, singular: CtString, plural: CtString)
    requires Sized(context) && Sized(plural) && singular.Present? && plural.Present?
    requires NUL !in singular.text && NUL !in plural.text
    requires context.Present? ==> NUL !in context.text
    ensures var id := IncludeBase.IdStorage(context, singular, plural).text;
      var l := IncludeBase.LayoutOf(Absent, context, singular, plural);
      GetPlural(id) == l.pluralBegin.value && CString(id, GetPlural(id)) == plural.text
  {
    var id := IncludeBase.IdStorage(context, singular, plural).text;
    IncludeBase.IdStorageText(context, singular, plural);
    IncludeBase.SingularOffset(context);
    IncludeBase.PluralRange(context, singular, plural);
    var c := IncludeBase.ContextPart(context);
    var e := |c| + |singular.text|;
    assert NUL !in c;
    assert id == (c + singular.text) + ([NUL] + plural.text);
    SingularEnd(id, 0, c + singular.text, [NUL] + plural.text);
    assert StrEnd(id, 0) == e;
    SingularEnd(id, e + 1, plural.text, []);
  }

  // ------------------------------------------------------------ the fallback

  /** What gettext hands back: the msgid pointer itself, or a pointer
      elsewhere, to `text`. */
  datatype Answer = Msgid | Elsewhere(text: string)

  /** `operator const char *` and `operator[]`: a pointer equal to the
      msgid means "untranslated" and gives the singular. */
  function Fallback(answer: Answer, singular: string): (r: string)
    ensures answer.Msgid? ==> r == singular
    ensures answer.Elsewhere? ==> r == answer.text
  {
    if answer.Msgid? then singular else answer.text
  }

  /** gettext's answer for a message without a catalogue entry: `ngettext`
      hands back the msgid for `n == 1` and the plural pointer otherwise,
      `gettext` always the msgid. */
  function Untranslated(n: nat, plural: string): Answer {
    if n == 1 then Msgid else Elsewhere(plural)
  }

  /** An untranslated message without a plural shows its singular, whether
      the class keeps a singular pointer or finds it with `get_singular`. */
  lemma UntranslatedSingular(context: CtString, singular: CtString)
    requires Sized(context) && singular.Present? && NUL !in singular.text
    requires context.Present? ==> Clean(context.text)
    requires context.Absent? ==> EOT !in singular.text
    ensures var id := IncludeBase.IdStorage(context, singular, Absent).text;
      Fallback(Msgid, CString(id, GetSingular(id))) == singular.text
    ensures var id := RuntimeBase.IdStorage(context, singular, Absent).text;
      var b := RuntimeBase.BaseOf(context, singular, Absent);
      b.I18NString? && b.singular == GetSingular(id)
  {
    SingularFound(context, singular, Absent);
    RuntimeBase.SameLayout(context, singular, Absent);
  }

  /** An untranslated plural message shows the singular for one and the
      plural otherwise, whether its pointers come from the class's members
      or from `get_singular` and `get_plural`. */
  lemma UntranslatedPlural(context: CtString, singular: CtString, plural: CtString, n: nat)
    requires Sized(context) && Sized(plural) && singular.Present? && plural.Present?
    requires NUL !in singular.text && NUL !in plural.text
    requires context.Present? ==> Clean(context.text)
    requires context.Absent? ==> EOT !in singular.text
    ensures var id := IncludeBase.IdStorage(context, singular, plural).text;
      GetPlural(id) <= |id| &&
      Fallback(Untranslated(n, CString(id, GetPlural(id))), CString(id, GetSingular(id))) ==
        if n == 1 then singular.text else plural.text
    ensures var id := RuntimeBase.IdStorage(context, singular, plural).text;
      var b := RuntimeBase.BaseOf(context, singular, plural);
      b.I18NPluralString? && b.singular == GetSingular(id) && b.plural == GetPlural(id)
  {
    SingularFound(context, singular, plural);
    PluralFound(context, singular, plural);
    RuntimeBase.SameLayout(context, singular, plural);
  }

  /** tests/simple.cpp, in the C locale: `"Hello planet(s)!"_[1]` is
      `Hello planet!` and `"Hello planet(s)!"_[2]` is `Hello planets!`. */
  lemma PlanetLookup(n: nat)
    ensures var id := RuntimeBase.IdStorage(Absent, Present("Hello planet!"), Present("Hello planets!")).text;
      GetPlural(id) <= |id| &&
      Fallback(Untranslated(n, CString(id, GetPlural(id))), CString(id, GetSingular(id))) ==
        if n == 1 then "Hello planet!" else "Hello planets!"
  {
    UntranslatedLiteral("Hello planet!", "Hello planets!", n);
  }

  /** The same, from the literal: the message that `"Hello planet(s)!"_`
      builds shows `Hello planet!` for one and `Hello planets!` otherwise. */
  lemma PlanetLiteral(n: nat)
    ensures var p := LiteralBuild.Built("Hello planet(s)!");
      p.Success? && p.value.0.Absent? && p.value.1.Present? && p.value.2.Present? &&
      var id := RuntimeBase.IdStorage(p.value.0, p.value.1, p.value.2).text;
      GetPlural(id) <= |id| &&
      Fallback(Untranslated(n, CString(id, GetPlural(id))), CString(id, GetSingular(id))) ==
        if n == 1 then "Hello planet!" else "Hello planets!"
  {
    LiteralBuild.PlanetOracle();
    PlanetLookup(n);
  }

  /** The untranslated lookup of a message without a context. */
  lemma UntranslatedLiteral(singular: string, plural: string, n: nat)
    requires forall k :: 0 <= k < |singular| ==> singular[k] != NUL && singular[k] != EOT
    requires forall k :: 0 <= k < |plural| ==> plural[k] != NUL
    requires |plural| < NPOS
    ensures var id := RuntimeBase.IdStorage(Absent, Present(singular), Present(plural)).text;
      GetPlural(id) <= |id| &&
      Fallback(Untranslated(n, CString(id, GetPlural(id))), CString(id, GetSingular(id))) ==
        if n == 1 then singular else plural
  {
    assert NUL !in singular && EOT !in singular && NUL !in plural;
    UntranslatedPlural(Absent, Present(singular), Present(plural), n);
    RuntimeBase.SameLayout(Absent, Present(singular), Present(plural));
  }
}
