/** The line format both PO writers produce (chapter 3 of the GNU gettext
    manual, "The Format of PO Files"): `#`-comment lines, then the keyword
    block `msgctxt` / `msgid` / `msgid_plural` / `msgstr`.  Each writer sends
    these lines to its stream, every line ended by a line break.  The readers
    in this module recover the fields from the lines. */
module PoFormat {
  import opened Wrappers
  import opened PoText
  import opened Ast

  /** The character after `#` that tells the kind of a comment. */
  function Marker(kind: Kind): string {
    match kind
    case Translator => ""
    case Extracted => "."
    case Reference => ":"
    case Flags => ","
    case Previous => "|"
  }

  /** `operator<<(Comment)`: `#`, the marker, a blank and the content. */
  function CommentLine(c: Comment): string {
    "#" + Marker(c.kind) + " " + c.content
  }

  function MarkerKind(m: char): Option<Kind> {
    if m == '.' then Some(Extracted)
    else if m == ':' then Some(Reference)
    else if m == ',' then Some(Flags)
    else if m == '|' then Some(Previous)
    else None
  }

  /** The comment a `#`-line denotes. */
  function ReadComment(line: string): Option<Comment> {
    if |line| >= 2 && line[0] == '#' && line[1] == ' ' then Some(Comment(Translator, line[2..]))
    else if |line| >= 3 && line[0] == '#' && line[2] == ' ' && MarkerKind(line[1]).Some? then
      Some(Comment(MarkerKind(line[1]).value, line[3..]))
    else None
  }

  /** Every comment is read back from its line, whatever its content. */
  lemma ReadCommentLine(c: Comment)
    ensures ReadComment(CommentLine(c)) == Some(c)
    ensures CommentLine(c)[0] == '#'
  {
    var l := CommentLine(c);
    if c.kind == Translator {
      assert l == "# " + c.content && l[2..] == c.content;
    } else {
      assert l[1..3] == Marker(c.kind) + " " && l[3..] == c.content;
    }
  }

  // ---------------------------------------------------------- keyword block

  /** The fields of a message that the keyword block carries. */
  datatype Keywords = Keywords(context: Option<string>, singular: string,
                               plural: Option<string>, translation: seq<string>)

  /** `s` with the prefix `p` removed, if `s` starts with it. */
  function StripPrefix(p: string, s: string): (r: Option<string>)
    ensures r.Some? <==> |p| <= |s| && s[..|p|] == p
    ensures r.Some? ==> s == p + r.value
  {
    if |p| <= |s| && s[..|p|] == p then Some(s[|p|..]) else None
  }

  function MsgstrPrefix(i: nat): string {
    "msgstr[" + Decimal(i) + "] "
  }

  /** The indexed `msgstr[i]` lines of a plural message, counting from `first`. */
  function IndexedLines(style: Style, ts: seq<string>, first: nat): (r: seq<string>)
    ensures |r| == |ts|
    decreases |ts|
  {
    if ts == [] then [] else [MsgstrPrefix(first) + Quoted(ts[0], style)] + IndexedLines(style, ts[1..], first + 1)
  }

  lemma {:induction false} IndexedSnoc(style: Style, ts: seq<string>, t: string, first: nat)
    ensures IndexedLines(style, ts + [t], first) ==
      IndexedLines(style, ts, first) + [MsgstrPrefix(first + |ts|) + Quoted(t, style)]
    decreases |ts|
  {
    if ts == [] {
      assert ts + [t] == [t] && [t][1..] == [];
    } else {
      assert (ts + [t])[0] == ts[0] && (ts + [t])[1..] == ts[1..] + [t];
      IndexedSnoc(style, ts[1..], t, first + 1);
    }
  }

  /** The keyword block of a message: `msgctxt` only for a context, `msgid`
      always; then `msgid_plural` and one indexed `msgstr` per translation, or
      a single `msgstr` holding the first translation or `""`. */
  function KeywordLines(style: Style, k: Keywords): seq<string> {
    ContextLines(style, k.context) + ["msgid " + Quoted(k.singular, style)] +
    MsgstrLines(style, k.plural, k.translation)
  }

  function ContextLines(style: Style, context: Option<string>): seq<string> {
    if context.Some? then ["msgctxt " + Quoted(context.value, style)] else []
  }

  function MsgstrLines(style: Style, plural: Option<string>, ts: seq<string>): seq<string> {
    if plural.Some? then ["msgid_plural " + Quoted(plural.value, style)] + IndexedLines(style, ts, 0)
    else ["msgstr " + (if ts == [] then "\"\"" else Quoted(ts[0], style))]
  }

  /** What the keyword block keeps: without a plural only the first
      translation survives, and an empty list reads as one empty string. */
  function Kept(k: Keywords): Keywords {
    if k.plural.Some? then k
    else k.(translation := [if k.translation == [] then "" else k.translation[0]])
  }

  function ReadQuoted(p: string, line: string, policy: HexPolicy): Option<string> {
    match StripPrefix(p, line)
    case None => None
    case Some(q) => Unquote(q, policy)
  }

  /** Indexed `msgstr` lines read with the expected index. */
  function ReadIndexed(lines: seq<string>, first: nat, policy: HexPolicy): Option<seq<string>>
    decreases |lines|
  {
    if lines == [] then Some([])
    else match ReadQuoted(MsgstrPrefix(first), lines[0], policy)
      case None => None
      case Some(t) =>
        match ReadIndexed(lines[1..], first + 1, policy)
        case None => None
        case Some(ts) => Some([t] + ts)
  }

  /** The fields after an optional `msgctxt` line. */
  function ReadAfterContext(ctx: Option<string>, lines: seq<string>, policy: HexPolicy): Option<Keywords> {
    if lines == [] then None
    else match ReadQuoted("msgid ", lines[0], policy)
      case None => None
      case Some(sing) =>
        if |lines| < 2 then None
        else match ReadQuoted("msgid_plural ", lines[1], policy)
          case Some(pl) =>
            (match ReadIndexed(lines[2..], 0, policy)
             case None => None
             case Some(ts) => Some(Keywords(ctx, sing, Some(pl), ts)))
          case None =>
            (match ReadQuoted("msgstr ", lines[1], policy)
             case None => None
             case Some(t) => if |lines| == 2 then Some(Keywords(ctx, sing, None, [t])) else None)
  }

  /** The fields a keyword block denotes. */
  function ReadKeywords(lines: seq<string>, policy: HexPolicy): Option<Keywords> {
    if lines == [] then None
    else match StripPrefix("msgctxt ", lines[0])
      case Some(q) =>
        (match Unquote(q, policy)
         case None => None
         case Some(ctx) => ReadAfterContext(Some(ctx), lines[1..], policy))
      case None => ReadAfterContext(None, lines, policy)
  }

  predicate KeywordsBytes(k: Keywords) {
    (k.context.Some? ==> IsBytes(k.context.value)) && IsBytes(k.singular) &&
    (k.plural.Some? ==> IsBytes(k.plural.value)) &&
    forall i :: 0 <= i < |k.translation| ==> IsBytes(k.translation[i])
  }

  lemma DistinctPrefixes(q: string)
    requires |q| >= 1 && q[0] == '"'
    ensures StripPrefix("msgctxt ", "msgid " + q).None?
    ensures StripPrefix("msgid_plural ", "msgstr " + q).None?
    ensures forall i: nat :: StripPrefix("msgid_plural ", MsgstrPrefix(i) + q).None?
  {
    assert ("msgid " + q)[3] == 'i';
    assert ("msgstr " + q)[3] == 's';
    forall i: nat ensures StripPrefix("msgid_plural ", MsgstrPrefix(i) + q).None? {
      assert (MsgstrPrefix(i) + q)[3] == 's';
    }
  }

  lemma ReadQuotedLine(p: string, s: string, style: Style, policy: HexPolicy)
    requires IsBytes(s) && Compatible(style, policy)
    ensures ReadQuoted(p, p + Quoted(s, style), policy) == Some(s)
  {
    var l := p + Quoted(s, style);
    assert l[..|p|] == p && l[|p|..] == Quoted(s, style);
    UnquoteQuoted(s, style, policy);
  }

  lemma {:induction false} ReadIndexedLines(ts: seq<string>, first: nat, style: Style, policy: HexPolicy)
    requires Compatible(style, policy) && forall i :: 0 <= i < |ts| ==> IsBytes(ts[i])
    ensures ReadIndexed(IndexedLines(style, ts, first), first, policy) == Some(ts)
    decreases |ts|
  {
    if ts != [] {
      var ls := IndexedLines(style, ts, first);
      ReadQuotedLine(MsgstrPrefix(first), ts[0], style, policy);
      ReadIndexedLines(ts[1..], first + 1, style, policy);
      assert ls[1..] == IndexedLines(style, ts[1..], first + 1);
      assert ts == [ts[0]] + ts[1..];
    }
  }

  lemma ReadAfterContextLines(k: Keywords, style: Style, policy: HexPolicy)
    requires KeywordsBytes(k) && Compatible(style, policy)
    ensures ReadAfterContext(k.context, ["msgid " + Quoted(k.singular, style)] + MsgstrLines(style, k.plural, k.translation), policy)
      == Some(Kept(k))
  {
    var m := "msgid " + Quoted(k.singular, style);
    if k.plural.Some? {
      assert [m] + MsgstrLines(style, k.plural, k.translation) ==
        [m, "msgid_plural " + Quoted(k.plural.value, style)] + IndexedLines(style, k.translation, 0);
      ReadPlural(k, style, policy);
    } else {
      var t := if k.translation == [] then "" else k.translation[0];
      assert Quoted("", style) == "\"\"";
      assert MsgstrLines(style, k.plural, k.translation) == ["msgstr " + Quoted(t, style)];
      ReadSingular(k.context, k.singular, t, style, policy);
    }
  }

  lemma ReadPlural(k: Keywords, style: Style, policy: HexPolicy)
    requires KeywordsBytes(k) && Compatible(style, policy) && k.plural.Some?
    ensures ReadAfterContext(k.context, ["msgid " + Quoted(k.singular, style), "msgid_plural " + Quoted(k.plural.value, style)] + IndexedLines(style, k.translation, 0), policy) == Some(k)
  {
    var ls := ["msgid " + Quoted(k.singular, style), "msgid_plural " + Quoted(k.plural.value, style)] + IndexedLines(style, k.translation, 0);
    ReadQuotedLine("msgid ", k.singular, style, policy);
    ReadQuotedLine("msgid_plural ", k.plural.value, style, policy);
    assert ls[2..] == IndexedLines(style, k.translation, 0);
    ReadIndexedLines(k.translation, 0, style, policy);
  }

  lemma ReadSingular(ctx: Option<string>, sing: string, t: string, style: Style, policy: HexPolicy)
    requires IsBytes(sing) && IsBytes(t) && Compatible(style, policy)
    ensures ReadAfterContext(ctx, ["msgid " + Quoted(sing, style), "msgstr " + Quoted(t, style)], policy) == Some(Keywords(ctx, sing, None, [t]))
  {
    ReadQuotedLine("msgid ", sing, style, policy);
    DistinctPrefixes(Quoted(t, style));
    ReadQuotedLine("msgstr ", t, style, policy);
  }

  /** The keyword block is read back to the fields it keeps. */
  lemma ReadKeywordLines(k: Keywords, style: Style, policy: HexPolicy)
    requires KeywordsBytes(k) && Compatible(style, policy)
    ensures ReadKeywords(KeywordLines(style, k), policy) == Some(Kept(k))
  {
    var after := ["msgid " + Quoted(k.singular, style)] + MsgstrLines(style, k.plural, k.translation);
    assert KeywordLines(style, k) == ContextLines(style, k.context) + after;
    ReadAfterContextLines(k, style, policy);
    ReadContextLines(k.context, Quoted(k.singular, style), after, style, policy);
  }

  /** The context line, when there is one, is read and the rest of the
      block is read after it. */
  lemma ReadContextLines(ctx: Option<string>, q: string, after: seq<string>, style: Style, policy: HexPolicy)
    requires (ctx.Some? ==> IsBytes(ctx.value)) && Compatible(style, policy)
    requires |q| >= 1 && q[0] == '"'
    requires after != [] && after[0] == "msgid " + q
    ensures ReadKeywords(ContextLines(style, ctx) + after, policy) == ReadAfterContext(ctx, after, policy)
  {
    if ctx.Some? {
      ReadWithContext(ctx.value, after, style, policy);
    } else {
      assert ContextLines(style, ctx) + after == after;
      ReadWithoutContext(q, after, policy);
    }
  }

  lemma ReadWithContext(ctx: string, after: seq<string>, style: Style, policy: HexPolicy)
    requires IsBytes(ctx) && Compatible(style, policy)
    ensures ReadKeywords(["msgctxt " + Quoted(ctx, style)] + after, policy)
      == ReadAfterContext(Some(ctx), after, policy)
  {
    var ls := ["msgctxt " + Quoted(ctx, style)] + after;
    assert ls[1..] == after;
    ReadQuotedLine("msgctxt ", ctx, style, policy);
  }

  lemma ReadWithoutContext(q: string, after: seq<string>, policy: HexPolicy)
    requires |q| >= 1 && q[0] == '"'
    requires after != [] && after[0] == "msgid " + q
    ensures ReadKeywords(after, policy) == ReadAfterContext(None, after, policy)
  {
    DistinctPrefixes(q);
  }

  /** A `msgctxt` line is written exactly when there is a context, and then
      it is the first line of the block. */
  lemma ContextLine(k: Keywords, style: Style)
    ensures var ls := KeywordLines(style, k);
      (exists i :: 0 <= i < |ls| && StripPrefix("msgctxt ", ls[i]).Some?) <==> k.context.Some?
  {
    var ls := KeywordLines(style, k);
    if k.context.Some? {
      assert StripPrefix("msgctxt ", ls[0]).Some?;
    } else {
      forall i | 0 <= i < |ls| ensures StripPrefix("msgctxt ", ls[i]).None? {
        assert ls[i][3] != 'c' by {
          KeywordLineStart(k, style, i);
        }
      }
    }
  }

  /** Every line of the block but a `msgctxt` one starts with `msgi` or `msgs`. */
  lemma KeywordLineStart(k: Keywords, style: Style, i: nat)
    requires i < |KeywordLines(style, k)|
    requires i > 0 || k.context.None?
    ensures |KeywordLines(style, k)[i]| > 3 && KeywordLines(style, k)[i][..3] == "msg"
    ensures KeywordLines(style, k)[i][3] in {'i', 's'}
  {
    var ls := KeywordLines(style, k);
    var c := if k.context.Some? then 1 else 0;
    if i == c {
      assert ls[i] == "msgid " + Quoted(k.singular, style);
    } else if k.plural.Some? {
      if i == c + 1 {
        assert ls[i] == "msgid_plural " + Quoted(k.plural.value, style);
      } else {
        IndexedAt(style, k.translation, 0, i - c - 2);
        assert ls[i] == IndexedLines(style, k.translation, 0)[i - c - 2];
      }
    } else {
      assert ls[i] == "msgstr " + (if k.translation == [] then "\"\"" else Quoted(k.translation[0], style));
    }
  }

  lemma {:induction false} IndexedAt(style: Style, ts: seq<string>, first: nat, j: nat)
    requires j < |ts|
    ensures IndexedLines(style, ts, first)[j] == MsgstrPrefix(first + j) + Quoted(ts[j], style)
    decreases j
  {
    if j > 0 {
      IndexedAt(style, ts[1..], first + 1, j - 1);
    }
  }

  /** Lines that do not start with `#`. */
  function DropComments(lines: seq<string>): seq<string>
    decreases |lines|
  {
    if lines != [] && |lines[0]| > 0 && lines[0][0] == '#' then DropComments(lines[1..]) else lines
  }

  /** Comment lines in front of a keyword block are skipped by `DropComments`. */
  lemma {:induction false} DropCommentBlock(cs: seq<string>, k: Keywords, style: Style)
    requires forall i :: 0 <= i < |cs| ==> |cs[i]| > 0 && cs[i][0] == '#'
    ensures DropComments(cs + KeywordLines(style, k)) == KeywordLines(style, k)
    decreases |cs|
  {
    var ks := KeywordLines(style, k);
    if cs == [] {
      assert cs + ks == ks;
      assert ks[0][0] == 'm' by {
        if k.context.None? {
          KeywordLineStart(k, style, 0);
        }
      }
    } else {
      assert (cs + ks)[1..] == cs[1..] + ks;
      DropCommentBlock(cs[1..], k, style);
    }
  }

  /** No keyword line holds a line break. */
  lemma KeywordNoBreak(k: Keywords, style: Style, i: nat)
    requires i < |KeywordLines(style, k)|
    ensures '\n' !in KeywordLines(style, k)[i]
  {
    var ls := KeywordLines(style, k);
    var cs := ContextLines(style, k.context);
    var ms := MsgstrLines(style, k.plural, k.translation);
    assert ls == cs + ["msgid " + Quoted(k.singular, style)] + ms;
    if i < |cs| {
      LineNoBreak("msgctxt ", k.context.value, style);
      assert ls[i] == "msgctxt " + Quoted(k.context.value, style);
    } else if i == |cs| {
      LineNoBreak("msgid ", k.singular, style);
      assert ls[i] == "msgid " + Quoted(k.singular, style);
    } else {
      assert ls[i] == ms[i - |cs| - 1];
      MsgstrNoBreak(style, k.plural, k.translation, i - |cs| - 1);
    }
  }

  lemma MsgstrNoBreak(style: Style, plural: Option<string>, ts: seq<string>, j: nat)
    requires j < |MsgstrLines(style, plural, ts)|
    ensures '\n' !in MsgstrLines(style, plural, ts)[j]
  {
    var ms := MsgstrLines(style, plural, ts);
    if plural.Some? {
      if j == 0 {
        LineNoBreak("msgid_plural ", plural.value, style);
      } else {
        IndexedAt(style, ts, 0, j - 1);
        MsgstrPrefixNoBreak(j - 1);
        LineNoBreak(MsgstrPrefix(j - 1), ts[j - 1], style);
        assert ms[j] == MsgstrPrefix(j - 1) + Quoted(ts[j - 1], style);
      }
    } else if ts != [] {
      LineNoBreak("msgstr ", ts[0], style);
    }
  }

  /** A keyword without a line break followed by a quoted string has none. */
  lemma LineNoBreak(p: string, s: string, style: Style)
    requires '\n' !in p
    ensures '\n' !in p + Quoted(s, style)
  {
    QuotedShape(s, style);
    var l := p + Quoted(s, style);
    forall i | 0 <= i < |l| ensures l[i] != '\n' {
      if i < |p| {
        assert l[i] == p[i];
      } else {
        assert l[i] == Quoted(s, style)[i - |p|];
      }
    }
  }

  lemma MsgstrPrefixNoBreak(n: nat)
    ensures '\n' !in MsgstrPrefix(n)
  {
    var s := MsgstrPrefix(n);
    forall i | 0 <= i < |s| ensures s[i] != '\n' {
      if 7 <= i < 7 + |Decimal(n)| {
        assert s[i] == Decimal(n)[i - 7];
      }
    }
  }
}
