/** common/write_po.cpp: the PO writer of the merge tool.  A stream is
    modelled by the text written so far; every operation takes it and returns
    it with the new text appended.  Non-printable bytes are written as three
    octal digits. */
module WritePoCommon {
  import opened Wrappers
  import opened PoText
  import opened PoFormat
  import opened Ast

  /** One iteration of `write_escaped`'s `switch`. */
  method EscapeOne(c: char) returns (w: string)
    ensures w == EscapeChar(c, Octal)
  {
    if c == '\\' {
      w := "\\\\";
    } else if c == '"' {
      w := "\\\"";
    } else if c == '\n' {
      w := "\\n";
    } else if c == '\t' {
      w := "\\t";
    } else if c == 8 as char {
      w := "\\b";
    } else if c == '\r' {
      w := "\\r";
    } else if c == 12 as char {
      w := "\\f";
    } else if c == 11 as char {
      w := "\\v";
    } else if c == 7 as char {
      w := "\\a";
    } else if IsPrint(c) {
      w := [c];
    } else {
      var b := Byte(c);
      w := ['\\', HexDigit(b / 64), HexDigit(b % 64 / 8), HexDigit(b % 8)];
    }
  }

  /** `write_escaped`: `s` between double quotes, its special characters escaped. */
  method WriteEscaped(out: string, s: string) returns (r: string)
    ensures r == out + Quoted(s, Octal)
  {
    r := out + "\"";
    var i := 0;
    while i < |s|
      invariant 0 <= i <= |s|
      invariant r == out + "\"" + Escaped(s[..i], Octal)
    {
      var w := EscapeOne(s[i]);
      EscapedSnoc(s, i, Octal);
      r := r + w;
      i := i + 1;
    }
    assert s[..i] == s;
    r := r + "\"";
  }

  /** `operator<<(Comment)`: the comment's line. */
  method WriteComment(out: string, c: Comment) returns (r: string)
    ensures r == out + Text([CommentLine(c)])
  {
    var marker: string;
    match c.kind {
      case Translator => marker := "";
      case Extracted => marker := ".";
      case Reference => marker := ":";
      case Flags => marker := ",";
      case Previous => marker := "|";
    }
    r := out + "#" + marker + " " + c.content + "\n";
    TextOne(CommentLine(c));
  }

  /** A keyword followed by a quoted string, on a line of its own. */
  method WriteLine(out: string, keyword: string, s: string) returns (r: string)
    ensures r == out + Text([keyword + Quoted(s, Octal)])
  {
    r := WriteEscaped(out + keyword, s);
    r := r + "\n";
    TextOne(keyword + Quoted(s, Octal));
  }

  // ----------------------------------------------------------------- message

  /** The `#.` lines of one comment and the `#:` line of its location. */
  function EntryLines(e: Entry): seq<string> {
    CommentPieces(e.comment) + (if e.location.Some? then ["#: " + e.location.value] else [])
  }

  function CommentPieces(comment: Option<string>): seq<string> {
    if comment.Some? then Prefixed("#. ", SplitLines(comment.value)) else []
  }

  function ExtractedLines(ec: seq<Entry>): seq<string> {
    if ec == [] then [] else ExtractedLines(ec[..|ec| - 1]) + EntryLines(ec[|ec| - 1])
  }

  function FlagLines(flags: Option<string>): seq<string> {
    if flags.Some? then ["#, " + flags.value] else []
  }

  /** All `#`-lines of a message: translator comments, each extracted entry,
      the flags. */
  function CommentBlock(m: Message): seq<string> {
    Prefixed("# ", m.translatorComments) + ExtractedLines(m.extractedComments) + FlagLines(m.flags)
  }

  function KeywordsOf(m: Message): Keywords {
    Keywords(m.context, m.singular, m.plural, m.translation)
  }

  /** The lines `operator<<(Message)` writes. */
  function MessageLines(m: Message): seq<string> {
    CommentBlock(m) + KeywordLines(Octal, KeywordsOf(m))
  }

  /** The comment text split at its line breaks, one `#.` line per piece. */
  method WriteCommentText(out: string, t: string) returns (r: string)
    ensures r == out + Text(Prefixed("#. ", SplitLines(t)))
  {
    r := out;
    var text := t;
    ghost var done: seq<string> := [];
    var delim := FirstIndex(text, '\n');
    while delim != |text|
      invariant delim == FirstIndex(text, '\n')
      invariant SplitLines(t) == done + SplitLines(text)
      invariant r == out + Text(Prefixed("#. ", done))
      decreases |text|
    {
      SplitStep(t, done, text);
      EmitPrefixed(out, "#. ", done, text[..delim]);
      r := r + "#. " + text[..delim] + "\n";
      done := done + [text[..delim]];
      text := text[delim + 1..];
      delim := FirstIndex(text, '\n');
    }
    EmitPrefixed(out, "#. ", done, text);
    r := r + "#. " + text + "\n";
    assert SplitLines(text) == [text];
  }

  lemma SplitStep(t: string, done: seq<string>, text: string)
    requires FirstIndex(text, '\n') < |text|
    requires SplitLines(t) == done + SplitLines(text)
    ensures var d := FirstIndex(text, '\n');
      SplitLines(t) == done + [text[..d]] + SplitLines(text[d + 1..])
  {
  }

  lemma EmitPrefixed(out: string, p: string, done: seq<string>, piece: string)
    ensures out + Text(Prefixed(p, done)) + p + piece + "\n" == out + Text(Prefixed(p, done + [piece]))
  {
    PrefixedSnoc(p, done, piece);
    TextOne(p + piece);
    Emit(out, Prefixed(p, done), [p + piece]);
  }

  method WriteEntry(out: string, e: Entry) returns (r: string)
    ensures r == out + Text(EntryLines(e))
  {
    r := out;
    if e.comment.Some? {
      r := WriteCommentText(r, e.comment.value);
    } else {
      assert out + Text(CommentPieces(e.comment)) == out;
    }
    if e.location.Some? {
      TextOne("#: " + e.location.value);
      r := r + "#: " + e.location.value + "\n";
      Emit(out, CommentPieces(e.comment), ["#: " + e.location.value]);
    } else {
      assert EntryLines(e) == CommentPieces(e.comment);
    }
  }

  method WriteTranslatorComments(out: string, tcs: seq<string>) returns (r: string)
    ensures r == out + Text(Prefixed("# ", tcs))
  {
    r := out;
    var i := 0;
    while i < |tcs|
      invariant 0 <= i <= |tcs|
      invariant r == out + Text(Prefixed("# ", tcs[..i]))
    {
      assert Prefixed("# ", tcs[..i + 1]) == Prefixed("# ", tcs[..i]) + ["# " + tcs[i]];
      TextOne("# " + tcs[i]);
      Emit(out, Prefixed("# ", tcs[..i]), ["# " + tcs[i]]);
      r := r + "# " + tcs[i] + "\n";
      i := i + 1;
    }
    assert tcs[..i] == tcs;
  }

  method WriteExtracted(out: string, ec: seq<Entry>) returns (r: string)
    ensures r == out + Text(ExtractedLines(ec))
  {
    r := out;
    var j := 0;
    while j < |ec|
      invariant 0 <= j <= |ec|
      invariant r == out + Text(ExtractedLines(ec[..j]))
    {
      assert ec[..j + 1][..j] == ec[..j];
      Emit(out, ExtractedLines(ec[..j]), EntryLines(ec[j]));
      r := WriteEntry(r, ec[j]);
      j := j + 1;
    }
    assert ec[..j] == ec;
  }

  method WriteContext(out: string, context: Option<string>) returns (r: string)
    ensures r == out + Text(ContextLines(Octal, context))
  {
    r := out;
    if context.Some? {
      r := WriteLine(r, "msgctxt ", context.value);
    }
  }

  /** The `msgstr` rules: with a plural, `msgid_plural` and one indexed line
      per translation; without, the first translation or `""`. */
  method WriteMsgstr(out: string, plural: Option<string>, ts: seq<string>) returns (r: string)
    ensures r == out + Text(MsgstrLines(Octal, plural, ts))
  {
    if plural.Some? {
      r := WriteLine(out, "msgid_plural ", plural.value);
      var l := "msgid_plural " + Quoted(plural.value, Octal);
      r := WriteTranslations(r, ts);
      Emit(out, [l], IndexedLines(Octal, ts, 0));
    } else if ts == [] {
      r := out + "msgstr " + "\"\"\n";
      TextOne("msgstr \"\"");
    } else {
      r := WriteLine(out, "msgstr ", ts[0]);
    }
  }

  /** The keyword block. */
  method WriteKeywords(out: string, k: Keywords) returns (r: string)
    ensures r == out + Text(KeywordLines(Octal, k))
  {
    var cs := ContextLines(Octal, k.context);
    var m := "msgid " + Quoted(k.singular, Octal);
    r := WriteContext(out, k.context);
    r := WriteLine(r, "msgid ", k.singular);
    Emit(out, cs, [m]);
    r := WriteMsgstr(r, k.plural, k.translation);
    Emit(out, cs + [m], MsgstrLines(Octal, k.plural, k.translation));
  }

  /** One `msgstr[i]` line per translation, `i` counting from 0. */
  method WriteTranslations(out: string, ts: seq<string>) returns (r: string)
    ensures r == out + Text(IndexedLines(Octal, ts, 0))
  {
    r := out;
    var i := 0;
    while i < |ts|
      invariant 0 <= i <= |ts|
      invariant r == out + Text(IndexedLines(Octal, ts[..i], 0))
    {
      r := WriteLine(r, "msgstr[" + Decimal(i) + "] ", ts[i]);
      assert ts[..i + 1] == ts[..i] + [ts[i]];
      IndexedSnoc(Octal, ts[..i], ts[i], 0);
      Emit(out, IndexedLines(Octal, ts[..i], 0), [MsgstrPrefix(i) + Quoted(ts[i], Octal)]);
      i := i + 1;
    }
    assert ts[..i] == ts;
  }

  method WriteFlags(out: string, flags: Option<string>) returns (r: string)
    ensures r == out + Text(FlagLines(flags))
  {
    r := out;
    if flags.Some? {
      TextOne("#, " + flags.value);
      r := r + "#, " + flags.value + "\n";
    }
  }

  /** `operator<<(Message)`. */
  method WriteMessage(out: string, m: Message) returns (r: string)
    ensures r == out + Text(MessageLines(m))
  {
    ghost var tl := Prefixed("# ", m.translatorComments);
    ghost var el := ExtractedLines(m.extractedComments);
    r := WriteTranslatorComments(out, m.translatorComments);
    r := WriteExtracted(r, m.extractedComments);
    Emit(out, tl, el);
    r := WriteFlags(r, m.flags);
    Emit(out, tl + el, FlagLines(m.flags));
    r := WriteKeywords(r, KeywordsOf(m));
    Emit(out, CommentBlock(m), KeywordLines(Octal, KeywordsOf(m)));
  }

  // ------------------------------------------------------------ reading back

  /** The number of leading lines that start with `p`. */
  function PrefixRun(p: string, lines: seq<string>): (n: nat)
    ensures n <= |lines|
    ensures forall i :: 0 <= i < n ==> StripPrefix(p, lines[i]).Some?
    ensures n < |lines| ==> StripPrefix(p, lines[n]).None?
  {
    if lines == [] || StripPrefix(p, lines[0]).None? then 0 else 1 + PrefixRun(p, lines[1..])
  }

  function Unprefixed(p: string, lines: seq<string>): seq<string> {
    seq(|lines|, i requires 0 <= i < |lines| => if |p| <= |lines[i]| then lines[i][|p|..] else lines[i])
  }

  /** The entry the lines of one extracted comment denote: the `#.` lines
      joined by line breaks, and the `#:` line after them. */
  function ReadEntry(lines: seq<string>): Entry {
    var n := PrefixRun("#. ", lines);
    Entry(if n < |lines| then StripPrefix("#: ", lines[n]) else None,
          if n == 0 then None else Some(JoinLines(Unprefixed("#. ", lines[..n]))))
  }

  lemma UnprefixedPrefixed(p: string, ps: seq<string>)
    ensures Unprefixed(p, Prefixed(p, ps)) == ps
  {
    var ls := Prefixed(p, ps);
    forall i | 0 <= i < |ps| ensures Unprefixed(p, ls)[i] == ps[i] {
      assert ls[i] == p + ps[i] && ls[i][|p|..] == ps[i];
    }
  }

  lemma {:induction false} PrefixRunPrefixed(p: string, ps: seq<string>, tail: seq<string>)
    requires tail == [] || StripPrefix(p, tail[0]).None?
    ensures PrefixRun(p, Prefixed(p, ps) + tail) == |ps|
    decreases |ps|
  {
    var ls := Prefixed(p, ps) + tail;
    if ps == [] {
      assert ls == tail;
    } else {
      assert ls[0] == p + ps[0] && ls[0][..|p|] == p;
      assert ls[1..] == Prefixed(p, ps[1..]) + tail;
      PrefixRunPrefixed(p, ps[1..], tail);
    }
  }

  /** Each extracted comment is read back from its lines: the `#.` lines of
      its comment come first, then its `#:` reference line. */
  lemma ReadEntryLines(e: Entry)
    ensures ReadEntry(EntryLines(e)) == e
  {
    var ls := EntryLines(e);
    var tail := if e.location.Some? then ["#: " + e.location.value] else [];
    var ps := if e.comment.Some? then SplitLines(e.comment.value) else [];
    assert CommentPieces(e.comment) == Prefixed("#. ", ps);
    if e.location.Some? {
      var l := "#: " + e.location.value;
      assert l[..3] == "#: " && l[1] == ':';
      assert StripPrefix("#. ", l).None?;
      assert StripPrefix("#: ", l) == Some(e.location.value) by {
        assert l[3..] == e.location.value;
      }
    }
    PrefixRunPrefixed("#. ", ps, tail);
    assert ls[..|ps|] == Prefixed("#. ", ps) && ls[|ps|..] == tail;
    UnprefixedPrefixed("#. ", ps);
    if e.comment.Some? {
      JoinSplit(e.comment.value);
    }
  }

  /** Every line of the comment block starts with `#`. */
  lemma CommentBlockHash(m: Message)
    ensures forall i :: 0 <= i < |CommentBlock(m)| ==> |CommentBlock(m)[i]| > 0 && CommentBlock(m)[i][0] == '#'
  {
    ExtractedHash(m.extractedComments);
  }

  lemma {:induction false} ExtractedHash(ec: seq<Entry>)
    ensures forall i :: 0 <= i < |ExtractedLines(ec)| ==> |ExtractedLines(ec)[i]| > 0 && ExtractedLines(ec)[i][0] == '#'
    decreases |ec|
  {
    if ec != [] {
      ExtractedHash(ec[..|ec| - 1]);
    }
  }

  /** Below its `#`-lines a written message reads back to its context, msgid,
      plural and the translations the keyword block keeps. */
  lemma ReadMessageKeywords(m: Message, policy: HexPolicy)
    requires KeywordsBytes(KeywordsOf(m))
    ensures ReadKeywords(DropComments(MessageLines(m)), policy) == Some(Kept(KeywordsOf(m)))
  {
    CommentBlockHash(m);
    DropCommentBlock(CommentBlock(m), KeywordsOf(m), Octal);
    ReadKeywordLines(KeywordsOf(m), Octal, policy);
  }

  /** The fields written verbatim on a `#`-line hold no line break. */
  predicate NoBreaks(m: Message) {
    (forall i :: 0 <= i < |m.translatorComments| ==> '\n' !in m.translatorComments[i]) &&
    (forall i :: 0 <= i < |m.extractedComments| && m.extractedComments[i].location.Some? ==>
       '\n' !in m.extractedComments[i].location.value) &&
    (m.flags.Some? ==> '\n' !in m.flags.value)
  }

  /** Split at its line breaks, the written text gives back the lines, comment
      texts being split into one `#.` line per piece. */
  lemma MessageText(m: Message)
    requires NoBreaks(m)
    ensures SplitLines(Text(MessageLines(m))) == MessageLines(m) + [""]
  {
    var ls := MessageLines(m);
    var k := KeywordsOf(m);
    NoBreakExtracted(m.extractedComments);
    forall i | 0 <= i < |ls| ensures '\n' !in ls[i] {
      var tl := Prefixed("# ", m.translatorComments);
      var el := ExtractedLines(m.extractedComments);
      var fl := FlagLines(m.flags);
      var kl := KeywordLines(Octal, k);
      assert ls == tl + el + fl + kl;
      if i < |tl| {
        assert ls[i] == "# " + m.translatorComments[i];
      } else if i < |tl| + |el| {
        assert ls[i] == el[i - |tl|];
      } else if i < |tl| + |el| + |fl| {
        assert ls[i] == "#, " + m.flags.value;
      } else {
        assert ls[i] == kl[i - |tl| - |el| - |fl|];
        KeywordNoBreak(k, Octal, i - |tl| - |el| - |fl|);
      }
    }
    TextSplit(ls);
  }

  lemma {:induction false} NoBreakExtracted(ec: seq<Entry>)
    requires forall i :: 0 <= i < |ec| && ec[i].location.Some? ==> '\n' !in ec[i].location.value
    ensures forall i :: 0 <= i < |ExtractedLines(ec)| ==> '\n' !in ExtractedLines(ec)[i]
    decreases |ec|
  {
    if ec != [] {
      var e := ec[|ec| - 1];
      NoBreakExtracted(ec[..|ec| - 1]);
      var ps := if e.comment.Some? then SplitLines(e.comment.value) else [];
      assert CommentPieces(e.comment) == Prefixed("#. ", ps);
      forall j | 0 <= j < |EntryLines(e)| ensures '\n' !in EntryLines(e)[j] {
        if j < |ps| {
          assert EntryLines(e)[j] == "#. " + ps[j];
        } else {
          assert EntryLines(e)[j] == "#: " + e.location.value;
        }
      }
    }
  }
}
