/** lib/write_po.cpp: the PO writer of the library, over messages whose
    comments are one list of tagged `#`-lines.  As in the merge tool's writer
    a stream is the text written so far; non-printable bytes are written as
    `\x` and two lower-case hex digits. */
module WritePoLib {
  import opened Wrappers
  import opened PoText
  import opened PoFormat
  import opened Ast

  /** One iteration of `write_escaped`'s `switch`; the digits are looked up
      in `"0123456789abcdef"`. */
  method EscapeOne(c: char) returns (w: string)
    ensures w == EscapeChar(c, Hex)
  {
    if c == '\\' {
      w := "\\\\";
    } else if c == '"' {
      w := "\\\"";
    } else if c == '\n' {
      w := "\\n";
    } else if c == '\t' {
      w := "\\t";
    } else if c == 8 as char {
      w := "\\b";
    } else if c == '\r' {
      w := "\\r";
    } else if c == 12 as char {
      w := "\\f";
    } else if c == 11 as char {
      w := "\\v";
    } else if c == 7 as char {
      w := "\\a";
    } else if IsPrint(c) {
      w := [c];
    } else {
      var b := Byte(c);
      w := ['\\', 'x', HexDigit(b / 16), HexDigit(b % 16)];
    }
  }

  /** `write_escaped`: `s` between double quotes, its special characters escaped. */
  method WriteEscaped(out: string, s: string) returns (r: string)
    ensures r == out + Quoted(s, Hex)
  {
    r := out + "\"";
    var i := 0;
    while i < |s|
      invariant 0 <= i <= |s|
      invariant r == out + "\"" + Escaped(s[..i], Hex)
    {
      var w := EscapeOne(s[i]);
      EscapedSnoc(s, i, Hex);
      r := r + w;
      i := i + 1;
    }
    assert s[..i] == s;
    r := r + "\"";
  }

  /** `operator<<(Comment)`: `#`, the kind's marker, a space, the content. */
  method WriteComment(out: string, c: Comment) returns (r: string)
    ensures r == out + Text([CommentLine(c)])
  {
    var marker: string;
    match c.kind {
      case Translator => marker := "";
      case Extracted => marker := ".";
      case Reference => marker := ":";
      case Flags => marker := ",";
      case Previous => marker := "|";
    }
    r := out + "#" + marker + " " + c.content + "\n";
    TextOne(CommentLine(c));
  }

  /** A keyword followed by a quoted string, on a line of its own. */
  method WriteLine(out: string, keyword: string, s: string) returns (r: string)
    ensures r == out + Text([keyword + Quoted(s, Hex)])
  {
    r := WriteEscaped(out + keyword, s);
    r := r + "\n";
    TextOne(keyword + Quoted(s, Hex));
  }

  // ----------------------------------------------------------------- message

  /** One line per comment, in list order. */
  function CommentLines(cs: seq<Comment>): (r: seq<string>)
    ensures |r| == |cs|
  {
    seq(|cs|, i requires 0 <= i < |cs| => CommentLine(cs[i]))
  }

  function KeywordsOf(m: LibMessage): Keywords {
    Keywords(m.context, m.singular, m.plural, m.translation)
  }

  /** The lines `operator<<(Message)` writes. */
  function MessageLines(m: LibMessage): seq<string> {
    CommentLines(m.comments) + KeywordLines(Hex, KeywordsOf(m))
  }

  method WriteComments(out: string, cs: seq<Comment>) returns (r: string)
    ensures r == out + Text(CommentLines(cs))
  {
    r := out;
    var i := 0;
    while i < |cs|
      invariant 0 <= i <= |cs|
      invariant r == out + Text(CommentLines(cs[..i]))
    {
      assert CommentLines(cs[..i + 1]) == CommentLines(cs[..i]) + [CommentLine(cs[i])];
      Emit(out, CommentLines(cs[..i]), [CommentLine(cs[i])]);
      r := WriteComment(r, cs[i]);
      i := i + 1;
    }
    assert cs[..i] == cs;
  }

  method WriteContext(out: string, context: Option<string>) returns (r: string)
    ensures r == out + Text(ContextLines(Hex, context))
  {
    r := out;
    if context.Some? {
      r := WriteLine(r, "msgctxt ", context.value);
    }
  }

  /** With a plural, `msgid_plural` and one indexed line per translation;
      without, the first translation or `""` (further ones are dropped). */
  method WriteMsgstr(out: string, plural: Option<string>, ts: seq<string>) returns (r: string)
    ensures r == out + Text(MsgstrLines(Hex, plural, ts))
  {
    if plural.Some? {
      r := WriteLine(out, "msgid_plural ", plural.value);
      var l := "msgid_plural " + Quoted(plural.value, Hex);
      r := WriteTranslations(r, ts);
      Emit(out, [l], IndexedLines(Hex, ts, 0));
    } else if ts == [] {
      r := out + "msgstr " + "\"\"\n";
      TextOne("msgstr \"\"");
    } else {
      r := WriteLine(out, "msgstr ", ts[0]);
    }
  }

  /** One `msgstr[i]` line per translation, `i` counting from 0. */
  method WriteTranslations(out: string, ts: seq<string>) returns (r: string)
    ensures r == out + Text(IndexedLines(Hex, ts, 0))
  {
    r := out;
    var i := 0;
    while i < |ts|
      invariant 0 <= i <= |ts|
      invariant r == out + Text(IndexedLines(Hex, ts[..i], 0))
    {
      r := WriteLine(r, "msgstr[" + Decimal(i) + "] ", ts[i]);
      assert ts[..i + 1] == ts[..i] + [ts[i]];
      IndexedSnoc(Hex, ts[..i], ts[i], 0);
      Emit(out, IndexedLines(Hex, ts[..i], 0), [MsgstrPrefix(i) + Quoted(ts[i], Hex)]);
      i := i + 1;
    }
    assert ts[..i] == ts;
  }

  /** The keyword block. */
  method WriteKeywords(out: string, k: Keywords) returns (r: string)
    ensures r == out + Text(KeywordLines(Hex, k))
  {
    var cs := ContextLines(Hex, k.context);
    var m := "msgid " + Quoted(k.singular, Hex);
    r := WriteContext(out, k.context);
    r := WriteLine(r, "msgid ", k.singular);
    Emit(out, cs, [m]);
    r := WriteMsgstr(r, k.plural, k.translation);
    Emit(out, cs + [m], MsgstrLines(Hex, k.plural, k.translation));
  }

  /** `operator<<(Message)`. */
  method WriteMessage(out: string, m: LibMessage) returns (r: string)
    ensures r == out + Text(MessageLines(m))
  {
    r := WriteComments(out, m.comments);
    r := WriteKeywords(r, KeywordsOf(m));
    Emit(out, CommentLines(m.comments), KeywordLines(Hex, KeywordsOf(m)));
  }

  // ------------------------------------------------------------ reading back

  /** The first lines of a written message are its comments, each read back
      with its kind and content. */
  lemma ReadComments(m: LibMessage)
    ensures forall i :: 0 <= i < |m.comments| ==> ReadComment(MessageLines(m)[i]) == Some(m.comments[i])
  {
    forall i | 0 <= i < |m.comments| ensures ReadComment(MessageLines(m)[i]) == Some(m.comments[i]) {
      assert MessageLines(m)[i] == CommentLine(m.comments[i]);
      ReadCommentLine(m.comments[i]);
    }
  }

  /** Below its comments a written message reads back to its context, msgid,
      plural and kept translations, by a reader whose `\x` takes at most two
      hex digits. */
  lemma ReadMessageKeywords(m: LibMessage)
    requires KeywordsBytes(KeywordsOf(m))
    ensures ReadKeywords(DropComments(MessageLines(m)), AtMostTwo) == Some(Kept(KeywordsOf(m)))
  {
    var cl := CommentLines(m.comments);
    forall i | 0 <= i < |cl| ensures |cl[i]| > 0 && cl[i][0] == '#' {
      ReadCommentLine(m.comments[i]);
    }
    DropCommentBlock(cl, KeywordsOf(m), Hex);
    ReadKeywordLines(KeywordsOf(m), Hex, AtMostTwo);
  }

  /** A reader whose `\x` is greedy does not: the msgid made of byte 1
      followed by `a` is written as `"\x01a"` and read as byte 26. */
  lemma GreedyReaderMisreads()
    ensures var m := LibMessage([], None, [1 as char, 'a'], None, []);
      ReadKeywords(MessageLines(m), Greedy) == Some(Keywords(None, [26 as char], None, [""]))
  {
    var m := LibMessage([], None, [1 as char, 'a'], None, []);
    var q := Quoted([1 as char, 'a'], Hex);
    GreedyHexMisreads();
    var ls := MessageLines(m);
    assert CommentLines([]) == [];
    assert "msgstr " + "\"\"" == "msgstr \"\"";
    assert MsgstrLines(Hex, None, []) == ["msgstr \"\""];
    assert ls == ["msgid " + q, "msgstr \"\""];
    DistinctPrefixes(q);
    var l0 := "msgid " + q;
    assert l0[..6] == "msgid " && l0[6..] == q;
    var l1 := "msgstr \"\"";
    assert l1[..7] == "msgstr " && l1[7..] == "\"\"";
    assert Unquote("\"\"", Greedy) == Some([]);
  }

  /** The fields written verbatim hold no line break. */
  predicate NoBreaks(m: LibMessage) {
    forall i :: 0 <= i < |m.comments| ==> '\n' !in m.comments[i].content
  }

  lemma CommentsNoBreak(cs: seq<Comment>)
    requires forall i :: 0 <= i < |cs| ==> '\n' !in cs[i].content
    ensures forall i :: 0 <= i < |cs| ==> '\n' !in CommentLines(cs)[i]
  {
    forall i | 0 <= i < |cs| ensures '\n' !in CommentLines(cs)[i] {
      assert '\n' !in Marker(cs[i].kind);
    }
  }

  /** Split at its line breaks, the written text gives back the lines. */
  lemma MessageText(m: LibMessage)
    requires NoBreaks(m)
    ensures SplitLines(Text(MessageLines(m))) == MessageLines(m) + [""]
  {
    var k := KeywordsOf(m);
    var cl := CommentLines(m.comments);
    var kl := KeywordLines(Hex, k);
    var ls := cl + kl;
    CommentsNoBreak(m.comments);
    forall i | 0 <= i < |ls| ensures '\n' !in ls[i] {
      if i >= |cl| {
        assert ls[i] == kl[i - |cl|];
        KeywordNoBreak(k, Hex, i - |cl|);
      }
    }
    TextSplit(ls);
  }
}
