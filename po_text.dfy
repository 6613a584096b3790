/** The character-level rules of the PO writers: C escape sequences
    (section 6.4.4.4 of ISO/IEC 9899:2011) inside a quoted string, the
    splitting of a comment at its line breaks, and decimal numbers.  The
    decoder here exists to state what the writers' output means: it reads
    the body of a C string literal back into the characters it denotes. */
module PoText {
  import opened Wrappers

  // ------------------------------------------------------------ characters

  /** `std::isprint` in the "C" locale: the bytes 0x20 to 0x7E. */
  predicate IsPrint(c: char) {
    0x20 <= c as int <= 0x7E
  }

  /** A `std::string` holds bytes: every character is below 256. */
  predicate IsBytes(s: string) {
    forall i :: 0 <= i < |s| ==> s[i] as int < 256
  }

  /** `std::uint8_t(c)`. */
  function Byte(c: char): (b: nat)
    ensures b < 256
    ensures c as int < 256 ==> b == c as int
  {
    c as int % 256
  }

  /** Entry `k` of the digit table `0123456789abcdef`. */
  function HexDigit(k: nat): (d: char)
    requires k < 16
    ensures IsPrint(d) && IsHexDigit(d) && DigitValue(d) == k
    ensures k < 8 ==> IsOctDigit(d)
    ensures k < 10 ==> '0' <= d <= '9'
  {
    if k < 10 then ('0' as int + k) as char else ('a' as int + k - 10) as char
  }

  /** The nine characters a writer escapes with a backslash and a letter, and
      that letter. */
  function SimpleEscape(c: char): Option<char> {
    if c == '\\' then Some('\\')
    else if c == '"' then Some('"')
    else if c == '\n' then Some('n')
    else if c == '\t' then Some('t')
    else if c == 8 as char then Some('b')
    else if c == '\r' then Some('r')
    else if c == 12 as char then Some('f')
    else if c == 11 as char then Some('v')
    else if c == 7 as char then Some('a')
    else None
  }

  /** The two styles of escaping a non-printable byte: common/write_po.cpp
      writes three octal digits, lib/write_po.cpp writes `\x` and two hex digits. */
  datatype Style = Octal | Hex

  /** How one character of a string is written between the quotes. */
  function EscapeChar(c: char, style: Style): (r: string)
    ensures 1 <= |r| <= 4
    ensures forall i :: 0 <= i < |r| ==> IsPrint(r[i])
    ensures |r| == 1 <==> IsPrint(c) && SimpleEscape(c).None?
    ensures |r| == 1 ==> r == [c]
    ensures |r| > 1 ==> r[0] == '\\'
  {
    match SimpleEscape(c)
    case Some(e) => ['\\', e]
    case None =>
      if IsPrint(c) then [c]
      else if style == Octal then
        ['\\', HexDigit(Byte(c) / 64), HexDigit(Byte(c) % 64 / 8), HexDigit(Byte(c) % 8)]
      else
        ['\\', 'x', HexDigit(Byte(c) / 16), HexDigit(Byte(c) % 16)]
  }

  /** The body of the quoted form of `s`. */
  function Escaped(s: string, style: Style): (r: string)
    ensures forall i :: 0 <= i < |r| ==> IsPrint(r[i])
    ensures |s| <= |r| <= 4 * |s|
  {
    if s == [] then [] else EscapeChar(s[0], style) + Escaped(s[1..], style)
  }

  /** `write_escaped`'s output: the escaped body between double quotes. */
  function Quoted(s: string, style: Style): string {
    "\"" + Escaped(s, style) + "\""
  }

  lemma {:induction false} EscapedAppend(a: string, b: string, style: Style)
    ensures Escaped(a + b, style) == Escaped(a, style) + Escaped(b, style)
    decreases |a|
  {
    if a == [] {
      assert a + b == b;
    } else {
      assert (a + b)[0] == a[0] && (a + b)[1..] == a[1..] + b;
      EscapedAppend(a[1..], b, style);
    }
  }

  /** The quoted form begins and ends with a double quote and holds no
      line break. */
  lemma QuotedShape(s: string, style: Style)
    ensures Quoted(s, style)[0] == '"' && Quoted(s, style)[|Quoted(s, style)| - 1] == '"'
    ensures '\n' !in Quoted(s, style)
  {
    var q := Quoted(s, style);
    var e := Escaped(s, style);
    assert q == ['"'] + e + ['"'];
    forall i | 0 <= i < |q| ensures q[i] != '\n' {
      if 0 < i < |q| - 1 {
        assert q[i] == e[i - 1] && IsPrint(e[i - 1]);
      }
    }
  }

  // --------------------------------------------------------------- decoding

  /** How a reader takes the digits of a `\x` escape: all of them, as the C
      standard says, or at most two. */
  datatype HexPolicy = Greedy | AtMostTwo

  predicate IsOctDigit(d: char) {
    '0' <= d <= '7'
  }

  predicate IsHexDigit(d: char) {
    '0' <= d <= '9' || 'a' <= d <= 'f' || 'A' <= d <= 'F'
  }

  function DigitValue(d: char): nat
    requires IsHexDigit(d)
  {
    if '0' <= d <= '9' then d as int - '0' as int
    else if 'a' <= d <= 'f' then d as int - 'a' as int + 10
    else d as int - 'A' as int + 10
  }

  /** The value of a digit string in base `base`. */
  function Number(ds: string, base: nat): nat
    requires forall i :: 0 <= i < |ds| ==> IsHexDigit(ds[i])
  {
    if ds == [] then 0 else Number(ds[..|ds| - 1], base) * base + DigitValue(ds[|ds| - 1])
  }

  /** The number of leading characters of `s` that `digit` accepts, at most `max`. */
  function DigitRun(s: string, max: nat, octal: bool): (n: nat)
    ensures n <= max && n <= |s|
    ensures forall i :: 0 <= i < n ==> IsHexDigit(s[i]) && (octal ==> IsOctDigit(s[i]))
    ensures n < max && n < |s| ==> !(octal && IsOctDigit(s[n])) && !(!octal && IsHexDigit(s[n]))
  {
    if max == 0 || s == [] || !(if octal then IsOctDigit(s[0]) else IsHexDigit(s[0])) then 0
    else 1 + DigitRun(s[1..], max - 1, octal)
  }

  /** The character a simple escape sequence `\e` denotes. */
  function SimpleValue(e: char): Option<char> {
    if e == '\\' || e == '"' || e == '\'' || e == '?' then Some(e)
    else if e == 'n' then Some('\n')
    else if e == 't' then Some('\t')
    else if e == 'b' then Some(8 as char)
    else if e == 'r' then Some('\r')
    else if e == 'f' then Some(12 as char)
    else if e == 'v' then Some(11 as char)
    else if e == 'a' then Some(7 as char)
    else None
  }

  function Cons(c: char, r: Option<string>): Option<string> {
    match r
    case None => None
    case Some(t) => Some([c] + t)
  }

  /** The characters the body of a string literal denotes, or `None` when the
      body holds a bare double quote or line break, an unknown escape, or a
      numeric escape beyond a byte. */
  function Unescape(body: string, policy: HexPolicy): Option<string>
    decreases |body|
  {
    if body == [] then Some([])
    else if body[0] == '"' || body[0] == '\n' then None
    else if body[0] != '\\' then Cons(body[0], Unescape(body[1..], policy))
    else if |body| == 1 then None
    else if SimpleValue(body[1]).Some? then Cons(SimpleValue(body[1]).value, Unescape(body[2..], policy))
    else if IsOctDigit(body[1]) then
      var n := DigitRun(body[1..], 3, true);
      var v := Number(body[1..1 + n], 8);
      if v > 255 then None else Cons(v as char, Unescape(body[1 + n..], policy))
    else if body[1] == 'x' then
      var n := DigitRun(body[2..], if policy == Greedy then |body| else 2, false);
      if n == 0 then None
      else
        var v := Number(body[2..2 + n], 16);
        if v > 255 then None else Cons(v as char, Unescape(body[2 + n..], policy))
    else None
  }

  /** The characters a whole quoted string denotes. */
  function Unquote(q: string, policy: HexPolicy): Option<string> {
    if |q| >= 2 && q[0] == '"' && q[|q| - 1] == '"' then Unescape(q[1..|q| - 1], policy) else None
  }

  /** A reader whose `\x` takes at most two digits, or any reader of octal
      escapes, reads back what the writer wrote. */
  predicate Compatible(style: Style, policy: HexPolicy) {
    style == Octal || policy == AtMostTwo
  }

  /** Three octal digits of a byte denote that byte. */
  lemma OctalDigits(b: nat)
    requires b < 256
    ensures Number([HexDigit(b / 64), HexDigit(b % 64 / 8), HexDigit(b % 8)], 8) == b
  {
    var ds := [HexDigit(b / 64), HexDigit(b % 64 / 8), HexDigit(b % 8)];
    assert ds[..|ds| - 1] == [ds[0], ds[1]];
    assert [ds[0], ds[1]][..1] == [ds[0]] && [ds[0]][..0] == [];
    assert Number([ds[0]], 8) == b / 64;
    assert Number([ds[0], ds[1]], 8) == b / 64 * 8 + b % 64 / 8;
    var q, r := b / 64, b % 64;
    assert b == q * 64 + r && r == r / 8 * 8 + r % 8 && r % 8 == b % 8;
  }

  /** Two hex digits of a byte denote that byte. */
  lemma HexPair(b: nat)
    requires b < 256
    ensures Number([HexDigit(b / 16), HexDigit(b % 16)], 16) == b
  {
    var ds := [HexDigit(b / 16), HexDigit(b % 16)];
    assert ds[..1] == [ds[0]] && [ds[0]][..0] == [];
    assert Number([ds[0]], 16) == b / 16;
  }

  /** Decoding one written character in front of whatever follows. */
  lemma UnescapeChar(c: char, rest: string, style: Style, policy: HexPolicy)
    requires c as int < 256 && Compatible(style, policy)
    ensures Unescape(EscapeChar(c, style) + rest, policy) == Cons(c, Unescape(rest, policy))
  {
    if SimpleEscape(c).Some? {
      UnescapeSimple(c, rest, policy);
    } else if IsPrint(c) {
      var body := [c] + rest;
      assert body[0] == c && body[1..] == rest;
    } else if style == Octal {
      UnescapeOctal(c, rest, policy);
    } else {
      UnescapeHex(c, rest);
    }
  }

  lemma UnescapeSimple(c: char, rest: string, policy: HexPolicy)
    requires SimpleEscape(c).Some?
    ensures Unescape(['\\', SimpleEscape(c).value] + rest, policy) == Cons(c, Unescape(rest, policy))
  {
    var body := ['\\', SimpleEscape(c).value] + rest;
    assert body[0] == '\\' && body[1] == SimpleEscape(c).value && body[2..] == rest;
  }

  lemma UnescapeOctal(c: char, rest: string, policy: HexPolicy)
    requires c as int < 256
    ensures var b := Byte(c);
      Unescape(['\\', HexDigit(b / 64), HexDigit(b % 64 / 8), HexDigit(b % 8)] + rest, policy) == Cons(c, Unescape(rest, policy))
  {
    var b := Byte(c);
    var ds := [HexDigit(b / 64), HexDigit(b % 64 / 8), HexDigit(b % 8)];
    var body := ['\\'] + ds + rest;
    assert ['\\', HexDigit(b / 64), HexDigit(b % 64 / 8), HexDigit(b % 8)] + rest == body;
    OctalDigits(b);
    assert body[1..] == ds + rest;
    OctalRun(ds, rest);
    assert body[1..1 + 3] == ds && body[1 + 3..] == rest;
    assert (b as char) == c;
  }

  lemma OctalRun(ds: string, rest: string)
    requires |ds| == 3 && forall i :: 0 <= i < 3 ==> IsOctDigit(ds[i]) && IsHexDigit(ds[i])
    ensures DigitRun(ds + rest, 3, true) == 3
  {
    var t := ds + rest;
    assert t[1..][1..][1..] == rest;
    assert t[0] == ds[0] && t[1..][0] == ds[1] && t[1..][1..][0] == ds[2];
  }

  lemma UnescapeHex(c: char, rest: string)
    requires c as int < 256
    ensures var b := Byte(c);
      Unescape(['\\', 'x', HexDigit(b / 16), HexDigit(b % 16)] + rest, AtMostTwo) == Cons(c, Unescape(rest, AtMostTwo))
  {
    var b := Byte(c);
    var ds := [HexDigit(b / 16), HexDigit(b % 16)];
    var body := ['\\', 'x'] + ds + rest;
    assert ['\\', 'x', HexDigit(b / 16), HexDigit(b % 16)] + rest == body;
    HexPair(b);
    assert body[2..] == ds + rest && body[1] == 'x';
    var t := ds + rest;
    assert t[1..][1..] == rest && t[0] == ds[0] && t[1..][0] == ds[1];
    assert DigitRun(t, 2, false) == 2;
    assert body[2..2 + 2] == ds && body[2 + 2..] == rest;
    assert (b as char) == c;
  }

  lemma {:induction false} UnescapeEscaped(s: string, style: Style, policy: HexPolicy)
    requires IsBytes(s) && Compatible(style, policy)
    ensures Unescape(Escaped(s, style), policy) == Some(s)
    decreases |s|
  {
    if s != [] {
      UnescapeEscaped(s[1..], style, policy);
      UnescapeChar(s[0], Escaped(s[1..], style), style, policy);
      assert s == [s[0]] + s[1..];
    }
  }

  /** `write_escaped` loses nothing: its output reads back to its input. */
  lemma UnquoteQuoted(s: string, style: Style, policy: HexPolicy)
    requires IsBytes(s) && Compatible(style, policy)
    ensures Unquote(Quoted(s, style), policy) == Some(s)
  {
    var q := Quoted(s, style);
    assert q[1..|q| - 1] == Escaped(s, style);
    UnescapeEscaped(s, style, policy);
  }

  /** A non-printable byte written in hex and followed by a hex digit is
      misread by a reader whose `\x` is greedy: byte 1 then `a` reads as byte 26. */
  lemma GreedyHexMisreads()
    ensures Quoted([1 as char, 'a'], Hex) == "\"\\x01a\""
    ensures Unquote(Quoted([1 as char, 'a'], Hex), Greedy) == Some([26 as char])
    ensures Unquote(Quoted([1 as char, 'a'], Hex), AtMostTwo) == Some([1 as char, 'a'])
  {
    var s := [1 as char, 'a'];
    EscapedOneA();
    var q := Quoted(s, Hex);
    assert q[1..|q| - 1] == "\\x01a";
    GreedyBody();
    UnquoteQuoted(s, Hex, AtMostTwo);
  }

  lemma EscapedOneA()
    ensures Escaped([1 as char, 'a'], Hex) == "\\x01a"
  {
    var s := [1 as char, 'a'];
    assert s[1..] == ['a'] && s[1..][1..] == [];
    assert EscapeChar(1 as char, Hex) == "\\x01";
    assert Escaped(['a'], Hex) == "a" + Escaped([], Hex);
  }

  lemma GreedyBody()
    ensures Unescape("\\x01a", Greedy) == Some([26 as char])
  {
    var body := "\\x01a";
    var t := body[2..];
    assert t == "01a" && t[1..] == "1a" && t[1..][1..] == "a" && "a"[1..] == [];
    assert DigitRun(t, |body|, false) == 3;
    assert body[2..2 + 3] == "01a" && "01a"[..2] == "01" && "01"[..1] == "0" && "0"[..0] == [];
    assert Number("01a", 16) == 26;
    assert body[2 + 3..] == [];
    assert SimpleValue(body[1]).None? && !IsOctDigit(body[1]) && body[1] == 'x';
    assert Unescape(body, Greedy) == Cons(26 as char, Unescape([], Greedy));
    assert [26 as char] + [] == [26 as char];
  }

  // ------------------------------------------------------------------ lines

  /** `std::string_view::find_first_of(c)`, with `|s|` for `npos`. */
  function FirstIndex(s: string, c: char): (i: nat)
    ensures i <= |s|
    ensures forall j :: 0 <= j < i ==> s[j] != c
    ensures i < |s| ==> s[i] == c
  {
    if s == [] || s[0] == c then 0 else 1 + FirstIndex(s[1..], c)
  }

  /** The pieces of `t` between its line breaks. */
  function SplitLines(t: string): (r: seq<string>)
    ensures |r| >= 1
    ensures forall i :: 0 <= i < |r| ==> '\n' !in r[i]
    decreases |t|
  {
    var d := FirstIndex(t, '\n');
    if d == |t| then [t] else [t[..d]] + SplitLines(t[d + 1..])
  }

  /** Pieces joined by single line breaks. */
  function JoinLines(ps: seq<string>): string {
    if ps == [] then [] else if |ps| == 1 then ps[0] else ps[0] + "\n" + JoinLines(ps[1..])
  }

  /** Lines, each ended by a line break, as a stream receives them. */
  function Text(lines: seq<string>): string {
    if lines == [] then [] else lines[0] + "\n" + Text(lines[1..])
  }

  lemma {:induction false} JoinSplit(t: string)
    ensures JoinLines(SplitLines(t)) == t
    decreases |t|
  {
    var d := FirstIndex(t, '\n');
    if d < |t| {
      var rest := t[d + 1..];
      var ps := SplitLines(rest);
      assert SplitLines(t) == [t[..d]] + ps;
      JoinSplit(rest);
      JoinCons(t[..d], ps);
      SplitAround(t, d);
    }
  }

  lemma SplitAround<T>(s: seq<T>, d: nat)
    requires d < |s|
    ensures s == s[..d] + [s[d]] + s[d + 1..]
  {
  }

  lemma JoinCons(p: string, ps: seq<string>)
    requires ps != []
    ensures JoinLines([p] + ps) == p + "\n" + JoinLines(ps)
  {
    assert ([p] + ps)[1..] == ps;
  }

  lemma {:induction false} SplitJoin(ps: seq<string>)
    requires ps != [] && forall i :: 0 <= i < |ps| ==> '\n' !in ps[i]
    ensures SplitLines(JoinLines(ps)) == ps
    decreases |ps|
  {
    if |ps| == 1 {
      assert FirstIndex(ps[0], '\n') == |ps[0]|;
    } else {
      var t := JoinLines(ps);
      var p := ps[0];
      assert t == p + "\n" + JoinLines(ps[1..]);
      assert FirstIndex(t, '\n') == |p| by {
        assert t[|p|] == '\n';
        assert forall j :: 0 <= j < |p| ==> t[j] == p[j];
        FirstIndexAt(t, '\n', |p|);
      }
      assert t[..|p|] == p && t[|p| + 1..] == JoinLines(ps[1..]);
      SplitJoin(ps[1..]);
    }
  }

  lemma FirstIndexAt(s: string, c: char, i: nat)
    requires i < |s| && s[i] == c && forall j :: 0 <= j < i ==> s[j] != c
    ensures FirstIndex(s, c) == i
  {
    var k := FirstIndex(s, c);
    assert s[i] == c;
  }

  /** A list of lines in text form is the same lines ended by a last, empty piece. */
  lemma {:induction false} TextIsJoin(lines: seq<string>)
    ensures Text(lines) == JoinLines(lines + [""])
    decreases |lines|
  {
    if lines != [] {
      TextIsJoin(lines[1..]);
      assert (lines + [""])[1..] == lines[1..] + [""];
    }
  }

  /** Lines without line breaks are recovered from the text a stream received. */
  lemma TextSplit(lines: seq<string>)
    requires forall i :: 0 <= i < |lines| ==> '\n' !in lines[i]
    ensures SplitLines(Text(lines)) == lines + [""]
  {
    TextIsJoin(lines);
    SplitJoin(lines + [""]);
  }

  lemma {:induction false} TextAppend(a: seq<string>, b: seq<string>)
    ensures Text(a + b) == Text(a) + Text(b)
    decreases |a|
  {
    if a == [] {
      assert a + b == b;
    } else {
      assert (a + b)[0] == a[0] && (a + b)[1..] == a[1..] + b;
      TextAppend(a[1..], b);
    }
  }

  lemma TextSnoc(lines: seq<string>, l: string)
    ensures Text(lines + [l]) == Text(lines) + l + "\n"
  {
    TextAppend(lines, [l]);
    assert [l][1..] == [];
  }

  lemma TextOne(l: string)
    ensures Text([l]) == l + "\n"
  {
    assert [l][1..] == [];
  }

  lemma PrefixedSnoc(p: string, ps: seq<string>, x: string)
    ensures Prefixed(p, ps + [x]) == Prefixed(p, ps) + [p + x]
  {
  }

  lemma EscapedSnoc(s: string, i: nat, style: Style)
    requires i < |s|
    ensures Escaped(s[..i + 1], style) == Escaped(s[..i], style) + EscapeChar(s[i], style)
  {
    assert s[..i + 1] == s[..i] + [s[i]];
    EscapedAppend(s[..i], [s[i]], style);
    assert [s[i]][1..] == [];
  }

  /** Appending the text of more lines to a stream that holds `done`. */
  lemma Emit(out: string, done: seq<string>, more: seq<string>)
    ensures out + Text(done) + Text(more) == out + Text(done + more)
  {
    TextAppend(done, more);
  }

  /** Every piece with the prefix `p` in front. */
  function Prefixed(p: string, ps: seq<string>): (r: seq<string>)
    ensures |r| == |ps|
  {
    seq(|ps|, i requires 0 <= i < |ps| => p + ps[i])
  }

  // ---------------------------------------------------------------- numbers

  /** `stream << i` for a non-negative `int`: decimal digits, no leading zero. */
  function Decimal(n: nat): (r: string)
    ensures r != [] && forall i :: 0 <= i < |r| ==> '0' <= r[i] <= '9'
    ensures r[0] == '0' ==> n == 0
  {
    if n < 10 then [HexDigit(n)] else Decimal(n / 10) + [HexDigit(n % 10)]
  }

  lemma {:induction false} DecimalValue(n: nat)
    ensures forall i :: 0 <= i < |Decimal(n)| ==> IsHexDigit(Decimal(n)[i])
    ensures Number(Decimal(n), 10) == n
    decreases n
  {
    var r := Decimal(n);
    if n >= 10 {
      DecimalValue(n / 10);
      assert r[..|r| - 1] == Decimal(n / 10);
    } else {
      assert r[..0] == [];
    }
  }
}
