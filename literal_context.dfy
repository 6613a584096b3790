/** runtime/i18n.hpp, the context part of a message literal
    `context|text`: a backslash escapes the character after it, and the
    first `|` that is neither escaped nor preceded by an unclosed `(` ends
    the context.  The reference definitions read the literal as a sequence
    of tokens, a backslash and the character after it forming one escaped
    token (a backslash that ends the literal is a plain token of its own). */
module LiteralContext {
  import opened Wrappers
  import opened CompileTimeStrings

  datatype Token = Plain(c: char) | Escape(c: char)

  function Tokens(s: string): seq<Token>
    decreases |s|
  {
    if s == [] then []
    else if s[0] == '\\' && |s| > 1 then [Escape(s[1])] + Tokens(s[2..])
    else [Plain(s[0])] + Tokens(s[1..])
  }

  function Width(t: Token): nat {
    if t.Escape? then 2 else 1
  }

  /** The number of literal characters that the tokens `ts` cover. */
  function Span(ts: seq<Token>): nat {
    if ts == [] then 0 else Span(ts[..|ts| - 1]) + Width(ts[|ts| - 1])
  }

  /** The characters the tokens denote, escapes dropped. */
  function Chars(ts: seq<Token>): (r: string)
    ensures |r| == |ts|
  {
    seq(|ts|, i requires 0 <= i < |ts| => ts[i].c)
  }

  /** The last unescaped parenthesis in `ts` is an opening one. */
  predicate OpenParen(ts: seq<Token>) {
    if ts == [] then false
    else if ts[|ts| - 1] == Plain('(') then true
    else if ts[|ts| - 1] == Plain(')') then false
    else OpenParen(ts[..|ts| - 1])
  }

  /** Token `k` is an unescaped `|` not preceded by an unclosed `(`. */
  predicate IsSeparator(ts: seq<Token>, k: nat)
    requires k < |ts|
  {
    ts[k] == Plain('|') && !OpenParen(ts[..k])
  }

  /** The index of the first separator at or after `i`, or `size_t(-1)`. */
  function FirstSeparatorFrom(ts: seq<Token>, i: nat): (k: nat)
    requires i <= |ts|
    ensures k == NPOS || (i <= k < |ts| && IsSeparator(ts, k))
    ensures forall j :: i <= j < |ts| && j < k ==> !IsSeparator(ts, j)
    decreases |ts| - i
  {
    if i == |ts| then NPOS
    else if IsSeparator(ts, i) then i
    else FirstSeparatorFrom(ts, i + 1)
  }

  function FirstSeparator(ts: seq<Token>): nat {
    FirstSeparatorFrom(ts, 0)
  }

  /** The literal's first token, and the literal after it. */
  lemma TokensHead(s: string)
    requires s != []
    ensures var t := Tokens(s)[0];
      Width(t) <= |s| &&
      Tokens(s) == [t] + Tokens(s[Width(t)..]) &&
      (t.Escape? <==> s[0] == '\\' && |s| > 1) &&
      (t.Escape? ==> t.c == s[1]) && (t.Plain? ==> t.c == s[0])
  {
  }

  lemma OpenParenSnoc(ts: seq<Token>, t: Token)
    ensures OpenParen(ts + [t]) ==
      (if t == Plain('(') then true else if t == Plain(')') then false else OpenParen(ts))
  {
    assert (ts + [t])[..|ts|] == ts;
  }

  lemma SpanSnoc(ts: seq<Token>, t: Token)
    ensures Span(ts + [t]) == Span(ts) + Width(t)
  {
    assert (ts + [t])[..|ts|] == ts;
  }

  /** The scan has read `count` tokens, which cover the first `iter`
      characters, and `grouped` says whether a `(` among them is unclosed. */
  predicate Scanned(s: string, iter: nat, count: nat, grouped: bool) {
    iter <= |s| && count <= |Tokens(s)| && count <= iter &&
    Tokens(s[iter..]) == Tokens(s)[count..] &&
    iter == Span(Tokens(s)[..count]) && grouped == OpenParen(Tokens(s)[..count])
  }

  /** `measure_context`: the position just past the context's `|` and the
      number of characters before it (escapes counted once), or
      `(begin, -1)` when the literal has no context. */
  method MeasureContext(s: string) returns (start: nat, count: nat)
    requires |s| < NPOS
    ensures count == FirstSeparator(Tokens(s))
    ensures count == NPOS ==> start == 0
    ensures count != NPOS ==>
      count < |Tokens(s)| && start == Span(Tokens(s)[..count + 1]) && 0 < start <= |s| &&
      s[start - 1] == '|' && Tokens(s[start..]) == Tokens(s)[count + 1..]
  {
    count := 0;
    var grouped := false;
    var iter := 0;
    while iter != |s|
      invariant Scanned(s, iter, count, grouped)
      invariant FirstSeparator(Tokens(s)) == FirstSeparatorFrom(Tokens(s), count)
      decreases |s| - iter
    {
      Advance(s, iter, count, grouped);
      if s[iter] == '\\' && iter + 1 != |s| {
        iter := iter + 1;
      } else if s[iter] == '(' {
        grouped := true;
      } else if s[iter] == ')' {
        grouped := false;
      } else if s[iter] == '|' && !grouped {
        SeparatorFound(s, iter, count, grouped);
        start := iter + 1;
        return;
      }
      count := count + 1;
      iter := iter + 1;
    }
    NoSeparator(s, iter, count, grouped);
    start, count := 0, NPOS;
  }

  /** One step of the scan: the token at `iter` is an escape exactly when
      the character there is a backslash that does not end the literal, and
      it is a separator exactly when it is `|` outside a group. */
  lemma Advance(s: string, iter: nat, count: nat, grouped: bool)
    requires Scanned(s, iter, count, grouped) && iter < |s|
    ensures count < |Tokens(s)|
    ensures s[iter] == '\\' && iter + 1 != |s| ==> Scanned(s, iter + 2, count + 1, grouped)
    ensures s[iter] == '(' ==> Scanned(s, iter + 1, count + 1, true)
    ensures s[iter] == ')' ==> Scanned(s, iter + 1, count + 1, false)
    ensures s[iter] != '(' && s[iter] != ')' && (s[iter] != '\\' || iter + 1 == |s|) ==>
      Scanned(s, iter + 1, count + 1, grouped)
    ensures !(s[iter] == '|' && !grouped) ==>
      FirstSeparatorFrom(Tokens(s), count) == FirstSeparatorFrom(Tokens(s), count + 1)
  {
    var ts := Tokens(s);
    var t := TokenAt(s, iter, count, grouped);
    OpenParenSnoc(ts[..count], t);
    SpanSnoc(ts[..count], t);
  }

  /** The token the scan reads next. */
  lemma TokenAt(s: string, iter: nat, count: nat, grouped: bool) returns (t: Token)
    requires Scanned(s, iter, count, grouped) && iter < |s|
    ensures count < |Tokens(s)| && t == Tokens(s)[count] && iter + Width(t) <= |s|
    ensures Tokens(s[iter + Width(t)..]) == Tokens(s)[count + 1..]
    ensures Tokens(s)[..count + 1] == Tokens(s)[..count] + [t]
    ensures t.Escape? <==> s[iter] == '\\' && iter + 1 != |s|
    ensures t.Plain? ==> t.c == s[iter]
  {
    var ts := Tokens(s);
    TokensHead(s[iter..]);
    t := Tokens(s[iter..])[0];
    assert ts[count] == t;
    assert s[iter..][Width(t)..] == s[iter + Width(t)..];
    assert ts[..count + 1] == ts[..count] + [t];
    assert ts[count + 1..] == ts[count..][1..];
  }

  /** A `|` outside a group is the first separator not yet passed. */
  lemma SeparatorFound(s: string, iter: nat, count: nat, grouped: bool)
    requires Scanned(s, iter, count, grouped) && iter < |s| < NPOS && s[iter] == '|' && !grouped
    requires FirstSeparator(Tokens(s)) == FirstSeparatorFrom(Tokens(s), count)
    ensures count == FirstSeparator(Tokens(s)) && count != NPOS && count < |Tokens(s)|
    ensures Span(Tokens(s)[..count + 1]) == iter + 1
    ensures Tokens(s[iter + 1..]) == Tokens(s)[count + 1..]
  {
    Advance(s, iter, count, grouped);
    var ts := Tokens(s);
    TokensHead(s[iter..]);
    assert ts[count] == Plain('|');
    assert IsSeparator(ts, count);
    assert ts[..count + 1] == ts[..count] + [ts[count]];
    SpanSnoc(ts[..count], ts[count]);
    assert s[iter..][1..] == s[iter + 1..];
    assert ts[count + 1..] == ts[count..][1..];
  }

  /** A scan that reached the end passed every token: there is no separator. */
  lemma NoSeparator(s: string, iter: nat, count: nat, grouped: bool)
    requires Scanned(s, iter, count, grouped) && iter == |s|
    requires FirstSeparator(Tokens(s)) == FirstSeparatorFrom(Tokens(s), count)
    ensures FirstSeparator(Tokens(s)) == NPOS
  {
    assert Tokens(s[iter..]) == [];
  }

  /** The token at `iter` extends the tokens read so far. */
  lemma NextToken(s: string, iter: nat, done: seq<Token>) returns (t: Token)
    requires iter < |s| && Tokens(s) == done + Tokens(s[iter..])
    ensures iter + Width(t) <= |s|
    ensures Tokens(s) == (done + [t]) + Tokens(s[iter + Width(t)..])
    ensures t.Escape? <==> s[iter] == '\\' && iter + 1 != |s|
    ensures t.Plain? ==> t.c == s[iter]
    ensures t.Escape? ==> t.c == s[iter + 1]
    ensures Chars(done + [t]) == Chars(done) + [t.c]
  {
    TokensHead(s[iter..]);
    t := Tokens(s[iter..])[0];
    assert s[iter..][Width(t)..] == s[iter + Width(t)..];
  }

  /** A token that is not the literal's last one: a backslash in it is
      followed by the escaped character. */
  lemma InnerToken(s: string, iter: nat, done: seq<Token>, length: nat) returns (t: Token)
    requires iter <= |s| && Tokens(s) == done + Tokens(s[iter..]) && |done| < length < |Tokens(s)|
    ensures iter + Width(t) <= |s|
    ensures Tokens(s) == (done + [t]) + Tokens(s[iter + Width(t)..])
    ensures s[iter] == '\\' ==> iter + 1 < |s| && t == Escape(s[iter + 1])
    ensures s[iter] != '\\' ==> t == Plain(s[iter])
    ensures Chars(done + [t]) == Chars(done) + [t.c]
  {
    assert |Tokens(s[iter..])| > 1;
    TokensHead(s[iter..]);
    t := Tokens(s[iter..])[0];
    assert s[iter..][Width(t)..] == s[iter + Width(t)..];
  }

  /** The character at `i` of the literal's buffer, whose slot `|s|` holds
      the terminating NUL. */
  function Peek(s: string, i: nat): char
    requires i <= |s|
  {
    if i < |s| then s[i] else NUL
  }

  /** `extract_context<Length>`: `Length` characters from the beginning of the
      literal, a backslash before a character dropped; `Length == -1` gives
      the absent string.  A read beyond the literal's buffer ends the
      constant evaluation. */
  method ExtractContext(s: string, length: nat) returns (r: Result<CtString>)
    ensures length == NPOS ==> r == Success(Absent)
    ensures length != NPOS && length < |Tokens(s)| ==> r == Success(Present(Chars(Tokens(s)[..length])))
    ensures r.Success? && length != NPOS ==> r.value.Present? && |r.value.text| == length
  {
    if length == NPOS {
      return Success(Absent);
    }
    var result := new char[length + 1](_ => NUL);
    var iter := 0;
    ghost var done: seq<Token> := [];
    for k := 0 to length
      invariant iter <= |s| + 1
      invariant length < |Tokens(s)| ==>
        iter <= |s| && Tokens(s) == done + Tokens(s[iter..]) && |done| == k &&
        result[..k] == Chars(done)
    {
      if iter > |s| {
        return Failure(OutOfRange);
      }
      ghost var t: Token;
      if length < |Tokens(s)| {
        t := InnerToken(s, iter, done, length);
      }
      if Peek(s, iter) == '\\' {
        iter := iter + 1;
        if iter > |s| {
          return Failure(OutOfRange);
        }
      }
      result[k] := Peek(s, iter);
      iter := iter + 1;
      if length < |Tokens(s)| {
        done := done + [t];
      }
    }
    result[length] := NUL;
    if length < |Tokens(s)| {
      assert done == Tokens(s)[..length];
    }
    r := Success(Present(result[..length]));
  }
}
