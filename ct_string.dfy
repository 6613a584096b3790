/** `CompileTimeString<Char, Length>`: a string fixed at compile time, kept as
    `Length` characters followed by a terminator slot, and its specialisation
    for `Length == std::size_t(-1)`, which stands for "no string".  The
    characters of every character type are modelled as `char`.  The two
    headers that declare it (include/i18n/base.hpp and runtime/i18n/base.hpp)
    declare the same structure and the same constructor. */
module CompileTimeStrings {
  import opened Wrappers

  const NUL: char := 0 as char

  /** `'\4'`, which separates a message's context from its msgid. */
  const EOT: char := 4 as char

  /** `std::size_t(-1)`: the length of the absent string. */
  const NPOS: nat := 0xFFFF_FFFF_FFFF_FFFF

  /** `std::size_t` arithmetic is modulo this. */
  const SIZE: nat := 0x1_0000_0000_0000_0000

  /** `Present(t)` holds the characters `str[0 .. Length)`; the terminator
      slot `str[Length]` is not part of the value. */
  datatype CtString = Absent | Present(text: string)

  /** The static member `length`. */
  function Length(s: CtString): nat {
    if s.Absent? then NPOS else |s.text|
  }

  /** A present string's `Length + 1` slots are addressable by a `size_t`. */
  predicate Sized(s: CtString) {
    s.Absent? || |s.text| < NPOS
  }

  /** Only the absent string has length `size_t(-1)`. */
  lemma LengthMarksAbsence(s: CtString)
    requires Sized(s)
    ensures Length(s) == NPOS <==> s.Absent?
  {
  }

  /** The constructor from a literal of `Length + 1` characters: it copies all
      of them and, in a constant evaluation, rejects a literal whose last
      character is not NUL. */
  method FromLiteral(literal: seq<char>) returns (r: Result<CtString>)
    requires |literal| >= 1
    ensures literal[|literal| - 1] == NUL ==>
      r.Success? && r.value.Present? && r.value.text == literal[..|literal| - 1]
    ensures literal[|literal| - 1] != NUL ==> r == Failure(NotNulTerminated)
    ensures r.Success? ==> Length(r.value) == |literal| - 1
  {
    var str := new char[|literal|](_ => NUL);
    for i := 0 to |literal|
      invariant str[..i] == literal[..i]
    {
      str[i] := literal[i];
    }
    assert str[..] == literal;
    if str[|literal| - 1] != NUL {
      return Failure(NotNulTerminated);
    }
    r := Success(Present(str[..|literal| - 1]));
  }

  /** The body of `join_with_separator` for two present strings: the first
      string, the separator and the second string copied into a buffer of
      `|a| + 1 + |b| + 1` slots, the last of which receives NUL. */
  method CopyJoin(a: string, sep: char, b: string) returns (r: string)
    ensures r == a + [sep] + b
  {
    var n := |a| + 1 + |b|;
    var buf := new char[n + 1](_ => NUL);
    for i := 0 to |a|
      invariant buf[..i] == a[..i]
    {
      buf[i] := a[i];
    }
    buf[|a|] := sep;
    assert buf[..|a| + 1] == a + [sep];
    for i := 0 to |b|
      invariant buf[..|a| + 1 + i] == a + [sep] + b[..i]
    {
      buf[|a| + 1 + i] := b[i];
      assert buf[..|a| + 1 + i + 1] == buf[..|a| + 1 + i] + [b[i]];
    }
    buf[n] := NUL;
    assert buf[..n] == a + [sep] + b;
    r := buf[..n];
  }
}
