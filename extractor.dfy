/** clang/action.cpp, the string rules of the clang plugin that extracts
    messages: which comments may be attached to a message, which domain's
    messages are written, the plugin's options, how a message's id is turned
    into its catalogue key, and how the catalogue is written.  The AST walk
    and the constant evaluation that find the strings are outside the model:
    their results are parameters. */
module Extractor {
  import opened Wrappers
  import opened CompileTimeStrings
  import Ast
  import PoText
  import WritePoCommon

  // ------------------------------------------------------------ line breaks

  predicate IsBreak(c: char) {
    c == '\n' || c == '\r'
  }

  /** `StringRef::find_first_of("\n\r", from)`: the first line break at or
      after `from`, or `npos`. */
  function FindBreak(t: string, from: nat): (k: nat)
    ensures k == NPOS || (from <= k < |t| && IsBreak(t[k]))
    ensures forall j :: from <= j < |t| && j < k ==> !IsBreak(t[j])
    decreases |t| - from
  {
    if from >= |t| then NPOS
    else if IsBreak(t[from]) then from
    else FindBreak(t, from + 1)
  }

  /** `max_one_linebreak`, on the source text of a comment's range. */
  function MaxOneLinebreak(text: string): bool
    requires |text| < NPOS
  {
    var first := FindBreak(text, 0);
    if first == NPOS || first == |text| - 1 then true
    else
      var second := FindBreak(text, first + 1);
      var second' :=
        if second == first + 1 && text[first] != text[second] then FindBreak(text, second + 1)
        else second;
      second' == NPOS
  }

  /** The number of line breaks from `i` on, read left to right, where a
      `\r\n` or a `\n\r` pair is one break. */
  function BreaksFrom(t: string, i: nat): nat
    decreases |t| - i
  {
    if i >= |t| then 0
    else if !IsBreak(t[i]) then BreaksFrom(t, i + 1)
    else if i + 1 < |t| && IsBreak(t[i + 1]) && t[i] != t[i + 1] then 1 + BreaksFrom(t, i + 2)
    else 1 + BreaksFrom(t, i + 1)
  }

  function Breaks(t: string): nat {
    BreaksFrom(t, 0)
  }

  /** Characters that are not line breaks add no break. */
  lemma {:induction false} SkipPlain(t: string, i: nat, k: nat)
    requires i <= k <= |t| && forall j :: i <= j < k ==> !IsBreak(t[j])
    ensures BreaksFrom(t, i) == BreaksFrom(t, k)
    decreases k - i
  {
    if i < k {
      SkipPlain(t, i + 1, k);
    }
  }

  /** No break is counted exactly when none is found. */
  lemma {:induction false} NoBreakFound(t: string, i: nat)
    requires i <= |t| < NPOS
    ensures BreaksFrom(t, i) == 0 <==> FindBreak(t, i) == NPOS
    decreases |t| - i
  {
    if i < |t| && !IsBreak(t[i]) {
      NoBreakFound(t, i + 1);
    }
  }

  /** A comment passes `max_one_linebreak` exactly when its text holds at
      most one line break, a `\r\n` or `\n\r` pair counting as one. */
  lemma MaxOneLinebreakCounts(text: string)
    requires |text| < NPOS
    ensures MaxOneLinebreak(text) <==> Breaks(text) <= 1
  {
    var first := FindBreak(text, 0);
    if first == NPOS {
      SkipPlain(text, 0, |text|);
    } else {
      SkipPlain(text, 0, first);
      if first + 1 == |text| {
        assert BreaksFrom(text, first) == 1;
      } else if IsBreak(text[first + 1]) && text[first] != text[first + 1] {
        assert FindBreak(text, first + 1) == first + 1;
        NoBreakFound(text, first + 2);
      } else {
        NoBreakFound(text, first + 1);
      }
    }
  }

  /** A Windows or a reversed line break is one break; two newlines are two. */
  lemma LinebreakExamples()
    ensures MaxOneLinebreak("a\r\nb") && !MaxOneLinebreak("a\n\nb") && MaxOneLinebreak("ab\n")
  {
    assert FindBreak("a\r\nb", 0) == 1 && FindBreak("a\r\nb", 2) == 2 && FindBreak("a\r\nb", 3) == NPOS;
    assert FindBreak("a\n\nb", 0) == 1 && FindBreak("a\n\nb", 2) == 2;
    assert FindBreak("ab\n", 0) == 2;
  }

  // ------------------------------------------------------------ domains

  /** `i18nConsumer::match_domain`: whether a message of `domain` is written
      under the domain filter and the `nodomain` flag. */
  function MatchDomain(filter: Option<string>, emptyDomain: bool, domain: Option<string>): (r: bool)
    ensures domain.Some? ==> (r <==> filter == domain)
    ensures domain.None? ==> (r <==> emptyDomain || filter.None?)
    ensures filter.None? ==> (r <==> domain.None?)
  {
    if domain.Some? then filter.Some? && domain.value == filter.value
    else emptyDomain || filter.None?
  }

  /** The filter and the flag after `#pragma mfk i18n domain(domain)`. */
  function AfterPragma(filter: Option<string>, emptyDomain: bool, domain: string): (Option<string>, bool) {
    (if filter.Some? then filter else Some(domain), emptyDomain || filter == Some(domain))
  }

  /** After the pragma, the pragma's domain is written unless another filter
      was set before; messages without a domain are written exactly when the
      flag was on or the pragma repeats the filter; other domains are
      unaffected once a filter exists. */
  lemma PragmaMatches(filter: Option<string>, emptyDomain: bool, domain: string, other: string)
    ensures var (f, e) := AfterPragma(filter, emptyDomain, domain);
      (MatchDomain(f, e, Some(domain)) <==> filter.None? || filter == Some(domain)) &&
      (MatchDomain(f, e, None) <==> emptyDomain || filter == Some(domain)) &&
      (filter.Some? ==> MatchDomain(f, e, Some(other)) == MatchDomain(filter, emptyDomain, Some(other)))
  {
  }

  /** A pragma repeated in a file without a filter turns the flag on: the
      second one finds the filter the first one set. */
  lemma PragmaRepeated(emptyDomain: bool, domain: string)
    ensures var (f, e) := AfterPragma(None, emptyDomain, domain);
      AfterPragma(f, e, domain) == (Some(domain), true)
  {
  }

  // ------------------------------------------------------------ options

  predicate StartsWith(s: string, prefix: string) {
    |prefix| <= |s| && s[..|prefix|] == prefix
  }

  /** An option already set keeps its value. */
  function Keep(old_: Option<string>, found: Option<string>): Option<string> {
    if old_.Some? then old_ else found
  }

  function MapOption(f: string -> string, o: Option<string>): Option<string> {
    if o.Some? then Some(f(o.value)) else None
  }

  /** The value an argument gives an option: what follows `prefix`. */
  function ValueOf(arg: string, prefix: string): Option<string> {
    if StartsWith(arg, prefix) then Some(arg[|prefix|..]) else None
  }

  /** The value of the first, among the first `n` arguments, that starts
      with `prefix`. */
  function FirstValue(args: seq<string>, n: nat, prefix: string): (r: Option<string>)
    requires n <= |args|
    ensures r.None? <==> forall i :: 0 <= i < n ==> !StartsWith(args[i], prefix)
    ensures r.Some? ==> exists i :: 0 <= i < n && r == ValueOf(args[i], prefix) && StartsWith(args[i], prefix) &&
                                   (forall j :: 0 <= j < i ==> !StartsWith(args[j], prefix))
  {
    if n == 0 then None else Keep(FirstValue(args, n - 1, prefix), ValueOf(args[n - 1], prefix))
  }

  /** One turn of `ParseArgs` keeps a field equal to the first value seen. */
  lemma TakeStep(start: Option<string>, before: Option<string>, after: Option<string>,
                 args: seq<string>, i: nat, prefix: string)
    requires i < |args|
    requires before == Keep(start, FirstValue(args, i, prefix))
    requires after == Keep(before, ValueOf(args[i], prefix))
    ensures after == Keep(start, FirstValue(args, i + 1, prefix))
  {
  }

  /** The same for a field that keeps the value through `f`. */
  lemma TakeMapped(start: Option<string>, before: Option<string>, after: Option<string>,
                   args: seq<string>, i: nat, prefix: string, f: string -> string)
    requires i < |args|
    requires before == Keep(start, MapOption(f, FirstValue(args, i, prefix)))
    requires after == Keep(before, MapOption(f, ValueOf(args[i], prefix)))
    ensures after == Keep(start, MapOption(f, FirstValue(args, i + 1, prefix)))
  {
  }

  /** Duplicates are ignored: the value given first is the one kept, whatever
      follows it. */
  lemma FirstWins(before: seq<string>, prefix: string, value: string, after: seq<string>)
    requires forall i :: 0 <= i < |before| ==> !StartsWith(before[i], prefix)
    ensures var args := before + [prefix + value] + after;
      FirstValue(args, |args|, prefix) == Some(value)
  {
    var args := before + [prefix + value] + after;
    var n := |before|;
    assert args[n] == prefix + value;
    assert args[n][..|prefix|] == prefix && args[n][|prefix|..] == value;
    var r := FirstValue(args, |args|, prefix);
    forall j | 0 <= j < n ensures !StartsWith(args[j], prefix) {
      assert args[j] == before[j];
    }
    var i :| 0 <= i < |args| && r == ValueOf(args[i], prefix) && StartsWith(args[i], prefix) &&
             (forall j :: 0 <= j < i ==> !StartsWith(args[j], prefix));
    assert i == n;
  }

  /** The plugin's options, `i18nAction`'s fields.  `basepath=` paths pass
      through `weakly_canonical`, a parameter of `ParseArgs`. */
  class Action {
    var domainFilter: Option<string>
    var emptyDomain: bool
    var commentFilter: Option<string>
    var basePath: Option<string>
    var output: Option<string>

    constructor()
      ensures domainFilter.None? && !emptyDomain && commentFilter.None? && basePath.None? && output.None?
    {
      domainFilter, emptyDomain, commentFilter, basePath, output := None, false, None, None, None;
    }

    /** `i18nAction::ParseArgs`: the first `domain=`, `comment=`, `basepath=`
        and `o=` option sets its field, later ones and unknown options are
        ignored, and `nodomain` sets the flag. */
    method ParseArgs(args: seq<string>, canonical: string -> string) returns (r: bool)
      modifies this
      ensures r
      ensures emptyDomain == (old(emptyDomain) || "nodomain" in args)
      ensures domainFilter == Keep(old(domainFilter), FirstValue(args, |args|, "domain="))
      ensures commentFilter == Keep(old(commentFilter), FirstValue(args, |args|, "comment="))
      ensures basePath == Keep(old(basePath), MapOption(canonical, FirstValue(args, |args|, "basepath=")))
      ensures output == Keep(old(output), FirstValue(args, |args|, "o="))
    {
      for i := 0 to |args|
        invariant emptyDomain == (old(emptyDomain) || "nodomain" in args[..i])
        invariant domainFilter == Keep(old(domainFilter), FirstValue(args, i, "domain="))
        invariant commentFilter == Keep(old(commentFilter), FirstValue(args, i, "comment="))
        invariant basePath == Keep(old(basePath), MapOption(canonical, FirstValue(args, i, "basepath=")))
        invariant output == Keep(old(output), FirstValue(args, i, "o="))
      {
        ghost var (d, c, b, o) := (domainFilter, commentFilter, basePath, output);
        assert args[..i + 1] == args[..i] + [args[i]];
        ParseArg(args[i], canonical);
        assert i < |args|;
        TakeStep(old(domainFilter), d, domainFilter, args, i, "domain=");
        TakeStep(old(commentFilter), c, commentFilter, args, i, "comment=");
        TakeMapped(old(basePath), b, basePath, args, i, "basepath=", canonical);
        TakeStep(old(output), o, output, args, i, "o=");
      }
      assert args[..|args|] == args;
      r := true;
    }

    /** One turn of `ParseArgs`'s loop. */
    method ParseArg(arg: string, canonical: string -> string)
      modifies this
      ensures emptyDomain == (old(emptyDomain) || arg == "nodomain")
      ensures domainFilter == Keep(old(domainFilter), ValueOf(arg, "domain="))
      ensures commentFilter == Keep(old(commentFilter), ValueOf(arg, "comment="))
      ensures basePath == Keep(old(basePath), MapOption(canonical, ValueOf(arg, "basepath=")))
      ensures output == Keep(old(output), ValueOf(arg, "o="))
    {
      OneOption(arg);
      if arg == "nodomain" {
        emptyDomain := true;
      } else if StartsWith(arg, "domain=") {
        if domainFilter.None? {
          domainFilter := Some(arg[7..]);
        }
      } else if StartsWith(arg, "comment=") {
        if commentFilter.None? {
          commentFilter := Some(arg[8..]);
        }
      } else if StartsWith(arg, "basepath=") {
        if basePath.None? {
          basePath := Some(canonical(arg[9..]));
        }
      } else if StartsWith(arg, "o=") {
        if output.None? {
          output := Some(arg[2..]);
        }
      }
    }
  }

  /** An argument is at most one kind of option: the options begin with
      different letters. */
  lemma OneOption(arg: string)
    ensures arg == "nodomain" ==>
      !StartsWith(arg, "domain=") && !StartsWith(arg, "comment=") && !StartsWith(arg, "basepath=") && !StartsWith(arg, "o=")
    ensures StartsWith(arg, "domain=") ==>
      !StartsWith(arg, "comment=") && !StartsWith(arg, "basepath=") && !StartsWith(arg, "o=")
    ensures StartsWith(arg, "comment=") ==> !StartsWith(arg, "basepath=") && !StartsWith(arg, "o=")
    ensures StartsWith(arg, "basepath=") ==> !StartsWith(arg, "o=")
  {
    if arg != [] {
      assert StartsWith(arg, "domain=") ==> arg[0] == 'd';
      assert StartsWith(arg, "comment=") ==> arg[0] == 'c';
      assert StartsWith(arg, "basepath=") ==> arg[0] == 'b';
      assert StartsWith(arg, "o=") ==> arg[0] == 'o';
      assert arg == "nodomain" ==> arg[0] == 'n';
    }
  }

  // ------------------------------------------------------------ entries

  /** `'\1'`, which ends the domain part of an entry's key. */
  const SOH: char := 1 as char

  /** The first `c` in `s`. */
  function FirstIndex(s: string, c: char): (r: Option<nat>)
    ensures r.Some? ==> r.value < |s| && s[r.value] == c && forall k :: 0 <= k < r.value ==> s[k] != c
    ensures r.None? ==> c !in s
  {
    if s == [] then None
    else if s[0] == c then Some(0)
    else match FirstIndex(s[1..], c)
      case None => None
      case Some(k) =>
        assert forall j :: 1 <= j <= k ==> s[j] == s[1..][j - 1];
        Some(k + 1)
  }

  lemma FirstIndexAt(x: string, c: char, y: string)
    requires c !in x
    ensures FirstIndex(x + [c] + y, c) == Some(|x|)
  {
    var s := x + [c] + y;
    assert s[|x|] == c;
    assert forall k :: 0 <= k < |x| ==> s[k] == x[k];
  }

  /** `Entry`: a message and its domain. */
  datatype Entry = Entry(domain: Option<string>, message: Ast.Message)

  /** The entry `std::map::operator[]` inserts for a new key. */
  const EmptyEntry: Entry := Entry(None, Ast.Message([], [], None, None, "", None, []))

  /** The normalisation in `addEntry`: a context ending in `'\4'` and the
      msgid, as gettext's `pgettext` macro builds it, loses that suffix; a
      msgid holding a `'\4'` without a context is split there, the context
      being `string(msgid, 1, index)` as written, which keeps the `'\4'` and
      drops the msgid's first character. */
  function Normalize(context: Option<string>, msgid: string): (Option<string>, string) {
    if context.Some? then
      var c := context.value;
      if |c| > |msgid| && c[|c| - |msgid| - 1] == EOT && c[|c| - |msgid|..] == msgid
      then (Some(c[..|c| - 1 - |msgid|]), msgid)
      else (context, msgid)
    else
      match FirstIndex(msgid, EOT)
      case None => (None, msgid)
      case Some(index) => (Some(msgid[1..index + 1]), msgid[index + 1..])
  }

  /** The key of an entry: the domain and `'\1'`, the context and `'\4'`,
      then the msgid. */
  function KeyOf(domain: Option<string>, context: Option<string>, msgid: string): string {
    (if domain.Some? then domain.value + [SOH] else []) + RestOf(context, msgid)
  }

  /** The part of a key after the domain's separator. */
  function RestOf(context: Option<string>, msgid: string): string {
    (if context.Some? then context.value + [EOT] else []) + msgid
  }

  /** `addEntry`'s update of the entry it finds: the fields are set only
      while the entry has no singular. */
  function Fill(e: Entry, domain: Option<string>, context: Option<string>, msgid: string, plural: Option<string>): Entry {
    if e.message.singular == [] then
      Entry(domain, e.message.(context := context, singular := msgid, plural := plural))
    else e
  }

  /** The catalogue after `addEntry`: the entry under the key, inserted
      empty when there was none, filled by `Fill`. */
  function Added(entries: map<string, Entry>, domain: Option<string>, context: Option<string>,
                 msgid: string, plural: Option<string>): (r: map<string, Entry>)
    ensures var (c, m) := Normalize(context, msgid);
      var key := KeyOf(domain, c, m);
      r.Keys == entries.Keys + {key} &&
      (forall k :: k in entries && k != key ==> r[k] == entries[k]) &&
      (key in entries && entries[key].message.singular != [] ==> r[key] == entries[key]) &&
      (r[key].message.singular == [] <==> m == [] && (key in entries ==> entries[key].message.singular == []))
  {
    var (c, m) := Normalize(context, msgid);
    var key := KeyOf(domain, c, m);
    entries[key := Fill(if key in entries then entries[key] else EmptyEntry, domain, c, m, plural)]
  }

  /** `i18nVisitor`'s catalogue. */
  class Visitor {
    var entries: map<string, Entry>

    constructor()
      ensures entries == map[]
    {
      entries := map[];
    }

    /** `addEntry`: normalises the context and the msgid, finds or inserts
        the entry under its key, fills it if it is still empty and hands
        back its key, by which the caller refers to it. */
    method AddEntry(domain: Option<string>, context: Option<string>, msgid: string, plural: Option<string>)
      returns (key: string)
      modifies this
      ensures var (c, m) := Normalize(context, msgid);
        key == KeyOf(domain, c, m) && entries == Added(old(entries), domain, context, msgid, plural)
    {
      var (c, m) := Normalize(context, msgid);
      key := KeyOf(domain, c, m);
      var entry := if key in entries then entries[key] else EmptyEntry;
      if entry.message.singular == [] {
        entry := Entry(domain, entry.message.(context := c, singular := m, plural := plural));
      }
      entries := entries[key := entry];
    }
  }

  /** A message whose normalised msgid is not empty is stored the first
      time it is added under its key: the entry then holds that addition's
      fields (unless an earlier one was there), and adding it again, with
      any plural, leaves the catalogue as it is. */
  lemma FirstStoredWins(entries: map<string, Entry>, domain: Option<string>, context: Option<string>,
                        msgid: string, plural: Option<string>, plural': Option<string>)
    requires Normalize(context, msgid).1 != []
    ensures var (c, m) := Normalize(context, msgid);
      var key := KeyOf(domain, c, m);
      var once := Added(entries, domain, context, msgid, plural);
      key in once && once[key].message.singular != [] &&
      (key !in entries ==>
        once[key].domain == domain && once[key].message.context == c &&
        once[key].message.singular == m && once[key].message.plural == plural) &&
      Added(once, domain, context, msgid, plural') == once
  {
  }

  /** An empty msgid leaves the entry's singular empty, so every later
      addition under its key fills the entry again and the last plural
      given is the one kept. */
  lemma EmptyMsgidRefills(entries: map<string, Entry>, domain: Option<string>, context: Option<string>,
                          msgid: string, plural: Option<string>, plural': Option<string>)
    requires Normalize(context, msgid).1 == []
    requires var (c, m) := Normalize(context, msgid);
      var key := KeyOf(domain, c, m);
      key in entries ==> entries[key].message.singular == []
    ensures var (c, m) := Normalize(context, msgid);
      var key := KeyOf(domain, c, m);
      var twice := Added(Added(entries, domain, context, msgid, plural), domain, context, msgid, plural');
      twice == Added(entries, domain, context, msgid, plural') &&
      twice[key].message.singular == [] && twice[key].message.plural == plural'
  {
  }

  /** gettext's `pgettext` form `context "\4" msgid` and the explicit context
      give the same entry. */
  lemma MacroContext(domain: Option<string>, context: string, msgid: string)
    ensures Normalize(Some(context + [EOT] + msgid), msgid) == (Some(context), msgid)
    ensures var (c, m) := Normalize(Some(context + [EOT] + msgid), msgid);
      KeyOf(domain, c, m) == KeyOf(domain, Some(context), msgid)
  {
    var full := context + [EOT] + msgid;
    assert full[|full| - |msgid| - 1] == EOT;
    assert full[|full| - |msgid|..] == msgid;
    assert full[..|full| - 1 - |msgid|] == context;
  }

  /** A msgid with a `'\4'` and no context: the text after the first `'\4'`
      becomes the msgid and, as written, the context is the text before it
      without its first character and with the `'\4'`. */
  lemma ManualContext(before: string, after: string)
    requires EOT !in before
    ensures Normalize(None, before + [EOT] + after) == (Some((before + [EOT])[1..]), after)
  {
    FirstIndexAt(before, EOT, after);
    var s := before + [EOT] + after;
    assert s[1..|before| + 1] == (before + [EOT])[1..];
    assert s[|before| + 1..] == after;
  }

  /** `"menu\4Open"` without a context is stored with the context `"enu\4"`
      rather than `"menu"`. */
  lemma ManualContextExample()
    ensures Normalize(None, "menu" + [EOT] + "Open") == (Some("enu" + [EOT]), "Open")
  {
    ManualContext("menu", "Open");
    assert ("menu" + [EOT])[1..] == "enu" + [EOT];
  }

  /** The domain, the context and the msgid read back from a key. */
  function ParseKey(key: string): (Option<string>, Option<string>, string) {
    var (domain, rest) :=
      match FirstIndex(key, SOH)
      case None => (None, key)
      case Some(i) => (Some(key[..i]), key[i + 1..]);
    var (context, msgid) := ParseRest(rest);
    (domain, context, msgid)
  }

  /** The parts a key is built from hold no separator of a later part. */
  predicate KeyParts(domain: Option<string>, context: Option<string>, msgid: string) {
    (domain.Some? ==> SOH !in domain.value) &&
    (context.Some? ==> SOH !in context.value && EOT !in context.value) &&
    SOH !in msgid && EOT !in msgid
  }

  /** Splitting at the first `c`, when the part before holds none. */
  lemma SplitAt(x: string, c: char, y: string)
    requires c !in x
    ensures FirstIndex(x + [c] + y, c) == Some(|x|)
    ensures (x + [c] + y)[..|x|] == x && (x + [c] + y)[|x| + 1..] == y
  {
    FirstIndexAt(x, c, y);
  }

  /** The context part of a key and the msgid read back. */
  function ParseRest(rest: string): (Option<string>, string) {
    match FirstIndex(rest, EOT)
    case None => (None, rest)
    case Some(j) => (Some(rest[..j]), rest[j + 1..])
  }

  lemma RestRoundTrip(context: Option<string>, msgid: string)
    requires context.Some? ==> EOT !in context.value
    requires EOT !in msgid
    ensures ParseRest(RestOf(context, msgid)) == (context, msgid)
  {
    if context.Some? {
      SplitAt(context.value, EOT, msgid);
    } else {
      var empty: string := [];
      assert empty + msgid == msgid;
    }
  }

  lemma RestClean(context: Option<string>, msgid: string)
    requires context.Some? ==> SOH !in context.value
    requires SOH !in msgid
    ensures SOH !in RestOf(context, msgid)
  {
    if context.Some? {
      assert RestOf(context, msgid) == context.value + [EOT] + msgid;
    } else {
      var empty: string := [];
      assert empty + msgid == msgid;
    }
  }

  /** The key of an entry determines its domain, its context and its msgid,
      as long as none of them holds a separator. */
  lemma KeyRoundTrip(domain: Option<string>, context: Option<string>, msgid: string)
    requires KeyParts(domain, context, msgid)
    ensures ParseKey(KeyOf(domain, context, msgid)) == (domain, context, msgid)
  {
    var inner := RestOf(context, msgid);
    RestClean(context, msgid);
    RestRoundTrip(context, msgid);
    if domain.Some? {
      SplitAt(domain.value, SOH, inner);
    } else {
      var empty: string := [];
      assert empty + inner == inner;
    }
  }

  /** Different messages, none of whose parts holds a separator, get
      different entries. */
  lemma KeyInjective(d: Option<string>, c: Option<string>, m: string, d': Option<string>, c': Option<string>, m': string)
    requires KeyParts(d, c, m) && KeyParts(d', c', m')
    ensures KeyOf(d, c, m) == KeyOf(d', c', m') <==> (d, c, m) == (d', c', m')
  {
    if KeyOf(d, c, m) == KeyOf(d', c', m') {
      KeyRoundTrip(d, c, m);
      KeyRoundTrip(d', c', m');
    }
  }

  // ------------------------------------------------------------ output

  /** `translation.resize(n)`: the first `n` translations, padded with empty
      ones. */
  function Resize(ts: seq<string>, n: nat): (r: seq<string>)
    ensures |r| == n
    ensures forall i :: 0 <= i < n && i < |ts| ==> r[i] == ts[i]
    ensures forall i :: |ts| <= i < n ==> r[i] == ""
  {
    if n <= |ts| then ts[..n] else ts + seq(n - |ts|, _ => "")
  }

  /** A message as it is written: two translations when it has a plural,
      one otherwise, and nothing else changed. */
  function Prepared(m: Ast.Message): (r: Ast.Message)
    ensures r == m.(translation := r.translation)
    ensures |r.translation| == if m.plural.Some? then 2 else 1
    ensures forall i :: 0 <= i < |r.translation| && i < |m.translation| ==> r.translation[i] == m.translation[i]
  {
    m.(translation := Resize(m.translation, if m.plural.Some? then 2 else 1))
  }

  /** The messages written, in the catalogue's iteration order `keys`. */
  function Emitted(entries: map<string, Entry>, keys: seq<string>, filter: Option<string>, emptyDomain: bool): seq<Ast.Message>
    requires forall k :: k in keys ==> k in entries
  {
    if keys == [] then []
    else
      var k := keys[|keys| - 1];
      Emitted(entries, keys[..|keys| - 1], filter, emptyDomain) +
      (if MatchDomain(filter, emptyDomain, entries[k].domain) then [Prepared(entries[k].message)] else [])
  }

  /** The text written for `ms`: each message followed by an empty line. */
  function CatalogText(ms: seq<Ast.Message>): string {
    if ms == [] then []
    else CatalogText(ms[..|ms| - 1]) + PoText.Text(WritePoCommon.MessageLines(ms[|ms| - 1])) + "\n"
  }

  /** The catalogue after writing the entries `keys` in their order. */
  function Resized(entries: map<string, Entry>, keys: seq<string>, filter: Option<string>, emptyDomain: bool): map<string, Entry>
    requires forall k :: k in keys ==> k in entries
  {
    if keys == [] then entries
    else
      var k := keys[|keys| - 1];
      var visited := Resized(entries, keys[..|keys| - 1], filter, emptyDomain);
      if MatchDomain(filter, emptyDomain, entries[k].domain)
      then visited[k := entries[k].(message := Prepared(entries[k].message))]
      else visited
  }

  /** Writing changes no key, and resizes exactly the entries of matching
      domains that it visits. */
  lemma {:induction false} ResizedAt(entries: map<string, Entry>, keys: seq<string>, k: string, filter: Option<string>, emptyDomain: bool)
    requires forall x :: x in keys ==> x in entries
    ensures Resized(entries, keys, filter, emptyDomain).Keys == entries.Keys
    ensures k in entries ==>
      Resized(entries, keys, filter, emptyDomain)[k] ==
        if k in keys && MatchDomain(filter, emptyDomain, entries[k].domain)
        then entries[k].(message := Prepared(entries[k].message)) else entries[k]
  {
    if keys != [] {
      var init := keys[..|keys| - 1];
      assert keys == init + [keys[|keys| - 1]];
      ResizedAt(entries, init, k, filter, emptyDomain);
    }
  }

  lemma EmittedSnoc(entries: map<string, Entry>, keys: seq<string>, k: string, filter: Option<string>, emptyDomain: bool)
    requires forall x :: x in keys ==> x in entries
    requires k in entries
    ensures Emitted(entries, keys + [k], filter, emptyDomain) == Emitted(entries, keys, filter, emptyDomain) +
      if MatchDomain(filter, emptyDomain, entries[k].domain) then [Prepared(entries[k].message)] else []
    ensures Resized(entries, keys + [k], filter, emptyDomain) ==
      if MatchDomain(filter, emptyDomain, entries[k].domain)
      then Resized(entries, keys, filter, emptyDomain)[k := entries[k].(message := Prepared(entries[k].message))]
      else Resized(entries, keys, filter, emptyDomain)
  {
    assert (keys + [k])[..|keys|] == keys;
  }

  lemma CatalogSnoc(ms: seq<Ast.Message>, m: Ast.Message)
    ensures CatalogText(ms + [m]) == CatalogText(ms) + PoText.Text(WritePoCommon.MessageLines(m)) + "\n"
  {
    assert (ms + [m])[..|ms|] == ms;
  }

  lemma Regroup(a: string, b: string, c: string, d: string)
    ensures a + b + c + d == a + (b + c + d)
  {
  }

  /** Exactly the messages of the matching domains are written, each with
      as many translations as it has forms. */
  lemma {:induction false} EmittedMessages(entries: map<string, Entry>, keys: seq<string>, filter: Option<string>, emptyDomain: bool)
    requires forall k :: k in keys ==> k in entries
    ensures forall m :: m in Emitted(entries, keys, filter, emptyDomain) ==>
      |m.translation| == if m.plural.Some? then 2 else 1
    ensures forall i :: 0 <= i < |keys| && MatchDomain(filter, emptyDomain, entries[keys[i]].domain) ==>
      Prepared(entries[keys[i]].message) in Emitted(entries, keys, filter, emptyDomain)
    ensures forall m :: m in Emitted(entries, keys, filter, emptyDomain) ==>
      exists i :: 0 <= i < |keys| && MatchDomain(filter, emptyDomain, entries[keys[i]].domain) &&
        m == Prepared(entries[keys[i]].message)
  {
    if keys != [] {
      var init := keys[..|keys| - 1];
      EmittedMessages(entries, init, filter, emptyDomain);
      forall i | 0 <= i < |init| ensures init[i] == keys[i] {
      }
    }
  }

  /** The key a turn of the writing loop visits is new. */
  lemma NextKey(keys: seq<string>, i: nat)
    requires forall i, j :: 0 <= i < j < |keys| ==> keys[i] != keys[j]
    requires i < |keys|
    ensures keys[..i + 1] == keys[..i] + [keys[i]] && keys[i] !in keys[..i]
  {
    assert keys[..i + 1] == keys[..i] + [keys[i]];
  }

  /** One turn of the writing loop, the catalogue: the entry visited is
      still the original one, and resizing it when its domain matches
      keeps the loop's invariant. */
  lemma ResizeStep(original: map<string, Entry>, init: seq<string>, k: string, filter: Option<string>, emptyDomain: bool,
                   current: map<string, Entry>)
    requires forall x :: x in init ==> x in original
    requires k in original && k !in init
    requires current == Resized(original, init, filter, emptyDomain)
    ensures k in current && current[k] == original[k]
    ensures var m := Prepared(original[k].message);
      if MatchDomain(filter, emptyDomain, original[k].domain)
      then current[k := original[k].(message := m)] == Resized(original, init + [k], filter, emptyDomain)
      else current == Resized(original, init + [k], filter, emptyDomain)
  {
    EmittedSnoc(original, init, k, filter, emptyDomain);
    ResizedAt(original, init, k, filter, emptyDomain);
  }

  /** One turn of the writing loop, the text: writing the visited message
      when its domain matches keeps the loop's invariant. */
  lemma TextStep(original: map<string, Entry>, init: seq<string>, k: string, filter: Option<string>, emptyDomain: bool,
                 out: string, r: string)
    requires forall x :: x in init ==> x in original
    requires k in original
    requires r == out + CatalogText(Emitted(original, init, filter, emptyDomain))
    ensures var m := Prepared(original[k].message);
      if MatchDomain(filter, emptyDomain, original[k].domain)
      then r + PoText.Text(WritePoCommon.MessageLines(m)) + "\n" == out + CatalogText(Emitted(original, init + [k], filter, emptyDomain))
      else r == out + CatalogText(Emitted(original, init + [k], filter, emptyDomain))
  {
    ghost var shown := Emitted(original, init, filter, emptyDomain);
    EmittedSnoc(original, init, k, filter, emptyDomain);
    if MatchDomain(filter, emptyDomain, original[k].domain) {
      var m := Prepared(original[k].message);
      assert Emitted(original, init + [k], filter, emptyDomain) == shown + [m];
      CatalogSnoc(shown, m);
      Regroup(out, CatalogText(shown), PoText.Text(WritePoCommon.MessageLines(m)), "\n");
    } else {
      assert shown + [] == shown;
      assert Emitted(original, init + [k], filter, emptyDomain) == shown;
    }
  }

  /** The part of `i18nConsumer` that decides what is written. */
  class Consumer {
    var domainFilter: Option<string>
    var emptyDomain: bool

    /** The consumer starts from the plugin's options. */
    constructor(action: Action)
      ensures domainFilter == action.domainFilter && emptyDomain == action.emptyDomain
    {
      domainFilter, emptyDomain := action.domainFilter, action.emptyDomain;
    }

    /** The state update of `#pragma mfk i18n domain(domain)`: an existing
        filter is never replaced, and the flag is turned on when the pragma
        names the filter already in place. */
    method HandlePragmaDomain(domain: string)
      modifies this
      ensures (domainFilter, emptyDomain) == AfterPragma(old(domainFilter), old(emptyDomain), domain)
    {
      if emptyDomain {
        if domainFilter.None? {
          domainFilter := Some(domain);
        }
      } else {
        if domainFilter.Some? {
          if domainFilter.value == domain {
            emptyDomain := true;
          }
        } else {
          domainFilter := Some(domain);
        }
      }
    }

    /** The last loop of `HandleTranslationUnit`: every entry of a matching
        domain gets its translations resized and is written, followed by an
        empty line.  `keys` is the catalogue's iteration order. */
    method WriteCatalog(visitor: Visitor, keys: seq<string>, out: string) returns (r: string)
      requires forall i, j :: 0 <= i < j < |keys| ==> keys[i] != keys[j]
      requires forall k :: k in visitor.entries <==> k in keys
      modifies visitor
      ensures r == out + CatalogText(Emitted(old(visitor.entries), keys, domainFilter, emptyDomain))
      ensures visitor.entries == Resized(old(visitor.entries), keys, domainFilter, emptyDomain)
    {
      ghost var original := visitor.entries;
      r := out;
      for i := 0 to |keys|
        invariant visitor.entries == Resized(original, keys[..i], domainFilter, emptyDomain)
        invariant r == out + CatalogText(Emitted(original, keys[..i], domainFilter, emptyDomain))
      {
        var k := keys[i];
        NextKey(keys, i);
        ResizeStep(original, keys[..i], k, domainFilter, emptyDomain, visitor.entries);
        TextStep(original, keys[..i], k, domainFilter, emptyDomain, out, r);
        var entry := visitor.entries[k];
        if MatchDomain(domainFilter, emptyDomain, entry.domain) {
          var message := Prepared(entry.message);
          visitor.entries := visitor.entries[k := entry.(message := message)];
          r := WritePoCommon.WriteMessage(r, message);
          r := r + "\n";
        }
      }
      assert keys[..|keys|] == keys;
    }
  }
}
