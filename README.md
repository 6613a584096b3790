# i18n-cpp in Dafny

A model of the core of i18n-cpp, a C++ library and tool set for
gettext-style translations, with proofs about it:

- **Compile-time message strings**: `CompileTimeString` and
  `join_with_separator`, and the msgid storage of `CompileTimeI18NString`.
  The storage holds the context, `\4`, the singular, NUL and the plural.
  The model covers both headers, the clang-plugin one and the runtime one.
- **The `_` literal**: `build_I18NString` reads a literal such as
  `"menu|Hello (person|people)!"` or `"Hello planet(s)!"` into a context, a
  singular and a plural. It measures two sizes first and then extracts into
  buffers of those sizes.
- **The lookup**: `get_singular`, `get_plural`, and the fallback to the
  singular when gettext hands back the msgid.
- **The catalogue merge**: `merge_messages` presorts, combines messages with
  the same key, folds their extracted comments and postsorts.
- **The PO writers**: the writer for the merged messages (octal escapes) and
  the writer for parsed messages (hex escapes).
- **The string rules of the clang extraction plugin**: the option parser, the
  domain filter and its `#pragma`, the limit on comment line breaks, the
  entry keys, `addEntry`, and the loop that writes the `.poc` catalogue.

Output streams are modelled as strings: a writer takes the text written so
far and returns it with its own lines appended. `Text(lines)` is the lines
joined, each followed by `\n`. `size_t` is modelled explicitly where its
wrap-around matters: `CompileTimeStrings.NPOS` is `size_t(-1)`, the length
of the absent string, and `CompileTimeStrings.SIZE` is 2^64.

The modules follow the source files:

| module | models |
|---|---|
| `CompileTimeStrings` (ct_string.dfy) | `CompileTimeString`, absent and present |
| `IncludeBase` (include_base.dfy) | include/i18n/base.hpp |
| `RuntimeBase` (runtime_base.dfy) | runtime/i18n/base.hpp |
| `LiteralContext`, `LiteralMain`, `LiteralBuild`, `LiteralAgreement` | the literal parser of runtime/i18n.hpp |
| `Lookup` (lookup.dfy) | the lookup classes of runtime/i18n.hpp |
| `Ordering`, `Sorting` | `<=>` on strings, optionals and vectors; `std::sort` |
| `Merge` (merge.dfy) | common/merge.cpp |
| `PoText`, `PoFormat` | escaping, lines and keyword blocks shared by both writers |
| `WritePoCommon`, `WritePoLib` | common/write_po.cpp, lib/write_po.cpp |
| `Ast` | the message records of the two writers |
| `Extractor` (extractor.dfy) | clang/action.cpp |

Several behaviours of the source are modelled as written, and lemmas show
their effect:

- **`addEntry` splits a msgid that holds `\4` and has no context as
  `string(msgid, 1, index)`.** This drops the first character and keeps the
  `\4`. `"menu\4Open"` is stored with context `"enu\4"`. See
  `Extractor.ManualContextExample`.
- **Outside a group, `measure_singular_plural` counts a backslash as one
  character and does not skip the character it escapes, which it then reads
  unescaped; the extraction skips the backslash and copies the escaped
  character.** Without a plural the extraction expects the escape-free
  length, so its assertion fails for `"a\\b"`
  (`LiteralAgreement.BackslashOutsideGroup`). An escaped `(` opens a group
  in the measure only: `a\(s)` measures a singular of 2 and a plural of 3,
  while the extraction copies `a(s)` into both forms and overruns both
  buffers (`LiteralAgreement.EscapedParenOutsideGroup`).
- **A `(` inside an open group reverts the group in both functions, but the
  measure does not reset its pending singular count for the new group.** It
  counts the reverted text twice. For `(a(b|c)` the measured singular is
  five characters, the extraction writes three, and the singular is padded
  with two NULs. See `LiteralAgreement.ParenInsideGroup`.
- **`measure_context` and `extract_context` keep unescaped parentheses in
  the context,** although the comment above them says that such
  parentheses are discarded: `(` and `)` only switch the grouping and are
  then counted and copied like any other character. `"(a)b|c"` has the
  context `(a)b`. See `LiteralBuild.ContextKeepsParens`.
- **A group still open at the end of the literal is not counted by the
  measure, but the extraction has already written its text.** Without a
  committed group, `a(b` measures a singular of one character, the copy
  without a plural writes three into two slots, and the literal does not
  build (`LiteralAgreement.UnclosedGroup`). After a committed group,
  `x(s)a(b` measures a singular of two characters while the pending `b`
  lands in the singular buffer's third slot, the one meant for the
  terminating NUL: the `CompileTimeString<char, 2>` holding `xa` is left
  without its terminator (`LiteralAgreement.OpenGroupFillsTerminator`).
- **`combine_elements` can move a message onto itself.** Its store
  (common/merge.cpp:51) is skipped only for a single message already in the
  write slot. When every run before it was a single message, the first
  longer run has its base in the write slot, and the base is self-moved.
  A self-moved standard-library object is valid but unspecified, so the
  model takes what the slot then holds as a parameter `moved`
  (`Merge.CombinedWith`, `Merge.CombinedWithSlot`). With libstdc++, whose
  vector self-move leaves the vector empty, two messages with one key lose
  their comment (`Merge.SelfMoveLosesComments`). `Merge.Combine` is the
  intended result, as if the guard compared the addresses of the write slot
  and the base. The code as written gives it when the input's keys are
  unique or the self-move keeps the message (`Merge.AsWrittenIsMerge`).
- **`std::sort` is unstable.** Only "sorted and a permutation" is used about
  it, and the merge properties hold for every such order.
- **`merge_msg` starts folding at the second comment.** The first comment is
  never compared with its equal neighbours. See `Merge.FrontNotMerged` and
  `Merge.LaterRunMerged`.

## Model

| member | source | states |
|---|---|---|
| CompileTimeStrings.FromLiteral | include/i18n/base.hpp:17-25 | a literal ending in NUL gives the present string of its characters before the NUL, of length `Length`; any other literal is rejected |
| CompileTimeStrings.LengthMarksAbsence | include/i18n/base.hpp:38-52 | a string has length `size_t(-1)` exactly when it is the absent specialization |
| CompileTimeStrings.CopyJoin | include/i18n/base.hpp:67-70 | the three copies fill the result with the first string, the separator and the second string |
| IncludeBase.JoinWithSeparator | include/i18n/base.hpp:61-85 | two present strings are joined around the separator; an absent side gives the other side unchanged; two absent sides cannot be called |
| IncludeBase.JoinParts | include/i18n/base.hpp:61-73 | the joined string is present, its length is `Length1 + 1 + Length2`, and it reads first string, separator, second string |
| IncludeBase.IdStorageText | include/i18n/base.hpp:106-107 | the msgid storage is the context and `\4` (if there is a context), the singular, then NUL and the plural (if there is a plural) |
| IncludeBase.SingularOffset | include/i18n/base.hpp:116-117 | `Context.length + 1` wraps in `size_t` to the length of the context part, 0 without a context |
| IncludeBase.SingularRange | include/i18n/base.hpp:116-119 | `singular_begin..singular_end` delimit exactly the singular inside the storage, starting at 0 without a context |
| IncludeBase.ContextRange | include/i18n/base.hpp:112-115 | the context pointers are set exactly when there is a context; they delimit the context, followed by `\4` and then the singular |
| IncludeBase.PluralRange | include/i18n/base.hpp:120-123 | the plural pointers are set exactly when there is a plural; the plural follows the singular's NUL and ends the storage; otherwise the singular ends it |
| IncludeBase.DomainPointers | include/i18n/base.hpp:108-111 | the domain pointers are null exactly for the absent domain, and delimit its characters otherwise |
| RuntimeBase.JoinWithSeparator | runtime/i18n/base.hpp:54-67 | the runtime join gives the other side for an absent side and both sides around the separator otherwise |
| RuntimeBase.JoinLength | runtime/i18n/base.hpp:54-58 | the returned string has the declared length `Length1 + 1 + Length2` modulo 2^64 (the other side's length when one side is absent); it is absent only when both sides are |
| RuntimeBase.JoinAgrees | runtime/i18n/base.hpp:54-67 | wherever the header's overloads resolve, the runtime join gives the same string |
| RuntimeBase.SameLayout | runtime/i18n/base.hpp:83-84 | the runtime msgid storage equals the header's |
| RuntimeBase.BaseChoice | runtime/i18n/base.hpp:79-90 | the plural base class is chosen exactly when there is a plural; the msgid pointer is the storage start; the singular and plural pointers point at the singular and the plural |
| LiteralContext.FirstSeparatorFrom | runtime/i18n.hpp:238-254 | the first unescaped `\|` outside an open group at or after a position, or `npos` when there is none |
| LiteralContext.MeasureContext | runtime/i18n.hpp:238-254 | `measure_context` returns the number of characters before the first separator (escapes counted once), or `-1` with the start; with a separator, the position is just past the `\|` and the remaining tokens are the literal's after it |
| LiteralContext.Advance | runtime/i18n.hpp:242-251 | one step of the scan moves past an escape by two and past any other character by one, tracks the open group, and keeps the first separator unchanged unless this character is one |
| LiteralContext.ExtractContext | runtime/i18n.hpp:259-268 | `extract_context` gives the absent string for length `-1`, and otherwise the first `length` characters with escapes removed |
| LiteralMain.MeasureSingularPlural | runtime/i18n.hpp:339-389 | the measuring loop returns the counts of the reference run `Measured`: the singular size and the plural size, or `-1` without a plural |
| LiteralMain.ExtractWithoutPlural | runtime/i18n.hpp:279-285 | without a plural, the copy into the singular buffer agrees with `Extracted`: the characters with escapes removed, or the failure for a trailing backslash, an overflow or a length mismatch |
| LiteralMain.RevertSingular | runtime/i18n.hpp:303-310 | the `copy_backward` of the pending singular puts `(`, the pending singular and, with a pending plural, `\|` and that plural into the singular buffer |
| LiteralMain.RevertGroup | runtime/i18n.hpp:301-316 | reverting an open group writes the recovered text into both buffers, followed by the `\|` or `)` that caused the revert |
| LiteralMain.RevertStep | runtime/i18n.hpp:301-316 | the revert on the buffers represents the reverted extraction state, or fails exactly when that state does not fit |
| LiteralMain.AppendPending | runtime/i18n.hpp:317-320 | a character inside a group is appended to the pending plural if one exists, else to the pending singular |
| LiteralMain.AppendBoth | runtime/i18n.hpp:328-331 | a character outside a group is appended to both forms |
| LiteralMain.ExtractStep | runtime/i18n.hpp:289-332 | one step of the loop on the buffers does what the reference `Step` does and keeps the buffers mirroring its state, or reports the overflow that `Step` would cause |
| LiteralMain.ExtractInGroup | runtime/i18n.hpp:290-320 | as `ExtractStep`, inside an open group |
| LiteralMain.ExtractOutside | runtime/i18n.hpp:321-331 | as `ExtractStep`, outside a group |
| LiteralMain.StepGrows | runtime/i18n.hpp:289-332 | a step never shrinks the slots in use in either buffer |
| LiteralMain.RunGrows | runtime/i18n.hpp:289-332 | the whole run never shrinks the slots in use |
| LiteralMain.StepOverflow | runtime/i18n.hpp:276-334 | a step that overflows the buffers makes the whole extraction fail out of range |
| LiteralMain.ExtractSingularPlural | runtime/i18n.hpp:276-334 | `extract_singular_plural` returns exactly `Extracted` of the literal and the two sizes |
| LiteralAgreement.StepRelated | runtime/i18n.hpp:339-389 | on a step of the extraction that succeeds and reads no `(` inside a group and no backslash outside one, the measuring step succeeds, moves as far, and keeps the counters equal to the lengths of the extracted text |
| LiteralAgreement.RunRelated | runtime/i18n.hpp:339-389 | on a literal that is `Tame`: its extraction never fails (so no backslash ends it), reads no backslash outside a group and no `(` inside one, and leaves no group open at the end, the measure and the extraction both succeed, and the counts are the lengths of the extracted singular and plural |
| LiteralAgreement.StepBound | runtime/i18n.hpp:289-332 | each character read adds at most two characters to either form |
| LiteralAgreement.RunBound | runtime/i18n.hpp:289-332 | the extracted forms are at most twice as long as the literal |
| LiteralAgreement.RunFlat | runtime/i18n.hpp:279-285 | on a `Tame` literal, the literal holds no backslash that ends it, and without a committed group the singular is the literal's characters with escapes removed |
| LiteralAgreement.MainAgreement | runtime/i18n.hpp:423-452 | on a `Tame` literal of fewer than `size_t(-1) / 2` characters, the sizes measured first are exactly the lengths that the extraction fills, so extraction builds the singular and the plural with no padding and no failure |
| LiteralAgreement.BackslashOutsideGroup | runtime/i18n.hpp:279-285 | `"a\\b"` measures 3 and fails the extraction's length assertion |
| LiteralAgreement.EscapedParenOutsideGroup | runtime/i18n.hpp:378-386 | outside a group the measure counts a backslash and reads the escaped `(` as opening a group, so `a\(s)` measures singular 2 and plural 3, while the extraction (lines 328-330) copies `a(s)` into both forms and overruns both buffers |
| LiteralAgreement.ParenInsideGroupRun | runtime/i18n.hpp:301-316 | the extraction of `(a(b\|c)` reverts the first group and gives `(ab` and `(ac` |
| LiteralAgreement.ParenInsideGroupMeasure | runtime/i18n.hpp:358-370 | the measure of `(a(b\|c)` goes on counting the pending singular from where the reverted group left it, giving 5 and 3 |
| LiteralAgreement.ParenInsideGroup | runtime/i18n.hpp:423-452 | `(a(b\|c)` builds a singular padded with two NULs |
| LiteralAgreement.UnclosedGroup | runtime/i18n.hpp:279-285 | `a(b` measures one character and no plural, and the copy without a plural then writes past the singular's buffer, so the literal does not build |
| LiteralAgreement.OpenGroupMeasure | runtime/i18n.hpp:339-389 | the measure of `x(s)a(b` counts the committed group and none of the open one, ending with 2 and 3 |
| LiteralAgreement.OpenGroupRun | runtime/i18n.hpp:289-332 | the extraction of `x(s)a(b` commits `xa` and `xsa` and leaves `b` pending in the open group |
| LiteralAgreement.OpenGroupFillsTerminator | runtime/i18n.hpp:289-332 | `x(s)a(b` measures 2 and 3, the open group's pending `b` occupies the singular buffer's terminating slot, and the forms read out are `xa` and `xsa` |
| LiteralBuild.BuildI18NString | runtime/i18n.hpp:423-452 | `build_I18NString` returns exactly `Built`: the context from the literal, then the singular and plural built with the measured sizes from the main part, or the failure that ends evaluation |
| LiteralBuild.BuildTame | runtime/i18n.hpp:423-452 | a literal whose main part is `Tame`: its extraction never fails (so no backslash ends it), reads no backslash outside a group and no `(` inside one, and leaves no group open at the end builds the context, the extracted singular and, when a plural was committed, the plural |
| LiteralBuild.PartsTame | runtime/i18n.hpp:423-452 | the same, for the main part alone |
| LiteralBuild.NoContext | runtime/i18n.hpp:238-254 | a literal without `\|` or backslash has no context and its main part is the whole literal |
| LiteralBuild.ContextOf | runtime/i18n.hpp:238-268 | in `c\|m`, with `c` free of `\|`, `(` and backslash, the context is `c` and the main part is `m` |
| LiteralBuild.ContextKeepsParens | runtime/i18n.hpp:238-267 | `(a)b\|c` has the context `(a)b`: the unescaped parentheses are counted and copied, not discarded |
| LiteralBuild.BarInGroup | runtime/i18n.hpp:245-250 | a `\|` inside a group is not a context separator |
| LiteralBuild.PlainMain | runtime/i18n.hpp:289-332 | text without markers becomes both forms, with no plural committed |
| LiteralBuild.MarkerMain | runtime/i18n.hpp:289-332 | `x(s)y` gives singular `xy` and plural `xsy` |
| LiteralBuild.AlternativeMain | runtime/i18n.hpp:289-332 | `x(a\|b)y` gives singular `xay` and plural `xby` |
| LiteralBuild.PlainParts | runtime/i18n.hpp:423-452 | text without markers builds the singular itself and no plural |
| LiteralBuild.MarkerParts | runtime/i18n.hpp:423-452 | `x(s)y` builds singular `xy` and plural `xsy` |
| LiteralBuild.AlternativeParts | runtime/i18n.hpp:423-452 | `x(a\|b)y` builds singular `xay` and plural `xby` |
| LiteralBuild.BuiltWithoutBar | runtime/i18n.hpp:423-452 | a literal without `\|` or backslash builds no context and the parts of the whole literal |
| LiteralBuild.BuiltWithContext | runtime/i18n.hpp:423-452 | `c\|m` builds context `c` and the parts of `m` |
| LiteralBuild.PlanetOracle | tests/simple.cpp:22-25 | `"Hello planet(s)!"` builds `Hello planet!` and `Hello planets!` without a context |
| LiteralBuild.PeopleOracle | tests/simple.cpp:24-25 | `"Hello (person\|people)!"` builds `Hello person!` and `Hello people!` |
| LiteralBuild.PlayAgainOracle | example/guessing.cpp:64 | `"play again\|yes"` builds context `play again`, singular `yes` and no plural |
| Lookup.StrChr | runtime/i18n.hpp:50 | `strchr` finds the first occurrence of the character inside the C string, or null when there is none |
| Lookup.GetSingular | runtime/i18n.hpp:48-52 | `get_singular` points one past the first `\4` of the msgid string, with no `\4` or NUL before it, or at the msgid when the string holds no `\4` |
| Lookup.GetPlural | runtime/i18n.hpp:76-79 | `get_plural` points one past the msgid string's NUL, with no NUL before it |
| Lookup.SingularFound | runtime/i18n.hpp:48-52 | in the storage of a message with a clean context (or, with no context, a singular free of `\4`), `get_singular` finds `singular_begin`, and the C string there is the singular |
| Lookup.PluralFound | runtime/i18n.hpp:76-79 | in the storage of a plural message, `get_plural` finds `plural_begin`, and the C string there is the plural |
| Lookup.Fallback | runtime/i18n.hpp:34-39 | a translation equal to the msgid pointer gives the singular; any other answer is shown as it is |
| Lookup.UntranslatedSingular | runtime/i18n.hpp:34-39 | an untranslated message shows its singular; the runtime class's singular pointer is where `get_singular` looks |
| Lookup.UntranslatedPlural | runtime/i18n.hpp:58-63 | an untranslated plural message shows the singular for `n == 1` and the plural otherwise; the class's pointers agree with `get_singular` and `get_plural` |
| Lookup.UntranslatedLiteral | runtime/i18n.hpp:58-63 | the same, for a message without a context |
| Lookup.PlanetLiteral | tests/simple.cpp:22-25 | in the C locale, `"Hello planet(s)!"_[1]` is `Hello planet!` and `[2]` is `Hello planets!` |
| Ordering.CharOrder | common/merge.cpp:17 | character comparison is a total order |
| Ordering.SeqEqual | common/merge.cpp:18 | lexicographic comparison says equal exactly for equal sequences |
| Ordering.SeqTrans | common/merge.cpp:18 | lexicographic comparison is transitive, and strictly so when either step is strict |
| Ordering.StringOrder | common/merge.cpp:17 | `std::string`'s `<=>` is a total order |
| Ordering.OptStringOrder | common/merge.cpp:15 | the `<=>` of optional strings is a total order |
| Ordering.SortedUnique | common/merge.cpp:24-33 | two sorted permutations of the same elements are equal when the order has no ties between distinct elements |
| Sorting.SortInPlace | common/merge.cpp:14 | `std::sort` leaves the array sorted under the comparator and a permutation of its old contents |
| Sorting.SortSeq | common/merge.cpp:59 | the reference sort is a permutation of its input |
| Sorting.SortSeqSorted | common/merge.cpp:59 | the reference sort's result is sorted |
| Sorting.SortedIsSortSeq | common/merge.cpp:59 | under a total order, any sorted permutation equals the reference sort |
| Merge.EntryOrder | common/merge.cpp:59 | the `<=>` of (location, comment) pairs is a total order |
| Merge.EntriesOrder | common/merge.cpp:18 | the `<=>` of comment vectors is a total order |
| Merge.KeyOrder | common/merge.cpp:15-17 | (context, singular) comparison is a total order |
| Merge.PresortPreorder | common/merge.cpp:13-22 | the presort comparator is a total preorder, and it never puts a greater key first |
| Merge.PostsortPreorder | common/merge.cpp:24-33 | the postsort comparator is a total preorder whose ties are exactly the messages with equal comments and key |
| Merge.RunLength | common/merge.cpp:42-43 | the inner loop's run: the leading messages with the same context and singular, ended by the first that differs |
| Merge.GatherRun | common/merge.cpp:41-50 | appending the comments of the run to its first message; no other slot changes |
| Merge.CombinedWithSlot | common/merge.cpp:35-55 | the code as written gives `Combine` except in one slot, which holds `moved` of the combined message; that slot exists exactly when two neighbours share a key |
| Merge.SelfMoveSlot | common/merge.cpp:51 | the self-moved slot is missing exactly when no two neighbours share a key |
| Merge.CombinedRun | common/merge.cpp:40-53 | a maximal run at the write position while every earlier run was single: self-moved when longer than one, then the reference for the rest |
| Merge.CombinedStep | common/merge.cpp:40-53 | one run adds its combined message, `moved` of it when it is the self-move, to the compacted prefix |
| Merge.CompactRun | common/merge.cpp:40-53 | one iteration of the outer loop writes the run's combined message, or `moved` of it on a self-move, into the next write slot and extends the prefix of `CombinedWith` |
| Merge.CombineElements | common/merge.cpp:35-55 | `combine_elements` leaves `CombinedWith` of the old contents in the kept prefix |
| Merge.CombineComments | common/merge.cpp:47-49 | combining loses and adds no comment: the comments, in order, are the input's |
| Merge.CombineKeys | common/merge.cpp:35-55 | combining keeps exactly the set of keys |
| Merge.CombineAdjacent | common/merge.cpp:40-53 | after combining, neighbouring messages have different keys |
| Merge.SortedGrouped | common/merge.cpp:13-22 | key-sorted input has messages of equal key next to each other |
| Merge.CombineUnique | common/merge.cpp:35-55 | on grouped input, combining leaves every key once |
| Merge.CombineSurvivor | common/merge.cpp:35-55 | on grouped input, each combined message is the first with its key, carrying the comments of every message with that key |
| Merge.UniqueKeysCard | common/merge.cpp:35-55 | a list has at most as many keys as messages, exactly as many when its keys are unique |
| Merge.CombineLength | common/merge.cpp:54 | on grouped input, combining keeps one message per key |
| Merge.CombineIdentity | common/merge.cpp:35-55 | a list whose neighbours all differ in key is left unchanged |
| Merge.LocRun | common/merge.cpp:67 | the inner loop's run of comments with the same location |
| Merge.FoldEntries | common/merge.cpp:57-94 | folding leaves at most one comment, and never one that is empty in both fields |
| Merge.Merged | common/merge.cpp:58-93 | `merge_msg` on a message changes only its comments and leaves at most one |
| Merge.MergedAll | common/merge.cpp:58-93 | `merge_msg` treats every message on its own |
| Merge.MergedFixed | common/merge.cpp:63-91 | a message already holding at most one non-empty comment is unchanged |
| Merge.FoldStep | common/merge.cpp:65-90 | one run of equal locations folds its location and its last present comment into the front |
| Merge.FoldRun | common/merge.cpp:66-75 | the inner loop on the array keeps the last present comment of the run; the fold of the rest is unchanged |
| Merge.AbsorbBase | common/merge.cpp:76-89 | the front takes the base's location after a blank and its comment after a line break, or takes them when it has none; other slots unchanged |
| Merge.FoldComments | common/merge.cpp:59-91 | sorting and folding one message's comments gives `FoldEntries` of the sorted list |
| Merge.MergeMsg | common/merge.cpp:57-94 | `merge_msg` on the array replaces every message by `Merged` of it |
| Merge.MergeOne | common/merge.cpp:58-93 | one iteration changes only its own message |
| Merge.LastCommentAbsent | common/merge.cpp:68-74 | a run's comment is absent exactly when no comment of the run is present |
| Merge.FoldRestAbsent | common/merge.cpp:76-89 | the folded location (comment) is absent exactly when the front's and every later one is |
| Merge.FoldEntriesEmpty | common/merge.cpp:91 | the resize leaves no comment exactly when no comment has a location or a text |
| Merge.FoldLocations | common/merge.cpp:76-82 | the folded location joins, with blanks, the present locations of the runs after the front, one per run |
| Merge.SortedDistinctLocations | common/merge.cpp:59 | in sorted comments, equal locations sit next to each other |
| Merge.FrontNotMerged | common/merge.cpp:64 | the first comment is not merged with an equal successor: two comments at `a.c:1` give location `a.c:1 a.c:1` |
| Merge.LaterRunMerged | common/merge.cpp:67-75 | later comments with equal locations merge into one, keeping the last present text |
| Merge.PresortMsgs | common/merge.cpp:13-22 | `presort_msgs` sorts by context, singular and comments, as a permutation |
| Merge.PostsortMsgs | common/merge.cpp:24-33 | `postsort_msgs` sorts by comments, context and singular, as a permutation |
| Merge.MergeProperties | common/merge.cpp:98-104 | a merge result has each key once and the input's keys; it is postsorted; each message carries at most one non-empty comment, the sorted and folded comments of all input messages with its key; each otherwise equals an input message; messages without comments come first |
| Merge.UniquePerm | common/merge.cpp:24-33 | a permutation keeps keys unique |
| Merge.RemergeIdentity | common/merge.cpp:35-94 | combining and folding a permutation of a merged catalogue changes nothing |
| Merge.PostsortUnique | common/merge.cpp:24-33 | for unique keys, the postsort order is unique despite the unstable sort |
| Merge.MergeIdempotent | common/merge.cpp:98-104 | merging a merged catalogue gives it back |
| Merge.SameSort | common/merge.cpp:59 | sorting comments depends only on the multiset of comments |
| Merge.MergeShape | common/merge.cpp:98-104 | whatever the self-move left, a result is postsorted, each message has at most one comment, never one empty in both fields, and messages without comments come first |
| Merge.AsWrittenLength | common/merge.cpp:98-104 | whatever the self-move left, a result has one message per distinct input key |
| Merge.AsWrittenIsMerge | common/merge.cpp:51 | with unique input keys, or a self-move that keeps the message, the code as written gives the intended merge |
| Merge.SelfMoveLosesComments | common/merge.cpp:51 | when the self-move empties the comments, two messages with one key and one located comment merge into one message without comments, where the intended merge keeps it |
| Merge.PairSelfMoved | common/merge.cpp:40-53 | two messages with one key compact into one self-moved message in either presorted order |
| Merge.FoldedPair | common/merge.cpp:57-94 | the intended comments of such a pair are its one located comment |
| Merge.MergeMessages | common/merge.cpp:98-104 | `merge_messages` returns a result as written: postsorted, one message per input key, folded comments with comment-less messages first; with unique input keys or a keeping self-move, a merge of its input with all the properties of `MergeProperties` |
| Merge.MergeSteps | common/merge.cpp:98-104 | `merge_messages` is presort, combine as written, fold and postsort, each on the previous result |
| PoText.Byte | common/write_po.cpp:42-44 | `std::uint8_t(c)` is below 256, and is the character's code for a byte |
| PoText.HexDigit | lib/write_po.cpp:8 | the digit table gives a printable digit of the right value |
| PoText.EscapeChar | common/write_po.cpp:10-47 | one character is written as 1 to 4 printable characters; it is written as itself exactly when it is printable and has no named escape; otherwise the output starts with a backslash |
| PoText.Escaped | common/write_po.cpp:7-50 | the escaped body is printable and between one and four times the length of the string |
| PoText.EscapedAppend | common/write_po.cpp:10 | escaping works character by character |
| PoText.QuotedShape | common/write_po.cpp:7-50 | a quoted string starts and ends with `"` and holds no line break |
| PoText.UnescapeChar | common/write_po.cpp:10-47 | a compatible reader reads each escaped character back |
| PoText.UnescapeOctal | common/write_po.cpp:42-44 | three octal digits read back as the byte |
| PoText.UnescapeHex | lib/write_po.cpp:25-26 | `\x` and two hex digits read back as the byte by a reader taking at most two digits |
| PoText.UnescapeEscaped | common/write_po.cpp:7-50 | escaping then reading gives the original bytes back |
| PoText.UnquoteQuoted | lib/write_po.cpp:7-30 | writing a quoted string then reading it gives it back |
| PoText.GreedyHexMisreads | lib/write_po.cpp:25-26 | a byte 1 followed by `a` is written `\x01a`, which a greedy C-style reader takes as one byte 26 |
| PoText.SplitLines | common/write_po.cpp:77-85 | the pieces between line breaks: at least one, none holding a line break |
| PoText.JoinSplit | common/write_po.cpp:77-85 | the pieces joined by line breaks are the text |
| PoText.SplitJoin | common/write_po.cpp:77-85 | splitting joined pieces free of line breaks gives them back |
| PoText.TextSplit | common/write_po.cpp:73-117 | written lines free of line breaks split back into those lines and a final empty piece |
| PoText.Decimal | lib/write_po.cpp:61 | `operator<<(int)` writes decimal digits without a leading zero |
| PoText.DecimalValue | lib/write_po.cpp:61 | the digits denote the number |
| PoFormat.ReadCommentLine | lib/write_po.cpp:32-42 | every comment is read back from the line written for it, and that line starts with `#` |
| PoFormat.StripPrefix | common/write_po.cpp:89-115 | removing a keyword prefix succeeds exactly when the line starts with it |
| PoFormat.IndexedLines | common/write_po.cpp:101-105 | one `msgstr[i]` line per translation |
| PoFormat.IndexedAt | common/write_po.cpp:101-105 | line `j` is `msgstr[first + j] ` followed by the quoted translation `j` |
| PoFormat.DistinctPrefixes | common/write_po.cpp:89-115 | no keyword line can be mistaken for another keyword |
| PoFormat.ReadIndexedLines | common/write_po.cpp:101-105 | the indexed lines read back as the translations |
| PoFormat.ReadPlural | common/write_po.cpp:97-105 | a plural block reads back as its singular, plural and every translation |
| PoFormat.ReadSingular | common/write_po.cpp:106-115 | a singular block reads back as its singular and its one translation |
| PoFormat.ReadKeywordLines | common/write_po.cpp:89-115 | a keyword block reads back as its fields, except that a singular message keeps only its first translation, and an empty list reads as one empty string |
| PoFormat.ReadWithContext | common/write_po.cpp:89-93 | a `msgctxt` line gives the context of the block |
| PoFormat.ContextLine | common/write_po.cpp:89-93 | a `msgctxt` line is written exactly when there is a context |
| PoFormat.KeywordLineStart | common/write_po.cpp:94-115 | every keyword line after the context starts with `msgid` or `msgstr` |
| PoFormat.DropCommentBlock | common/write_po.cpp:74-88 | dropping the leading `#`-lines leaves the keyword block |
| PoFormat.KeywordNoBreak | common/write_po.cpp:89-115 | no keyword line holds a line break |
| WritePoCommon.EscapeOne | common/write_po.cpp:10-47 | the switch writes `EscapeChar` with octal escape style |
| WritePoCommon.WriteEscaped | common/write_po.cpp:7-50 | `write_escaped` appends the quoted, octal-escaped string |
| WritePoCommon.WriteComment | common/write_po.cpp:52-71 | `operator<<(Comment)` appends the comment's line |
| WritePoCommon.WriteCommentText | common/write_po.cpp:77-85 | an extracted comment text is written as one `#. ` line per piece between line breaks |
| WritePoCommon.WriteEntry | common/write_po.cpp:77-86 | one extracted entry appends its comment lines and then its `#: ` location line |
| WritePoCommon.WriteTranslatorComments | common/write_po.cpp:74-75 | each translator comment appends a `# ` line |
| WritePoCommon.WriteExtracted | common/write_po.cpp:76-87 | the extracted entries append their lines in order |
| WritePoCommon.WriteFlags | common/write_po.cpp:88 | the flags append a `#, ` line when present |
| WritePoCommon.WriteContext | common/write_po.cpp:89-93 | the context appends a `msgctxt` line when present |
| WritePoCommon.WriteTranslations | common/write_po.cpp:101-105 | the translations append numbered `msgstr[i]` lines from 0 |
| WritePoCommon.WriteMsgstr | common/write_po.cpp:97-115 | with a plural: `msgid_plural` and the numbered lines; without: one `msgstr` line with the first translation or `""` |
| WritePoCommon.WriteKeywords | common/write_po.cpp:89-115 | the keyword block appends the context, msgid and msgstr lines |
| WritePoCommon.WriteMessage | common/write_po.cpp:73-117 | `operator<<(Message)` appends the message's comment block, then its keyword block |
| WritePoCommon.PrefixRun | common/write_po.cpp:82-84 | the leading lines that carry a prefix |
| WritePoCommon.ReadEntryLines | common/write_po.cpp:77-86 | the lines of an extracted entry read back as that entry: its comment text and its location |
| WritePoCommon.CommentBlockHash | common/write_po.cpp:74-88 | every comment-block line starts with `#` |
| WritePoCommon.ReadMessageKeywords | common/write_po.cpp:73-117 | the keyword block of a written message reads back as its fields, as `ReadKeywordLines` states |
| WritePoCommon.MessageText | common/write_po.cpp:73-117 | the written text splits back into the message's exact lines |
| WritePoLib.EscapeOne | lib/write_po.cpp:10-28 | the switch writes `EscapeChar` with hex escape style |
| WritePoLib.WriteEscaped | lib/write_po.cpp:7-30 | `write_escaped` appends the quoted, hex-escaped string |
| WritePoLib.WriteComment | lib/write_po.cpp:32-42 | `operator<<(Comment)` appends the comment's line |
| WritePoLib.CommentLines | lib/write_po.cpp:45-46 | one line per comment |
| WritePoLib.WriteComments | lib/write_po.cpp:45-46 | the comments append their lines in order |
| WritePoLib.WriteContext | lib/write_po.cpp:47-51 | the context appends a `msgctxt` line when present |
| WritePoLib.WriteTranslations | lib/write_po.cpp:59-63 | the translations append numbered `msgstr[i]` lines from 0 |
| WritePoLib.WriteMsgstr | lib/write_po.cpp:55-73 | with a plural: `msgid_plural` and the numbered lines; without: one `msgstr` line with the first translation or `""` |
| WritePoLib.WriteKeywords | lib/write_po.cpp:47-73 | the keyword block appends the context, msgid and msgstr lines |
| WritePoLib.WriteMessage | lib/write_po.cpp:44-75 | `operator<<(Message)` appends the comment lines, then the keyword block |
| WritePoLib.ReadComments | lib/write_po.cpp:45-46 | each comment line of a written message reads back as its comment |
| WritePoLib.ReadMessageKeywords | lib/write_po.cpp:44-75 | a reader that takes at most two hex digits reads the keyword block back as the message's fields |
| WritePoLib.GreedyReaderMisreads | lib/write_po.cpp:25-26 | a greedy `\x` reader reads the singular `[1, 'a']` back as `[26]` |
| WritePoLib.MessageText | lib/write_po.cpp:44-75 | the written text splits back into the message's lines when no comment holds a line break |
| Extractor.FindBreak | clang/action.cpp:82 | `find_first_of("\n\r")` gives the first line break at or after the position, or `npos` |
| Extractor.MaxOneLinebreakCounts | clang/action.cpp:79-92 | `max_one_linebreak` holds exactly when the comment has at most one line break, `\r\n` or `\n\r` counting as one |
| Extractor.LinebreakExamples | clang/action.cpp:79-92 | `a\r\nb` and `ab\n` pass, `a\n\nb` does not |
| Extractor.MatchDomain | clang/action.cpp:568-573 | a message with a domain is written exactly when the filter names that domain; one without, exactly when `nodomain` is set or there is no filter |
| Extractor.PragmaMatches | clang/action.cpp:490-501 | after the pragma, its domain is written unless another filter was set; messages without a domain are written exactly when the flag was on or the pragma repeats the filter; other domains are as before once there is a filter |
| Extractor.PragmaRepeated | clang/action.cpp:490-501 | a pragma repeated without a prior filter sets the filter and turns the flag on |
| Extractor.FirstValue | clang/action.cpp:584-613 | an option's value is taken from the first argument with its prefix, or is none when no argument has it |
| Extractor.TakeStep | clang/action.cpp:590-609 | one argument extends the first-wins value from `i` to `i + 1` arguments |
| Extractor.FirstWins | clang/action.cpp:590-594 | the first `domain=`-style argument wins over any later one |
| Extractor.OneOption | clang/action.cpp:586-611 | an argument is at most one kind of option |
| Extractor.Action.constructor | clang/action.h:28-32 | the plugin starts without filters, paths or the flag |
| Extractor.Action.ParseArg | clang/action.cpp:586-611 | one argument sets the flag for `nodomain`, and sets an unset option from its prefix; set options and unknown arguments change nothing |
| Extractor.Action.ParseArgs | clang/action.cpp:584-613 | `ParseArgs` returns true; `nodomain` anywhere sets the flag; each option takes the first value given, `basepath` made canonical |
| Extractor.FirstIndex | clang/action.cpp:325-328 | the first occurrence of a character, or none when it does not occur |
| Extractor.Visitor.constructor | clang/action.cpp:165 | the catalogue starts empty |
| Extractor.Added | clang/action.cpp:329-340 | the catalogue after `addEntry`: only the entry under the key of the normalised context and msgid changes, inserted empty when missing and filled only while it has no singular, so its singular stays empty exactly when the normalised msgid is empty and the entry had none |
| Extractor.Visitor.AddEntry | clang/action.cpp:313-340 | `addEntry` normalises the context and msgid, finds or inserts the entry under the key, fills it only while it has no singular, and returns the key |
| Extractor.FirstStoredWins | clang/action.cpp:333-338 | for a message whose normalised msgid is not empty, the entry under its key holds a singular after `addEntry`, holds that call's fields when the key was new, and a second addition with any plural leaves the catalogue unchanged |
| Extractor.EmptyMsgidRefills | clang/action.cpp:333-338 | for an empty normalised msgid the singular stays empty, so a second addition refills the entry and the last plural given is kept |
| Extractor.MacroContext | clang/action.cpp:319-324 | a context `context\4msgid` from gettext's `pgettext` macro gives the same entry as an explicit context |
| Extractor.ManualContext | clang/action.cpp:325-328 | a msgid `before\4after` without a context becomes `after`, with the context `before\4` minus its first character, as written |
| Extractor.ManualContextExample | clang/action.cpp:325-328 | `"menu\4Open"` is stored with the context `"enu\4"` |
| Extractor.RestRoundTrip | clang/action.cpp:330-332 | the context and the msgid are read back from the key's tail |
| Extractor.KeyRoundTrip | clang/action.cpp:330-332 | a key is parsed back into its domain, context and msgid when none holds a separator of a later part |
| Extractor.KeyInjective | clang/action.cpp:330-332 | two such messages share a key exactly when they have the same domain, context and msgid |
| Extractor.Resize | clang/action.cpp:564 | `resize(n)` keeps the first `n` translations and pads with empty strings |
| Extractor.Prepared | clang/action.cpp:564 | before writing, a message has two translations with a plural and one without, and is otherwise unchanged |
| Extractor.ResizedAt | clang/action.cpp:561-566 | the loop resizes exactly the entries it visits that match the domain, and no others |
| Extractor.EmittedSnoc | clang/action.cpp:561-566 | one more visited entry adds its message to the output exactly when it matches the domain |
| Extractor.EmittedMessages | clang/action.cpp:561-566 | every written message has the resized translation count; the written messages are exactly the prepared messages of the matching entries |
| Extractor.Consumer.constructor | clang/action.cpp:513-519 | the consumer starts from the action's filter and flag |
| Extractor.Consumer.HandlePragmaDomain | clang/action.cpp:490-501 | the pragma never replaces an existing filter, sets a missing one, and turns the flag on when the pragma names the filter already set |
| Extractor.Consumer.WriteCatalog | clang/action.cpp:561-566 | the loop writes each matching entry, in the given order, followed by a blank line, and leaves every matching entry resized |

## Left out

- Streams, files and the output path: writers append to a string; opening the `.poc` file, deriving its name and its error message are not modelled.
- Warnings on `std::clog` and `std::cerr` (duplicate options, mismatched plurals or flags, dropped comments or msgstr values, unknown options) are not modelled: they change no state.
- `dgettext` and `dngettext` are not modelled: their answer is the parameter `Lookup.Answer`. `Lookup.Untranslated` describes a catalogue with no entry.
- Lookup.SingularFound, Lookup.UntranslatedSingular, Lookup.UntranslatedPlural: they are stated for a context free of `\4` and NUL and, without a context, a singular free of `\4`. Otherwise `get_singular` splits at the first `\4`, which is the wrong place, and a NUL cuts the C string short. `GetSingular` and `CString` model that behaviour, but no lemma states where it lands.
- `fmt` formatting (`operator()`) is not modelled; it only formats the looked-up text.
- `std::filesystem::weakly_canonical` is a function parameter of `Extractor.Action.ParseArgs`.
- Extractor.Consumer.WriteCatalog: the order in which `llvm::StringMap` visits its entries is unspecified, so the key order is a parameter.
- Lexing of the `#pragma mfk i18n domain(...)` tokens and its diagnostics are not modelled; `HandlePragmaDomain` takes the domain string.
- The clang AST visitor, the constant evaluation of literals, the matching of comments to source locations and the `comment=` filter are not modelled: they depend on clang.
- The PO parser (merge/) is not modelled. `PoFormat`'s readers are independent references used to state the round trips.
- WritePoCommon.WriteTranslations: the `int` counter of `msgstr[i]` is unbounded; its overflow needs more than 2^31 translations.
- The character type parameter (`char`, `wchar_t`, ...) is not modelled: characters are `char`, and the `static_assert`s on matching character types always hold.
- Merge.CombineElements: `erase` is modelled as a copy of the kept prefix into a fresh array.
- Merge.MergeMessages: when two input messages share a key and the self-move changes the message, only the shape of the result and its length are promised; its keys, its comments and its relation to the input messages are not, since the self-moved message is unspecified.
- LiteralMain.MeasureSingularPlural: its counters are unbounded; a `size_t` wrap needs a literal of 2^64 characters.
- LiteralMain.ExtractSingularPlural: a write beyond a buffer is reported as one failure after the step, rather than checked slot by slot; both end the constant evaluation.
- LiteralMain.Extracted: a group still open at the end of the literal is written as the state leaves it, and its pending text can fill the terminating slot of a buffer (see `LiteralAgreement.OpenGroupFillsTerminator`); `CtString` holds no terminator, so the model returns the first `Length` slots and drops that one, where the source yields a string without a NUL at its end.
- PoText.IsPrint: `std::isprint` is taken in the "C" locale, where exactly the bytes 0x20 to 0x7E are printable; another locale is not modelled, nor the undefined behaviour of passing a negative `char` (a byte above 0x7F where `char` is signed), which the model treats as that byte, not printable.
