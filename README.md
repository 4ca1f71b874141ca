# Chinese dictionary restructurer, modelled in Dafny

This project models the dictionary generator of the `obsidian-chinese` repository. The generator reads a
line-oriented text dictionary. Each non-blank line holds one or more back-to-back groups
`(pinyin ideogram [translation])`. The generator rewrites every line so that each group lists its fields in
one of four layouts: pinyin or ideogram first, with or without the translation. It leaves off the line's
final `)`, so an editor's autocompletion can close it. It then removes later copies of a non-blank line and
writes every line out with a single `'\n'`.

The model has five modules:

- `ChineseTokens` (`chinese_token.dfy`): the `ChineseToken` enumeration and the format validator
  `is_valid_format`.
- `Builtins` (`builtins.dfy`): the Python string built-ins the generator relies on, written out
  explicitly:
  - `str.strip()`;
  - `re.sub('\s+', ' ', ...)` and `re.sub('\n+', '\n', ...)`;
  - `str.split(sep)`, `sep.join(...)`, `str.replace(c, '')`, `list.index` and `readlines()`.
  
  Whitespace is the exact set of characters Python's `str.isspace` accepts. `strip()` and the `\s`
  class of `re` use the same set.
- `Groups` (`groups.dfy`): `split` and `restructure` for one group. `ChineseStruct` is a two-field
  datatype. The exceptions become an `Error` datatype inside a `Result`.
- `LineDedup` (`dedup.dfy`): the in-place removal of duplicate lines:
  - `RemoveDuplicates` is an imperative method with the source's nested loops and `pop`;
  - it is proved equal to a recursive specification `Dedup`;
  - `Dedup` is proved equal to an independent reference, `FirstOccurrences`, a filter with a set of
    lines already seen;
  - the promised properties are proved about `FirstOccurrences`.
- `Generate` (`generate.dfy`): the body of `generate_html_dictionary` without its file I/O:
  - `GenerateHtmlDictionary` is a method with the source's loops;
  - it is proved equal to the function `Generate`;
  - the end-to-end lemmas `GenerateFails` and `GenerateShape` are proved about `Generate`.

Both unreachable branches of the source are proved unreachable:
- `str.split` always returns at least one piece (`Builtins.SplitOn`, `Generate.PiecesShape`).
- The last restructured group always ends in `)` (`Generate.GroupClosed`, `Generate.JoinGroupsShape`).

## Model

| member | source | states |
|---|---|---|
| ChineseTokens.IsValidFormat | Dictionnaire/chinese_token.py:36-40 | `is_valid_format`: the format equals one of the four layouts as a whole sequence; characterised by `ValidFormatIff`, `ValidFormatLayout` and `InvalidFormats` |
| ChineseTokens.ValidFormatIff | Dictionnaire/chinese_token.py:36-40 | a format is valid iff it has 2 or 3 tokens, exactly one pinyin, exactly one ideogram, and no translation before the last place |
| ChineseTokens.ValidFormatLayout | Dictionnaire/chinese_token.py:37-40 | a valid format starts with pinyin and ideogram in either order and has the translation, if any, third |
| ChineseTokens.InvalidFormats | Dictionnaire/chinese_token.py:37-40 | fewer than 2 or more than 3 tokens, a translation first, or a repeated token are rejected |
| Builtins.Strip | Dictionnaire/generate_html_dictionary.py:49 | `str.strip()`: the leading, then the trailing whitespace removed; its meaning is stated by `StripShape`, `DropBothShape` and `StripEmptyIffBlank` |
| Builtins.DropLeading | Dictionnaire/generate_html_dictionary.py:49 | stripping the leading characters never lengthens the text, and shortens it when the first character is whitespace |
| Builtins.DropLeadingShape | Dictionnaire/generate_html_dictionary.py:49 | what remains is a suffix that does not start with whitespace, and everything removed was whitespace |
| Builtins.DropTrailing | Dictionnaire/generate_html_dictionary.py:49 | stripping the trailing characters never lengthens the text |
| Builtins.DropTrailingShape | Dictionnaire/generate_html_dictionary.py:49 | what remains is a prefix that does not end with whitespace, and everything removed was whitespace |
| Builtins.DropBothShape | Dictionnaire/generate_html_dictionary.py:49 | stripping both ends leaves a contiguous slice of the text with no whitespace at either end |
| Builtins.DropBothEmpty | Dictionnaire/generate_html_dictionary.py:97 | stripping both ends leaves nothing iff every character is whitespace |
| Builtins.StripShape | Dictionnaire/generate_html_dictionary.py:49 | `strip()` returns a trimmed text no longer than its input, which is empty iff the input is all whitespace |
| Builtins.StripEmptyIffBlank | Dictionnaire/generate_html_dictionary.py:97 | `line.strip() == ''` holds exactly for blank lines |
| Builtins.BlankIffAllWhitespace | Dictionnaire/generate_html_dictionary.py:97 | a line is blank iff all its characters are whitespace |
| Builtins.IsBlank | Dictionnaire/generate_html_dictionary.py:97 | a blank line, the source's `line.strip() == ''` (and its negation `!= ''` at line 120); characterised by `StripEmptyIffBlank` (equal to the `strip()` test) and `BlankIffAllWhitespace` (every character is whitespace) |
| Builtins.DropLeadingRun | Dictionnaire/generate_html_dictionary.py:82 | a leading run of whitespace before a non-whitespace character is removed exactly |
| Builtins.DropTrailingRun | Dictionnaire/generate_html_dictionary.py:82 | a trailing run of whitespace after a non-whitespace character is removed exactly |
| Builtins.StripPadded | Dictionnaire/generate_html_dictionary.py:82 | stripping a trimmed core padded with whitespace on both sides gives back the core |
| Builtins.CollapseRuns | Dictionnaire/generate_html_dictionary.py:50 | `re.sub('[cs]+', rep, s)`: each maximal run of class characters becomes one `rep`; pinned down by `CollapseRunsJoin`, `CollapseRunsDoubled` and `CollapseRunsIdentity` |
| Builtins.CollapseRunsShape | Dictionnaire/generate_html_dictionary.py:50 | the shape of the result: empty iff the input is; no two class characters side by side; `rep` is the only class character; other characters come from the input; a class character sits at either end exactly where the input has one (the full meaning is `CollapseRunsJoin`) |
| Builtins.CollapseRunsSeparated | Dictionnaire/generate_html_dictionary.py:49-50 | collapsing whitespace in a stripped text gives a text with single spaces between words and none at either end |
| Builtins.CollapseRunsDoubled | Dictionnaire/generate_html_dictionary.py:126 | a text ending in `'\n\n'` with no other newline loses exactly one of the two |
| Builtins.WordPrefix | Dictionnaire/generate_html_dictionary.py:50 | the first word of a text: never longer than the text, and non-empty when the text starts outside the class |
| Builtins.WordPrefixShape | Dictionnaire/generate_html_dictionary.py:50 | the first word is a prefix without class characters that stops only at the end of the text or at a class character |
| Builtins.WordPrefixAppend | Dictionnaire/generate_html_dictionary.py:50 | class characters appended to a text do not change its first word |
| Builtins.SplitRuns | Dictionnaire/generate_html_dictionary.py:49-50 | Python's argument-less `str.split()`: the maximal runs of non-whitespace, in order; characterised by `SplitRunsShape` and `CollapseRunsJoin` |
| Builtins.SplitRunsShape | Dictionnaire/generate_html_dictionary.py:49-50 | the words `str.split()` returns are non-empty and hold no whitespace |
| Builtins.SplitRunsLeading | Dictionnaire/generate_html_dictionary.py:49 | leading whitespace gives no word |
| Builtins.SplitRunsTrailing | Dictionnaire/generate_html_dictionary.py:49 | trailing whitespace gives no word |
| Builtins.SplitRunsStrip | Dictionnaire/generate_html_dictionary.py:49 | `strip()` does not change the words of a text |
| Builtins.CollapseRunsWord | Dictionnaire/generate_html_dictionary.py:50 | a word without class characters passes through the substitution unchanged |
| Builtins.CollapseRunsJoin | Dictionnaire/generate_html_dictionary.py:49-50 | on a text with no class character at either end, `re.sub` gives exactly the words of the text joined by single `rep` |
| Builtins.CollapseRunsIdentity | Dictionnaire/generate_html_dictionary.py:126 | a text with no run of two class characters, and only `rep` from the class, is left unchanged |
| Builtins.Join | Dictionnaire/generate_html_dictionary.py:63 | `sep.join(parts)`; its meaning is stated by `JoinAppend`, `JoinEnds`, `JoinSplitOn` and `SplitOnJoin` |
| Builtins.JoinAppend | Dictionnaire/generate_html_dictionary.py:63 | joining with one more part appends the separator and that part |
| Builtins.JoinAvoids | Dictionnaire/generate_html_dictionary.py:113 | a join of parts and a separator that avoid a set of characters avoids it too |
| Builtins.StripAvoids | Dictionnaire/generate_html_dictionary.py:82 | stripping introduces no character |
| Builtins.DropAvoids | Dictionnaire/generate_html_dictionary.py:49 | stripping any set of characters from both ends introduces no character |
| Builtins.JoinEnds | Dictionnaire/generate_html_dictionary.py:113 | `''.join(parts)` starts with the first part and ends with the last part |
| Builtins.SplitOn | Dictionnaire/generate_html_dictionary.py:100-102 | `str.split(sep)` returns at least one piece, so `if not parentheses` never fires |
| Builtins.JoinSplitOn | Dictionnaire/generate_html_dictionary.py:56 | joining the pieces of `split(sep)` with `sep` gives back the text |
| Builtins.JoinExtendHead | Dictionnaire/generate_html_dictionary.py:56 | putting a prefix on the first part of a join puts it on the whole join |
| Builtins.NoOccurrenceMissing | Dictionnaire/generate_html_dictionary.py:103-104 | a text that lacks one character of the separator holds no occurrence of it |
| Builtins.SplitOnHead | Dictionnaire/generate_html_dictionary.py:100 | the first piece of `split(sep)` is a prefix of the text |
| Builtins.SplitOnPiecesLackSeparator | Dictionnaire/generate_html_dictionary.py:100 | `split(sep)` cuts at every occurrence: no piece holds the separator, for any separator |
| Builtins.HeadLacksSeparator | Dictionnaire/generate_html_dictionary.py:100 | a text that does not start with the separator, cut after a separator-free prefix of its rest, gives a first piece without the separator |
| Builtins.SplitOnAbsent | Dictionnaire/generate_html_dictionary.py:56 | splitting a text on a character it does not hold returns the text whole |
| Builtins.SplitOnWord | Dictionnaire/generate_html_dictionary.py:56 | a word without `c`, followed by `c`, is the first piece of a split on `c` |
| Builtins.SplitOnJoin | Dictionnaire/generate_html_dictionary.py:56 | splitting on `c` undoes joining with `c` parts that do not hold `c` |
| Builtins.SplitOnPiecesFree | Dictionnaire/generate_html_dictionary.py:56 | no piece of a split on a character holds that character, and each piece holds only characters of the text |
| Builtins.SplitOnPiecesOutside | Dictionnaire/generate_html_dictionary.py:56 | if `c` is the only character of a class in the text, then the pieces of a split on `c` hold no character of that class |
| Builtins.SplitOnPiecesNonEmpty | Dictionnaire/generate_html_dictionary.py:56 | splitting a single-spaced text without edge spaces gives only non-empty words |
| Builtins.SplitOnLaterPiecesNonEmpty | Dictionnaire/generate_html_dictionary.py:56 | without doubled separators or a trailing one, every piece after the first is non-empty |
| Builtins.Without | Dictionnaire/generate_html_dictionary.py:103-104 | `replace(c, '')` leaves no `c`; with `WithoutCounts` and `WithoutConcat` it keeps every other character, in order |
| Builtins.WithoutCounts | Dictionnaire/generate_html_dictionary.py:103-104 | `replace(c, '')` keeps every other character as many times as before and removes every `c` |
| Builtins.WithoutConcat | Dictionnaire/generate_html_dictionary.py:103-104 | removing a character distributes over concatenation |
| Builtins.WithoutAbsent | Dictionnaire/generate_html_dictionary.py:103-104 | removing a character that does not occur changes nothing |
| Builtins.IndexOf | Dictionnaire/generate_html_dictionary.py:122 | `list.index(x)` is the position of the first occurrence of `x` |
| Builtins.ReadLines | Dictionnaire/generate_html_dictionary.py:95 | `readlines()`: the text cut after each `'\n'`, the newline kept; characterised by `ReadLinesShape` |
| Builtins.ReadLinesShape | Dictionnaire/generate_html_dictionary.py:95 | `readlines()` gives non-empty lines that together spell the text; each line holds `'\n'` only as its last character, and every line but the last ends with one |
| Groups.Normalize | Dictionnaire/generate_html_dictionary.py:49-50 | the group stripped, then its whitespace runs collapsed to one space; equal to `' '.join(group.split())` by `NormalizeIsJoinedWords` |
| Groups.NormalizeShape | Dictionnaire/generate_html_dictionary.py:49-50 | the stripped and collapsed group is trimmed, single-spaced, and holds no whitespace but the plain space |
| Groups.NormalizeIsJoinedWords | Dictionnaire/generate_html_dictionary.py:49-50 | the normalised group is Python's `' '.join(group.split())` |
| Groups.Words | Dictionnaire/generate_html_dictionary.py:56 | `line.split(' ')` of the normalised group; equal to `group.split()` by `WordsArePythonWords` |
| Groups.WordsArePythonWords | Dictionnaire/generate_html_dictionary.py:49-56 | the tokens are exactly the words `group.split()` returns; a blank group gives the single empty token |
| Groups.WordsShape | Dictionnaire/generate_html_dictionary.py:56 | the tokens are non-empty words with no whitespace, and joined by single spaces they give back the normalised group |
| Groups.Split | Dictionnaire/generate_html_dictionary.py:48-64 | `split`: the exception cases and the returned fields; characterised by `SplitErrors` (which exception, carrying which text), `SplitByWords`, `SplitFailsIff` and `SplitFields` |
| Groups.SplitErrors | Dictionnaire/generate_html_dictionary.py:49-58 | `split` raises "invalid line" exactly when the normalised group has fewer than 2 characters, and "not enough tokens" exactly when it has 2 or more but no space; both exceptions carry the normalised text |
| Groups.SplitFailsIff | Dictionnaire/generate_html_dictionary.py:52-58 | `split` raises iff the normalised group has fewer than two words, which covers both the too-short check and the not-enough-tokens check |
| Groups.SplitByWords | Dictionnaire/generate_html_dictionary.py:48-64 | `split` raises iff the raw group has fewer than two words; otherwise it returns the first two words as pinyin and ideogram and the remaining words joined by single spaces as the translation |
| Groups.SplitFields | Dictionnaire/generate_html_dictionary.py:56-64 | the struct is the first two words; pinyin and ideogram are non-empty without whitespace; the translation is trimmed, empty iff there are exactly two words, and the fields joined by spaces give back the normalised group |
| Groups.JoinTrimmed | Dictionnaire/generate_html_dictionary.py:63 | non-empty words without whitespace joined by spaces give a non-empty trimmed text |
| Groups.Accumulated | Dictionnaire/generate_html_dictionary.py:72-81 | the text the loop accumulates, one space and one field per token; equal to a space and the joined fields by `AccumulatedJoin` |
| Groups.Restructured | Dictionnaire/generate_html_dictionary.py:68-85 | `restructure`: the error for an invalid format, else the stripped accumulated text in parentheses; characterised by `RestructureShape` and `RestructureFields` |
| Groups.Restructure | Dictionnaire/generate_html_dictionary.py:68-85 | the source's loop over the format computes `Restructured` |
| Groups.RestructureShape | Dictionnaire/generate_html_dictionary.py:69-85 | `restructure` raises iff the format is invalid, with that format; otherwise the result starts with `(` and ends with `)` |
| Groups.AccumulatedJoin | Dictionnaire/generate_html_dictionary.py:72-81 | the accumulated line is a space followed by the fields in format order joined by single spaces |
| Groups.HeadFieldsTrimmed | Dictionnaire/generate_html_dictionary.py:73-77 | for a valid format, the first two fields are pinyin and ideogram in format order, and their join is non-empty and trimmed |
| Groups.RestructureFields | Dictionnaire/generate_html_dictionary.py:72-83 | the result is `(` + the requested fields in format order joined by single spaces + `)`, leaving out an empty translation so that no space trails |
| Groups.StripShort | Dictionnaire/generate_html_dictionary.py:82 | for a two-token format, the strip leaves the two fields joined by a space |
| Groups.StripFullUntranslated | Dictionnaire/generate_html_dictionary.py:79-82 | for a three-token format and an empty translation, the strip removes the trailing spaces |
| Groups.StripFullTranslated | Dictionnaire/generate_html_dictionary.py:79-82 | for a three-token format and a translation, the strip leaves the three fields joined by spaces |
| Groups.SplitAvoids | Dictionnaire/generate_html_dictionary.py:49-64 | the fields `split` returns hold no whitespace but the plain space |
| Groups.RestructuredAvoids | Dictionnaire/generate_html_dictionary.py:72-83 | `restructure` adds only spaces and parentheses to its fields |
| Groups.AccumulatedAvoids | Dictionnaire/generate_html_dictionary.py:72-81 | the accumulated line adds only spaces to its fields |
| Groups.SplitRestructureRoundTrip | Dictionnaire/generate_html_dictionary.py:48-85 | for a group of at least two words, `split` then `restructure` with pinyin, ideogram, translation gives `(` + the normalised group + `)` |
| LineDedup.Dedup | Dictionnaire/generate_html_dictionary.py:118-123 | the deduplication pass: keep each line, and after a non-blank one remove its later copies; equal to the first-occurrence filter by `DedupIsFirstOccurrences` |
| LineDedup.LengthWithout | Dictionnaire/generate_html_dictionary.py:121-123 | removing every copy of a line never lengthens the list |
| LineDedup.WithoutSeenStep | Dictionnaire/generate_html_dictionary.py:121-123 | removing the copies of one more non-blank line is adding it to the set of lines already seen |
| LineDedup.DedupWithoutSeen | Dictionnaire/generate_html_dictionary.py:119-123 | deduplicating a list cleared of lines already seen equals the first-occurrence filter started from that set |
| LineDedup.WithoutSeenNothing | Dictionnaire/generate_html_dictionary.py:119-123 | an empty set of lines already seen removes nothing |
| LineDedup.DedupIsFirstOccurrences | Dictionnaire/generate_html_dictionary.py:118-123 | the loop's specification equals the independent first-occurrence filter |
| LineDedup.KeptAfterAppend | Dictionnaire/generate_html_dictionary.py:118-123 | a line appended after others is kept iff it is blank or new |
| LineDedup.FirstOccurrences | Dictionnaire/generate_html_dictionary.py:118-123 | the reference filter: keep a line iff it is blank or not seen before |
| LineDedup.FirstOccurrencesAppend | Dictionnaire/generate_html_dictionary.py:118-123 | the first occurrences of a longer list extend those of its prefix: one more line is kept iff it is blank or not seen before |
| LineDedup.KeptAfterLines | Dictionnaire/generate_html_dictionary.py:118-123 | the filter keeps only input lines, keeps every blank or unseen line, and never keeps a non-blank seen line |
| LineDedup.FirstOccurrencesSameLines | Dictionnaire/generate_html_dictionary.py:118-123 | deduplication loses no distinct line and adds none |
| LineDedup.KeptAfterDistinct | Dictionnaire/generate_html_dictionary.py:118-123 | the filter keeps no non-blank line twice, whatever the lines already seen |
| LineDedup.FirstOccurrencesDistinct | Dictionnaire/generate_html_dictionary.py:118-123 | after deduplication no non-blank line occurs twice |
| LineDedup.KeptAfterBlanks | Dictionnaire/generate_html_dictionary.py:120 | the filter keeps every blank line, in order |
| LineDedup.FirstOccurrencesKeepsBlanks | Dictionnaire/generate_html_dictionary.py:120 | no blank line is removed: the blank lines before and after are the same sequence |
| LineDedup.KeptAfterSubsequence | Dictionnaire/generate_html_dictionary.py:118-123 | the filter's output is a subsequence of its input |
| LineDedup.SubsequenceSkip | Dictionnaire/generate_html_dictionary.py:121-123 | a subsequence of a list's tail is a subsequence of the list |
| LineDedup.SubsequenceDrop | Dictionnaire/generate_html_dictionary.py:121-123 | dropping the head of a subsequence keeps it a subsequence |
| LineDedup.FirstOccurrencesSubsequence | Dictionnaire/generate_html_dictionary.py:118-123 | deduplication keeps the relative order of the lines it keeps and never lengthens the list |
| LineDedup.SubsequenceLength | Dictionnaire/generate_html_dictionary.py:118-123 | a subsequence is no longer than the list it comes from |
| LineDedup.RemoveDuplicates | Dictionnaire/generate_html_dictionary.py:119-123 | the `enumerate` loop with its nested `while` and `pop` computes `Dedup` |
| LineDedup.DedupAdvance | Dictionnaire/generate_html_dictionary.py:119-123 | one step of the outer loop keeps what remains to compute: lines after a blank are untouched, and after a non-blank line its later copies are gone |
| LineDedup.PopKeepsWithout | Dictionnaire/generate_html_dictionary.py:122-123 | popping a later copy of the line shortens the list by one, keeps the prefix, and leaves the list cleared of that line unchanged |
| LineDedup.WithoutPop | Dictionnaire/generate_html_dictionary.py:123 | removing one copy of `x` and then every copy is the same as removing every copy |
| Generate.Collect | Dictionnaire/generate_html_dictionary.py:105-110 | a `for` loop that builds a list and stops at the first exception; characterised by `CollectEach` and `CollectFails` |
| Generate.Pieces | Dictionnaire/generate_html_dictionary.py:100-104 | `line.split(')(')` with every `(` removed from the first piece and every `)` from the last; characterised by `PiecesShape` |
| Generate.Group | Dictionnaire/generate_html_dictionary.py:109-110 | `split` then `restructure`, the first exception winning; characterised by `GroupFailsIff`, `GroupClosed` and `GroupSpaces` |
| Generate.TransformLine | Dictionnaire/generate_html_dictionary.py:97-115 | the body of the line loop: a blank line copied, any other line restructured group by group; characterised by `TransformLineFails`, `TransformLineDropsClosing` and `TransformLineSingleLine` |
| Generate.DropLast | Dictionnaire/generate_html_dictionary.py:113 | Python's `s[:-1]`: the empty text stays empty, and otherwise the result followed by the last character of `s` gives back `s` |
| Generate.JoinGroups | Dictionnaire/generate_html_dictionary.py:112-115 | the groups concatenated, less the last character when the last group ends in `)`; characterised by `JoinGroupsShape` |
| Generate.FinalLine | Dictionnaire/generate_html_dictionary.py:125-126 | one output line: `'\n'` appended, then newline runs collapsed; characterised by `FinalLineShape` and `FinalLineSingle` |
| Generate.Finalize | Dictionnaire/generate_html_dictionary.py:125-126 | both list comprehensions over the deduplicated lines |
| Generate.Generate | Dictionnaire/generate_html_dictionary.py:89-126 | the whole pass without file I/O: the same-path error, the line loop, deduplication, newline normalisation; characterised by `GenerateFails` and `GenerateShape` |
| Generate.CollectEach | Dictionnaire/generate_html_dictionary.py:105-110 | when no element raises, the loop gives one result per element, each the function of that element |
| Generate.CollectPrefixError | Dictionnaire/generate_html_dictionary.py:106-110 | an exception in a prefix is the exception of the whole loop |
| Generate.CollectFails | Dictionnaire/generate_html_dictionary.py:106-110 | the loop raises iff some element raises, and then with the exception of the first one that does |
| Generate.GenerateHtmlDictionary | Dictionnaire/generate_html_dictionary.py:89-126 | the source's per-line loop, deduplication and newline normalisation compute `Generate` |
| Generate.ProcessLine | Dictionnaire/generate_html_dictionary.py:97-115 | the body of the per-line loop computes `TransformLine` |
| Generate.RestructureGroups | Dictionnaire/generate_html_dictionary.py:105-110 | the loop over the pieces computes the `Collect` of `split` then `restructure` |
| Generate.GroupClosed | Dictionnaire/generate_html_dictionary.py:109-110 | every restructured group starts with `(` and ends with `)` |
| Generate.PiecesShape | Dictionnaire/generate_html_dictionary.py:100-104 | there is at least one piece; no piece holds `)(`, so the line is cut at every `)(`; the first piece holds no `(` and the last no `)`; the middle pieces are unchanged; the unedited pieces joined by `)(` give back the line |
| Generate.GroupFailsIff | Dictionnaire/generate_html_dictionary.py:109-110 | a group raises iff it has fewer than two words or the format is invalid; `split`'s exception comes first; the same-path error is never raised here |
| Generate.GroupFullPinyinFirst | Dictionnaire/generate_html_dictionary.py:109-110 | with the original layout a group becomes `(` + its normalised text + `)` |
| Generate.GroupSpaces | Dictionnaire/generate_html_dictionary.py:109-110 | a restructured group holds no whitespace but the plain space |
| Generate.TransformLineFails | Dictionnaire/generate_html_dictionary.py:97-110 | a line raises iff it is non-blank and either the format is invalid or one of its pieces has fewer than two words; never with the same-path error |
| Generate.TransformLineDropsClosing | Dictionnaire/generate_html_dictionary.py:111-115 | a non-blank line becomes its groups concatenated less exactly their final `)`, so the `else` branch never runs |
| Generate.JoinGroupsShape | Dictionnaire/generate_html_dictionary.py:112-113 | when the first and last groups are parenthesised, dropping the last character removes exactly one `)` and the result starts with `(` |
| Generate.TransformLineFullPinyinFirst | Dictionnaire/generate_html_dictionary.py:97-115 | with the original layout a well-formed line becomes its normalised groups, each in parentheses, less the final `)` |
| Generate.CollectFullPinyinFirst | Dictionnaire/generate_html_dictionary.py:105-110 | with the original layout, pieces of at least two words each become their normalised texts in parentheses, in order |
| Generate.JoinGroupsAvoids | Dictionnaire/generate_html_dictionary.py:112-113 | joining parenthesised groups that avoid a set of characters gives a line starting with `(` that avoids them too |
| Generate.TransformLineSingleLine | Dictionnaire/generate_html_dictionary.py:97-115 | a blank line is copied unchanged; any other line comes out non-blank, starting with `(` and holding no whitespace but spaces, and so no newline |
| Generate.FinalLineShape | Dictionnaire/generate_html_dictionary.py:125-126 | every written line ends in `'\n'` and has no two `'\n'` in a row; a line without `'\n'` gets just one appended; a blank line stays blank; a non-blank line without `'\n'` stays non-blank |
| Generate.FinalLineSingle | Dictionnaire/generate_html_dictionary.py:125-126 | a line whose only newline can be its last character is written with exactly one `'\n'`, at its end |
| Generate.FinalizeDistinct | Dictionnaire/generate_html_dictionary.py:125-126 | writing out deduplicated lines creates no new duplicate among non-blank lines |
| Generate.FinalizeFirstOccurrences | Dictionnaire/generate_html_dictionary.py:118-126 | the written lines number at most the produced ones; each holds exactly one newline, at its end; none is a non-blank duplicate; every produced line appears; nothing else does |
| Generate.GenerateFails | Dictionnaire/generate_html_dictionary.py:89-110 | generation raises iff the paths are equal or some input line raises; the same-path error is raised exactly when the paths are equal |
| Generate.GenerateShape | Dictionnaire/generate_html_dictionary.py:89-126 | on success: the paths differ; every input line was transformed in order; the output is the first occurrences of the transformed lines, at most as many lines as the input, each ending in its only `'\n'`, no non-blank line twice, every transformed line present and no other |

## Left out

- File opening, reading and writing (lines 93-95 and 128-129). The input file's contents are a `string`
  parameter and the written lines are the result.
- Python's universal-newline translation and the UTF-8 decoding. Lines are split on `'\n'` only.
- Path equality (line 90) is modelled as equality of the path strings. Path normalisation is not part of
  this model.
- The `__main__` driver (lines 132 onward): argument handling, the backup copy and output-path
  construction are command-line and file-system plumbing.
- The `regex-rulesets` scripts. They print constant rule tables and are built on a numerical library.
- `Dictionnaire/chinese_struct.py` is not part of this model. `ChineseStruct` is a two-field datatype
  (`pinyin`, `ideogram`).
- Exception messages are modelled as `Error` constructors that carry the offending text or format. The
  formatting of the message strings is not modelled.
- The `Unknown token` branch of `restructure` (lines 80-81). `ChineseToken` is a closed datatype with three
  constructors, so the branch cannot be written.
- The `if not parentheses` check (lines 101-102) has no counterpart in the code. `Builtins.SplitOn`
  proves that it never fires.
- The `beartype` run-time type checks. Dafny's types enforce them statically.
- Builtins.Without: models `str.replace` on values only. No string object is updated in place.
- LineDedup.RemoveDuplicates: works on a value `seq<string>` that the loop reassigns. It does not model the
  aliasing of the Python list.
