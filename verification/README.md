# vimsplain in Dafny

A model of the keystroke-explanation core of `vimsplain.py`, with proofs about it.
`vimsplain.py` reads Vim's command index (`index.txt`) and builds an ordered table of command
patterns for each editor mode. It then explains a typed keystroke string one command at a time.

The model covers four parts of the source:

- **`fix_help`** (module `Corpus`): the corpus normaliser. It does the following:
  - splits the index into sections on runs of four or more `=`;
  - joins continuation lines and drops dead entries;
  - normalises whitespace to single tabs and fills in the empty note column;
  - skips count, `quote` and `:` entries, and corrects the `|@|` entry;
  - resolves "same as" cross references inside each section.
- **`parse_commands`, lines 252-273** (module `Assembly`):
  - classifies each entry as a motion or not;
  - places its record in front of the lists of the modes its section belongs to.

  The mode-transition tables `mode_change` and `mode_mapping` are in module `Commands`.
- **`fix_explanation`** (module `Explain`), the explanation templater. It fills in:
  - the count (`N`, `Nth`, `Nmove`, `N-1`), from the typed count or the documented default;
  - the register name `x`;
  - the `{char}`/`CHAR`-style placeholders from the match's named groups.
- **`parse`** (module `Parser`), the incremental parser:
  - strips leading escapes in normal mode, either with the source's loop or with the intended
    one (the `Parser.Stripping` parameter: `AsWritten` is the source, `Corrected` the intent);
  - picks the first eligible entry of the mode's list whose pattern matches;
  - updates mode and recording state;
  - parses a trailing motion in motion-only mode.

The Python string operations these parts use are written out over `seq<char>` in module `Text`:
`str.find`, `in`, `str.replace`, `split`, `join`, `lstrip`, `strip`, the run-collapsing
substitutions, `int` and `str`. Module `Basics` holds `Option` and `Result`.

The regular-expression engine is not modelled. A compiled pattern is a `Commands.Matcher`: any
function from the input to an optional `Match` (end index and named groups) that only matches a
non-empty prefix. The few regular expressions the core applies to text of its own (the section
split, `same as`, the count words, `default`, whole-word `x`) are written out as functions.
A Python exception inside the core becomes an `Err` value. Strings are sequences of code
points, as in Python 3.

`parse` takes a `Parser.Stripping` argument that chooses the escape-stripping loop. Every
lemma about `Parser.Parse` holds for both loops; `AsWritten` is the code as it stands (see
"## Findings").

Two behaviours of the code are easy to miss:

- **Consumption.** The consumed text and the rest put back together are the input with some
  escape chunks taken out (`Parser.Consumes`, through `Parser.Thinned`). Each chunk starts with
  an escape sentinel and is one round of the stripping loop wide. They are the input exactly
  when the input holds no sentinel in normal mode (`Parser.ParseExact`), and, for a command
  without a trailing motion, whenever the input does not start with one
  (`Parser.ParseExactWithoutMotion`). A sentinel that starts the input of a trailing motion is
  stripped by the recursive call and so drops out of the consumed text.
- **Mode-change typos.** `mode_change` keeps the tags `CTRL_V` and `GTRL-G` as written, so
  the blockwise-Visual command `CTRL-V` leaves the mode unchanged.

## Model

| member | source | states |
|---|---|---|
| Commands.ModeChangeDisjoint | vimsplain.py:173-177 | no tag is listed under two modes, for every pair of distinct modes |
| Commands.ModeMappingExact | vimsplain.py:172-179 | `mode_mapping[tag]` is mode `m` exactly when `mode_change[m]` lists the tag; the comprehension's order never matters |
| Commands.CtrlVDoesNotSwitchMode | vimsplain.py:174-179 | the typo'd tag `CTRL_V` maps to Visual, the documented `CTRL-V` maps to nothing, and a command with that tag keeps the current mode |
| Text.ReplaceAllAtFirst | vimsplain.py:79-87 | `str.replace` keeps the text before the leftmost occurrence, replaces it, and continues after it |
| Text.ReplaceAllAbsent | vimsplain.py:79-87 | `str.replace` with no occurrence of the pattern returns the text unchanged |
| Text.ReplaceOnlyOccurrence | vimsplain.py:102-103 | `str.replace` on a text whose only occurrence of the pattern's first character is the one occurrence of the pattern replaces just that occurrence |
| Text.JoinSplit | vimsplain.py:59-60 | joining the pieces of a split gives back the text |
| Text.SplitJoin | vimsplain.py:59-60 | splitting the join of separator-free pieces gives back the pieces |
| Text.LStrip | vimsplain.py:30 | `lstrip()`: a suffix of the line, every dropped character is whitespace, and what is left does not start with whitespace |
| Text.IntToString | vimsplain.py:79-87 | `str(i)`: non-empty, starting with `-` exactly when `i` is negative, otherwise made of digits, and its digits read back as the absolute value of `i` |
| Text.ParseNatToString | vimsplain.py:79-88 | `int(str(n)) == n`: the decimal text of a count reads back as that count |
| Explain.FirstDelimited | vimsplain.py:187 | the alternative of `\bN(th)?\b\|\bNmove\b` that matches at an index is the first whole-word alternative there; none matches when no alternative is a whole word there |
| Explain.SubWordsAtFirst | vimsplain.py:80-95 | `re.sub` with a whole-word pattern keeps the text before the leftmost whole-word match, puts the value in place of the word, and carries on after the word |
| Explain.SubWordsAbsent | vimsplain.py:80-95 | `re.sub` with a whole-word pattern leaves a text with no whole-word match unchanged |
| Explain.SubWordsOnce | vimsplain.py:80-95 | on a text with one whole-word match, `re.sub` replaces that word by the value and keeps everything around it |
| Explain.CountWordStartsWithN | vimsplain.py:187 | every whole count word starts with a capital `N` |
| Explain.FindDefault | vimsplain.py:82-83 | `default_expr.search` returns the leftmost index where `default (is )?digits` matches, or none when it matches nowhere |
| Explain.FindDefaultLeftmost | vimsplain.py:82-83 | the index where the default phrase first matches is the one the search finds |
| Explain.CountValue | vimsplain.py:78-88 | the count is the typed number when digits were typed; otherwise the number after the leftmost `default ` or `default is `, and 1 when the explanation states no default |
| Explain.CountText | vimsplain.py:79-88 | the text put in place of a count word: the typed digits as typed, otherwise the default written in decimal; it always reads back as the count |
| Explain.CountTextDefault | vimsplain.py:82-88 | with no count typed, the count text is the digits of the leftmost default phrase, read as a number and written back |
| Explain.CountTextEndDefault | vimsplain.py:82-88 | with no count typed, an explanation ending in `default is K`, with no default phrase before it, takes K |
| Explain.CountTextNoDefault | vimsplain.py:85-88 | with no count typed and no default phrase, the count text is `1` |
| Explain.FixCount | vimsplain.py:77-90 | a pattern without a count group leaves the explanation unchanged |
| Explain.FixCountWithoutN | vimsplain.py:77-90 | an explanation without a capital `N` is unchanged by the count step, whatever was typed |
| Explain.NoCountWordWithoutN | vimsplain.py:79-88 | neither the `N-1` replacement nor the count-word substitution changes a text without a capital `N` |
| Explain.FixCountOneWord | vimsplain.py:77-88 | an explanation whose only capital `N` starts one whole `N`, `Nth` or `Nmove` gets the count text in that word's place, and the text around it is kept |
| Explain.FixCountLess | vimsplain.py:77-88 | an explanation whose only capital `N` starts one `N-1` gets `str(count - 1)` in its place, so `-1` for a typed `0`, and the text around it is kept |
| Explain.FixRegister | vimsplain.py:92-97 | without a captured register the explanation is unchanged |
| Explain.FixRegisterOneWord | vimsplain.py:93-95 | an explanation whose only `x` is one whole word gets the captured register name in its place, and the text around it is kept |
| Explain.FixPlaceholders | vimsplain.py:99-105 | the loop fails exactly when some kind's group exists but took no part in the match, and names such a kind; a pattern with none of the groups leaves the text unchanged |
| Explain.FixPlaceholdersOnly | vimsplain.py:99-105 | with exactly one placeholder group, captured, the loop replaces `{kind}` and then the kind in capitals by the captured text |
| Explain.PlaceholderOnce | vimsplain.py:102-103 | a template with one `{kind}` and no other brace becomes the filled text, when that text does not spell the kind in capitals |
| Explain.FixExplanation | vimsplain.py:75-106 | a count group holding no digit string gives the `num` error; every error names `num` or a placeholder kind |
| Explain.FixExplanationFails | vimsplain.py:75-106 | `fix_explanation` raises exactly when the count group is not a digit string or some placeholder group exists but took no part in the match |
| Explain.FixExplanationPlain | vimsplain.py:75-106 | a match with none of the groups the template knows leaves the explanation as documented |
| Explain.FixExplanationCount | vimsplain.py:75-106 | end to end, for a count-only pattern: the one whole count word becomes the count text |
| Explain.FixExplanationLess | vimsplain.py:75-106 | end to end, for a count-only pattern: the one `N-1` becomes the count less one |
| Explain.FixExplanationNoLess | vimsplain.py:75-106 | end to end, for a count-only pattern: a capital `N` standing alone between spaces becomes the count text |
| Explain.FixExplanationDefault | vimsplain.py:81-88 | end to end, with no count typed: a lone `N` in an explanation ending in `default is K`, with no default phrase before it, becomes K |
| Explain.FixExplanationNoDefault | vimsplain.py:81-88 | end to end, with no count typed and no default phrase: a lone `N` becomes `1` |
| Explain.FixExplanationRegister | vimsplain.py:92-97 | end to end, for a register-only pattern: the one whole `x` becomes the register name |
| Explain.FixExplanationPlaceholder | vimsplain.py:99-105 | end to end, for a pattern whose only group is one placeholder kind: the one `{kind}` becomes the captured text |
| Explain.CountExampleTyped | vimsplain.py:79-80 | a typed count of 3 turns `cursor N lines downward` into `cursor 3 lines downward` |
| Explain.CountExampleLess | vimsplain.py:79 | a typed count of 3 turns `N-1` into `2` |
| Explain.CountExampleDefault | vimsplain.py:82-88 | with no count typed, `Join N lines; default is 2` has its `N` become `2` |
| Explain.CountExampleAppend | vimsplain.py:85-88 | with no count typed and no default, `N` becomes `1` |
| Explain.RegisterExample | vimsplain.py:94-95 | register `a` turns `yank into register x` into `yank into register a` |
| Explain.PlaceholderExample | vimsplain.py:102 | a captured `a` fills `{char}` and leaves the capital `N` alone when there is no count group |
| Parser.StripEscapesAsWritten | vimsplain.py:111-112 | the loop as written, which drops two characters per sentinel, leaves a suffix of the input that does not start with a sentinel in normal mode, and the input itself otherwise |
| Parser.AsWrittenStripLeavesBracket | vimsplain.py:111-112 | the sentinel is three characters long, and the loop as written turns sentinel + `w` into `[w` |
| Parser.StripEscapes | vimsplain.py:110-112 | in normal mode, exactly a run of whole escape sentinels is removed from the front, and what is left does not start with one; other modes keep the input |
| Parser.Strip | vimsplain.py:110-112 | the loop `parse` runs, either version: a suffix of the input, the input itself outside normal mode or without a leading sentinel, no sentinel left at the front in normal mode, and the input thins to it |
| Parser.ThinnedExact | vimsplain.py:110-112 | with no sentinel in normal mode, thinning changes nothing |
| Parser.FirstMatch | vimsplain.py:117-127 | the loop stops at an eligible entry whose pattern matches and no earlier entry is both; with no stop, no eligible entry matches |
| Parser.WinnerUnique | vimsplain.py:117-127 | at most one entry is the first eligible match |
| Parser.WinnerIsFirst | vimsplain.py:117-127 | the first eligible matching entry is the one the loop stops at |
| Parser.RecordingGate | vimsplain.py:119-129 | the chosen entry is a motion in motion-only mode and is never a "while recording" entry while not recording; without a trailing motion, recording flips exactly for tag `q` |
| Parser.ParseWithoutMotion | vimsplain.py:126-151 | for a winner taking no motion: the matched prefix, the filled explanation plus range bounds, the rest, the mode the tag maps to, and recording flipped only for `q`; an error when the explanation cannot be filled |
| Parser.ParseWithMotion | vimsplain.py:126-141 | for a winner taking a motion: command and motion text joined, explanations joined by " with motion ", the motion's rest and recording state, and the command's new mode; an error when either part fails |
| Parser.LiftConsumes | vimsplain.py:110-114 | a parse result that consumes from the stripped input also consumes from the original input |
| Parser.PlainConsumes | vimsplain.py:151 | a command without a motion consumes its non-empty matched prefix and leaves the rest |
| Parser.MotionConsumes | vimsplain.py:138-141 | a command text followed by a motion that consumes from what follows consumes from the whole input |
| Parser.ParseShape | vimsplain.py:108-153 | every successful parse consumes a non-empty text and leaves a suffix of the input; consumed text plus rest is the input with only escape chunks taken out; empty input after stripping fails |
| Parser.EntryShape | vimsplain.py:126-151 | the same consumption property once an entry has matched, with its trailing motion |
| Parser.ParseExact | vimsplain.py:108-153 | with no escape sentinel in normal mode, consumed text plus rest is exactly the input |
| Parser.ParseExactWithoutMotion | vimsplain.py:126-151 | a winner taking no motion, on input not starting with a sentinel, gives consumed text plus rest equal to the input, sentinels further on included |
| Parser.ParseExactWithMotion | vimsplain.py:138-141 | a winner taking a motion gives consumed text plus rest equal to the input whenever its motion does so for what follows the command |
| Parser.ParseFailsIff | vimsplain.py:114-153 | `parse` raises exactly when: the stripped input is empty; or no eligible entry matches; or the winner's explanation cannot be filled; or the winner's expected motion does not parse |
| Parser.EscapeThenWordAsWritten | vimsplain.py:111-153 | with the loop as written, sentinel + `w` fails against a table whose only normal-mode entry is `w` |
| Parser.EscapeThenWordCorrected | vimsplain.py:111-151 | with the corrected loop, the same input parses as the `w` command with nothing left |
| Corpus.SplitSections | vimsplain.py:17 | `re.split('[=]{4,}')`: the pieces, with a maximal run of four or more `=` between each two, make up the text; no piece holds four `=` and no later piece starts with `=` |
| Corpus.SectionBreak | vimsplain.py:17 | the text before the leftmost mark holds none, and the run of `=` there is at least four long |
| Corpus.JoinLines | vimsplain.py:23-32 | every kept line starts with `\|`, there is one per entry-starting line, and each begins with that line as written |
| Corpus.JoinLinesEntry | vimsplain.py:31-32 | an entry line is appended as it is after the lines joined so far |
| Corpus.JoinLinesIgnores | vimsplain.py:25-32 | removing an empty, dead or unmarked line anywhere in a section does not change the result |
| Corpus.JoinLinesContinues | vimsplain.py:29-30 | a continuation line is appended, after a space and without leading whitespace, to the last kept line |
| Corpus.JoinLinesOrphan | vimsplain.py:29-30 | a continuation line with no entry before it aborts |
| Corpus.NormaliseWhitespace | vimsplain.py:35-37 | the result has no two spaces and no two tabs in a row and the same visible characters as the line; a line with neither is kept as it is |
| Corpus.NormaliseWhitespaceIdempotent | vimsplain.py:35-37 | normalising twice is normalising once |
| Corpus.NormaliseWhitespaceSplits | vimsplain.py:35-37 | a visible character cuts the line into two parts that are normalised separately |
| Corpus.NormaliseWhitespaceFields | vimsplain.py:35-39 | two fields separated by two or more spaces, or by one or more tabs, end up separated by exactly one tab |
| Corpus.SplitLength | vimsplain.py:39-40 | a split has one more piece than there are separators |
| Corpus.InsertNote | vimsplain.py:44-46 | the first two fields are kept, an empty note is inserted exactly when the third field is not a note, and the fields from the third on follow unchanged |
| Corpus.ReSplitInsertsNote | vimsplain.py:44-60 | prefixing a non-note third field with a tab, then joining and re-splitting, inserts an empty note field |
| Corpus.NormaliseLine | vimsplain.py:34-61 | a line fails exactly when it has fewer than two tabs after normalisation; it is skipped exactly when it is a count, `quote` or `:` entry; a kept line is its fields with the `\|@\|` command corrected and the note inserted |
| Corpus.EntryFields | vimsplain.py:44-60 | a kept entry's fields are the fields with the `\|@\|` command corrected and the note inserted |
| Corpus.TryCollect | vimsplain.py:34-61 | the collecting loop fails exactly when some element does, and otherwise yields the kept values in input order |
| Corpus.NormaliseLines | vimsplain.py:34-61 | a section fails exactly when one of its lines does; otherwise its entries are the kept lines' entries in order, each normalised |
| Corpus.NormaliseSections | vimsplain.py:19-61 | the sections fail exactly when one does; otherwise each result is what its section alone normalises to |
| Corpus.SectionsNormalised | vimsplain.py:34-61 | every entry of every normalised section is a normalised entry |
| Corpus.SameAsAt | vimsplain.py:14 | group 1 of `same as ([^"][^ ]+\|"[^"]+")` at an index: found exactly when the phrase is there and the group can start after it; then two or more characters, either quoted without inner quotes or unquoted up to a space or the end |
| Corpus.FindSameAs | vimsplain.py:66 | `sameas_expr.search`: the leftmost index where the pattern matches, or none when it matches nowhere |
| Corpus.StripChar | vimsplain.py:68 | `strip('"')`: the text less its leading and trailing runs of quotes |
| Corpus.StripQuotes | vimsplain.py:68 | a quoted text without inner quotes loses exactly its quotes |
| Corpus.SameAsTarget | vimsplain.py:66-68 | a referenced command is found exactly when the pattern matches somewhere in the explanation |
| Corpus.SameAsTargetLeftmost | vimsplain.py:66-68 | the referenced command is group 1 of the leftmost match with its quotes stripped |
| Corpus.LastOther | vimsplain.py:69-71 | the last entry other than the current one whose command is the target, or none when there is none |
| Corpus.CopyMatchingLast | vimsplain.py:69-71 | the inner loop leaves the explanation of the last other entry with the target command, or the entry's own when there is none |
| Corpus.ResolveEntryKeeps | vimsplain.py:65-71 | one round changes only its own entry's explanation, and nothing without a reference |
| Corpus.ResolvedKeeps | vimsplain.py:64-71 | part way through the pass only explanations have changed, later entries are untouched, and so is every entry without a reference |
| Corpus.ResolvedStable | vimsplain.py:64-71 | an entry the outer loop has passed no longer changes |
| Corpus.ResolveSameAs | vimsplain.py:64-71 | the pass keeps every field but the explanation and leaves entries without a reference alone |
| Corpus.SameAsResolution | vimsplain.py:64-71 | a reference with no other entry of that command keeps its text; otherwise it takes the last such entry's explanation, as written when that entry comes later or refers to nothing, and as resolved when it comes earlier |
| Corpus.ResolveSections | vimsplain.py:64-71 | every section is resolved on its own, by the `same as` pass with the leftmost reference, and keeps its shape |
| Corpus.FixHelp | vimsplain.py:12-73 | a normalisation error is returned as it is; otherwise `MissingExplanation` exactly when some entry has no explanation field; on success one section per section after the first, each the `same as` resolution of that section's normalised entries |
| Assembly.CompiledText | vimsplain.py:260 | `replace('{motion}', '')`: a pattern without `{motion}` is kept; otherwise the text before the first `{motion}` is kept and the rest is compiled the same way; a pattern whose first `{motion}` ends it loses exactly that ending |
| Assembly.RemoveFirst | vimsplain.py:260 | deleting every occurrence keeps the text before the leftmost one and carries on after it |
| Assembly.DropTwo | vimsplain.py:266 | `pattern[2:]` is the suffix two characters shorter, or empty |
| Assembly.PlaceTargets | vimsplain.py:261-273 | an entry goes in front of exactly the lists its section targets, the Ex list getting the record with the shortened pattern; other lists are unchanged |
| Assembly.MarkedTagsStep | vimsplain.py:252-254 | one more entry adds its tag to the marked tags exactly when it is marked |
| Assembly.MotionsAreMarkedTags | vimsplain.py:201-257 | the set `motions` holds exactly the tags of the entries so far with note `1` or in section 2 |
| Assembly.MotionClassification | vimsplain.py:252-257 | an entry is a motion exactly when it or an earlier entry with the same tag is marked as one |
| Assembly.AddItemPlaces | vimsplain.py:252-273 | one loop round puts the entry's classified record in front of each list its section targets |
| Assembly.PlacementStep | vimsplain.py:252-273 | one loop round keeps every list the reversal of its records in input order |
| Assembly.PlacementOrder | vimsplain.py:252-273 | after any number of entries, every list holds the records of its mode's entries, last entry first |
| Assembly.FlattenHas | vimsplain.py:202-203 | every entry of every section is visited, with its section index |
| Assembly.FlattenLength | vimsplain.py:202-203 | the loops visit as many items as there are entries in all the sections |
| Assembly.FlattenAt | vimsplain.py:202-203 | entry `i` of section `s` is visited, with its section index, right after the entries of the earlier sections and the first `i` entries of its own section |
| Assembly.PrepareAll | vimsplain.py:202-206 | each prepared record keeps its entry's section and the tag without its bars |
| Assembly.ParseCommands | vimsplain.py:196-275 | every mode's list holds, last entry first, exactly the records of the entries whose section targets that mode, each classified as a motion by its tag's history |

## Left out

- The driver loop (vimsplain.py:277-309):
  - reading `index.txt` and the command line;
  - copying insert-mode text and printing.

  These are input and output around the core.
- The construction of each entry's regular expression (vimsplain.py:208-250), `fix_regexp`
  (155-169) and `replace_specials` (191-194): they produce pattern text for Python's `re`
  module. Assembly takes each entry's pattern text and plain command as inputs, and
  `re.compile` as a parameter.
- A pattern `re.compile` rejects: `compile` is a total parameter, while `re.compile` raises
  `re.error`. Line 266 can produce such a pattern: an ex pattern that starts with line 239's
  `(?P<num>\d*)` loses its `(?` to `pattern[2:]` and is left unbalanced.
- Python's regular-expression engine. A pattern is an abstract `Commands.Matcher`, and its
  matches are assumed to be non-empty. Python allows an empty match, which `if m:` accepts.
- Reading the count through `m.group(1)`: the model reads the group by its name `num`. The two
  coincide because line 239 puts the `num` group at the very start of the pattern.
- `re.sub` replacement templates: captured text is inserted literally. Backslash escapes in a
  captured value, which Python would interpret, are not modelled.
- Unicode character classes: `\b` is evaluated with ASCII word characters, and `\d`, `isdigit`
  and `int` with ASCII digits. Python 3 uses Unicode classes for these.
- The `print(parts)` at line 41 before the exception: output only.
- Which exception `parse`, `fix_explanation` and `fix_help` raise is not kept. Errors are
  `Parser.ParseError` and `Corpus.CorpusError`, which keep only the cause.
- Exceeding Python's recursion limit on very long motion chains.
- FixCount: its own contract states only the case without a count group. What it substitutes
  is stated by `FixCountOneWord` and `FixCountLess`, for explanations with one capital `N`.
  Several count words in one text are covered only step by step, by `Explain.SubWordsAtFirst`
  and `Text.ReplaceAllAtFirst`.
- FixRegister: its own contract states only the case without a register; `FixRegisterOneWord`
  states the substitution for an explanation with one `x`.
- FixPlaceholders: its own contract states failure and the case without groups;
  `FixPlaceholdersOnly` states the substitution for a pattern with one placeholder group.
- FixExplanation: its own contract states the errors; the filled text is stated end to end by
  the `FixExplanation*` lemmas and the examples, for patterns with one kind of group.
- SameAsTarget: its own contract states when a target exists; `SameAsTargetLeftmost` states
  which one.
- NormaliseWhitespaceFields: stated for a gap of one kind of blank. A gap mixing single spaces
  and tabs is covered only by `NormaliseWhitespace`'s own contract and
  `NormaliseWhitespaceSplits`.

## Findings

| source | as written | input that shows it | evidently intended | confidence | as-written member | corrected member |
|---|---|---|---|---|---|---|
| vimsplain.py:111-112 | `instr = instr[2:]` drops two characters per escape sentinel. The sentinel `CTRL_CHAR + '['` is three characters, because `CTRL_CHAR` is the two code points `ยง`. | normal mode, input sentinel + `w`: the loop leaves `[w`, which is then read as a `[` command, or fails when no entry takes it | drop the whole sentinel, `instr[len(CTRL_CHAR) + 1:]`, so that an escape is a no-op in normal mode | medium, not executed. The claim rests on the text as it reads: `ยง` is how the UTF-8 bytes of `§` read in the Thai encoding TIS-620. If `CTRL_CHAR` is the one code point `§`, `instr[2:]` is exact, and so is the driver's comparison at line 294. | Parser.StripEscapesAsWritten, Parser.AsWrittenStripLeavesBracket, Parser.EscapeThenWordAsWritten | Parser.StripEscapes, Parser.EscapeThenWordCorrected |
