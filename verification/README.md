# Transcript cleaning, modelled in Dafny

This project models the transcript and caption cleaners of two Python scripts:

- `clean-transcript.py` runs one of two paths:
  - **cue-timed text** (a WebVTT file, or text that looks like one) goes through `process_vtt`;
  - **plain text** goes through `clean_text`, `remove_line_stuttering` and `remove_word_stuttering`, in that order.
- `vttclean.py` is a second, simpler line scanner over WebVTT cues.

Every regular expression becomes a hand-written scan: leftmost first, never overlapping, exactly as `re.sub` and `re.split` apply it. `difflib.SequenceMatcher.ratio` becomes an exact Ratcliff/Obershelp matched-character count. The loops are `method`s whose contracts state the functional result.

Modules, following the scripts:

- `Strings` (strings.dfy): character classes, `strip`, `splitlines`, `split`, `join`, `in` and `startswith`.
- `Seqs` (seqs.dfy): keeping the present values of a sequence of optional values.
- `Timestamps` (timestamps.dfy): the `HH:MM:SS[.mmm]` clock shapes and the emitted `HH:MM:SS text` line.
- `TranscriptText` (transcript_text.dfy): `clean_text` and `is_prefix` of clean-transcript.py.
- `TranscriptVtt` (transcript_vtt.dfy): `process_vtt` of clean-transcript.py.
- `Similarity` (similarity.dfy): `SequenceMatcher(None, a, b).ratio() >= threshold`.
- `LineStutter` (line_stutter.dfy): `remove_line_stuttering`.
- `WordStutter` (word_stutter.dfy): `remove_word_stuttering`.
- `Transcript` (transcript.dfy): `clean_transcript` and the format test in `main`.
- `VttClean` (vttclean.dfy): `clean_text` and `process_vtt` of vttclean.py.

What the code does, where its comments or design notes say otherwise (the model follows the code):

- **Candidate merging is not implemented.** The module docstring (clean-transcript.py:13-27) describes merging candidate lines whose texts extend each other ("TS1 BA / TS2 BANA / TS3 BANANA must become TS1 BANANA"). No code does this, and `is_prefix` is never called. `process_vtt` emits at most one line per block, taken from the block's first `-->` line.
- **The cue-timed path skips both stutter passes.** They are commented out at clean-transcript.py:149-150. So two cue blocks with the same text both stay in the output.
- **Milliseconds are dropped.** Every emitted line carries `HH:MM:SS`, while the docstring speaks of `HH:MM:SS.mmm`.
- **Header and span removal differ in case and position.**
  - The `WEBVTT` header is removed only at the very start of the text, in any letter case.
  - `NOTE` and `STYLE` spans must match case exactly, but they are removed wherever they start, including inside caption text.
- **The format test has a third trigger.** Besides the `.vtt` extension and the `WEBVTT` start that the docstring names, the code also treats any text containing `[00:00:` as cue-timed.
- **The triple-repetition pass of `remove_word_stuttering` never changes anything.** After the fixed-point loop, no `\b(\w+)\s+\1\b` match is left. Every match of `\b(\w+)(\s+\1){2,}\b` is also such a match (`WordStutter.TripleIsStutter`). So the result is the fixed point itself (`WordStutter.WordStuttersRemovedSpec`).
- **Neither `clean_text` is idempotent.** Neither guarantees single spaces either. The model states only what holds:
  - trimmed ends;
  - `' '` as the only whitespace;
  - identity on text that is already clean.

## Model

| member | source | states |
|---|---|---|
| Strings.Strip | clean-transcript.py:42 | `str.strip()`: the result has no whitespace at either end, is never longer, keeps plain spacing when the input has it, and is empty exactly when the input is all whitespace |
| Strings.StripSlice | clean-transcript.py:42 | `str.strip()` cuts off exactly the leading and the trailing whitespace: the result is a slice of the input with only whitespace before and after it |
| Strings.LStrip | clean-transcript.py:37 | `re.sub(r'^\s+', '', s)` drops exactly the leading whitespace run: the result is a suffix of the input, everything cut off is whitespace, and the result does not start with whitespace |
| Strings.StripBrackets | clean-transcript.py:77 | `str.strip('[]')`: the result is never longer and neither starts nor ends with `[` or `]` |
| Strings.StripBracketsSlice | clean-transcript.py:77 | `str.strip('[]')` cuts off exactly the leading and the trailing brackets: the result is a slice of the input with only `[` and `]` before and after it |
| Strings.CollapseSpace | clean-transcript.py:39 | `re.sub(r'\s+', ' ', s)`: the result is single-spaced with `' '` as its only whitespace, never longer, empty exactly when the input is, and starts with whitespace exactly when the input does; `CollapseSpaceRun` and `CollapseSpaceNoSpace` state what it keeps |
| Strings.CollapseSpaceIdentity | clean-transcript.py:39 | `re.sub(r'\s+', ' ', s)` leaves text unchanged when its only whitespace is single plain spaces |
| Strings.CollapseSpaceRun | clean-transcript.py:39 | a whitespace run becomes exactly one space: the whitespace-free text before it is kept as it is, and collapsing goes on after the run |
| Strings.CollapseSpaceNoSpace | clean-transcript.py:39 | text without whitespace is kept as it is |
| Strings.Split | clean-transcript.py:67 | `str.split('\n')`: at least one piece, no piece contains the separator, and joining the pieces with it gives back the input |
| Strings.SplitJoin | clean-transcript.py:67 | splitting a join of separator-free pieces gives back the pieces |
| Strings.SplitLines | clean-transcript.py:107 | `str.splitlines()`: no line contains a line break, and there are no more lines than characters |
| Strings.SplitLinesJoin | clean-transcript.py:107 | `splitlines` undoes `"\n".join` for lines that contain no line break, provided the last line is not empty |
| Strings.SplitLinesBreak | clean-transcript.py:107 | `splitlines` ends a line at `\r\n` (one separator) or at any single line break (`\n`, `\r`, vertical tab, form feed, 0x1c-0x1e); a lone `\r` counts only when no `\n` follows |
| Strings.ContainsStrip | clean-transcript.py:67 | stripping a block creates no occurrence of a pattern that the block lacks |
| Strings.ContainsJoin | clean-transcript.py:67 | a pattern inside one line of a block occurs in the block |
| Strings.Join | clean-transcript.py:94 | `sep.join(xs)`, also at lines 100 and 122 and in vttclean.py at lines 32 and 40: no contract of its own; `JoinAppend`, `SplitJoin` and `SplitLinesJoin` state what it builds |
| Strings.JoinAppend | clean-transcript.py:100 | joining two non-empty lists is joining each and putting the separator between them |
| Timestamps.CaptionLineOf | clean-transcript.py:91-98 | a start time `HH:MM:SS.mmm` with non-empty clean text gives a caption line of the form `HH:MM:SS text` |
| Timestamps.CaptionLinesRoundTrip | clean-transcript.py:100 | caption lines joined with newlines split back into the same lines |
| TranscriptText.TagLen | clean-transcript.py:33 | a tag `<[^>]+>` at the start: it opens with `<`, closes at the first `>`, and has at least one character inside |
| TranscriptText.TagFound | clean-transcript.py:33 | a `<`, one or more characters other than `>`, then `>` is found as the tag at the start, in full |
| TranscriptText.RemoveTags | clean-transcript.py:33 | removing tags never lengthens the text |
| TranscriptText.RemoveTagsNoTag | clean-transcript.py:33 | without `<`, tag removal changes nothing |
| TranscriptText.RemoveTagsSplice | clean-transcript.py:33 | a tag is removed without a trace: the text before the first `<` is kept and removal goes on after the tag |
| TranscriptText.RemoveTagsStray | clean-transcript.py:33 | a `<` that opens no tag is kept: the text before it and the `<` stay, and removal goes on after it |
| TranscriptText.SpeakerPrefixLen | clean-transcript.py:35 | a removed prefix starts with a word character, ends with whitespace, and is followed directly by a bracketed millisecond time range |
| TranscriptText.SpeakerPrefixFound | clean-transcript.py:35 | a word, a colon, whitespace and then a bracketed millisecond time range is found as the prefix, whatever the lengths of the word and the whitespace |
| TranscriptText.SpeakerPrefixSound | clean-transcript.py:35 | whatever is removed is the word run at the start, a colon, whitespace, and nothing else, with the time range right after it |
| TranscriptText.EntityLen | clean-transcript.py:41 | an entity found at the start opens with `&`, closes with `;` and has only ASCII letters inside |
| TranscriptText.EntityFound | clean-transcript.py:41 | `&`, one or more ASCII letters and `;` is found as the entity at the start, in full |
| TranscriptText.ReplaceEntities | clean-transcript.py:41 | replacing entities keeps plain spacing and never lengthens the text |
| TranscriptText.ReplaceEntitiesNoEntity | clean-transcript.py:41 | without `&`, entity replacement changes nothing |
| TranscriptText.ReplaceEntitiesSplice | clean-transcript.py:41 | an entity becomes one space: the text before the first `&` is kept and replacement goes on after the entity |
| TranscriptText.ReplaceEntitiesStray | clean-transcript.py:41 | an `&` that opens no entity is kept: the text before it and the `&` stay, and replacement goes on after it |
| TranscriptText.CleanText | clean-transcript.py:31-42 | the cleaned text is trimmed, has `' '` as its only whitespace, contains no line break, and is no longer than the input |
| TranscriptText.CleanTextDropsTag | clean-transcript.py:31-42 | cleaning text with a tag gives what cleaning it without the tag gives |
| TranscriptText.CleanTextDropsLabel | clean-transcript.py:31-42 | cleaning text that starts with a speaker label gives what cleaning it from the time range on gives |
| TranscriptText.CleanTextPlain | clean-transcript.py:33-42 | for text without `<`, `&` or a speaker prefix, `clean_text` is "collapse whitespace runs, then strip" |
| TranscriptText.CleanTextWords | clean-transcript.py:33-42 | two words with any whitespace run between them (newline, tab, several spaces) clean to the two words and one space, when no `<`, `&` or speaker label occurs |
| TranscriptText.CollapseLStrip | clean-transcript.py:37-42 | removing leading whitespace before collapsing and stripping changes nothing |
| TranscriptText.CleanTextClean | clean-transcript.py:31-42 | text that is already clean and has no tag, entity or speaker prefix comes back unchanged |
| TranscriptText.IsPrefixIff | clean-transcript.py:44-46 | `is_prefix(a, b)` holds exactly when `a` is no longer than `b` and equals the start of `b` |
| TranscriptText.IsPrefixReflexive | clean-transcript.py:44-46 | the empty string is a prefix of every string, and every string is a prefix of itself |
| TranscriptText.IsPrefixTransitive | clean-transcript.py:44-46 | `is_prefix` is transitive |
| TranscriptVtt.StripHeader | clean-transcript.py:56 | text changes only when it starts with `WEBVTT` in any case, and then what goes is everything up to the first blank line after it; when such a blank line exists, it and everything before it do go |
| TranscriptVtt.RemoveSpans | clean-transcript.py:58-60 | removing `NOTE`/`STYLE` spans never lengthens the text |
| TranscriptVtt.RemoveSpansSkip | clean-transcript.py:58-60 | text where no span starts is kept verbatim, and removal proceeds on what follows |
| TranscriptVtt.RemoveSpansFirst | clean-transcript.py:58-60 | the first keyword occurrence, wherever it is, starts a span that is removed through the first blank line after it; removal goes on after that |
| TranscriptVtt.RemoveSpansUnclosed | clean-transcript.py:58-60 | a keyword with no blank line after it removes nothing |
| TranscriptVtt.RemoveSpansAbsent | clean-transcript.py:58-60 | text without the keyword passes through unchanged |
| TranscriptVtt.BodyOfBlocks | clean-transcript.py:56-63 | after a `WEBVTT` header line and a blank line, the header goes and trimmed blocks without `NOTE` or `STYLE` are kept as they are (the part `TranscriptVtt.Body` models) |
| TranscriptVtt.SplitBlocks | clean-transcript.py:63 | `re.split(r'\n\n+', ...)` gives at least one block; `SplitBlocksRun` and `SplitBlocksLast` state where it splits |
| TranscriptVtt.SplitBlocksRun | clean-transcript.py:63 | `\n\n+` takes the whole newline run: a piece with no blank line and no trailing newline, followed by two or more newlines, splits off as the first block, and splitting goes on after the run |
| TranscriptVtt.SplitBlocksLast | clean-transcript.py:63 | text without a blank line is a single block |
| TranscriptVtt.SplitBlocksJoin | clean-transcript.py:63 | blocks joined by blank lines split back into the same blocks |
| TranscriptVtt.FirstArrowLine | clean-transcript.py:74-78 | returns the first line containing `-->`: no earlier line contains it, and none is returned when no line does |
| TranscriptVtt.StartTimeLine | clean-transcript.py:86 | `re.match(r'(\d{2}:\d{2}:\d{2})\.\d{3}\s*-->', ...)`: the line starts with `HH:MM:SS.mmm`, optional whitespace and `-->`; `TranscriptVtt.BlockCaptionOf` states what it decides |
| TranscriptVtt.BlockCaption | clean-transcript.py:66-98 | what a block yields, if anything, is a caption line of the form `HH:MM:SS text` with non-empty text |
| TranscriptVtt.BlockCaptionOf | clean-transcript.py:66-98 | for a block whose first `-->` line is `line`: a well-formed start time and non-empty cleaned text of the later lines give `HH:MM:SS text`; a malformed `line` or empty text gives nothing, even when a later line is a well-formed `-->` line |
| TranscriptVtt.BlockCaptionNoArrow | clean-transcript.py:74-83 | a block without `-->` yields nothing |
| TranscriptVtt.Captions | clean-transcript.py:66-98 | at most one caption per block, each a well-formed caption line |
| TranscriptVtt.CaptionsConcat | clean-transcript.py:66-98 | blocks are processed independently and in order |
| TranscriptVtt.ProcessVttLines | clean-transcript.py:48-98 | every emitted line is a caption line, and there are no more lines than blocks |
| TranscriptVtt.ProcessVtt | clean-transcript.py:48-100 | splitting the output into lines gives back exactly the caption lines |
| TranscriptVtt.ProcessVttOfBlocks | clean-transcript.py:48-100 | a `WEBVTT` header, a blank line and trimmed blocks joined by blank lines (without `NOTE` or `STYLE`) give the captions of those blocks, in order, joined by newlines |
| Similarity.CommonPrefixSpec | clean-transcript.py:118 | the common run at a position is shared, and the characters right after it differ |
| Similarity.RowBestSpec | clean-transcript.py:118 | scanning one row finds its longest block, the leftmost on ties |
| Similarity.GridBestSpec | clean-transcript.py:118 | scanning all rows finds the longest block, the first in row-major order on ties |
| Similarity.LongestMatchSpec | clean-transcript.py:118 | `find_longest_match` returns a common block; none is longer, and none as long starts earlier |
| Similarity.Matches | clean-transcript.py:118 | the matched character count is bounded by both lengths, so the ratio lies in [0, 1] |
| Similarity.Similar | clean-transcript.py:118 | `ratio() >= threshold` as `2M * den >= num * T` in exact arithmetic, and the threshold test on two empty lines; `IdenticalSimilar`, `ExtensionSimilar` and `QuickFoxExample` state what it decides |
| Similarity.MatchesExtension | clean-transcript.py:118 | a string matches the whole of any extension of itself |
| Similarity.IdenticalSimilar | clean-transcript.py:118 | identical lines are similar at any threshold up to 1 |
| Similarity.ExtensionSimilar | clean-transcript.py:118 | for a line of length n and an extension of it by m characters, the ratio is 2n / (2n + m) |
| Similarity.DisjointMatches | clean-transcript.py:118 | strings with no common character have ratio 0 |
| Similarity.QuickFoxExample | clean-transcript.py:102-118 | "the quick fox" followed by "the quick fox." is similar at 0.8 and not at 0.99 |
| LineStutter.Dedup | clean-transcript.py:107-121 | the kept lines are never more than the input lines |
| LineStutter.DedupFirst | clean-transcript.py:110-111 | the first line is always kept |
| LineStutter.DedupSubsequence | clean-transcript.py:107-121 | the kept lines are a subsequence of the input lines |
| LineStutter.DedupKeepsTurns | clean-transcript.py:115-116 | every `[SPEAKER_TURN]` line is kept, in order |
| LineStutter.DedupAdjacent | clean-transcript.py:113-121 | each kept line after the first holds a turn marker or is dissimilar to the line kept before it |
| LineStutter.DedupIdentity | clean-transcript.py:107-121 | the lines are unchanged exactly when each already holds a turn marker or is dissimilar to its predecessor |
| LineStutter.DedupIdempotent | clean-transcript.py:107-122 | deduplicating twice equals deduplicating once |
| LineStutter.ExtensionDeduplicated | clean-transcript.py:113-119 | a line followed by a close enough extension of itself keeps only the first |
| LineStutter.DedupLines | clean-transcript.py:108-121 | the loop computes the deduplication |
| LineStutter.RemoveLineStuttering | clean-transcript.py:102-122 | the result is the kept lines joined with newlines, and one-line text passes through unchanged |
| WordStutter.StutterEnd | clean-transcript.py:128 | a match found at `p` ends more than twice the word's length after `p` |
| WordStutter.StutterEndSound | clean-transcript.py:128 | what is found is a match of `\b(\w+)\s+\1\b`: a word boundary, the whole word at `p`, the whole whitespace run after it, the word again in any case, and a word boundary at the end |
| WordStutter.StutterEndFound | clean-transcript.py:128 | every match of the pattern at `p`, with any group and whitespace lengths, is the one found, with the same end |
| WordStutter.PassFromSpec | clean-transcript.py:132 | one substitution pass returns stutter-free text unchanged and strictly shortens any other text |
| WordStutter.Pass | clean-transcript.py:132 | one substitution pass never lengthens the text |
| WordStutter.PassIdentity | clean-transcript.py:129-132 | a pass is the identity exactly on stutter-free text, and otherwise it shortens the text |
| WordStutter.PassFromChars | clean-transcript.py:132 | a pass introduces no new characters |
| WordStutter.Collapse | clean-transcript.py:129-132 | the fixed point of the substitution is stutter free and no longer than its input |
| WordStutter.CollapseIdentity | clean-transcript.py:129-132 | the fixed point is reached at once exactly on stutter-free text |
| WordStutter.CollapseIdempotent | clean-transcript.py:129-132 | the fixed point is idempotent |
| WordStutter.CollapseChars | clean-transcript.py:129-132 | the fixed point introduces no new characters |
| WordStutter.RepEndsStep | clean-transcript.py:135 | each repetition end the greedy scan lists follows the one before by a whole whitespace run and the word again in any case |
| WordStutter.RepEndsStop | clean-transcript.py:135 | the greedy scan stops only where no further repetition follows |
| WordStutter.RepFound | clean-transcript.py:135 | any repetition `\s+\1` of a word uses the whole whitespace run, so it is the one the scan takes |
| WordStutter.RepChainPrefix | clean-transcript.py:135 | any chain of repetitions, with any whitespace lengths, is the start of the greedy one |
| WordStutter.LastBoundary | clean-transcript.py:135 | the count chosen is the largest one of two or more repetitions that ends at a word boundary; none is chosen when no such count exists |
| WordStutter.TripleEnd | clean-transcript.py:135 | a match found at `p` ends after the word at `p` |
| WordStutter.TripleEndChoice | clean-transcript.py:135 | a match ends at the end of the second or a later greedy repetition, at a word boundary, and no later repetition ends at one; no match means no repetition from the second on ends at one |
| WordStutter.TripleEndFound | clean-transcript.py:135 | every match of `\b(\w+)(\s+\1){2,}\b` at `p`, with any group, whitespace lengths and count, is found: its group is the word at `p`, and the match found ends at its end or at a later repetition's end |
| WordStutter.TripleIsStutter | clean-transcript.py:135-136 | every match of the triple pattern is also a match of the stutter pattern |
| WordStutter.TriplePass | clean-transcript.py:136 | the triple substitution never lengthens the text |
| WordStutter.TriplePassFree | clean-transcript.py:135-136 | the triple pass leaves stutter-free text unchanged |
| WordStutter.WordStuttersRemoved | clean-transcript.py:124-138 | removing word stutters never lengthens the text |
| WordStutter.WordStuttersRemovedSpec | clean-transcript.py:124-138 | the result equals the fixed point and is stutter free; it is idempotent and the identity exactly on stutter-free text |
| WordStutter.RemoveWordStuttering | clean-transcript.py:124-138 | the loop ends; the result is stutter free, no longer than the input, and unchanged on stutter-free text |
| WordStutter.LetterStutter | clean-transcript.py:128 | a one-letter word, a space and the same letter in any case form a stutter |
| WordStutter.FourTimes | clean-transcript.py:134-136 | "a a a a" becomes "a" |
| Transcript.IsVtt | clean-transcript.py:162 | the format test: a `.vtt` name in any case, a `WEBVTT` start, or `[00:00:` anywhere; `Transcript.IsVttExtension` and `Transcript.IsVttLowerHeader` state how case matters |
| Transcript.IsVttExtension | clean-transcript.py:162 | the file-name test ignores case: a name ending in any casing of `.vtt` (`.VTT` included) is cue-timed, whatever the text |
| Transcript.IsVttLowerHeader | clean-transcript.py:162 | the header test does not ignore case: a `.txt` file holding only `webvtt` is plain text |
| Transcript.CleanTranscript | clean-transcript.py:140-156 | cue-timed input yields `process_vtt` of the raw text, all of it caption lines; other input yields the word-stutter result of `clean_text`, with no line break and no stutter (the line pass before it leaves one-line text alone, see `LineStutter.RemoveLineStuttering`) |
| VttClean.Spaced | vttclean.py:11 | `re.sub(r'<[^>]+>\|\s+', ' ', s)` gives text with `' '` as its only whitespace, never longer; a tag next to whitespace leaves several spaces in a row |
| VttClean.SpacedTag | vttclean.py:11 | a tag becomes one space: the text before the first `<` and the text after the tag are spaced on their own |
| VttClean.SpacedStray | vttclean.py:11 | a `<` that opens no tag is kept, and spacing goes on after it |
| VttClean.SpacedAllSpace | vttclean.py:11 | whitespace-only text becomes one space, or stays empty |
| VttClean.SpacedIdentity | vttclean.py:11 | single-spaced plain text without `<` passes through |
| VttClean.SpacedNoTag | vttclean.py:11 | without `<`, the pattern only collapses whitespace runs: the result is `re.sub(r'\s+', ' ', s)` |
| VttClean.CleanText | vttclean.py:9-12 | the cleaned text is trimmed, has `' '` as its only whitespace, and contains no line break |
| VttClean.CleanTextTag | vttclean.py:9-12 | a tag in the text becomes a space between the spaced pieces before and after it, and the whole is then stripped |
| VttClean.CleanTextBlank | vttclean.py:9-12 | whitespace-only input cleans to the empty string |
| VttClean.CleanTextClean | vttclean.py:9-12 | clean text without `<` comes back unchanged |
| VttClean.BlankStrip | vttclean.py:28 | `line.strip()` is empty exactly when the line is whitespace only |
| VttClean.CueStart | vttclean.py:23 | `re.match` of `HH:MM:SS.mmm --> HH:MM:SS.mmm` at the start of a line; `VttClean.CaptionSpec` and `VttClean.CuesNone` state what it decides |
| VttClean.BodyLenSpec | vttclean.py:27-30 | a cue's text is the run of non-blank lines after it; the run stops at the first blank line or the end |
| VttClean.BodyLenExact | vttclean.py:27-30 | a run of non-blank lines closed by a blank line or the end is exactly the cue's text |
| VttClean.CueText | vttclean.py:32-33 | the cue's lines joined by spaces and cleaned: trimmed, `' '` as the only whitespace, one line |
| VttClean.CaptionSpec | vttclean.py:32-36 | a cue yields one line exactly when its cleaned text is non-empty; that line carries the `HH:MM:SS` of the cue start and the text |
| VttClean.Cues | vttclean.py:21-38 | the captions of a sequence of lines, cue by cue; `CuesSpec`, `CuesCount`, `CuesSkip`, `CuesNone` and `CuesAppend` state its properties |
| VttClean.CuesCount | vttclean.py:21-38 | there are no more output lines than cue timing lines |
| VttClean.CuesSpec | vttclean.py:21-38 | every output line is a caption line |
| VttClean.CuesSkip | vttclean.py:37-38 | lines before the first cue timing line contribute nothing |
| VttClean.CuesNone | vttclean.py:21-38 | text without cue timing lines yields nothing |
| VttClean.CuesAppend | vttclean.py:21-38 | parts separated by a blank line are processed independently and in order |
| VttClean.CueBody | vttclean.py:27-30 | the inner loop collects the cue's lines up to the next blank line |
| VttClean.ProcessVtt | vttclean.py:14-40 | the loop ends; the result is the cue captions joined with newlines, and splitting it gives them back |

## Left out

- Unicode: characters are modelled as ASCII.
  - `\s`, `str.isspace` and `strip` use the ASCII whitespace set (tab, newline, vertical tab, form feed, carriage return, the separators 0x1c-0x1f, space).
  - `\w` is `[A-Za-z0-9_]` and `\d` is `[0-9]`.
  - `re.IGNORECASE` compares ASCII letters without case.
  - Python's Unicode classes and full case folding are not modelled.
- `splitlines` is modelled with its ASCII separators (`\n`, `\r`, `\r\n`, vertical tab, form feed, 0x1c-0x1e); the Unicode separators are not modelled.
- Similarity.Matches: is exact only without difflib's `autojunk` heuristic. That heuristic ignores popular characters once the current line (the second argument) is 200 characters or longer, and it is not modelled.
- Similarity.Similar: compares with a rational threshold instead of a float. Rounding of `2.0*M/T` is not modelled; the default 0.8 is 4/5.
- `main` in both scripts is left out: standard input, the `filename` environment variable, `sys.argv`, file reading and printing. The format test is `Transcript.IsVtt`, with the file name as a parameter.
- clean-transcript.py:68-69 (`if not lines: continue`) cannot fire: `split` always returns at least one piece.
- clean-transcript.py:80-83 (the empty timestamp-line check) fires exactly when no line of the block contains `-->`; `BlockCaption`'s `None` case and `BlockCaptionNoArrow` model it. Once a `-->` line is found it cannot fire, because `strip('[]')` keeps the `-->`.
- The candidate merging described in clean-transcript.py:13-27 has no code behind it, so it is not modelled.
- jpegdir.py, nvidia_ocr.py and the ollm_bridge package are not part of this model. They are OCR and process plumbing around the cleaners.
