# SRT dialogue parser, modelled in Dafny

The application converts SubRip (SRT) subtitles into a table of timed,
speaker-attributed dialogue. Its core is `parse_srt` (app.py:168-247) and
two helpers:
- `clean_dialogue_text` (app.py:143-152) turns `<i>`, `<b>` and `<u>` spans
  into parenthesised text, removes every other tag and collapses whitespace.
- `is_valid_speaker_tag` (app.py:154-166) decides whether the text before a
  colon names a speaker. It uses the limits of 35 characters and 4 words
  (app.py:18-19) and a list of lead-ins that are not speakers (app.py:22-41).

`parse_srt` works as follows:
- It strips the file and splits it into cues at blank lines (`\n\s*\n`).
- It drops any cue with fewer than three lines, or whose second line does not
  start with `HH:MM:SS,mmm --> HH:MM:SS,mmm`.
- It splits each dialogue line at `NAME: ` delimiters (`[\w\s&]+?: `), keeping
  the delimiters.
- It walks the pieces with a hand-advanced index, keeping four variables:
  - the rows emitted so far;
  - the last known speaker;
  - a buffer of text that has no speaker yet;
  - the speaker the cue started with.
- An accepted tag flushes the buffer, and the text after it becomes a row of
  its own.
- A rejected tag is put back into the buffer word for word.
- At the end of a cue the buffer is flushed. A flush uses the cue's initial
  speaker unless the last row has this cue's start timecode, in which case it
  uses the last known speaker. That last row can belong to an earlier cue with
  the same start timecode.

The modules follow that structure:

| file | module | contents |
|---|---|---|
| `wrappers.dfy` | `Wrappers` | `Option` |
| `text.dfy` | `Text` | the `str` methods the code uses: `strip`, `lower`, `replace`, `split()`, `split('\n')` |
| `markup.dfy` | `Markup` | `clean_dialogue_text`: each `re.sub` written out as the left-to-right scan the regular-expression engine performs |
| `speaker_tag.dfy` | `SpeakerTag` | the constants, the phrase list and `is_valid_speaker_tag` |
| `srt_syntax.dfy` | `SrtSyntax` | the two `re.split` calls (as a scan that keeps the separators), cue lines and the timecode `re.match` |
| `dialogue.dfy` | `Dialogue` | what `parse_srt` computes, as functions over its four variables; the invariants it keeps; the behaviour of speaker lines, rejected tags, plain lines, cues and the whole file |
| `parser.dfy` | `Parser` | `parse_srt` as the code runs it |

In `parser.dfy`:
- `SrtParser` is a class whose fields are the four variables.
- Its methods update them in place, with the same `while` loop and the same
  `i += 1` / `i += 2` steps.
- Each method is proved to leave the fields exactly as the matching `Dialogue`
  function says.
- `ParseSrt` is proved to return `Parsed(content)`, and every row it returns
  is well formed.

Two modelling notes:
- The `Dialogue` functions take the tag judgement as a parameter `accepts`.
  `Parsed` and the `Parser` class instantiate it with `IsValidSpeakerTag`.
  Every structural fact is proved for any judgement, and stated for the
  source's judgement where it matters.
- The code cleans each row's dialogue as the row is appended (app.py:179-180),
  and so does the model. Every emitted row's dialogue is proved tidy:
  stripped, single-spaced, with plain spaces only and no `<…>` tag.

## Model

| member | source | states |
|---|---|---|
| Text.Lower | app.py:158 | `lower()` keeps the length and lower-cases each character independently |
| Text.Strip | app.py:156 | the result is the slice that starts after the leading whitespace; everything after it is whitespace; it neither starts nor ends with whitespace |
| Text.StripTrimmed | app.py:156 | stripping a text without surrounding whitespace leaves it unchanged |
| Text.StripKeepsOut | app.py:199 | stripping a line brings in no new character (a line without `:` stays without one) |
| Text.ReplaceAllAbsent | app.py:160 | `replace` changes nothing when the pattern's first character does not occur |
| Text.ReplaceAll | app.py:160 | `str.replace`, replacing non-overlapping occurrences from left to right; described by ReplaceAllAbsent and ReplaceAllChar |
| Text.ReplaceAllChar | app.py:160 | replacing one character by another keeps the length, changes exactly the positions holding that character, and leaves none of it |
| Text.Words | app.py:162 | every word of `split()` is non-empty and holds no whitespace |
| Text.WordsCount | app.py:162 | `split()` yields exactly as many words as there are word starts |
| Text.FirstWord | app.py:164 | the first word opens with the text's first character |
| Text.SplitOn | app.py:184 | `split('\n')` gives at least one piece and no piece holds the separator |
| Text.SplitOnJoin | app.py:184 | joining the pieces with the separator gives back the text |
| Text.SplitOnCount | app.py:184 | there is one more piece than there are separators |
| Markup.CollapseSpace | app.py:152 | `re.sub(r'\s+', ' ', …)` is empty only for empty input, keeps whether the text opens and whether it ends with whitespace, keeps the words of the text exactly, and leaves only plain spaces, never two adjacent |
| Markup.MatchSpan | app.py:148-150 | a match of `<X[^>]*>(.*?)</X[^>]*>` at the front: it opens with `<` and the letter in either case; the opening tag ends at its first `>`; the group ends at the first closer `</X` after which a `>` follows (the lazy group); the closing tag ends at the first `>` after `</X`; everything lies inside the text; MatchSpanComplete gives the converse |
| Markup.MatchSpanComplete | app.py:148-150 | every span present at the front is matched: `<` and the letter, a `>`, then a closer `</X` with a `>` after it give a match whose group ends at that closer or an earlier one |
| Markup.SubSpans | app.py:148-150 | one `re.sub` of the span pattern for one letter, scanning from left to right; described by SubSpansSpanFront, SubSpansOtherSpanFront, SubSpansTagFront and SubSpansPieces |
| Markup.RemoveTags | app.py:151 | `re.sub(r'<[^>]*>', '', …)`; described by RemoveTagsLeavesNoTag and CleanLoneTag |
| Markup.CleanDialogueText | app.py:143-152 | the whole cleaning chain; described by CleanDialogueTextIsTidy, CleanTidyUnchanged, CleanIdempotent, CleanMarkupFree, CleanFormattingSpan and CleanPieces |
| Markup.RemoveTagsLeavesNoTag | app.py:151 | after `re.sub(r'<[^>]*>', '', …)` no `<` is followed anywhere by `>` |
| Markup.SubSpansOtherSpan | app.py:148-150 | each of the three substitutions leaves a span of another letter untouched |
| Markup.CleanDialogueTextIsTidy | app.py:143-152 | the result is stripped, single-spaced, uses only plain spaces and holds no `<…>` tag |
| Markup.CleanTidyUnchanged | app.py:143-152 | a tidy text is returned unchanged |
| Markup.CleanIdempotent | app.py:143-152 | cleaning twice is the same as cleaning once |
| Markup.CleanMarkupFree | app.py:148-152 | text without `<` is only whitespace-normalised |
| Markup.CleanFormattingSpan | app.py:148-150 | an `<i>`, `<b>` or `<u>` span in markup-free text is cleaned as its content in parentheses; CleanPieces extends this to any number of spans and other tags |
| Markup.CleanLoneTag | app.py:151 | any other single tag is removed and nothing else changes |
| Markup.SubSpansSpanFront | app.py:148-150 | a span `<x>content</x>` of the letter being substituted, at the front of any text, becomes `(content)` and the substitution goes on after it |
| Markup.SubSpansOtherSpanFront | app.py:148-150 | a span of another formatting letter, at the front of any text, is copied and the substitution goes on after it |
| Markup.SubSpansTagFront | app.py:148-150 | a tag `<body>` whose body does not open with a formatting letter, at the front of any text, is copied and the substitution goes on after it |
| Markup.SubSpansPieces | app.py:148-150 | on any sequence of plain text, formatting spans and other tags, the substitution for one letter turns exactly the spans of that letter into `(content)` and leaves every other piece as it is |
| Markup.RemoveTagsPieces | app.py:151 | once no formatting span is left, removing tags keeps every plain piece and drops every other tag |
| Markup.CleanPieces | app.py:143-152 | any sequence of plain text, `<i>`/`<b>`/`<u>` spans and other tags is cleaned to the pieces' text, with each span's content in parentheses and every other tag gone, and whitespace then collapsed and stripped |
| Markup.CleanTwoSpans | app.py:148-152 | two spans with text between them, such as `<i>a</i> <i>b</i>`, are cleaned as `(a) (b)` would be |
| Markup.CleanWrappedSpan | app.py:148-152 | a span wrapped in another pair of tags, such as `<font color="x"><i>hi</i></font>`, is cleaned as `(hi)` would be |
| SpeakerTag.IsNonSpeakerPhrase | app.py:22-41 | the test `tag.lower() in NON_SPEAKER_PHRASES`; described by NonSpeakerPhraseIff |
| SpeakerTag.Normalize | app.py:160 | the normalised tag holds no `&` and neither starts nor ends with whitespace; its `and` replacements are described by AndPairShape, TrailingAndShape and AndPrefixDropped |
| SpeakerTag.IsValidSpeakerTag | app.py:154-166 | the heuristic, with the limits of 35 characters and 4 words (app.py:18-19); described by ValidSpeakerTagIff, RejectedTags, AcceptedTagShape and the examples |
| SpeakerTag.NonSpeakerPhraseIff | app.py:22-41 | the phrase test is exactly membership in the list |
| SpeakerTag.ValidSpeakerTagIff | app.py:154-166 | a tag is accepted exactly when its stripped form is not a listed phrase (after lower-casing) and has the shape of a name |
| SpeakerTag.RejectedTags | app.py:156-159 | empty or whitespace-only tags, listed phrases and tags longer than 35 characters are rejected |
| SpeakerTag.AcceptedTagShape | app.py:156-166 | an accepted tag is non-empty, at most 35 characters once stripped, normalises to one to four words, and its first word does not open in lower case |
| SpeakerTag.NormalizeUnchanged | app.py:160 | a stripped tag without `&` and without a space before an `a` is its own normalised form |
| SpeakerTag.SingleWordShape | app.py:159-166 | a single word without `&` has the shape of a name exactly when it is at most 35 characters long and does not open with a lower-case letter |
| SpeakerTag.LowerCaseOpeningRejected | app.py:164-165 | a tag whose stripped form opens with a lower-case letter is rejected |
| SpeakerTag.AmpersandPairShape | app.py:160-166 | `A & B`, with A and B single words without `&` and B not opening in lower case, normalises to exactly two words, and has the shape of a name exactly when it is at most 35 characters long and A does not open in lower case |
| SpeakerTag.AndPairShape | app.py:160-166 | `A and B`, with A and B single words without `&` and B not opening with `and`, normalises to `A B`, two words, and has the shape of a name exactly when it is at most 35 characters long and A does not open in lower case |
| SpeakerTag.TrailingAndShape | app.py:160-166 | `A and`, with A a single word without `&`, normalises to `A`, one word, and has the shape of a name exactly when it is at most 35 characters long and A does not open in lower case |
| SpeakerTag.AndPrefixDropped | app.py:160 | ` and` is removed wherever it occurs, also where it opens a word: `A andC` normalises to `AC` |
| SpeakerTag.ExampleNote | app.py:158 | `note` is rejected because it is a listed phrase |
| SpeakerTag.ExampleJohn | app.py:154-166 | `John` is accepted |
| SpeakerTag.ExampleJackAndJill | app.py:154-166 | `Jack & Jill` is accepted as one speaker |
| SpeakerTag.ExampleFiveWords | app.py:162-163 | `A B C D E` is rejected for having five words |
| SrtSyntax.MatchAt | app.py:174 | a match starting at a position ends after it, inside the text; a blank-line match opens with a newline and, being greedy, ends at a newline after which no newline follows before the next non-whitespace character; a delimiter match ends with `: ` right after the run of tag characters |
| SrtSyntax.Split | app.py:202 | `re.split` with one capturing group gives an odd number of pieces; described by SplitConcat, SplitSeparators and SplitTexts |
| SrtSyntax.SplitTexts | app.py:174 | every piece lies inside the text, and no match starts anywhere inside a piece at an even index (the split misses no separator) |
| SrtSyntax.Blocks | app.py:174 | the cues of the stripped file; described by Evens and BlocksHoldNoBlankLine |
| SrtSyntax.BlocksHoldNoBlankLine | app.py:174 | no cue holds a blank line (two newlines with only whitespace between) |
| SrtSyntax.Segments | app.py:202 | the segments of a dialogue line; described by SplitWithoutSeparator, SegmentsOfTwoDelimiters and SegmentTextsHoldNoDelimiter |
| SrtSyntax.SegmentTextsHoldNoDelimiter | app.py:202 | no text segment (even index) holds a `NAME: ` delimiter |
| SrtSyntax.MatchAtSeparator | app.py:174 | what a match covers is a blank-line separator (two newlines with only whitespace between) or a `NAME: ` delimiter |
| SrtSyntax.SplitSeparators | app.py:202 | every kept separator, at the odd indices, is a match of the pattern |
| SrtSyntax.SplitSeparatorsExtent | app.py:174 | each kept separator starts where the pattern matches and is that whole match, so a greedy blank-line separator takes the entire run of blank lines |
| SrtSyntax.SplitConcat | app.py:174 | the pieces of `re.split`, separators included, join back into the text |
| SrtSyntax.SplitWithoutSeparator | app.py:202 | a line without `:` is one segment; a text without a newline is one cue |
| SrtSyntax.SegmentsOfTwoDelimiters | app.py:202 | `A: x. B: y` splits into an empty lead, `A: `, `x.`, ` B: ` and `y` |
| SrtSyntax.Evens | app.py:174 | the cues are the texts between the separators |
| SrtSyntax.Lines | app.py:184 | a cue has at least one line and no line holds a newline |
| SrtSyntax.MatchTimecode | app.py:187-192 | a matched timecode line opens with two well-formed timestamps joined by ` --> `, which are its groups |
| SrtSyntax.MatchTimecodeOfFormat | app.py:188-192 | any line opening with two timestamps joined by ` --> ` matches, whatever follows |
| Dialogue.Step | app.py:205-241 | one turn of the segment loop consumes two segments exactly when the stripped segment is non-empty, ends with `:` and is longer than the colon, and one otherwise |
| Dialogue.AppendRow | app.py:177-181 | appends a row with the cue's timecodes and cleaned dialogue and sets the last known speaker; described by AppendRowInv |
| Dialogue.FlushSpeaker | app.py:216-219 | the speaker picked for a flush: the cue's initial speaker unless the last row has this cue's start timecode; described by FlushInv, ContinuedSpeaker and AnnouncedSpeaker |
| Dialogue.Flush | app.py:243-245 | the flush of the buffer at the end of a cue; described by FlushInv |
| Dialogue.Buffer | app.py:236-241 | adding text to the buffer; described by BufferInv, PlainLine and RejectedTagLine |
| Dialogue.TagStep | app.py:214-229 | an accepted tag; described by TagStepInv, SpeakerLine and TwoTagStepsRows |
| Dialogue.ProcessLine | app.py:198-241 | one dialogue line; described by TagLine, SpeakerLine, RejectedTagLine, PlainLine and TwoSpeakerLine |
| Dialogue.ProcessBlock | app.py:183-245 | one cue; described by ProcessBlockRows, PlainBlock and DroppedBlock |
| Dialogue.Parsed | app.py:168-247 | the rows of the whole file; described by ParsedRowsWellFormed and ParsedLastSpeaker |
| Dialogue.AppendRowInv | app.py:177-181 | appending under a speaker keeps every row well formed and the last known speaker equal to the last row's |
| Dialogue.FlushInv | app.py:243-245 | a flush keeps the invariant and only appends rows carrying the cue's timecodes |
| Dialogue.TagStepInv | app.py:214-229 | an accepted tag keeps the invariant and only appends rows of this cue |
| Dialogue.BufferInv | app.py:236-241 | buffering leaves the rows, the last known speaker and the cue's initial speaker as they are, and so keeps the invariant |
| Dialogue.WalkInv | app.py:204-241 | the walk over a line keeps the invariant and only appends rows of this cue |
| Dialogue.ProcessLinesInv | app.py:198-241 | so does the walk over a cue's dialogue lines |
| Dialogue.ProcessBlockRows | app.py:183-245 | a kept cue keeps the earlier rows, and each row it adds carries the two timestamps its second line opens with |
| Dialogue.ParseBlocksInv | app.py:183-245 | the loop over cues keeps the invariant |
| Dialogue.ParsedRowsWellFormed | app.py:168-247 | every row has two well-formed timestamps, a non-empty speaker that is `Unknown` or an accepted tag, and tidy dialogue |
| Dialogue.ParsedLastSpeaker | app.py:175-181 | after the file, the last known speaker is the last row's speaker, or `Unknown` if there is no row |
| Dialogue.TagLine | app.py:202-237 | a line `TAG: text` is one candidate: an accepted tag takes the text, a rejected one is buffered with it |
| Dialogue.SpeakerLine | app.py:214-229 | a speaker line flushes the buffer under the resolved speaker, adds the text as a row under the tag, empties the buffer and makes the tag the last known speaker |
| Dialogue.RejectedTagLine | app.py:231-237 | a line with a rejected tag is added to the buffer word for word |
| Dialogue.PlainLine | app.py:239-241 | a line without a colon adds its stripped text to the buffer |
| Dialogue.PlainLines | app.py:198-241 | lines without a colon add no row and change no speaker |
| Dialogue.PlainBlock | app.py:194-245 | a cue without a colon in its dialogue adds at most one row, under the speaker last known before the cue (speaker carry-over) |
| Dialogue.TagAloneLine | app.py:211-237 | a line that is only `TAG:` produces no row of its own: an accepted tag is handled with empty text, so the rows are those of flushing a non-empty buffer first; a rejected one is buffered as `TAG: ` and adds no row |
| Dialogue.AnnouncedSpeaker | app.py:196-245 | a `TAG:` line followed by plain text at the start of a cue gives one row, under the tag, through the cue's initial speaker |
| Dialogue.ContinuedSpeaker | app.py:214-245 | plain text after a speaker line of the same cue is flushed under that speaker, since the last row then has the cue's start timecode |
| Dialogue.TwoTagStepsRows | app.py:214-229 | two accepted tags with texts append the flush, if any, then one row per tag, in order |
| Dialogue.TwoSpeakerLine | app.py:202-229 | a line `A: x. B: y` with both tags accepted gives rows for A then B, with the cue's timecodes, and B becomes the last known speaker |
| Dialogue.DroppedBlock | app.py:184-189 | a dropped cue changes nothing, and a cue with fewer than two line breaks is dropped |
| Parser.SrtParser.constructor | app.py:173-175 | the parser starts with no rows, an empty buffer and `Unknown` as both speakers |
| Parser.SrtParser.AppendRowAndUpdateState | app.py:177-181 | appends the row with cleaned dialogue and sets the last known speaker |
| Parser.SrtParser.FlushDialogue | app.py:243-245 | flushes the buffer under the speaker the resolution rule picks |
| Parser.SrtParser.BufferText | app.py:236-241 | adds text to the buffer, after a space when the buffer is not empty |
| Parser.SrtParser.SpeakerTurn | app.py:216-229 | an accepted tag: flush and clear, the row for the following text, and the update of the cue's initial speaker |
| Parser.SrtParser.WalkSegments | app.py:204-241 | the `while i < len(segments)` loop leaves the fields as the segment walk says |
| Parser.SrtParser.ParseBlock | app.py:183-245 | one iteration of the cue loop: dropped, or its lines walked and the buffer flushed |
| Parser.ParseSrt | app.py:168-247 | returns exactly the rows of the functional model, each well formed |

## Left out

- The Streamlit interface, file upload and download, UTF-8 decoding and its
  fallback, the pandas `DataFrame` and its styling, the spreadsheet export, the
  Word document builders and the colour palette. None of these takes part in
  parsing.
- `parse_srt` returns a `DataFrame` with the columns Start, End, Speaker and
  Dialogue. The model returns the same rows as a sequence of `Row` values.
- Characters are modelled on ASCII. Python's `\s`, `\w`, `\d`, `str.isspace`,
  `str.isalpha`, `str.islower`, `str.lower` and `re.IGNORECASE` also act on
  non-ASCII letters and spaces. The model treats every non-ASCII character as
  neither a letter, a digit nor whitespace.
- Parser.SrtParser: `time_start` and `time_end`, which the nested function
  reads from the enclosing loop, are passed as a parameter instead of being
  fields.
- SpeakerTag.NonSpeakerPhrases: the list is written as four consecutive runs
  of twenty in the source's order. `NonSpeakerPhraseIff` proves that the test
  is membership in the whole list.
- Markup.CleanPieces: the piece lemmas cover bare lower-case `<i>`, `<b>` and
  `<u>` spans whose content holds no `<`, and other tags that do not open with
  `i`, `b` or `u`. Formatting spans nested inside one another (`<i><b>x</b></i>`),
  spans whose tags carry attributes or upper-case letters, and tags such as
  `<br>` are not covered by them. MatchSpan and MatchSpanComplete still describe
  each such match at the front of the text.
- The `Dialogue` lemmas about single lines (TagLine, SpeakerLine, TwoSpeakerLine
  and the others) cover lines built from the shapes they name. They say nothing
  about lines where a delimiter can start inside running text.
