/**
 * What `parse_srt` (app.py:168-247) computes, as functions over the values it
 * keeps: the rows appended so far, `last_known_speaker`, `current_dialogue`
 * and `block_initial_speaker`. Every loop of the source is a tail-recursive
 * function here over the same index, so that the imperative parser can be
 * proved equal to it step by step.
 */
module Dialogue {
  import opened Wrappers
  import opened Text
  import opened Markup
  import opened SpeakerTag
  import opened SrtSyntax

  /** The speaker before any tag has been seen. */
  const UnknownSpeaker: string := "Unknown"

  /** One output row: `[time_start, time_end, speaker, clean_dialogue_text(dialogue)]`. */
  datatype Row = Row(start: string, end: string, speaker: string, dialogue: string)

  /** The variables the parser updates as it goes. */
  datatype ParseState = ParseState(
    data: seq<Row>,
    lastKnownSpeaker: string,
    currentDialogue: string,
    blockInitialSpeaker: string)

  /** Nothing parsed yet. */
  const Initial := ParseState([], UnknownSpeaker, [], UnknownSpeaker)

  /** `append_row_and_update_state`: a row with the cleaned dialogue, and its speaker becomes the last known one. */
  function AppendRow(st: ParseState, times: TimeRange, speaker: string, dialogue: string): ParseState {
    st.(data := st.data + [Row(times.start, times.end, speaker, CleanDialogueText(dialogue))],
        lastKnownSpeaker := speaker)
  }

  /**
   * The speaker buffered text is flushed under: the block's initial speaker,
   * unless the last row carries this block's start timecode (a row of this
   * block, or of an earlier block with the same start), in which case the last
   * known speaker.
   */
  function FlushSpeaker(st: ParseState, times: TimeRange): string {
    if st.data == [] || st.data[|st.data| - 1].start != times.start then st.blockInitialSpeaker
    else st.lastKnownSpeaker
  }

  /** Emitting the buffered text, if there is any; the buffer itself is left as it is. */
  function Flush(st: ParseState, times: TimeRange): ParseState {
    if st.currentDialogue != [] then AppendRow(st, times, FlushSpeaker(st, times), st.currentDialogue)
    else st
  }

  /** Adding text to the buffer, after a single space when the buffer is not empty. */
  function Buffer(st: ParseState, text: string): ParseState {
    st.(currentDialogue := if st.currentDialogue != [] then st.currentDialogue + " " + text else text)
  }

  /**
   * A valid tag with the stripped segment after it: buffered text is flushed
   * and the buffer emptied, the text after the tag becomes its own row, and the
   * tag becomes the block's initial speaker if that still equals the last known
   * speaker.
   */
  function TagStep(st: ParseState, times: TimeRange, tag: string, next: string): ParseState {
    var flushed := if st.currentDialogue != [] then Flush(st, times).(currentDialogue := []) else st;
    var spoken := if next != [] then AppendRow(flushed, times, tag, next) else flushed;
    if spoken.blockInitialSpeaker == spoken.lastKnownSpeaker then spoken.(blockInitialSpeaker := tag)
    else spoken
  }

  /** The stripped segment at `i`, or the empty text past the end. */
  function NextSegment(segs: seq<string>, i: nat): string {
    if i < |segs| then Strip(segs[i]) else []
  }

  /** A stripped segment that is judged as a tag: it ends in `:` and is longer than that colon. */
  predicate IsCandidate(seg: string) {
    |seg| > 1 && seg[|seg| - 1] == ':'
  }

  /** Where the walk over a line's segments stands: the state and the index of the next segment. */
  datatype Cursor = Cursor(state: ParseState, next: nat)

  /**
   * One turn of the segment loop at index `i`: an empty segment is skipped; a
   * candidate tag consumes the segment after it, and is either accepted or
   * buffered together with that segment; any other segment is buffered.
   * `accepts` is the judgement applied to a candidate tag: `parse_srt` uses
   * `is_valid_speaker_tag` (see `Parsed`), and the structural facts below hold
   * for any judgement.
   */
  function Step(accepts: string -> bool, st: ParseState, times: TimeRange, segs: seq<string>, i: nat): (c: Cursor)
    requires i < |segs|
    ensures c.next == if Strip(segs[i]) != [] && IsCandidate(Strip(segs[i])) then i + 2 else i + 1
  {
    var seg := Strip(segs[i]);
    if seg == [] then Cursor(st, i + 1)
    else if IsCandidate(seg) then
      var tag := Strip(seg[..|seg| - 1]);
      var next := NextSegment(segs, i + 1);
      if accepts(tag) then Cursor(TagStep(st, times, tag, next), i + 2)
      else Cursor(Buffer(st, seg + " " + next), i + 2)
    else Cursor(Buffer(st, seg), i + 1)
  }

  /** The segment loop of one line, from index `i` on. */
  function Walk(accepts: string -> bool, st: ParseState, times: TimeRange, segs: seq<string>, i: nat): ParseState
    requires i <= |segs| + 1
    decreases |segs| + 1 - i
  {
    if i >= |segs| then st
    else
      var c := Step(accepts, st, times, segs, i);
      Walk(accepts, c.state, times, segs, c.next)
  }

  /** One dialogue line: blank lines are skipped, others are split and walked. */
  function ProcessLine(accepts: string -> bool, st: ParseState, times: TimeRange, line: string): ParseState {
    var l := Strip(line);
    if l == [] then st else Walk(accepts, st, times, Segments(l), 0)
  }

  /** The dialogue lines from index `j` on. */
  function ProcessLines(accepts: string -> bool, st: ParseState, times: TimeRange, lines: seq<string>, j: nat): ParseState
    requires j <= |lines|
    decreases |lines| - j
  {
    if j == |lines| then st else ProcessLines(accepts, ProcessLine(accepts, st, times, lines[j]), times, lines, j + 1)
  }

  /** The timecodes of a block that is kept: it has at least three lines and its second line matches. */
  function BlockTimes(block: string): Option<TimeRange> {
    var lines := Lines(block);
    if |lines| < 3 then None else MatchTimecode(Strip(lines[1]))
  }

  /** One block: dropped, or its dialogue lines walked with a fresh buffer and a final flush. */
  function ProcessBlock(accepts: string -> bool, st: ParseState, block: string): ParseState {
    match BlockTimes(block)
    case None => st
    case Some(times) =>
      var start := st.(currentDialogue := [], blockInitialSpeaker := st.lastKnownSpeaker);
      Flush(ProcessLines(accepts, start, times, Lines(block), 2), times)
  }

  /** The blocks from index `j` on. */
  function ParseBlocks(accepts: string -> bool, st: ParseState, blocks: seq<string>, j: nat): ParseState
    requires j <= |blocks|
    decreases |blocks| - j
  {
    if j == |blocks| then st else ParseBlocks(accepts, ProcessBlock(accepts, st, blocks[j]), blocks, j + 1)
  }

  /** The rows `parse_srt` returns for a whole file. */
  function Parsed(content: string): seq<Row> {
    ParseBlocks(IsValidSpeakerTag, Initial, Blocks(content), 0).data
  }

  /** A speaker a row can carry: the initial placeholder or an accepted tag. */
  predicate IsSpeaker(accepts: string -> bool, s: string) {
    s == UnknownSpeaker || accepts(s)
  }

  /** Both timecodes of a block are well formed. */
  predicate ValidTimes(times: TimeRange) {
    IsTimestamp(times.start) && IsTimestamp(times.end)
  }

  /** A row as the parser emits it: timestamps, a speaker and tidy dialogue. */
  predicate RowWellFormed(accepts: string -> bool, r: Row) {
    IsTimestamp(r.start) && IsTimestamp(r.end) && IsSpeaker(accepts, r.speaker) && IsTidy(r.dialogue)
  }

  /**
   * What holds of the parser's variables between any two steps: every row is
   * well formed, both remembered speakers are speakers, and the last known
   * speaker is the speaker of the last row.
   */
  predicate Inv(accepts: string -> bool, st: ParseState) {
    && (forall k :: 0 <= k < |st.data| ==> RowWellFormed(accepts, st.data[k]))
    && IsSpeaker(accepts, st.lastKnownSpeaker)
    && IsSpeaker(accepts, st.blockInitialSpeaker)
    && st.lastKnownSpeaker == (if st.data == [] then UnknownSpeaker else st.data[|st.data| - 1].speaker)
  }

  /** `r` keeps the rows of `st` and every row it adds carries the block's timecodes. */
  predicate Extends(st: ParseState, r: ParseState, times: TimeRange) {
    && st.data <= r.data
    && forall k :: |st.data| <= k < |r.data| ==> r.data[k].start == times.start && r.data[k].end == times.end
  }

  lemma ExtendsTrans(a: ParseState, b: ParseState, c: ParseState, times: TimeRange)
    requires Extends(a, b, times) && Extends(b, c, times)
    ensures Extends(a, c, times)
  {
    forall k | |a.data| <= k < |c.data|
      ensures c.data[k].start == times.start && c.data[k].end == times.end
    {
      if k < |b.data| {
        assert c.data[k] == b.data[k];
      }
    }
  }

  lemma InitialInv(accepts: string -> bool)
    ensures Inv(accepts, Initial)
  {
  }

  /** Appending a row under a speaker keeps the invariant. */
  lemma AppendRowInv(accepts: string -> bool, st: ParseState, times: TimeRange, speaker: string, dialogue: string)
    requires Inv(accepts, st) && ValidTimes(times) && IsSpeaker(accepts, speaker)
    ensures Inv(accepts, AppendRow(st, times, speaker, dialogue))
    ensures Extends(st, AppendRow(st, times, speaker, dialogue), times)
  {
    var row := Row(times.start, times.end, speaker, CleanDialogueText(dialogue));
    CleanDialogueTextIsTidy(dialogue);
    assert RowWellFormed(accepts, row);
    var data := st.data + [row];
    assert forall k :: 0 <= k < |data| ==> data[k] == if k < |st.data| then st.data[k] else row;
  }

  /** Flushing keeps the invariant. */
  lemma FlushInv(accepts: string -> bool, st: ParseState, times: TimeRange)
    requires Inv(accepts, st) && ValidTimes(times)
    ensures Inv(accepts, Flush(st, times)) && Extends(st, Flush(st, times), times)
  {
    if st.currentDialogue != [] {
      AppendRowInv(accepts, st, times, FlushSpeaker(st, times), st.currentDialogue);
    }
  }

  lemma TagStepInv(accepts: string -> bool, st: ParseState, times: TimeRange, tag: string, next: string)
    requires Inv(accepts, st) && ValidTimes(times) && accepts(tag)
    ensures Inv(accepts, TagStep(st, times, tag, next)) && Extends(st, TagStep(st, times, tag, next), times)
  {
    var flushed := if st.currentDialogue != [] then Flush(st, times).(currentDialogue := []) else st;
    FlushInv(accepts, st, times);
    assert Inv(accepts, flushed) && Extends(st, flushed, times);
    var spoken := if next != [] then AppendRow(flushed, times, tag, next) else flushed;
    if next != [] {
      AppendRowInv(accepts, flushed, times, tag, next);
      ExtendsTrans(st, flushed, spoken, times);
    }
    assert Inv(accepts, spoken) && Extends(st, spoken, times);
    if spoken.blockInitialSpeaker == spoken.lastKnownSpeaker {
      assert TagStep(st, times, tag, next) == spoken.(blockInitialSpeaker := tag);
    } else {
      assert TagStep(st, times, tag, next) == spoken;
    }
  }

  /** Buffering changes no row and no speaker, so it keeps the invariant. */
  lemma BufferInv(accepts: string -> bool, st: ParseState, times: TimeRange, text: string)
    requires Inv(accepts, st)
    ensures Buffer(st, text).data == st.data
    ensures Buffer(st, text).lastKnownSpeaker == st.lastKnownSpeaker
    ensures Buffer(st, text).blockInitialSpeaker == st.blockInitialSpeaker
    ensures Inv(accepts, Buffer(st, text)) && Extends(st, Buffer(st, text), times)
  {
  }

  lemma StepInv(accepts: string -> bool, st: ParseState, times: TimeRange, segs: seq<string>, i: nat)
    requires i < |segs| && Inv(accepts, st) && ValidTimes(times)
    ensures Inv(accepts, Step(accepts, st, times, segs, i).state)
    ensures Extends(st, Step(accepts, st, times, segs, i).state, times)
  {
    var seg := Strip(segs[i]);
    var c := Step(accepts, st, times, segs, i);
    if seg == [] {
      assert c.state == st;
    } else if IsCandidate(seg) {
      var tag := Strip(seg[..|seg| - 1]);
      var next := NextSegment(segs, i + 1);
      if accepts(tag) {
        assert c.state == TagStep(st, times, tag, next);
        TagStepInv(accepts, st, times, tag, next);
      } else {
        assert c.state == Buffer(st, seg + " " + next);
        BufferInv(accepts, st, times, seg + " " + next);
      }
    } else {
      assert c.state == Buffer(st, seg);
      BufferInv(accepts, st, times, seg);
    }
  }

  lemma {:induction false} WalkInv(accepts: string -> bool, st: ParseState, times: TimeRange, segs: seq<string>, i: nat)
    requires i <= |segs| + 1 && Inv(accepts, st) && ValidTimes(times)
    ensures Inv(accepts, Walk(accepts, st, times, segs, i))
    ensures Extends(st, Walk(accepts, st, times, segs, i), times)
    decreases |segs| + 1 - i
  {
    if i < |segs| {
      var c := Step(accepts, st, times, segs, i);
      StepInv(accepts, st, times, segs, i);
      WalkInv(accepts, c.state, times, segs, c.next);
      ExtendsTrans(st, c.state, Walk(accepts, c.state, times, segs, c.next), times);
    }
  }

  lemma {:induction false} ProcessLinesInv(accepts: string -> bool, st: ParseState, times: TimeRange, lines: seq<string>, j: nat)
    requires j <= |lines| && Inv(accepts, st) && ValidTimes(times)
    ensures Inv(accepts, ProcessLines(accepts, st, times, lines, j))
    ensures Extends(st, ProcessLines(accepts, st, times, lines, j), times)
    decreases |lines| - j
  {
    if j < |lines| {
      var st' := ProcessLine(accepts, st, times, lines[j]);
      var l := Strip(lines[j]);
      if l != [] {
        WalkInv(accepts, st, times, Segments(l), 0);
      }
      ProcessLinesInv(accepts, st', times, lines, j + 1);
      ExtendsTrans(st, st', ProcessLines(accepts, st', times, lines, j + 1), times);
    }
  }

  /**
   * A kept block keeps the invariant, keeps the rows before it, and every row
   * it adds carries the two timestamps its second line starts with.
   */
  lemma ProcessBlockRows(accepts: string -> bool, st: ParseState, block: string)
    requires Inv(accepts, st) && BlockTimes(block).Some?
    ensures var times := BlockTimes(block).value;
      && ValidTimes(times)
      && Strip(Lines(block)[1]) == times.start + " --> " + times.end + Strip(Lines(block)[1])[29..]
      && Inv(accepts, ProcessBlock(accepts, st, block))
      && Extends(st, ProcessBlock(accepts, st, block), times)
  {
    var times := BlockTimes(block).value;
    var start := st.(currentDialogue := [], blockInitialSpeaker := st.lastKnownSpeaker);
    var lines := Lines(block);
    ProcessLinesInv(accepts, start, times, lines, 2);
    var walked := ProcessLines(accepts, start, times, lines, 2);
    FlushInv(accepts, walked, times);
    ExtendsTrans(st, walked, Flush(walked, times), times);
  }

  lemma ProcessBlockInv(accepts: string -> bool, st: ParseState, block: string)
    requires Inv(accepts, st)
    ensures Inv(accepts, ProcessBlock(accepts, st, block))
  {
    if BlockTimes(block).Some? {
      ProcessBlockRows(accepts, st, block);
    }
  }

  lemma {:induction false} ParseBlocksInv(accepts: string -> bool, st: ParseState, blocks: seq<string>, j: nat)
    requires j <= |blocks| && Inv(accepts, st)
    ensures Inv(accepts, ParseBlocks(accepts, st, blocks, j))
    decreases |blocks| - j
  {
    if j < |blocks| {
      ProcessBlockInv(accepts, st, blocks[j]);
      ParseBlocksInv(accepts, ProcessBlock(accepts, st, blocks[j]), blocks, j + 1);
    }
  }

  /**
   * Every row `parse_srt` returns has two well-formed timestamps, a non-empty
   * speaker that is `Unknown` or an accepted tag, and dialogue that is stripped,
   * single-spaced and free of markup.
   */
  lemma ParsedRowsWellFormed(content: string)
    ensures forall k :: 0 <= k < |Parsed(content)| ==>
      && IsTimestamp(Parsed(content)[k].start) && IsTimestamp(Parsed(content)[k].end)
      && Parsed(content)[k].speaker != []
      && (Parsed(content)[k].speaker == UnknownSpeaker || IsValidSpeakerTag(Parsed(content)[k].speaker))
      && IsTidy(Parsed(content)[k].dialogue)
  {
    InitialInv(IsValidSpeakerTag);
    ParseBlocksInv(IsValidSpeakerTag, Initial, Blocks(content), 0);
    var rows := Parsed(content);
    forall k | 0 <= k < |rows| ensures rows[k].speaker != [] {
      assert RowWellFormed(IsValidSpeakerTag, rows[k]);
      if rows[k].speaker != UnknownSpeaker {
        AcceptedTagShape(rows[k].speaker);
      }
    }
  }

  /** A line `TAG: text` whose tag consists of tag characters and whose text has no colon. */
  predicate IsTagLine(tag: string, text: string) {
    && tag != [] && !IsSpace(tag[0]) && !IsSpace(tag[|tag| - 1])
    && (forall k :: 0 <= k < |tag| ==> IsTagChar(tag[k]))
    && text != [] && !IsSpace(text[0]) && !IsSpace(text[|text| - 1])
    && ':' !in text
  }

  /** Such a line splits into an empty lead, the delimiter `TAG: ` and the text. */
  lemma SegmentsOfTagLine(tag: string, text: string)
    requires IsTagLine(tag, text)
    ensures Segments(tag + ": " + text) == ["", tag + ": ", text]
  {
    var line := tag + ": " + text;
    var e := |tag| + 2;
    assert line[|tag|] == ':' && line[|tag| + 1] == ' ';
    assert !IsTagChar(line[|tag|]);
    assert forall k :: 0 <= k < |tag| ==> line[k] == tag[k];
    assert TagRunEnd(line, 0) == |tag|;
    assert MatchAt(SpeakerDelimiter, line, 0) == Some(e);
    SplitFromCut(SpeakerDelimiter, line, 0, 0);
    forall k | e <= k < |line| ensures MatchAt(SpeakerDelimiter, line, k).None? {
      var q := TagRunEnd(line, k);
      if q + 1 < |line| {
        assert line[q] == text[q - e];
      }
    }
    SplitFromNoMatch(SpeakerDelimiter, line, e, e);
    assert line[..0] == "" && line[0..e] == tag + ": " && line[e..] == text;
  }

  /** The delimiter strips to the candidate `TAG:`, whose tag strips to itself. */
  lemma TagSegmentStrips(tag: string)
    requires tag != [] && !IsSpace(tag[0]) && !IsSpace(tag[|tag| - 1])
    ensures Strip(tag + ": ") == tag + ":"
    ensures IsCandidate(tag + ":") && Strip((tag + ":")[..|tag|]) == tag
  {
    assert tag + ": " == (tag + ":") + " ";
    StripTrailingSpace(tag + ":");
    assert (tag + ":")[..|tag|] == tag;
    StripTrimmed(tag);
  }

  /**
   * A line `TAG: text` is walked as one candidate: an accepted tag takes the
   * text as its own row, and a rejected one is buffered with it, so the whole
   * line is kept word for word.
   */
  lemma TagLine(accepts: string -> bool, st: ParseState, times: TimeRange, tag: string, text: string)
    requires IsTagLine(tag, text)
    ensures ProcessLine(accepts, st, times, tag + ": " + text) ==
      if accepts(tag) then TagStep(st, times, tag, text) else Buffer(st, tag + ": " + text)
  {
    var line := tag + ": " + text;
    StripTrimmed(line);
    SegmentsOfTagLine(tag, text);
    WalkTagSegments(accepts, st, times, tag, text);
  }

  /** The walk over the three segments of a tag line. */
  lemma WalkTagSegments(accepts: string -> bool, st: ParseState, times: TimeRange, tag: string, text: string)
    requires IsTagLine(tag, text)
    ensures Walk(accepts, st, times, ["", tag + ": ", text], 0) ==
      if accepts(tag) then TagStep(st, times, tag, text) else Buffer(st, tag + ": " + text)
  {
    var segs := ["", tag + ": ", text];
    TagSegmentStrips(tag);
    StripTrimmed(text);
    assert Strip(segs[0]) == [];
    assert Step(accepts, st, times, segs, 0) == Cursor(st, 1);
    assert NextSegment(segs, 2) == text;
    var c1 := Step(accepts, st, times, segs, 1);
    if accepts(tag) {
      assert c1 == Cursor(TagStep(st, times, tag, text), 3);
    } else {
      assert (tag + ":") + " " + text == tag + ": " + text;
      assert c1 == Cursor(Buffer(st, tag + ": " + text), 3);
    }
    assert Walk(accepts, st, times, segs, 0) == Walk(accepts, st, times, segs, 1) == c1.state;
  }

  /**
   * A speaker line: text buffered before it is flushed first, the line's text
   * becomes a row under the tag, the buffer is emptied and the tag becomes the
   * last known speaker. The block's initial speaker is left as it was, since
   * after the append it is compared with the tag itself.
   */
  lemma SpeakerLine(accepts: string -> bool, st: ParseState, times: TimeRange, tag: string, text: string)
    requires IsTagLine(tag, text) && accepts(tag)
    ensures var r := ProcessLine(accepts, st, times, tag + ": " + text);
      && r.data == st.data
        + (if st.currentDialogue != [] then
             [Row(times.start, times.end, FlushSpeaker(st, times), CleanDialogueText(st.currentDialogue))]
           else [])
        + [Row(times.start, times.end, tag, CleanDialogueText(text))]
      && r.lastKnownSpeaker == tag
      && r.currentDialogue == []
      && r.blockInitialSpeaker == st.blockInitialSpeaker
  {
    TagLine(accepts, st, times, tag, text);
  }

  /** A line whose candidate tag is rejected is buffered unchanged, like any other text. */
  lemma RejectedTagLine(accepts: string -> bool, st: ParseState, times: TimeRange, tag: string, text: string)
    requires IsTagLine(tag, text) && !accepts(tag)
    ensures ProcessLine(accepts, st, times, tag + ": " + text) == Buffer(st, tag + ": " + text)
    ensures Buffer(st, tag + ": " + text).currentDialogue ==
      if st.currentDialogue == [] then tag + ": " + text else st.currentDialogue + " " + tag + ": " + text
  {
    TagLine(accepts, st, times, tag, text);
  }

  /**
   * A line with two speakers, `TAG1: text1 TAG2: text2`. The first text ends
   * in a character outside `[\w\s&]` (a full stop, say), so no delimiter can
   * start inside it and run on into the second tag.
   */
  predicate IsTwoSpeakerLine(tag1: string, text1: string, tag2: string, text2: string) {
    && tag1 != [] && !IsSpace(tag1[0]) && !IsSpace(tag1[|tag1| - 1])
    && (forall k :: 0 <= k < |tag1| ==> IsTagChar(tag1[k]))
    && text1 != [] && !IsSpace(text1[0]) && !IsTagChar(text1[|text1| - 1])
    && ':' !in text1
    && IsTagLine(tag2, text2)
  }

  /** A segment that strips to `TAG:` with an accepted tag takes the segment after it as that tag's text. */
  lemma AcceptedStep(accepts: string -> bool, st: ParseState, times: TimeRange, segs: seq<string>, i: nat, tag: string)
    requires i < |segs| && tag != [] && !IsSpace(tag[0]) && !IsSpace(tag[|tag| - 1]) && accepts(tag)
    requires Strip(segs[i]) == tag + ":"
    ensures Step(accepts, st, times, segs, i) == Cursor(TagStep(st, times, tag, NextSegment(segs, i + 1)), i + 2)
  {
    TagSegmentStrips(tag);
  }

  /** A walk over five segments that strip to nothing, `TAG1:`, a text, `TAG2:` and a text, with both tags accepted. */
  lemma WalkTwoTags(accepts: string -> bool, st: ParseState, times: TimeRange, segs: seq<string>,
                    tag1: string, text1: string, tag2: string, text2: string)
    requires |segs| == 5 && Strip(segs[0]) == [] && Strip(segs[2]) == text1 && Strip(segs[4]) == text2
    requires Strip(segs[1]) == tag1 + ":" && tag1 != [] && !IsSpace(tag1[0]) && !IsSpace(tag1[|tag1| - 1])
    requires Strip(segs[3]) == tag2 + ":" && tag2 != [] && !IsSpace(tag2[0]) && !IsSpace(tag2[|tag2| - 1])
    requires accepts(tag1) && accepts(tag2)
    ensures Walk(accepts, st, times, segs, 0) == TagStep(TagStep(st, times, tag1, text1), times, tag2, text2)
  {
    var st1 := TagStep(st, times, tag1, text1);
    var st2 := TagStep(st1, times, tag2, text2);
    assert Step(accepts, st, times, segs, 0) == Cursor(st, 1);
    AcceptedStep(accepts, st, times, segs, 1, tag1);
    AcceptedStep(accepts, st1, times, segs, 3, tag2);
    assert Walk(accepts, st, times, segs, 0) == Walk(accepts, st, times, segs, 1);
    assert Walk(accepts, st, times, segs, 1) == Walk(accepts, st1, times, segs, 3);
    assert Walk(accepts, st1, times, segs, 3) == Walk(accepts, st2, times, segs, 5);
  }

  /** The five segments of a two-speaker line strip to the lead, the two candidates and the two texts. */
  lemma TwoSpeakerSegmentsStrip(tag1: string, text1: string, tag2: string, text2: string)
    requires IsTwoSpeakerLine(tag1, text1, tag2, text2)
    ensures Strip(tag1 + ": ") == tag1 + ":" && Strip(" " + tag2 + ": ") == tag2 + ":"
    ensures Strip(text1) == text1 && Strip(text2) == text2
  {
    TagSegmentStrips(tag1);
    TagSegmentStrips(tag2);
    SpacedDelimiter(tag2);
    StripSpaced(tag2 + ":");
    StripTrimmed(text1);
    StripTrimmed(text2);
  }

  /** A delimiter after a space is the candidate between two spaces. */
  lemma SpacedDelimiter(tag: string)
    ensures " " + tag + ": " == " " + (tag + ":") + " "
  {
    assert tag + ": " == (tag + ":") + " ";
  }

  /** What an accepted tag with a non-empty text does to the rows, the last known speaker and the buffer. */
  lemma TagStepRows(st: ParseState, times: TimeRange, tag: string, next: string)
    requires next != []
    ensures var r := TagStep(st, times, tag, next);
      && r.data == st.data
        + (if st.currentDialogue != [] then
             [Row(times.start, times.end, FlushSpeaker(st, times), CleanDialogueText(st.currentDialogue))]
           else [])
        + [Row(times.start, times.end, tag, CleanDialogueText(next))]
      && r.lastKnownSpeaker == tag
      && r.currentDialogue == []
  {
  }

  /** A two-speaker line is walked as the two accepted tags, each with its text. */
  lemma TwoSpeakerLineSteps(accepts: string -> bool, st: ParseState, times: TimeRange,
                            tag1: string, text1: string, tag2: string, text2: string)
    requires IsTwoSpeakerLine(tag1, text1, tag2, text2) && accepts(tag1) && accepts(tag2)
    ensures ProcessLine(accepts, st, times, tag1 + ": " + text1 + (" " + tag2 + ": ") + text2)
      == TagStep(TagStep(st, times, tag1, text1), times, tag2, text2)
  {
    var line := tag1 + ": " + text1 + (" " + tag2 + ": ") + text2;
    var segs := ["", tag1 + ": ", text1, " " + tag2 + ": ", text2];
    assert Strip(line) == line by {
      assert line[0] == tag1[0] && line[|line| - 1] == text2[|text2| - 1];
      StripTrimmed(line);
    }
    SegmentsOfTwoDelimiters(tag1, text1, tag2, text2);
    assert ProcessLine(accepts, st, times, line) == Walk(accepts, st, times, segs, 0);
    TwoSpeakerSegmentsStrip(tag1, text1, tag2, text2);
    assert Strip(segs[0]) == [];
    WalkTwoTags(accepts, st, times, segs, tag1, text1, tag2, text2);
  }

  /** Two accepted tags in a row, each with a non-empty text: the flush, if any, then one row per tag. */
  lemma TwoTagStepsRows(st: ParseState, times: TimeRange, tag1: string, text1: string, tag2: string, text2: string)
    requires text1 != [] && text2 != []
    ensures var r := TagStep(TagStep(st, times, tag1, text1), times, tag2, text2);
      && r.data == st.data
        + (if st.currentDialogue != [] then
             [Row(times.start, times.end, FlushSpeaker(st, times), CleanDialogueText(st.currentDialogue))]
           else [])
        + [Row(times.start, times.end, tag1, CleanDialogueText(text1)),
           Row(times.start, times.end, tag2, CleanDialogueText(text2))]
      && r.lastKnownSpeaker == tag2
      && r.currentDialogue == []
  {
    var flushed :=
      if st.currentDialogue != [] then
        [Row(times.start, times.end, FlushSpeaker(st, times), CleanDialogueText(st.currentDialogue))]
      else [];
    var row1 := Row(times.start, times.end, tag1, CleanDialogueText(text1));
    var row2 := Row(times.start, times.end, tag2, CleanDialogueText(text2));
    var st1 := TagStep(st, times, tag1, text1);
    TagStepRows(st, times, tag1, text1);
    assert st1.data == st.data + flushed + [row1];
    TagStepRows(st1, times, tag2, text2);
    assert TagStep(st1, times, tag2, text2).data == st1.data + [row2];
    assert st.data + flushed + [row1] + [row2] == st.data + flushed + [row1, row2];
  }

  /**
   * Two speakers in one cue: each accepted tag's text becomes its own row,
   * in the order of the line and with the cue's timecodes, after any text
   * buffered before the line; the second tag becomes the last known speaker.
   */
  lemma TwoSpeakerLine(accepts: string -> bool, st: ParseState, times: TimeRange,
                       tag1: string, text1: string, tag2: string, text2: string)
    requires IsTwoSpeakerLine(tag1, text1, tag2, text2) && accepts(tag1) && accepts(tag2)
    ensures var r := ProcessLine(accepts, st, times, tag1 + ": " + text1 + (" " + tag2 + ": ") + text2);
      && r.data == st.data
        + (if st.currentDialogue != [] then
             [Row(times.start, times.end, FlushSpeaker(st, times), CleanDialogueText(st.currentDialogue))]
           else [])
        + [Row(times.start, times.end, tag1, CleanDialogueText(text1)),
           Row(times.start, times.end, tag2, CleanDialogueText(text2))]
      && r.lastKnownSpeaker == tag2
      && r.currentDialogue == []
  {
    TwoSpeakerLineSteps(accepts, st, times, tag1, text1, tag2, text2);
    TwoTagStepsRows(st, times, tag1, text1, tag2, text2);
  }

  /** A line without a colon has no tag: its stripped text is added to the buffer. */
  lemma PlainLine(accepts: string -> bool, st: ParseState, times: TimeRange, line: string)
    requires ':' !in line
    ensures var l := Strip(line);
      ProcessLine(accepts, st, times, line) == if l == [] then st else Buffer(st, l)
  {
    var l := Strip(line);
    if l != [] {
      StripKeepsOut(line, ':');
      SplitWithoutSeparator(SpeakerDelimiter, l);
      StripTrimmed(l);
      assert l[|l| - 1] in l;
      var segs := [l];
      assert Segments(l) == segs;
      assert Step(accepts, st, times, segs, 0) == Cursor(Buffer(st, l), 1);
      assert Walk(accepts, st, times, segs, 0) == Walk(accepts, Buffer(st, l), times, segs, 1);
    }
  }

  /** Lines without a colon only fill the buffer: no row is added and no speaker changes. */
  lemma {:induction false} PlainLines(accepts: string -> bool, st: ParseState, times: TimeRange, lines: seq<string>, j: nat)
    requires j <= |lines| && forall m :: j <= m < |lines| ==> ':' !in lines[m]
    ensures var r := ProcessLines(accepts, st, times, lines, j);
      && r.data == st.data
      && r.lastKnownSpeaker == st.lastKnownSpeaker
      && r.blockInitialSpeaker == st.blockInitialSpeaker
    decreases |lines| - j
  {
    if j < |lines| {
      PlainLine(accepts, st, times, lines[j]);
      PlainLines(accepts, ProcessLine(accepts, st, times, lines[j]), times, lines, j + 1);
    }
  }

  /**
   * A kept block without a colon in its dialogue lines adds at most one row,
   * under the speaker last known before the block, whichever way the flush
   * resolves its speaker; the last known speaker stays the same.
   */
  lemma PlainBlock(accepts: string -> bool, st: ParseState, block: string)
    requires BlockTimes(block).Some?
    requires forall m :: 2 <= m < |Lines(block)| ==> ':' !in Lines(block)[m]
    ensures var r := ProcessBlock(accepts, st, block);
      && st.data <= r.data && |r.data| <= |st.data| + 1
      && (|r.data| == |st.data| + 1 ==> r.data[|st.data|].speaker == st.lastKnownSpeaker)
      && r.lastKnownSpeaker == st.lastKnownSpeaker
  {
    var times := BlockTimes(block).value;
    var start := st.(currentDialogue := [], blockInitialSpeaker := st.lastKnownSpeaker);
    PlainLines(accepts, start, times, Lines(block), 2);
    var walked := ProcessLines(accepts, start, times, Lines(block), 2);
    assert FlushSpeaker(walked, times) == st.lastKnownSpeaker;
  }

  /**
   * A line that is only `TAG:` is not split, since no space follows its colon.
   * An accepted tag produces no row of its own; a non-empty buffer is flushed
   * first, as for any accepted tag. A rejected tag is buffered with a space
   * after its colon and adds no row.
   */
  lemma TagAloneLine(accepts: string -> bool, st: ParseState, times: TimeRange, tag: string)
    requires tag != [] && !IsSpace(tag[0]) && !IsSpace(tag[|tag| - 1]) && ':' !in tag
    ensures ProcessLine(accepts, st, times, tag + ":") ==
      if accepts(tag) then TagStep(st, times, tag, []) else Buffer(st, tag + ": ")
    ensures ProcessLine(accepts, st, times, tag + ":").data ==
      if accepts(tag) then Flush(st, times).data else st.data
  {
    var l := tag + ":";
    var segs := [l];
    SegmentsOfTagAlone(tag);
    assert ProcessLine(accepts, st, times, l) == Walk(accepts, st, times, segs, 0);
    TagSegmentStrips(tag);
    assert l[..|tag|] == tag;
    assert IsCandidate(l) && Strip(l[..|l| - 1]) == tag && NextSegment(segs, 1) == [];
    var c := Step(accepts, st, times, segs, 0);
    if accepts(tag) {
      assert c == Cursor(TagStep(st, times, tag, []), 2);
    } else {
      assert l + " " + [] == tag + ": ";
      assert c == Cursor(Buffer(st, tag + ": "), 2);
    }
    assert Walk(accepts, st, times, segs, 0) == Walk(accepts, c.state, times, segs, 2) == c.state;
  }

  /** `TAG:` strips to itself and is not split, since no space follows its colon. */
  lemma SegmentsOfTagAlone(tag: string)
    requires tag != [] && !IsSpace(tag[0]) && !IsSpace(tag[|tag| - 1]) && ':' !in tag
    ensures Strip(tag + ":") == tag + ":" && Segments(tag + ":") == [tag + ":"]
  {
    var l := tag + ":";
    assert Strip(l) == l by {
      TagSegmentStrips(tag);
      assert l + " " == tag + ": ";
      StripTrailingSpace(l);
    }
    forall k | 0 <= k <= |l| ensures MatchAt(SpeakerDelimiter, l, k).None? {
      var q := TagRunEnd(l, k);
      if q + 1 < |l| {
        assert l[q] == tag[q];
      }
    }
    SplitFromNoMatch(SpeakerDelimiter, l, 0, 0);
  }

  /** The dialogue lines of a four-line block are its last two, walked in order. */
  lemma TwoLines(accepts: string -> bool, st: ParseState, times: TimeRange, lines: seq<string>)
    requires |lines| == 4
    ensures ProcessLines(accepts, st, times, lines, 2) ==
      ProcessLine(accepts, ProcessLine(accepts, st, times, lines[2]), times, lines[3])
  {
    var after := ProcessLine(accepts, st, times, lines[2]);
    assert ProcessLines(accepts, after, times, lines, 3) == ProcessLines(accepts, ProcessLine(accepts, after, times, lines[3]), times, lines, 4);
  }

  /**
   * The block's initial speaker at work: at the start of a block, when the last
   * row does not carry the block's start timecode, a line `TAG:` with an
   * accepted tag followed by a line of plain text gives one row, under that
   * tag, when the buffer is flushed.
   */
  lemma AnnouncedSpeaker(accepts: string -> bool, st: ParseState, times: TimeRange, lines: seq<string>, tag: string)
    requires |lines| == 4 && lines[2] == tag + ":" && accepts(tag)
    requires tag != [] && !IsSpace(tag[0]) && !IsSpace(tag[|tag| - 1]) && ':' !in tag
    requires ':' !in lines[3] && Strip(lines[3]) != []
    requires st.currentDialogue == [] && st.blockInitialSpeaker == st.lastKnownSpeaker
    requires st.data == [] || st.data[|st.data| - 1].start != times.start
    ensures Flush(ProcessLines(accepts, st, times, lines, 2), times).data ==
      st.data + [Row(times.start, times.end, tag, CleanDialogueText(Strip(lines[3])))]
  {
    var announced := st.(blockInitialSpeaker := tag);
    assert ProcessLine(accepts, st, times, lines[2]) == announced by {
      TagAloneLine(accepts, st, times, tag);
      assert TagStep(st, times, tag, []) == announced;
    }
    var buffered := announced.(currentDialogue := Strip(lines[3]));
    assert ProcessLine(accepts, announced, times, lines[3]) == buffered by {
      PlainLine(accepts, announced, times, lines[3]);
    }
    TwoLines(accepts, st, times, lines);
    assert FlushSpeaker(buffered, times) == tag;
  }

  /**
   * A plain line after a speaker line of the same block continues that
   * speaker: the flush finds a row with this block's start timecode last and
   * uses the last known speaker.
   */
  lemma ContinuedSpeaker(accepts: string -> bool, st: ParseState, times: TimeRange, lines: seq<string>, tag: string, text: string)
    requires |lines| == 4 && lines[2] == tag + ": " + text && IsTagLine(tag, text) && accepts(tag)
    requires ':' !in lines[3] && Strip(lines[3]) != []
    requires st.currentDialogue == []
    ensures Flush(ProcessLines(accepts, st, times, lines, 2), times).data ==
      st.data + [Row(times.start, times.end, tag, CleanDialogueText(text))]
              + [Row(times.start, times.end, tag, CleanDialogueText(Strip(lines[3])))]
  {
    var spoken := ProcessLine(accepts, st, times, lines[2]);
    var row := Row(times.start, times.end, tag, CleanDialogueText(text));
    assert spoken.data == st.data + [row] && spoken.lastKnownSpeaker == tag && spoken.currentDialogue == [] by {
      SpeakerLine(accepts, st, times, tag, text);
    }
    var buffered := spoken.(currentDialogue := Strip(lines[3]));
    assert ProcessLine(accepts, spoken, times, lines[3]) == buffered by {
      PlainLine(accepts, spoken, times, lines[3]);
    }
    assert ProcessLines(accepts, st, times, lines, 2) == buffered by {
      TwoLines(accepts, st, times, lines);
    }
    assert buffered.data[|buffered.data| - 1] == row;
    FlushAfterOwnRow(buffered, times);
  }

  /** Buffered text flushed after a row with the cue's start timecode goes to the last known speaker. */
  lemma FlushAfterOwnRow(st: ParseState, times: TimeRange)
    requires st.data != [] && st.data[|st.data| - 1].start == times.start && st.currentDialogue != []
    ensures Flush(st, times).data
      == st.data + [Row(times.start, times.end, st.lastKnownSpeaker, CleanDialogueText(st.currentDialogue))]
  {
  }

  /**
   * A block that is dropped leaves everything as it was; a block whose stripped
   * text has fewer than two line breaks has fewer than three lines and is dropped.
   */
  lemma DroppedBlock(accepts: string -> bool, st: ParseState, block: string)
    ensures BlockTimes(block).None? ==> ProcessBlock(accepts, st, block) == st
    ensures multiset(Strip(block))['\n'] < 2 ==> BlockTimes(block).None?
  {
    SplitOnCount(Strip(block), '\n');
  }

  /** After the whole file, the last known speaker is the speaker of the last row, or `Unknown` if there is none. */
  lemma ParsedLastSpeaker(content: string)
    ensures var st := ParseBlocks(IsValidSpeakerTag, Initial, Blocks(content), 0);
      st.lastKnownSpeaker == if st.data == [] then UnknownSpeaker else st.data[|st.data| - 1].speaker
  {
    InitialInv(IsValidSpeakerTag);
    ParseBlocksInv(IsValidSpeakerTag, Initial, Blocks(content), 0);
  }
}
