/**
 * `parse_srt` (app.py:168-247) as the source runs it: the rows, the last
 * known speaker, the dialogue buffer and the block's initial speaker are
 * fields updated in place, the segment loop bumps its index by hand, and each
 * method is proved to leave the fields as the matching function of `Dialogue`
 * says.
 */
module Parser {
  import opened Wrappers
  import opened Text
  import opened SpeakerTag
  import opened SrtSyntax
  import Markup
  import opened Dialogue

  class SrtParser {
    var data: seq<Row>
    var lastKnownSpeaker: string
    var currentDialogue: string
    var blockInitialSpeaker: string

    /** The fields as one value. */
    function State(): ParseState
      reads this
    {
      ParseState(data, lastKnownSpeaker, currentDialogue, blockInitialSpeaker)
    }

    constructor ()
      ensures State() == Initial
    {
      data := [];
      lastKnownSpeaker := UnknownSpeaker;
      currentDialogue := [];
      blockInitialSpeaker := UnknownSpeaker;
    }

    /** `append_row_and_update_state`. */
    method AppendRowAndUpdateState(times: TimeRange, speaker: string, dialogue: string)
      modifies this
      ensures State() == AppendRow(old(State()), times, speaker, dialogue)
    {
      data := data + [Row(times.start, times.end, speaker, Markup.CleanDialogueText(dialogue))];
      lastKnownSpeaker := speaker;
    }

    /** Emitting buffered text under the speaker the flush resolves to. */
    method FlushDialogue(times: TimeRange)
      modifies this
      ensures State() == Flush(old(State()), times)
    {
      if currentDialogue != [] {
        var speakerToUse :=
          if data == [] || data[|data| - 1].start != times.start then blockInitialSpeaker else lastKnownSpeaker;
        AppendRowAndUpdateState(times, speakerToUse, currentDialogue);
      }
    }

    /** Adding text to the buffer. */
    method BufferText(text: string)
      modifies this
      ensures State() == Buffer(old(State()), text)
    {
      if currentDialogue != [] {
        currentDialogue := currentDialogue + " " + text;
      } else {
        currentDialogue := text;
      }
    }

    /** An accepted tag and the stripped segment after it. */
    method SpeakerTurn(times: TimeRange, tag: string, next: string)
      modifies this
      ensures State() == TagStep(old(State()), times, tag, next)
    {
      if currentDialogue != [] {
        FlushDialogue(times);
        currentDialogue := [];
      }
      if next != [] {
        AppendRowAndUpdateState(times, tag, next);
      }
      if blockInitialSpeaker == lastKnownSpeaker {
        blockInitialSpeaker := tag;
      }
    }

    /** The segment loop of one line, with the index bumped twice when a candidate consumes the next segment. */
    method WalkSegments(times: TimeRange, segments: seq<string>)
      modifies this
      ensures State() == Walk(IsValidSpeakerTag, old(State()), times, segments, 0)
    {
      var i := 0;
      while i < |segments|
        invariant i <= |segments| + 1
        invariant Walk(IsValidSpeakerTag, State(), times, segments, i)
          == Walk(IsValidSpeakerTag, old(State()), times, segments, 0)
        decreases |segments| + 1 - i
      {
        ghost var before := State();
        ghost var c := Step(IsValidSpeakerTag, before, times, segments, i);
        var segment := Strip(segments[i]);
        i := i + 1;
        if segment == [] {
          continue;
        }
        if IsCandidate(segment) {
          var speakerTag := Strip(segment[..|segment| - 1]);
          var dialogueSegment := if i < |segments| then Strip(segments[i]) else [];
          i := i + 1;
          if IsValidSpeakerTag(speakerTag) {
            SpeakerTurn(times, speakerTag, dialogueSegment);
          } else {
            BufferText(segment + " " + dialogueSegment);
          }
        } else {
          BufferText(segment);
        }
        assert State() == c.state && i == c.next;
      }
    }

    /** One block: dropped, or its dialogue lines walked and the buffer flushed. */
    method ParseBlock(block: string)
      modifies this
      ensures State() == ProcessBlock(IsValidSpeakerTag, old(State()), block)
    {
      var lines := Lines(block);
      if |lines| < 3 {
        assert BlockTimes(block).None?;
        return;
      }
      var timeMatch := MatchTimecode(Strip(lines[1]));
      if timeMatch.None? {
        assert BlockTimes(block).None?;
        return;
      }
      var times := timeMatch.value;
      assert BlockTimes(block) == Some(times);
      currentDialogue := [];
      blockInitialSpeaker := lastKnownSpeaker;
      ghost var start := State();
      var j := 2;
      while j < |lines|
        invariant 2 <= j <= |lines|
        invariant ProcessLines(IsValidSpeakerTag, State(), times, lines, j)
          == ProcessLines(IsValidSpeakerTag, start, times, lines, 2)
      {
        ghost var before := State();
        var line := Strip(lines[j]);
        if line != [] {
          WalkSegments(times, Segments(line));
        }
        assert State() == ProcessLine(IsValidSpeakerTag, before, times, lines[j]);
        j := j + 1;
      }
      assert State() == ProcessLines(IsValidSpeakerTag, start, times, lines, 2);
      FlushDialogue(times);
    }
  }

  /**
   * `parse_srt`: the rows of the whole file, each with well-formed timestamps,
   * a non-empty speaker that is `Unknown` or an accepted tag, and tidy dialogue.
   */
  method ParseSrt(content: string) returns (rows: seq<Row>)
    ensures rows == Parsed(content)
    ensures forall k :: 0 <= k < |rows| ==>
      && IsTimestamp(rows[k].start) && IsTimestamp(rows[k].end)
      && rows[k].speaker != []
      && (rows[k].speaker == UnknownSpeaker || IsValidSpeakerTag(rows[k].speaker))
      && Markup.IsTidy(rows[k].dialogue)
  {
    var parser := new SrtParser();
    var blocks := Blocks(content);
    var j := 0;
    while j < |blocks|
      invariant j <= |blocks|
      invariant ParseBlocks(IsValidSpeakerTag, parser.State(), blocks, j)
        == ParseBlocks(IsValidSpeakerTag, Initial, blocks, 0)
    {
      parser.ParseBlock(blocks[j]);
      j := j + 1;
    }
    rows := parser.data;
    ParsedRowsWellFormed(content);
  }
}
