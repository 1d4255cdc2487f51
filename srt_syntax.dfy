/**
 * The text structure `parse_srt` (app.py:168-247) reads: blocks separated by
 * blank lines, lines, the timecode line and the `NAME: ` delimiters a
 * dialogue line is split at. Each `re.split` is written out as the scan the
 * regular-expression engine performs: from the current position, try a match;
 * on success cut there and resume after the match, otherwise move one
 * character on.
 */
module SrtSyntax {
  import opened Wrappers
  import opened Text

  /** The class `[\w\s&]`. */
  predicate IsTagChar(c: char) {
    IsWordChar(c) || IsSpace(c) || c == '&'
  }

  /** The end of the run of `[\w\s&]` characters starting at `p`. */
  function TagRunEnd(s: string, p: nat): (q: nat)
    requires p <= |s|
    ensures p <= q <= |s|
    ensures forall k :: p <= k < q ==> IsTagChar(s[k])
    ensures q == |s| || !IsTagChar(s[q])
    decreases |s| - p
  {
    if p == |s| || !IsTagChar(s[p]) then p else TagRunEnd(s, p + 1)
  }

  /** The last index in `[lo, hi)` that holds a newline. */
  function LastNewline(s: string, lo: nat, hi: nat): (r: Option<nat>)
    requires lo <= hi <= |s|
    ensures r.Some? ==> lo <= r.value < hi && s[r.value] == '\n'
    ensures r.Some? ==> forall k :: r.value < k < hi ==> s[k] != '\n'
    ensures r.None? ==> forall k :: lo <= k < hi ==> s[k] != '\n'
    decreases hi - lo
  {
    if hi == lo then None
    else if s[hi - 1] == '\n' then Some(hi - 1)
    else LastNewline(s, lo, hi - 1)
  }

  /** The two separators `parse_srt` splits at. */
  datatype Pattern =
    | BlankLine        // `\n\s*\n`, between blocks
    | SpeakerDelimiter // `((?:[\w\s&]+?): )`, inside a dialogue line

  /** A text a match of the pattern can consist of. */
  predicate IsSeparator(pat: Pattern, d: string) {
    match pat
    case BlankLine =>
      && |d| >= 2 && d[0] == '\n' && d[|d| - 1] == '\n'
      && forall k :: 0 <= k < |d| ==> IsSpace(d[k])
    case SpeakerDelimiter =>
      && |d| >= 3 && d[|d| - 2] == ':' && d[|d| - 1] == ' '
      && forall k :: 0 <= k < |d| - 2 ==> IsTagChar(d[k])
  }

  /**
   * Where a match of the pattern that starts at `p` ends, if one does. For
   * `\n\s*\n` the greedy `\s*` takes the whole whitespace run after the first
   * newline and gives back characters until a newline follows, so the match
   * ends just after the last newline of that run. For `[\w\s&]+?: ` the colon
   * is outside the class, so the only candidate is the whole run from `p`.
   */
  function MatchAt(pat: Pattern, s: string, p: nat): (e: Option<nat>)
    requires p <= |s|
    ensures e.Some? ==> p < e.value <= |s|
    ensures pat.BlankLine? && e.Some? ==>
      && p + 1 < e.value && s[p] == '\n' && s[e.value - 1] == '\n'
      && (forall k :: e.value <= k < SpaceRunEnd(s, e.value) ==> s[k] != '\n')
    ensures pat.SpeakerDelimiter? && e.Some? ==>
      && e.value == TagRunEnd(s, p) + 2 && p + 2 < e.value
      && s[e.value - 2] == ':' && s[e.value - 1] == ' '
  {
    match pat
    case BlankLine =>
      if p < |s| && s[p] == '\n' then
        match LastNewline(s, p + 1, SpaceRunEnd(s, p + 1))
        case Some(q) => Some(q + 1)
        case None => None
      else None
    case SpeakerDelimiter =>
      var q := TagRunEnd(s, p);
      if p < q && q + 1 < |s| && s[q] == ':' && s[q + 1] == ' ' then Some(q + 2) else None
  }

  /**
   * Two newlines with only whitespace between them: a blank-line match starts
   * at the first, so none is missed.
   */
  lemma BlankLineMatches(s: string, p: nat, q: nat)
    requires p < q < |s| && s[p] == '\n' && s[q] == '\n'
    requires forall k :: p < k < q ==> IsSpace(s[k])
    ensures MatchAt(BlankLine, s, p).Some?
  {
    assert LastNewline(s, p + 1, SpaceRunEnd(s, p + 1)).Some?;
  }

  /**
   * A non-empty run of `[\w\s&]` followed by `: `: a delimiter match starts
   * at its first character and takes the run and the `: `.
   */
  lemma DelimiterMatches(s: string, p: nat, q: nat)
    requires p < q && q + 1 < |s| && s[q] == ':' && s[q + 1] == ' '
    requires forall k :: p <= k < q ==> IsTagChar(s[k])
    ensures MatchAt(SpeakerDelimiter, s, p) == Some(q + 2)
  {
  }

  /** What a match covers is a separator. */
  lemma MatchAtSeparator(pat: Pattern, s: string, p: nat)
    requires p <= |s| && MatchAt(pat, s, p).Some?
    ensures IsSeparator(pat, s[p..MatchAt(pat, s, p).value])
  {
    var e := MatchAt(pat, s, p).value;
    var d := s[p..e];
    if pat.BlankLine? {
      var q := LastNewline(s, p + 1, SpaceRunEnd(s, p + 1)).value;
      assert e == q + 1;
      forall k | 0 <= k < |d| ensures IsSpace(d[k]) {
        assert d[k] == s[p + k];
      }
    } else {
      forall k | 0 <= k < |d| - 2 ensures IsTagChar(d[k]) {
        assert d[k] == s[p + k];
      }
    }
  }

  /**
   * `re.split` with the pattern in a capturing group, from scan position `p`
   * with the current piece starting at `start`: texts and separators alternate,
   * texts at even indices.
   */
  function SplitFrom(pat: Pattern, s: string, start: nat, p: nat): (parts: seq<string>)
    requires start <= p <= |s|
    ensures |parts| % 2 == 1
    decreases |s| - p
  {
    if p == |s| then [s[start..]]
    else if MatchAt(pat, s, p).Some? then
      var e := MatchAt(pat, s, p).value;
      [s[start..p], s[p..e]] + SplitFrom(pat, s, e, e)
    else SplitFrom(pat, s, start, p + 1)
  }

  function Split(pat: Pattern, s: string): (parts: seq<string>)
    ensures |parts| % 2 == 1
  {
    SplitFrom(pat, s, 0, 0)
  }

  /** The entries at odd indices are matches of the pattern. */
  lemma {:induction false} SplitFromSeparators(pat: Pattern, s: string, start: nat, p: nat)
    requires start <= p <= |s|
    ensures var parts := SplitFrom(pat, s, start, p);
      forall k :: 0 <= k < |parts| && k % 2 == 1 ==> IsSeparator(pat, parts[k])
    decreases |s| - p
  {
    if p < |s| {
      if MatchAt(pat, s, p).Some? {
        var e := MatchAt(pat, s, p).value;
        SplitFromSeparators(pat, s, e, e);
        SeparatorsAfterCut(pat, s, start, p);
      } else {
        var parts := SplitFrom(pat, s, start, p);
        assert parts == SplitFrom(pat, s, start, p + 1);
        SplitFromSeparators(pat, s, start, p + 1);
        assert forall k :: 0 <= k < |parts| && k % 2 == 1 ==> IsSeparator(pat, parts[k]);
      }
    } else {
      assert SplitFrom(pat, s, start, p) == [s[start..]];
    }
  }

  /** At a match, the separator cut off and those of the rest are all separators. */
  lemma SeparatorsAfterCut(pat: Pattern, s: string, start: nat, p: nat)
    requires start <= p < |s| && MatchAt(pat, s, p).Some?
    requires var rest := SplitFrom(pat, s, MatchAt(pat, s, p).value, MatchAt(pat, s, p).value);
      forall k :: 0 <= k < |rest| && k % 2 == 1 ==> IsSeparator(pat, rest[k])
    ensures var parts := SplitFrom(pat, s, start, p);
      forall k :: 0 <= k < |parts| && k % 2 == 1 ==> IsSeparator(pat, parts[k])
  {
    var e := MatchAt(pat, s, p).value;
    SplitFromCut(pat, s, start, p);
    MatchAtSeparator(pat, s, p);
    var rest := SplitFrom(pat, s, e, e);
    var parts := [s[start..p], s[p..e]] + rest;
    forall k | 0 <= k < |parts| && k % 2 == 1 ensures IsSeparator(pat, parts[k]) {
      if k >= 2 {
        assert parts[k] == rest[k - 2] && (k - 2) % 2 == 1;
      } else {
        assert parts[k] == s[p..e];
      }
    }
  }

  /** The separators `re.split` keeps are matches of the pattern. */
  lemma SplitSeparators(pat: Pattern, s: string)
    ensures forall k :: 0 <= k < |Split(pat, s)| && k % 2 == 1 ==> IsSeparator(pat, Split(pat, s)[k])
  {
    assert Split(pat, s) == SplitFrom(pat, s, 0, 0);
    SplitFromSeparators(pat, s, 0, 0);
  }

  /**
   * Each kept separator is the whole match found at its start: where the
   * pattern is greedy (the blank-line pattern), the separator runs to the end
   * of the match rather than stopping at an earlier newline.
   */
  lemma SplitSeparatorsExtent(pat: Pattern, s: string)
    ensures var parts := Split(pat, s);
      forall i :: 0 <= i < |parts| && i % 2 == 1 ==>
        PieceStart(parts, i) < |s|
        && MatchAt(pat, s, PieceStart(parts, i)) == Some(PieceStart(parts, i) + |parts[i]|)
  {
    var parts := Split(pat, s);
    assert parts == SplitFrom(pat, s, 0, 0);
    forall i | 0 <= i < |parts| && i % 2 == 1
      ensures PieceStart(parts, i) < |s|
      ensures MatchAt(pat, s, PieceStart(parts, i)) == Some(PieceStart(parts, i) + |parts[i]|)
    {
      SplitFromSeparatorAt(pat, s, 0, 0, i);
      assert SeparatorPiece(pat, s, parts, 0, i);
    }
  }

  /** Joining the pieces from `p` on gives back the text from `start` on. */
  lemma {:induction false} SplitFromConcat(pat: Pattern, s: string, start: nat, p: nat)
    requires start <= p <= |s|
    ensures Concat(SplitFrom(pat, s, start, p)) == s[start..]
    decreases |s| - p
  {
    if p == |s| {
      assert Concat([s[start..]]) == s[start..] + Concat([]);
    } else if MatchAt(pat, s, p).Some? {
      var e := MatchAt(pat, s, p).value;
      SplitFromConcat(pat, s, e, e);
      ConcatAfterCut(pat, s, start, p);
    } else {
      SplitFromConcat(pat, s, start, p + 1);
    }
  }

  /** At a match, the text so far and the separator join with the rest of the pieces. */
  lemma ConcatAfterCut(pat: Pattern, s: string, start: nat, p: nat)
    requires start <= p < |s| && MatchAt(pat, s, p).Some?
    requires var e := MatchAt(pat, s, p).value;
      Concat(SplitFrom(pat, s, e, e)) == s[e..]
    ensures Concat(SplitFrom(pat, s, start, p)) == s[start..]
  {
    var e := MatchAt(pat, s, p).value;
    SplitFromCut(pat, s, start, p);
    ConcatTwoMore(s[start..p], s[p..e], SplitFrom(pat, s, e, e));
    assert s[start..p] + (s[p..e] + s[e..]) == s[start..];
  }

  /** At a match the text so far and the separator are cut off. */
  lemma SplitFromCut(pat: Pattern, s: string, start: nat, p: nat)
    requires start <= p < |s| && MatchAt(pat, s, p).Some?
    ensures var e := MatchAt(pat, s, p).value;
      SplitFrom(pat, s, start, p) == [s[start..p], s[p..e]] + SplitFrom(pat, s, e, e)
  {
  }

  lemma ConcatTwoMore(a: string, b: string, rest: seq<string>)
    ensures Concat([a, b] + rest) == a + (b + Concat(rest))
  {
    var parts := [a, b] + rest;
    assert parts[1..] == [b] + rest && ([b] + rest)[1..] == rest;
  }

  /** The pieces of `re.split` join back into the text. */
  lemma SplitConcat(pat: Pattern, s: string)
    ensures Concat(Split(pat, s)) == s
  {
    SplitFromConcat(pat, s, 0, 0);
  }

  /** Where piece `i` starts in the text the pieces join into. */
  function PieceStart(parts: seq<string>, i: nat): nat
    requires i <= |parts|
  {
    |Concat(parts[..i])|
  }

  /** Piece `i` is the slice of the joined text that starts at `PieceStart(parts, i)`. */
  lemma PieceAt(parts: seq<string>, i: nat)
    requires i < |parts|
    ensures PieceStart(parts, i) + |parts[i]| <= |Concat(parts)|
    ensures Concat(parts)[PieceStart(parts, i)..PieceStart(parts, i) + |parts[i]|] == parts[i]
  {
    ConcatSplitAt(parts, i);
    assert parts[i..][0] == parts[i] && parts[i..][1..] == parts[i + 1..];
  }

  /** Cutting off a text and a separator shifts the later pieces by their length. */
  lemma PieceStartShift(a: string, b: string, rest: seq<string>, i: nat)
    requires 2 <= i <= |rest| + 2
    ensures PieceStart([a, b] + rest, i) == |a| + |b| + PieceStart(rest, i - 2)
  {
    assert ([a, b] + rest)[..i] == [a, b] + rest[..i - 2];
    ConcatTwoMore(a, b, rest[..i - 2]);
  }

  /**
   * No match starts inside a text piece: from `start` on, once no match starts
   * before `p`, a position inside a piece at an even index is one where the
   * scan found no match.
   */
  lemma {:induction false} SplitFromTextAt(pat: Pattern, s: string, start: nat, p: nat, i: nat, q: nat)
    requires start <= p <= |s|
    requires forall k :: start <= k < p ==> MatchAt(pat, s, k).None?
    requires i < |SplitFrom(pat, s, start, p)| && i % 2 == 0 && q < |s|
    requires start + PieceStart(SplitFrom(pat, s, start, p), i) <= q
    requires q < start + PieceStart(SplitFrom(pat, s, start, p), i) + |SplitFrom(pat, s, start, p)[i]|
    ensures MatchAt(pat, s, q).None?
    decreases |s| - p
  {
    if p == |s| {
      SplitFromEnd(pat, s, start, p, i, q);
    } else if MatchAt(pat, s, p).Some? {
      var e := MatchAt(pat, s, p).value;
      if i == 0 {
        SplitFromFirstPiece(pat, s, start, p, q);
      } else {
        SplitFromLaterPiece(pat, s, start, p, i);
        SplitFromTextAt(pat, s, e, e, i - 2, q);
      }
    } else {
      assert SplitFrom(pat, s, start, p) == SplitFrom(pat, s, start, p + 1);
      SplitFromTextAt(pat, s, start, p + 1, i, q);
    }
  }

  /** Piece `i` of `parts`, placed at `base` in `s`, is a whole match of the pattern. */
  predicate SeparatorPiece(pat: Pattern, s: string, parts: seq<string>, base: nat, i: nat) {
    && i < |parts|
    && base + PieceStart(parts, i) < |s|
    && MatchAt(pat, s, base + PieceStart(parts, i)) == Some(base + PieceStart(parts, i) + |parts[i]|)
  }

  /**
   * A separator piece is exactly the match found where it starts: from `start`
   * on, the piece at an odd index starts at a position where the pattern
   * matches, and the match ends where the piece ends.
   */
  lemma {:induction false} SplitFromSeparatorAt(pat: Pattern, s: string, start: nat, p: nat, i: nat)
    requires start <= p <= |s|
    requires i < |SplitFrom(pat, s, start, p)| && i % 2 == 1
    ensures SeparatorPiece(pat, s, SplitFrom(pat, s, start, p), start, i)
    decreases |s| - p
  {
    if p == |s| {
      SplitFromAtEnd(pat, s, start);
      assert false;
    } else if MatchAt(pat, s, p).Some? {
      var e := MatchAt(pat, s, p).value;
      if i == 1 {
        SplitFromFirstSeparator(pat, s, start, p);
      } else {
        SplitFromCutLength(pat, s, start, p);
        SplitFromSeparatorAt(pat, s, e, e, i - 2);
        SeparatorPieceShift(pat, s, start, p, i);
      }
    } else {
      SplitFromSeparatorAt(pat, s, start, p + 1, i);
      SeparatorPieceSkip(pat, s, start, p, i);
    }
  }

  /** A separator found after a match stays one once the text and the match before it are put back. */
  lemma SeparatorPieceShift(pat: Pattern, s: string, start: nat, p: nat, i: nat)
    requires start <= p < |s| && MatchAt(pat, s, p).Some?
    requires 2 <= i < |SplitFrom(pat, s, start, p)|
    requires var e := MatchAt(pat, s, p).value;
      SeparatorPiece(pat, s, SplitFrom(pat, s, e, e), e, i - 2)
    ensures SeparatorPiece(pat, s, SplitFrom(pat, s, start, p), start, i)
  {
    var e := MatchAt(pat, s, p).value;
    SplitFromLaterPiece(pat, s, start, p, i);
    SeparatorPieceMove(pat, s, SplitFrom(pat, s, start, p), start, i, SplitFrom(pat, s, e, e), e, i - 2);
  }

  /** The same piece at the same place in the text is a separator in either list. */
  lemma SeparatorPieceMove(pat: Pattern, s: string, parts: seq<string>, base: nat, i: nat,
                           other: seq<string>, otherBase: nat, j: nat)
    requires i < |parts| && j < |other| && parts[i] == other[j]
    requires base + PieceStart(parts, i) == otherBase + PieceStart(other, j)
    requires SeparatorPiece(pat, s, other, otherBase, j)
    ensures SeparatorPiece(pat, s, parts, base, i)
  {
  }

  /** Moving past a position where nothing matches leaves the pieces as they are. */
  lemma SeparatorPieceSkip(pat: Pattern, s: string, start: nat, p: nat, i: nat)
    requires start <= p < |s| && MatchAt(pat, s, p).None?
    requires SeparatorPiece(pat, s, SplitFrom(pat, s, start, p + 1), start, i)
    ensures SeparatorPiece(pat, s, SplitFrom(pat, s, start, p), start, i)
  {
    assert SplitFrom(pat, s, start, p) == SplitFrom(pat, s, start, p + 1);
  }

  /** At a match two pieces are cut off before the scan resumes. */
  lemma SplitFromCutLength(pat: Pattern, s: string, start: nat, p: nat)
    requires start <= p < |s| && MatchAt(pat, s, p).Some?
    ensures var e := MatchAt(pat, s, p).value;
      |SplitFrom(pat, s, start, p)| == 2 + |SplitFrom(pat, s, e, e)|
  {
    SplitFromCut(pat, s, start, p);
  }

  /** With no text left to scan there is one piece. */
  lemma SplitFromAtEnd(pat: Pattern, s: string, start: nat)
    requires start <= |s|
    ensures |SplitFrom(pat, s, start, |s|)| == 1
  {
  }

  /** At a match, the second piece is the match itself. */
  lemma SplitFromFirstSeparator(pat: Pattern, s: string, start: nat, p: nat)
    requires start <= p < |s| && MatchAt(pat, s, p).Some?
    ensures SeparatorPiece(pat, s, SplitFrom(pat, s, start, p), start, 1)
  {
    var e := MatchAt(pat, s, p).value;
    SplitFromCut(pat, s, start, p);
    PieceStartOne(s[start..p], s[p..e], SplitFrom(pat, s, e, e));
  }

  /** The second piece starts where the first ends. */
  lemma PieceStartOne(a: string, b: string, rest: seq<string>)
    ensures PieceStart([a, b] + rest, 1) == |a| && ([a, b] + rest)[1] == b
  {
    assert ([a, b] + rest)[..1] == [a] && [a][1..] == [];
    assert Concat([a]) == a + Concat([]);
  }

  /** At the end of the text the one piece left is the text from `start` on. */
  lemma SplitFromEnd(pat: Pattern, s: string, start: nat, p: nat, i: nat, q: nat)
    requires start <= p == |s|
    requires forall k :: start <= k < p ==> MatchAt(pat, s, k).None?
    requires i < |SplitFrom(pat, s, start, p)| && q < |s|
    requires start + PieceStart(SplitFrom(pat, s, start, p), i) <= q
    ensures MatchAt(pat, s, q).None?
  {
    var parts := SplitFrom(pat, s, start, p);
    assert parts == [s[start..]] && i == 0;
    assert parts[..0] == [];
  }

  /** At a match, the first piece is the text scanned so far, where no match starts. */
  lemma SplitFromFirstPiece(pat: Pattern, s: string, start: nat, p: nat, q: nat)
    requires start <= p < |s| && MatchAt(pat, s, p).Some?
    requires forall k :: start <= k < p ==> MatchAt(pat, s, k).None?
    requires start + PieceStart(SplitFrom(pat, s, start, p), 0) <= q
    requires q < start + PieceStart(SplitFrom(pat, s, start, p), 0) + |SplitFrom(pat, s, start, p)[0]|
    ensures MatchAt(pat, s, q).None?
  {
    var parts := SplitFrom(pat, s, start, p);
    SplitFromCut(pat, s, start, p);
    assert parts[..0] == [] && parts[0] == s[start..p];
  }

  /** At a match, the later pieces are those of the scan resumed after it, shifted by where it ends. */
  lemma SplitFromLaterPiece(pat: Pattern, s: string, start: nat, p: nat, i: nat)
    requires start <= p < |s| && MatchAt(pat, s, p).Some?
    requires 2 <= i < |SplitFrom(pat, s, start, p)|
    ensures var e := MatchAt(pat, s, p).value;
      var rest := SplitFrom(pat, s, e, e);
      && i - 2 < |rest|
      && start + PieceStart(SplitFrom(pat, s, start, p), i) == e + PieceStart(rest, i - 2)
      && SplitFrom(pat, s, start, p)[i] == rest[i - 2]
  {
    var e := MatchAt(pat, s, p).value;
    var rest := SplitFrom(pat, s, e, e);
    SplitFromCut(pat, s, start, p);
    PieceStartShift(s[start..p], s[p..e], rest, i);
  }

  /** Each piece of `re.split` sits in the text where `PieceStart` says. */
  lemma SplitPieces(pat: Pattern, s: string)
    ensures var parts := Split(pat, s);
      forall i :: 0 <= i < |parts| ==>
        PieceStart(parts, i) + |parts[i]| <= |s|
        && s[PieceStart(parts, i)..PieceStart(parts, i) + |parts[i]|] == parts[i]
  {
    var parts := Split(pat, s);
    SplitConcat(pat, s);
    forall i | 0 <= i < |parts|
      ensures PieceStart(parts, i) + |parts[i]| <= |s|
      ensures s[PieceStart(parts, i)..PieceStart(parts, i) + |parts[i]|] == parts[i]
    {
      PieceAt(parts, i);
    }
  }

  /**
   * `re.split` misses no match: each piece sits in the text where `PieceStart`
   * says, and no match of the pattern starts inside a text piece (an even
   * index), so every match lies in a separator.
   */
  lemma SplitTexts(pat: Pattern, s: string)
    ensures var parts := Split(pat, s);
      forall i :: 0 <= i < |parts| ==> PieceStart(parts, i) + |parts[i]| <= |s|
    ensures var parts := Split(pat, s);
      forall i, q :: 0 <= i < |parts| && i % 2 == 0
        && PieceStart(parts, i) <= q < PieceStart(parts, i) + |parts[i]|
        ==> MatchAt(pat, s, q).None?
  {
    var parts := Split(pat, s);
    SplitPieces(pat, s);
    forall i, q | 0 <= i < |parts| && i % 2 == 0 && PieceStart(parts, i) <= q < PieceStart(parts, i) + |parts[i]|
      ensures MatchAt(pat, s, q).None?
    {
      SplitFromTextAt(pat, s, 0, 0, i, q);
    }
  }

  /** `SplitTexts` at one position. */
  lemma SplitTextAt(pat: Pattern, s: string, i: nat, q: nat)
    requires i < |Split(pat, s)| && i % 2 == 0
    requires PieceStart(Split(pat, s), i) <= q < PieceStart(Split(pat, s), i) + |Split(pat, s)[i]|
    ensures q <= |s| && MatchAt(pat, s, q).None?
  {
    SplitPieces(pat, s);
    SplitTexts(pat, s);
  }

  /** Two newlines with only whitespace between them, the text `re.split(r'\n\s*\n', …)` cuts at. */
  predicate HoldsBlankLine(t: string) {
    exists j, q :: 0 <= j < q < |t| && t[j] == '\n' && t[q] == '\n' && (forall m :: j < m < q ==> IsSpace(t[m]))
  }

  /** `t[j..q]` is made of `[\w\s&]` characters. */
  predicate TagCharsIn(t: string, j: nat, q: nat)
    requires j <= q <= |t|
  {
    forall m :: j <= m < q ==> IsTagChar(t[m])
  }

  /** A non-empty run of `[\w\s&]` followed by `: `, the text `re.split(r'((?:[\w\s&]+?): )', …)` cuts at. */
  predicate HoldsDelimiter(t: string) {
    exists j, q :: 0 <= j < q && q + 1 < |t| && t[q] == ':' && t[q + 1] == ' ' && TagCharsIn(t, j, q)
  }

  /** A blank line inside a slice of the text starts a match in the text. */
  lemma BlankLineInSlice(s: string, off: nat, t: string, j: nat, q: nat)
    requires off + |t| <= |s| && s[off..off + |t|] == t
    requires j < q < |t| && t[j] == '\n' && t[q] == '\n' && forall m :: j < m < q ==> IsSpace(t[m])
    ensures MatchAt(BlankLine, s, off + j).Some?
  {
    assert s[off + j] == t[j] && s[off + q] == t[q];
    forall m | off + j < m < off + q ensures IsSpace(s[m]) {
      assert s[m] == t[m - off];
    }
    BlankLineMatches(s, off + j, off + q);
  }

  /** A delimiter inside a slice of the text starts a match in the text. */
  lemma DelimiterInSlice(s: string, off: nat, t: string, j: nat, q: nat)
    requires off + |t| <= |s| && s[off..off + |t|] == t
    requires j < q && q + 1 < |t| && t[q] == ':' && t[q + 1] == ' ' && TagCharsIn(t, j, q)
    ensures MatchAt(SpeakerDelimiter, s, off + j).Some?
  {
    assert s[off + q] == t[q] && s[off + q + 1] == t[q + 1];
    forall m | off + j <= m < off + q ensures IsTagChar(s[m]) {
      assert s[m] == t[m - off];
    }
    DelimiterMatches(s, off + j, off + q);
  }

  /** A text piece of the blank-line split holds no blank line. */
  lemma TextPieceHoldsNoBlankLine(s: string, i: nat)
    requires i < |Split(BlankLine, s)| && i % 2 == 0
    ensures !HoldsBlankLine(Split(BlankLine, s)[i])
  {
    var parts := Split(BlankLine, s);
    var t := parts[i];
    var off := PieceStart(parts, i);
    SplitPieces(BlankLine, s);
    assert off + |t| <= |s| && s[off..off + |t|] == t;
    if HoldsBlankLine(t) {
      var j, q :| 0 <= j < q < |t| && t[j] == '\n' && t[q] == '\n' && (forall m :: j < m < q ==> IsSpace(t[m]));
      BlankLineInSlice(s, off, t, j, q);
      SplitTextAt(BlankLine, s, i, off + j);
      assert false;
    }
  }

  /** A text piece of the delimiter split holds no `NAME: ` delimiter. */
  lemma TextPieceHoldsNoDelimiter(s: string, i: nat)
    requires i < |Split(SpeakerDelimiter, s)| && i % 2 == 0
    ensures !HoldsDelimiter(Split(SpeakerDelimiter, s)[i])
  {
    var parts := Split(SpeakerDelimiter, s);
    var t := parts[i];
    var off := PieceStart(parts, i);
    SplitPieces(SpeakerDelimiter, s);
    assert off + |t| <= |s| && s[off..off + |t|] == t;
    if HoldsDelimiter(t) {
      var j, q :| 0 <= j < q && q + 1 < |t| && t[q] == ':' && t[q + 1] == ' ' && TagCharsIn(t, j, q);
      DelimiterInSlice(s, off, t, j, q);
      SplitTextAt(SpeakerDelimiter, s, i, off + j);
      assert false;
    }
  }

  /** No cue holds a blank line: the file is cut at every one. */
  lemma BlocksHoldNoBlankLine(content: string)
    ensures forall k :: 0 <= k < |Blocks(content)| ==> !HoldsBlankLine(Blocks(content)[k])
  {
    forall k | 0 <= k < |Blocks(content)| ensures !HoldsBlankLine(Blocks(content)[k]) {
      TextPieceHoldsNoBlankLine(Strip(content), 2 * k);
    }
  }

  /** No text segment of a dialogue line holds a `NAME: ` delimiter: the line is cut at every one. */
  lemma SegmentTextsHoldNoDelimiter(line: string)
    ensures forall k :: 0 <= k < |Segments(line)| && k % 2 == 0 ==> !HoldsDelimiter(Segments(line)[k])
  {
    forall k | 0 <= k < |Segments(line)| && k % 2 == 0 ensures !HoldsDelimiter(Segments(line)[k]) {
      TextPieceHoldsNoDelimiter(line, k);
    }
  }

  /** A text in which no match can start is one piece from `p` on. */
  lemma {:induction false} SplitFromNoMatch(pat: Pattern, s: string, start: nat, p: nat)
    requires start <= p <= |s|
    requires forall k :: p <= k < |s| ==> MatchAt(pat, s, k).None?
    ensures SplitFrom(pat, s, start, p) == [s[start..]]
    decreases |s| - p
  {
    if p < |s| {
      SplitFromNoMatch(pat, s, start, p + 1);
    }
  }

  /** A run of tag characters followed by `: ` is a delimiter match from its first character. */
  lemma DelimiterAt(s: string, p: nat, tag: string)
    requires tag != [] && forall k :: 0 <= k < |tag| ==> IsTagChar(tag[k])
    requires p + |tag| + 2 <= |s| && s[p..p + |tag| + 2] == tag + ": "
    ensures MatchAt(SpeakerDelimiter, s, p) == Some(p + |tag| + 2)
  {
    var q := p + |tag|;
    assert s[q] == (tag + ": ")[|tag|] == ':';
    assert s[q + 1] == ' ';
    forall k | p <= k < q ensures IsTagChar(s[k]) {
      assert s[k] == (tag + ": ")[k - p] == tag[k - p];
    }
    assert TagRunEnd(s, p) == q;
  }

  /**
   * No delimiter match starts in `s[lo..hi]` when it holds no colon and it
   * either reaches the end of `s` or ends in a character outside the class.
   */
  lemma NoDelimiterIn(s: string, lo: nat, hi: nat)
    requires lo <= hi <= |s| && ':' !in s[lo..hi]
    requires hi == |s| || (lo < hi && !IsTagChar(s[hi - 1]))
    ensures forall k :: lo <= k < hi ==> MatchAt(SpeakerDelimiter, s, k).None?
  {
    forall k | lo <= k < hi ensures MatchAt(SpeakerDelimiter, s, k).None? {
      var q := TagRunEnd(s, k);
      assert q < hi || q == |s|;
      if q < hi {
        assert s[q] == s[lo..hi][q - lo];
      }
    }
  }

  /** The scan moves over positions where no match starts without cutting. */
  lemma {:induction false} SplitFromSkip(pat: Pattern, s: string, start: nat, p: nat, p2: nat)
    requires start <= p <= p2 <= |s|
    requires forall k :: p <= k < p2 ==> MatchAt(pat, s, k).None?
    ensures SplitFrom(pat, s, start, p) == SplitFrom(pat, s, start, p2)
    decreases p2 - p
  {
    if p < p2 {
      SplitFromSkip(pat, s, start, p + 1, p2);
    }
  }

  /** A text with exactly two matches, the first at its start, splits into five pieces. */
  lemma SplitTwoMatches(pat: Pattern, s: string, e1: nat, m: nat, e2: nat)
    requires 0 < |s| && MatchAt(pat, s, 0) == Some(e1) && e1 <= m < |s|
    requires forall k :: e1 <= k < m ==> MatchAt(pat, s, k).None?
    requires MatchAt(pat, s, m) == Some(e2)
    requires forall k :: e2 <= k < |s| ==> MatchAt(pat, s, k).None?
    ensures Split(pat, s) == [[], s[..e1], s[e1..m], s[m..e2], s[e2..]]
  {
    SplitFromCut(pat, s, 0, 0);
    SplitFromSkip(pat, s, e1, e1, m);
    SplitFromCut(pat, s, e1, m);
    SplitFromNoMatch(pat, s, e2, e2);
    assert s[0..0] == [] && s[0..e1] == s[..e1];
  }

  /** A space before a run of tag characters is a run of tag characters. */
  lemma SpacedTagChars(tag: string)
    requires forall k :: 0 <= k < |tag| ==> IsTagChar(tag[k])
    ensures forall k :: 0 <= k < |" " + tag| ==> IsTagChar((" " + tag)[k])
  {
  }

  /**
   * A line `TAG1: text1 TAG2: text2` splits into an empty lead, the first
   * delimiter, the first text, the second delimiter and the second text, when
   * the first text ends in a character outside `[\w\s&]`: no delimiter can then
   * start inside it and run on into the second tag.
   */
  lemma SegmentsOfTwoDelimiters(tag1: string, text1: string, tag2: string, text2: string)
    requires tag1 != [] && forall k :: 0 <= k < |tag1| ==> IsTagChar(tag1[k])
    requires text1 != [] && ':' !in text1 && !IsTagChar(text1[|text1| - 1])
    requires tag2 != [] && forall k :: 0 <= k < |tag2| ==> IsTagChar(tag2[k])
    requires ':' !in text2
    ensures Segments(tag1 + ": " + text1 + (" " + tag2 + ": ") + text2)
      == ["", tag1 + ": ", text1, " " + tag2 + ": ", text2]
  {
    var a, c := tag1 + ": ", " " + tag2 + ": ";
    var line := a + text1 + c + text2;
    var e1 := |a|;
    var m := e1 + |text1|;
    var e2 := m + |c|;
    assert line[..e1] == a && line[e1..m] == text1 && line[m..e2] == c && line[e2..] == text2;
    assert MatchAt(SpeakerDelimiter, line, 0) == Some(e1) by {
      assert line[0..e1] == a;
      DelimiterAt(line, 0, tag1);
    }
    assert forall k :: e1 <= k < m ==> MatchAt(SpeakerDelimiter, line, k).None? by {
      assert line[m - 1] == text1[|text1| - 1];
      NoDelimiterIn(line, e1, m);
    }
    assert MatchAt(SpeakerDelimiter, line, m) == Some(e2) by {
      SpacedTagChars(tag2);
      DelimiterAt(line, m, " " + tag2);
    }
    NoDelimiterIn(line, e2, |line|);
    SplitTwoMatches(SpeakerDelimiter, line, e1, m, e2);
  }

  /** A line without `: ` is not split; a text without a newline is one block. */
  lemma SplitWithoutSeparator(pat: Pattern, s: string)
    requires pat.SpeakerDelimiter? ==> ':' !in s
    requires pat.BlankLine? ==> '\n' !in s
    ensures Split(pat, s) == [s]
  {
    forall k | 0 <= k < |s|
      ensures MatchAt(pat, s, k).None?
    {
      if pat.SpeakerDelimiter? {
        var q := TagRunEnd(s, k);
        assert q < |s| ==> s[q] in s;
      }
    }
    SplitFromNoMatch(pat, s, 0, 0);
  }

  /** The entries at even indices: the texts between separators. */
  function Evens<T>(xs: seq<T>): (r: seq<T>)
    ensures |r| == (|xs| + 1) / 2
    ensures forall k :: 0 <= k < |r| ==> r[k] == xs[2 * k]
  {
    if |xs| <= 2 then (if xs == [] then [] else [xs[0]])
    else [xs[0]] + Evens(xs[2..])
  }

  /** `re.split(r'\n\s*\n', srt_content.strip())`. */
  function Blocks(content: string): seq<string> {
    Evens(Split(BlankLine, Strip(content)))
  }

  /** `block.strip().split('\n')`. */
  function Lines(block: string): (lines: seq<string>)
    ensures |lines| >= 1 && forall k :: 0 <= k < |lines| ==> '\n' !in lines[k]
  {
    SplitOn(Strip(block), '\n')
  }

  /** `re.split(r'((?:[\w\s&]+?): )', line)`. */
  function Segments(line: string): seq<string> {
    Split(SpeakerDelimiter, line)
  }

  /** `\d{2}:\d{2}:\d{2},\d{3}`. */
  predicate IsTimestamp(t: string) {
    && |t| == 12
    && IsDigit(t[0]) && IsDigit(t[1]) && t[2] == ':'
    && IsDigit(t[3]) && IsDigit(t[4]) && t[5] == ':'
    && IsDigit(t[6]) && IsDigit(t[7]) && t[8] == ','
    && IsDigit(t[9]) && IsDigit(t[10]) && IsDigit(t[11])
  }

  /** The two groups of a matched timecode line. */
  datatype TimeRange = TimeRange(start: string, end: string)

  /** The five characters ` --> ` at `p`. */
  predicate ArrowAt(s: string, p: nat) {
    p + 5 <= |s| && s[p] == ' ' && s[p + 1] == '-' && s[p + 2] == '-' && s[p + 3] == '>' && s[p + 4] == ' '
  }

  /**
   * `re.match(r'(\d{2}:\d{2}:\d{2},\d{3}) --> (\d{2}:\d{2}:\d{2},\d{3})', line)`:
   * anchored at the start only, so anything may follow the second timestamp.
   */
  function MatchTimecode(line: string): (r: Option<TimeRange>)
    ensures r.Some? ==> IsTimestamp(r.value.start) && IsTimestamp(r.value.end)
    ensures r.Some? ==> |line| >= 29 && line == r.value.start + " --> " + r.value.end + line[29..]
  {
    if |line| >= 29 && IsTimestamp(line[..12]) && ArrowAt(line, 12) && IsTimestamp(line[17..29]) then
      assert line == line[..12] + " --> " + line[17..29] + line[29..];
      Some(TimeRange(line[..12], line[17..29]))
    else None
  }

  /** Two timestamps joined by ` --> `, followed by anything, match with those timestamps as groups. */
  lemma MatchTimecodeOfFormat(start: string, end: string, rest: string)
    requires IsTimestamp(start) && IsTimestamp(end)
    ensures MatchTimecode(start + " --> " + end + rest) == Some(TimeRange(start, end))
  {
    var line := start + " --> " + end + rest;
    assert line[..12] == start;
    assert line[17..29] == end;
    assert ArrowAt(line, 12);
  }
}
