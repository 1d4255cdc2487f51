/**
 * `clean_dialogue_text` (app.py:143-152): each `<i…>x</i…>`, `<b…>x</b…>` and
 * `<u…>x</u…>` span becomes `(x)`, every other `<…>` tag is removed, whitespace
 * runs become one space and the result is stripped. Each regular-expression
 * substitution is written out as the scan `re.sub` performs: try to match at the
 * current position, replace and resume after the match, otherwise copy one
 * character and move on.
 */
module Markup {
  import opened Wrappers
  import opened Text

  /** `re.IGNORECASE` comparison of a character with a lower-case ASCII letter. */
  predicate CiEq(c: char, letter: char) {
    LowerChar(c) == letter
  }

  /** The first index at or after `from` holding `c`. */
  function FindFrom(s: string, c: char, from: nat): (r: Option<nat>)
    ensures r.Some? ==> from <= r.value < |s| && s[r.value] == c
    ensures r.Some? ==> forall k :: from <= k < r.value ==> s[k] != c
    ensures r.None? ==> forall k :: from <= k < |s| ==> s[k] != c
    decreases |s| - from
  {
    if from >= |s| then None
    else if s[from] == c then Some(from)
    else FindFrom(s, c, from + 1)
  }

  /** `</x` starts at index `k` (the letter compared case-insensitively). */
  predicate CloserAt(s: string, k: nat, letter: char) {
    k + 2 < |s| && s[k] == '<' && s[k + 1] == '/' && CiEq(s[k + 2], letter)
  }

  /**
   * The lazy group `(.*?)` followed by `</x[^>]*>`: the first index from `k`
   * at which `</x` starts and a `>` follows somewhere after it.
   */
  function FindCloser(s: string, k: nat, letter: char): (r: Option<nat>)
    ensures r.Some? ==> k <= r.value && CloserAt(s, r.value, letter)
    ensures r.Some? ==> FindFrom(s, '>', r.value + 3).Some?
    ensures r.Some? ==> forall j :: k <= j < r.value ==>
      !(CloserAt(s, j, letter) && FindFrom(s, '>', j + 3).Some?)
    decreases |s| - k
  {
    if k + 3 >= |s| then None
    else if CloserAt(s, k, letter) && FindFrom(s, '>', k + 3).Some? then Some(k)
    else FindCloser(s, k + 1, letter)
  }

  /** Where a span match puts its group and where it ends. */
  datatype SpanMatch = SpanMatch(contentStart: nat, contentEnd: nat, end: nat)

  /**
   * The match of `<x[^>]*>(.*?)</x[^>]*>` at the start of `s`: the greedy
   * `[^>]*` stops at the first `>`, the lazy group at the first closing tag
   * that a `>` follows, and the closing tag's `[^>]*` at the first `>` after it.
   */
  function MatchSpan(s: string, letter: char): (m: Option<SpanMatch>)
    ensures m.Some? ==> 0 < m.value.contentStart <= m.value.contentEnd < m.value.end <= |s|
    ensures m.Some? ==> s[0] == '<' && CiEq(s[1], letter)
    ensures m.Some? ==>
      && 2 < m.value.contentStart && s[m.value.contentStart - 1] == '>'
      && (forall k :: 2 <= k < m.value.contentStart - 1 ==> s[k] != '>')
    ensures m.Some? ==>
      && CloserAt(s, m.value.contentEnd, letter)
      && (forall j :: m.value.contentStart <= j < m.value.contentEnd ==>
            !(CloserAt(s, j, letter) && FindFrom(s, '>', j + 3).Some?))
    ensures m.Some? ==>
      && m.value.contentEnd + 3 < m.value.end && s[m.value.end - 1] == '>'
      && (forall k :: m.value.contentEnd + 3 <= k < m.value.end - 1 ==> s[k] != '>')
  {
    if 1 < |s| && s[0] == '<' && CiEq(s[1], letter) then
      match FindFrom(s, '>', 2)
      case None => None
      case Some(q) =>
        match FindCloser(s, q + 1, letter)
        case None => None
        case Some(r) => Some(SpanMatch(q + 1, r, FindFrom(s, '>', r + 3).value + 1))
    else None
  }

  /** `re.sub(r'<x[^>]*>(.*?)</x[^>]*>', r'(\1)', s, flags=re.IGNORECASE | re.DOTALL)`. */
  function SubSpans(s: string, letter: char): string
    decreases |s|
  {
    if s == [] then []
    else
      match MatchSpan(s, letter)
      case Some(m) => "(" + s[m.contentStart..m.contentEnd] + ")" + SubSpans(s[m.end..], letter)
      case None => [s[0]] + SubSpans(s[1..], letter)
  }

  /** `re.sub(r'<[^>]*>', '', s, flags=re.DOTALL)`. */
  function RemoveTags(s: string): string
    decreases |s|
  {
    if s == [] then []
    else if s[0] == '<' && FindFrom(s, '>', 1).Some? then RemoveTags(s[FindFrom(s, '>', 1).value + 1..])
    else [s[0]] + RemoveTags(s[1..])
  }

  predicate NoDoubleSpace(s: string) {
    forall k :: 0 <= k < |s| - 1 ==> !(IsSpace(s[k]) && IsSpace(s[k + 1]))
  }

  /**
   * `re.sub(r'\s+', ' ', s)`: each maximal whitespace run becomes one space. The
   * result has the same words as the input, whitespace at either end exactly
   * where the input has it, and between words a single plain space.
   */
  function CollapseSpace(s: string): (r: string)
    ensures r == [] <==> s == []
    ensures r != [] ==> (IsSpace(r[0]) <==> IsSpace(s[0]))
    ensures r != [] ==> (IsSpace(r[|r| - 1]) <==> IsSpace(s[|s| - 1]))
    ensures Words(r) == Words(s)
    ensures NoDoubleSpace(r) && PlainSpaces(r)
    decreases |s|
  {
    if s == [] then []
    else if IsSpace(s[0]) then
      var rest := CollapseSpace(TrimLeft(s));
      CollapsedSpaceFront(s, rest);
      " " + rest
    else
      var rest := CollapseSpace(s[1..]);
      CollapsedCharFront(s, rest);
      [s[0]] + rest
  }

  /** What `CollapseSpace` promises of `r` for the input `s`. */
  predicate IsCollapseOf(r: string, s: string) {
    && (r == [] <==> s == [])
    && (r != [] ==> (IsSpace(r[0]) <==> IsSpace(s[0])))
    && (r != [] ==> (IsSpace(r[|r| - 1]) <==> IsSpace(s[|s| - 1])))
    && Words(r) == Words(s)
    && NoDoubleSpace(r) && PlainSpaces(r)
  }

  /** A leading whitespace run becomes one space in front of the collapse of the rest. */
  lemma CollapsedSpaceFront(s: string, rest: string)
    requires s != [] && IsSpace(s[0]) && IsCollapseOf(rest, TrimLeft(s))
    ensures IsCollapseOf(" " + rest, s)
  {
    SpaceFrontSpacing(s, rest);
    SpaceFrontWords(s, rest);
    SpaceFrontLast(s, rest);
  }

  /** One space in front of a collapsed text that opens with no whitespace keeps it single-spaced. */
  lemma SpaceFrontSpacing(s: string, rest: string)
    requires s != [] && IsSpace(s[0]) && IsCollapseOf(rest, TrimLeft(s))
    ensures NoDoubleSpace(" " + rest) && PlainSpaces(" " + rest)
  {
    assert " " + rest == [' '] + rest;
    SpacingCons(' ', rest);
  }

  /** The words after one space are those after the whole leading whitespace run. */
  lemma SpaceFrontWords(s: string, rest: string)
    requires s != [] && IsSpace(s[0]) && IsCollapseOf(rest, TrimLeft(s))
    ensures Words(" " + rest) == Words(s)
  {
    WordsLeadingSpace(rest);
    WordsTrimLeft(s);
  }

  /** The text with one space in front opens with whitespace, and ends with it exactly when `s` does. */
  lemma SpaceFrontLast(s: string, rest: string)
    requires s != [] && IsSpace(s[0]) && IsCollapseOf(rest, TrimLeft(s))
    ensures " " + rest != [] && IsSpace((" " + rest)[0])
    ensures IsSpace((" " + rest)[|" " + rest| - 1]) <==> IsSpace(s[|s| - 1])
  {
    if rest != [] {
      TrimLeftKeepsLast(s);
      assert (" " + rest)[|" " + rest| - 1] == rest[|rest| - 1];
    }
  }

  /** A leading non-whitespace character is kept in front of the collapse of the rest. */
  lemma CollapsedCharFront(s: string, rest: string)
    requires s != [] && !IsSpace(s[0]) && IsCollapseOf(rest, s[1..])
    ensures IsCollapseOf([s[0]] + rest, s)
  {
    SpacingCons(s[0], rest);
    assert Words([s[0]] + rest) == Words(s) by {
      WordsCons(s[0], rest);
      WordsCons(s[0], s[1..]);
      assert [s[0]] + s[1..] == s;
    }
  }

  /** A character in front keeps a text single-spaced with plain spaces, unless it is a second space. */
  lemma SpacingCons(c: char, rest: string)
    requires NoDoubleSpace(rest) && PlainSpaces(rest)
    requires IsSpace(c) ==> c == ' ' && (rest == [] || !IsSpace(rest[0]))
    ensures NoDoubleSpace([c] + rest) && PlainSpaces([c] + rest)
  {
    var r := [c] + rest;
    forall k | 0 <= k < |r| - 1 ensures !(IsSpace(r[k]) && IsSpace(r[k + 1])) {
      assert r[k + 1] == rest[k];
      if k > 0 {
        assert r[k] == rest[k - 1];
      }
    }
    forall k | 0 <= k < |r| && IsSpace(r[k]) ensures r[k] == ' ' {
      if k > 0 {
        assert r[k] == rest[k - 1];
      }
    }
  }

  /** `clean_dialogue_text`. */
  function CleanDialogueText(text: string): string {
    Strip(CollapseSpace(RemoveTags(SubSpans(SubSpans(SubSpans(text, 'i'), 'b'), 'u'))))
  }

  /** No `<` is followed, anywhere later, by `>`: nothing of the form `<…>` is left. */
  predicate NoTag(s: string) {
    forall i, j :: 0 <= i < j < |s| && s[i] == '<' ==> s[j] != '>'
  }

  /** The only whitespace character is the plain space. */
  predicate PlainSpaces(s: string) {
    forall k :: 0 <= k < |s| && IsSpace(s[k]) ==> s[k] == ' '
  }

  /** Stripped, single-spaced with plain spaces and free of tags. */
  predicate IsTidy(s: string) {
    && (s == [] || (!IsSpace(s[0]) && !IsSpace(s[|s| - 1])))
    && NoDoubleSpace(s)
    && PlainSpaces(s)
    && NoTag(s)
  }

  /** Dropping the first character keeps a text tag-free; a leading `<` has no `>` after it. */
  lemma NoTagTail(s: string)
    requires s != [] && NoTag(s)
    ensures NoTag(s[1..]) && (s[0] == '<' ==> '>' !in s[1..])
  {
    forall i, j | 0 <= i < j < |s[1..]| && s[1..][i] == '<' ensures s[1..][j] != '>' {
      assert s[1..][i] == s[i + 1] && s[1..][j] == s[j + 1];
    }
    if s[0] == '<' {
      forall j | 0 <= j < |s[1..]| ensures s[1..][j] != '>' {
        assert s[1..][j] == s[j + 1];
      }
    }
  }

  /** A tag-free text holds no span to rewrite. */
  lemma {:induction false} SubSpansNoTag(s: string, letter: char)
    requires NoTag(s)
    ensures SubSpans(s, letter) == s
    decreases |s|
  {
    if s != [] {
      NoTagTail(s);
      if s[0] == '<' && 1 < |s| {
        assert FindFrom(s, '>', 2).None? by {
          forall k | 2 <= k < |s| ensures s[k] != '>' {
            assert s[k] == s[1..][k - 1];
          }
        }
      }
      assert MatchSpan(s, letter) == None;
      SubSpansNoTag(s[1..], letter);
      assert s == [s[0]] + s[1..];
    }
  }

  /** A tag-free text holds no tag to remove. */
  lemma {:induction false} RemoveTagsNoTag(s: string)
    requires NoTag(s)
    ensures RemoveTags(s) == s
    decreases |s|
  {
    if s != [] {
      NoTagTail(s);
      if s[0] == '<' {
        assert FindFrom(s, '>', 1).None? by {
          forall k | 1 <= k < |s| ensures s[k] != '>' {
            assert s[k] == s[1..][k - 1];
          }
        }
      }
      RemoveTagsNoTag(s[1..]);
      assert s == [s[0]] + s[1..];
    }
  }

  lemma NoTagCons(c: char, s: string)
    requires NoTag(s) && (c == '<' ==> '>' !in s)
    ensures NoTag([c] + s)
  {
    forall i, j | 0 <= i < j < |[c] + s| && ([c] + s)[i] == '<'
      ensures ([c] + s)[j] != '>'
    {
      if i > 0 {
        assert ([c] + s)[i] == s[i - 1] && ([c] + s)[j] == s[j - 1];
      } else {
        assert ([c] + s)[j] == s[j - 1];
      }
    }
  }

  lemma {:induction false} RemoveTagsWithoutClose(s: string)
    requires '>' !in s
    ensures RemoveTags(s) == s
    decreases |s|
  {
    if s != [] {
      RemoveTagsWithoutClose(s[1..]);
    }
  }

  /** After removing tags, no `<` is followed by a `>`. */
  lemma {:induction false} RemoveTagsLeavesNoTag(s: string)
    ensures NoTag(RemoveTags(s))
    decreases |s|
  {
    if s != [] {
      if s[0] == '<' && FindFrom(s, '>', 1).Some? {
        RemoveTagsLeavesNoTag(s[FindFrom(s, '>', 1).value + 1..]);
      } else {
        RemoveTagsLeavesNoTag(s[1..]);
        if s[0] == '<' {
          RemoveTagsWithoutClose(s[1..]);
        }
        NoTagCons(s[0], RemoveTags(s[1..]));
      }
    }
  }

  /** Collapsing whitespace brings in no character other than a space. */
  lemma {:induction false} CollapseSpaceKeepsOut(s: string, c: char)
    requires !IsSpace(c) && c !in s
    ensures c !in CollapseSpace(s)
    decreases |s|
  {
    if s != [] {
      if IsSpace(s[0]) {
        CollapseSpaceKeepsOut(TrimLeft(s), c);
      } else {
        CollapseSpaceKeepsOut(s[1..], c);
      }
    }
  }

  lemma {:induction false} CollapseSpaceKeepsNoTag(s: string)
    requires NoTag(s)
    ensures NoTag(CollapseSpace(s))
    decreases |s|
  {
    if s != [] {
      if IsSpace(s[0]) {
        var t := TrimLeft(s);
        NoTagSuffix(s, |s| - |t|);
        CollapseSpaceKeepsNoTag(t);
        NoTagCons(' ', CollapseSpace(t));
      } else {
        NoTagTail(s);
        CollapseSpaceKeepsNoTag(s[1..]);
        if s[0] == '<' {
          CollapseSpaceKeepsOut(s[1..], '>');
        }
        NoTagCons(s[0], CollapseSpace(s[1..]));
      }
    }
  }

  lemma NoTagSuffix(s: string, from: nat)
    requires from <= |s| && NoTag(s)
    ensures NoTag(s[from..])
  {
    var t := s[from..];
    forall i, j | 0 <= i < j < |t| && t[i] == '<' ensures t[j] != '>' {
      assert t[i] == s[from + i] && t[j] == s[from + j];
    }
  }

  /** The result of `clean_dialogue_text` is stripped, single-spaced with plain spaces and holds no `<…>` tag. */
  lemma CleanDialogueTextIsTidy(text: string)
    ensures IsTidy(CleanDialogueText(text))
  {
    var spans := SubSpans(SubSpans(SubSpans(text, 'i'), 'b'), 'u');
    var removed := RemoveTags(spans);
    RemoveTagsLeavesNoTag(spans);
    CollapseSpaceKeepsNoTag(removed);
    StripKeepsTidiness(CollapseSpace(removed));
  }

  /** A tidy text is left as it is by `clean_dialogue_text`. */
  lemma CleanTidyUnchanged(s: string)
    requires IsTidy(s)
    ensures CleanDialogueText(s) == s
  {
    SubSpansNoTag(s, 'i');
    SubSpansNoTag(s, 'b');
    SubSpansNoTag(s, 'u');
    RemoveTagsNoTag(s);
    CollapseSpaceSingleSpaced(s);
    StripTrimmed(s);
  }

  /** Cleaning twice is cleaning once. */
  lemma CleanIdempotent(text: string)
    ensures CleanDialogueText(CleanDialogueText(text)) == CleanDialogueText(text)
  {
    CleanDialogueTextIsTidy(text);
    CleanTidyUnchanged(CleanDialogueText(text));
  }

  /** Stripping a single-spaced, tag-free text with plain spaces makes it tidy. */
  lemma StripKeepsTidiness(c: string)
    requires NoDoubleSpace(c) && PlainSpaces(c) && NoTag(c)
    ensures IsTidy(Strip(c))
  {
    var i := SpaceRunEnd(c, 0);
    var r := Strip(c);
    assert r == c[i..i + |r|];
    SliceKeepsTidiness(c, i, i + |r|);
  }

  /** A slice of a single-spaced, tag-free text is single-spaced and tag-free. */
  lemma SliceKeepsTidiness(c: string, lo: nat, hi: nat)
    requires lo <= hi <= |c| && NoDoubleSpace(c) && PlainSpaces(c) && NoTag(c)
    ensures NoDoubleSpace(c[lo..hi]) && PlainSpaces(c[lo..hi]) && NoTag(c[lo..hi])
  {
    var r := c[lo..hi];
    forall k | 0 <= k < |r| && IsSpace(r[k]) ensures r[k] == ' ' {
      assert r[k] == c[lo + k];
    }
    forall k | 0 <= k < |r| - 1 ensures !(IsSpace(r[k]) && IsSpace(r[k + 1])) {
      assert r[k] == c[lo + k] && r[k + 1] == c[lo + k + 1];
    }
    forall x, y | 0 <= x < y < |r| && r[x] == '<' ensures r[y] != '>' {
      assert r[x] == c[lo + x] && r[y] == c[lo + y];
    }
  }

  /** A formatting span `<x>content</x>` as it appears in subtitle text. */
  function Span(letter: char, content: string): string {
    "<" + [letter] + ">" + content + "</" + [letter] + ">"
  }

  predicate IsFormattingLetter(c: char) {
    c == 'i' || c == 'b' || c == 'u'
  }

  lemma {:induction false} SubSpansPrefix(pre: string, rest: string, letter: char)
    requires '<' !in pre
    ensures SubSpans(pre + rest, letter) == pre + SubSpans(rest, letter)
    decreases |pre|
  {
    if pre != [] {
      assert (pre + rest)[0] == pre[0] && (pre + rest)[1..] == pre[1..] + rest;
      assert MatchSpan(pre + rest, letter) == None;
      SubSpansPrefix(pre[1..], rest, letter);
      var tail := SubSpans(rest, letter);
      assert SubSpans(pre + rest, letter) == [pre[0]] + (pre[1..] + tail);
      assert [pre[0]] + (pre[1..] + tail) == ([pre[0]] + pre[1..]) + tail;
      assert [pre[0]] + pre[1..] == pre;
    } else {
      assert pre + rest == rest;
    }
  }

  lemma SubSpansMarkupFree(s: string, letter: char)
    requires '<' !in s
    ensures SubSpans(s, letter) == s
  {
    SubSpansPrefix(s, [], letter);
    assert s + [] == s;
  }

  lemma {:induction false} RemoveTagsPrefix(pre: string, rest: string)
    requires '<' !in pre
    ensures RemoveTags(pre + rest) == pre + RemoveTags(rest)
    decreases |pre|
  {
    if pre != [] {
      assert (pre + rest)[0] == pre[0] && (pre + rest)[1..] == pre[1..] + rest;
      RemoveTagsPrefix(pre[1..], rest);
      var tail := RemoveTags(rest);
      assert RemoveTags(pre + rest) == [pre[0]] + (pre[1..] + tail);
      assert [pre[0]] + (pre[1..] + tail) == ([pre[0]] + pre[1..]) + tail;
      assert [pre[0]] + pre[1..] == pre;
    } else {
      assert pre + rest == rest;
    }
  }

  lemma RemoveTagsMarkupFree(s: string)
    requires '<' !in s
    ensures RemoveTags(s) == s
  {
    RemoveTagsPrefix(s, []);
    assert s + [] == s;
  }

  /** Text without `<` is only whitespace-normalised by `clean_dialogue_text`. */
  lemma CleanMarkupFree(s: string)
    requires '<' !in s
    ensures CleanDialogueText(s) == Strip(CollapseSpace(s))
  {
    SubSpansMarkupFree(s, 'i');
    SubSpansMarkupFree(s, 'b');
    SubSpansMarkupFree(s, 'u');
    RemoveTagsMarkupFree(s);
  }

  lemma {:induction false} FindCloserNone(s: string, k: nat, letter: char)
    requires forall j :: k <= j < |s| ==> s[j] != '<'
    ensures FindCloser(s, k, letter) == None
    decreases |s| - k
  {
    if k + 3 < |s| {
      FindCloserNone(s, k + 1, letter);
    }
  }

  lemma {:induction false} FindCloserAt(s: string, k: nat, r: nat, letter: char)
    requires k <= r && CloserAt(s, r, letter) && FindFrom(s, '>', r + 3).Some?
    requires forall j :: k <= j < r ==> s[j] != '<'
    ensures FindCloser(s, k, letter) == Some(r)
    decreases r - k
  {
    if k < r {
      FindCloserAt(s, k + 1, r, letter);
    }
  }

  /** A closer at `r` with a `>` after it is found, at `r` or at an earlier closer. */
  lemma {:induction false} FindCloserFinds(s: string, k: nat, r: nat, t: nat, letter: char)
    requires k <= r && CloserAt(s, r, letter) && r + 3 <= t < |s| && s[t] == '>'
    ensures FindCloser(s, k, letter).Some? && FindCloser(s, k, letter).value <= r
    decreases r - k
  {
    assert FindFrom(s, '>', r + 3).Some?;
    if !(CloserAt(s, k, letter) && FindFrom(s, '>', k + 3).Some?) {
      FindCloserFinds(s, k + 1, r, t, letter);
    }
  }

  /**
   * Every span present at the front is matched: an opening `<x`, a `>` closing
   * it, then `</x` and a `>` after that give a match whose group ends at that
   * closer or at an earlier one.
   */
  lemma MatchSpanComplete(s: string, letter: char, q: nat, r: nat, t: nat)
    requires 2 <= q < r && r + 3 <= t < |s|
    requires s[0] == '<' && CiEq(s[1], letter) && s[q] == '>'
    requires CloserAt(s, r, letter) && s[t] == '>'
    ensures MatchSpan(s, letter).Some? && MatchSpan(s, letter).value.contentEnd <= r
  {
    var q' := FindFrom(s, '>', 2).value;
    FindCloserFinds(s, q' + 1, r, t, letter);
  }

  /** A formatting span of the letter being substituted becomes its parenthesised content. */
  lemma SubSpansOfSpan(content: string, post: string, letter: char)
    requires IsFormattingLetter(letter) && '<' !in content && '<' !in post
    ensures SubSpans(Span(letter, content) + post, letter) == "(" + content + ")" + post
  {
    SubSpansSpanFront(content, post, letter);
    SubSpansMarkupFree(post, letter);
  }


  /** A span without `<` inside matches whole, its group being the content. */
  lemma MatchSpanOfSpan(content: string, post: string, letter: char)
    requires IsFormattingLetter(letter) && '<' !in content
    ensures MatchSpan(Span(letter, content) + post, letter)
         == Some(SpanMatch(3, 3 + |content|, 7 + |content|))
  {
    var s := Span(letter, content) + post;
    var r := 3 + |content|;
    assert s == "<" + [letter] + ">" + content + "</" + [letter] + ">" + post;
    assert s[0] == '<' && s[1] == letter && s[2] == '>';
    assert forall j :: 3 <= j < r ==> s[j] == content[j - 3];
    assert s[r] == '<' && s[r + 1] == '/' && s[r + 2] == letter && s[r + 3] == '>';
    assert FindFrom(s, '>', 2) == Some(2);
    assert FindFrom(s, '>', r + 3) == Some(r + 3);
    FindCloserAt(s, 3, r, letter);
  }

  /** Where a span matches, its group is wrapped in parentheses and the scan resumes after it. */
  lemma SubSpansMatched(s: string, letter: char)
    requires MatchSpan(s, letter).Some?
    ensures var m := MatchSpan(s, letter).value;
      SubSpans(s, letter) == "(" + s[m.contentStart..m.contentEnd] + ")" + SubSpans(s[m.end..], letter)
  {
  }

  /** A formatting span of another letter passes the substitution unchanged. */
  lemma SubSpansOtherSpan(content: string, post: string, letter: char, other: char)
    requires IsFormattingLetter(letter) && IsFormattingLetter(other) && letter != other
    requires '<' !in content && '<' !in post
    ensures SubSpans(Span(other, content) + post, letter) == Span(other, content) + post
  {
    SubSpansOtherSpanFront(content, post, letter, other);
    SubSpansMarkupFree(post, letter);
  }


  /** A `<` not followed by the letter is copied. */
  lemma SubSpansLoneAngle(rest: string, letter: char)
    requires rest != [] && !CiEq(rest[0], letter)
    ensures SubSpans(['<'] + rest, letter) == ['<'] + SubSpans(rest, letter)
  {
    var s := ['<'] + rest;
    assert s[1] == rest[0] && s[1..] == rest;
    SubSpansSkip(s, letter);
  }

  /** Text that does not open a span of this letter is copied one character at a time. */
  lemma SubSpansSkip(s: string, letter: char)
    requires s != [] && (s[0] != '<' || |s| < 2 || !CiEq(s[1], letter))
    ensures SubSpans(s, letter) == [s[0]] + SubSpans(s[1..], letter)
  {
    assert MatchSpan(s, letter) == None;
  }

  /** The pass for the span's own letter turns it into parentheses. */
  lemma SpanPassSame(pre: string, content: string, post: string, letter: char)
    requires IsFormattingLetter(letter)
    requires '<' !in pre && '<' !in content && '<' !in post
    ensures SubSpans(pre + Span(letter, content) + post, letter) == pre + "(" + content + ")" + post
  {
    var tail := Span(letter, content) + post;
    var done := "(" + content + ")" + post;
    calc {
      SubSpans(pre + Span(letter, content) + post, letter);
      { assert pre + Span(letter, content) + post == pre + tail; }
      SubSpans(pre + tail, letter);
      { SubSpansPrefix(pre, tail, letter); }
      pre + SubSpans(tail, letter);
      { SubSpansOfSpan(content, post, letter); }
      pre + done;
      pre + "(" + content + ")" + post;
    }
  }

  /** The pass for another letter leaves the span alone. */
  lemma SpanPassOther(pre: string, content: string, post: string, letter: char, other: char)
    requires IsFormattingLetter(letter) && IsFormattingLetter(other) && letter != other
    requires '<' !in pre && '<' !in content && '<' !in post
    ensures SubSpans(pre + Span(letter, content) + post, other) == pre + Span(letter, content) + post
  {
    var tail := Span(letter, content) + post;
    calc {
      SubSpans(pre + Span(letter, content) + post, other);
      { assert pre + Span(letter, content) + post == pre + tail; }
      SubSpans(pre + tail, other);
      { SubSpansPrefix(pre, tail, other); }
      pre + SubSpans(tail, other);
      { SubSpansOtherSpan(content, post, other, letter); }
      pre + tail;
      pre + Span(letter, content) + post;
    }
  }

  /**
   * Anywhere in markup-free text, an `<i>`, `<b>` or `<u>` span is cleaned as
   * its content in parentheses.
   */
  lemma CleanFormattingSpan(pre: string, content: string, post: string, letter: char)
    requires IsFormattingLetter(letter)
    requires '<' !in pre && '<' !in content && '<' !in post
    ensures CleanDialogueText(pre + Span(letter, content) + post)
         == CleanDialogueText(pre + "(" + content + ")" + post)
  {
    var t := pre + "(" + content + ")" + post;
    assert '<' !in t;
    if letter == 'i' {
      SpanPassSame(pre, content, post, 'i');
      SubSpansMarkupFree(t, 'b');
      SubSpansMarkupFree(t, 'u');
    } else if letter == 'b' {
      SpanPassOther(pre, content, post, 'b', 'i');
      SpanPassSame(pre, content, post, 'b');
      SubSpansMarkupFree(t, 'u');
    } else {
      SpanPassOther(pre, content, post, 'u', 'i');
      SpanPassOther(pre, content, post, 'u', 'b');
      SpanPassSame(pre, content, post, 'u');
    }
    RemoveTagsMarkupFree(t);
    CleanMarkupFree(t);
  }

  lemma LoneTagPass(pre: string, tag: string, post: string, letter: char)
    requires '<' !in pre && '<' !in tag && '<' !in post
    ensures SubSpans(pre + "<" + tag + ">" + post, letter) == pre + "<" + tag + ">" + post
  {
    var rest := tag + ">" + post;
    var inner := ['<'] + rest;
    assert pre + "<" + tag + ">" + post == pre + inner;
    SubSpansPrefix(pre, inner, letter);
    assert '<' !in rest;
    assert forall j :: 1 <= j < |inner| ==> inner[j] == rest[j - 1];
    if 1 < |inner| && CiEq(inner[1], letter) && FindFrom(inner, '>', 2).Some? {
      FindCloserNone(inner, FindFrom(inner, '>', 2).value + 1, letter);
    }
    assert MatchSpan(inner, letter) == None;
    assert inner[1..] == rest;
    SubSpansMarkupFree(rest, letter);
  }

  /** A lone tag `<…>` in otherwise markup-free text is removed. */
  lemma CleanLoneTag(pre: string, tag: string, post: string)
    requires '<' !in pre && '<' !in tag && '>' !in tag && '<' !in post
    ensures CleanDialogueText(pre + "<" + tag + ">" + post) == CleanDialogueText(pre + post)
  {
    var s := pre + "<" + tag + ">" + post;
    LoneTagPass(pre, tag, post, 'i');
    LoneTagPass(pre, tag, post, 'b');
    LoneTagPass(pre, tag, post, 'u');
    var inner := "<" + tag + ">" + post;
    calc {
      RemoveTags(s);
      { assert s == pre + inner; }
      RemoveTags(pre + inner);
      { RemoveTagsPrefix(pre, inner); }
      pre + RemoveTags(inner);
      { RemoveTagsLeadingTag(tag, post); }
      pre + RemoveTags(post);
      { RemoveTagsMarkupFree(post); }
      pre + post;
    }
    CleanMarkupFree(pre + post);
  }

  /** A leading `<…>` is dropped. */
  lemma RemoveTagsLeadingTag(tag: string, post: string)
    requires '>' !in tag
    ensures RemoveTags("<" + tag + ">" + post) == RemoveTags(post)
  {
    var inner := "<" + tag + ">" + post;
    assert FindFrom(inner, '>', 1) == Some(|tag| + 1) by {
      assert forall j :: 1 <= j < |tag| + 1 ==> inner[j] == tag[j - 1];
      assert inner[|tag| + 1] == '>';
    }
    assert inner[|tag| + 2..] == post;
  }

  /**
   * Subtitle markup read as a sequence of pieces: text without `<`, a formatting
   * span `<x>content</x>`, or any other tag `<body>`. Nested spans, several
   * spans in one line and spans inside `<font …>…</font>` are all sequences of
   * these.
   */
  datatype Piece = Plain(text: string) | Formatted(letter: char, content: string) | OtherTag(body: string)

  /**
   * Every `<` of a piece is its own markup. Another tag may not open with a
   * formatting letter: `<br>` followed later by `</b>` does open a `b` span.
   */
  predicate WellFormedPiece(p: Piece) {
    match p
    case Plain(t) => '<' !in t
    case Formatted(l, c) => IsFormattingLetter(l) && '<' !in c
    case OtherTag(b) => '<' !in b && '>' !in b && (b == [] || !IsFormattingLetter(LowerChar(b[0])))
  }

  predicate WellFormedPieces(ps: seq<Piece>) {
    forall k :: 0 <= k < |ps| ==> WellFormedPiece(ps[k])
  }

  function RenderPiece(p: Piece): string {
    match p
    case Plain(t) => t
    case Formatted(l, c) => Span(l, c)
    case OtherTag(b) => "<" + b + ">"
  }

  /** The subtitle text the pieces spell out. */
  function Render(ps: seq<Piece>): string {
    if ps == [] then [] else RenderPiece(ps[0]) + Render(ps[1..])
  }

  /** What a piece should leave behind: a span's content in parentheses, no other tag. */
  function CleanedPiece(p: Piece): string {
    match p
    case Plain(t) => t
    case Formatted(_, c) => "(" + c + ")"
    case OtherTag(_) => ""
  }

  function Cleaned(ps: seq<Piece>): string {
    if ps == [] then [] else CleanedPiece(ps[0]) + Cleaned(ps[1..])
  }

  /** The effect of the substitution for one letter on a piece. */
  function ReplacedPiece(p: Piece, letter: char): Piece {
    if p.Formatted? && p.letter == letter then Plain("(" + p.content + ")") else p
  }

  function Replaced(ps: seq<Piece>, letter: char): (r: seq<Piece>)
    ensures |r| == |ps|
    ensures forall k :: 0 <= k < |ps| ==> r[k] == ReplacedPiece(ps[k], letter)
  {
    if ps == [] then [] else [ReplacedPiece(ps[0], letter)] + Replaced(ps[1..], letter)
  }

  /**
   * The composable step: a span of the letter being substituted at the front
   * becomes its parenthesised content, whatever follows it.
   */
  lemma SubSpansSpanFront(content: string, post: string, letter: char)
    requires IsFormattingLetter(letter) && '<' !in content
    ensures SubSpans(Span(letter, content) + post, letter) == "(" + content + ")" + SubSpans(post, letter)
  {
    var s := Span(letter, content) + post;
    var r := 3 + |content|;
    assert s[3..r] == content && s[r + 4..] == post;
    MatchSpanOfSpan(content, post, letter);
    SubSpansMatched(s, letter);
  }

  lemma Regroup(a: string, b: string, c: string)
    ensures a + (b + c) == (a + b) + c
  {
  }

  /** A span followed by `x`, grouped around its two `<`. */
  lemma SpanRegroup(other: char, content: string, x: string)
    ensures Span(other, content) + x
         == ['<'] + (([other] + ">" + content) + (['<'] + (("/" + [other] + ">") + x)))
  {
    var opener := [other] + ">" + content;
    var closer := "/" + [other] + ">";
    var a := ['<'] + closer;
    assert Span(other, content) == ['<'] + (opener + a);
    Regroup(['<'], opener + a, x);
    Regroup(opener, a, x);
    Regroup(['<'], closer, x);
  }

  /** A span of another letter at the front is copied, whatever follows it. */
  lemma SubSpansOtherSpanFront(content: string, post: string, letter: char, other: char)
    requires IsFormattingLetter(letter) && IsFormattingLetter(other) && letter != other
    requires '<' !in content
    ensures SubSpans(Span(other, content) + post, letter) == Span(other, content) + SubSpans(post, letter)
  {
    var opener := [other] + ">" + content;
    var closer := "/" + [other] + ">";
    var tail := ['<'] + (closer + post);
    calc {
      SubSpans(tail, letter);
      { assert (closer + post)[0] == '/'; SubSpansLoneAngle(closer + post, letter); }
      ['<'] + SubSpans(closer + post, letter);
      { SubSpansPrefix(closer, post, letter); }
      ['<'] + (closer + SubSpans(post, letter));
    }
    calc {
      SubSpans(Span(other, content) + post, letter);
      { SpanRegroup(other, content, post); }
      SubSpans(['<'] + (opener + tail), letter);
      { assert (opener + tail)[0] == other; SubSpansLoneAngle(opener + tail, letter); }
      ['<'] + SubSpans(opener + tail, letter);
      { SubSpansPrefix(opener, tail, letter); }
      ['<'] + (opener + (['<'] + (closer + SubSpans(post, letter))));
      { SpanRegroup(other, content, SubSpans(post, letter)); }
      Span(other, content) + SubSpans(post, letter);
    }
  }

  /** A tag followed by `x`, grouped after its `<`. */
  lemma TagRegroup(body: string, x: string)
    ensures "<" + body + ">" + x == ['<'] + ((body + ">") + x)
  {
    Regroup("<", body, ">");
    Regroup("<", body + ">", x);
  }

  /** Another tag at the front is copied, whatever follows it. */
  lemma SubSpansTagFront(body: string, post: string, letter: char)
    requires IsFormattingLetter(letter) && WellFormedPiece(OtherTag(body))
    ensures SubSpans("<" + body + ">" + post, letter) == "<" + body + ">" + SubSpans(post, letter)
  {
    var rest := (body + ">") + post;
    assert rest[0] == if body == [] then '>' else body[0];
    TagRegroup(body, post);
    SubSpansLoneAngle(rest, letter);
    SubSpansPrefix(body + ">", post, letter);
    TagRegroup(body, SubSpans(post, letter));
  }

  lemma SubSpansPieceFront(p: Piece, rest: string, letter: char)
    requires IsFormattingLetter(letter) && WellFormedPiece(p)
    ensures SubSpans(RenderPiece(p) + rest, letter)
         == RenderPiece(ReplacedPiece(p, letter)) + SubSpans(rest, letter)
  {
    match p
    case Plain(t) =>
      SubSpansPrefix(t, rest, letter);
    case Formatted(l, c) =>
      if l == letter {
        SubSpansSpanFront(c, rest, letter);
      } else {
        SubSpansOtherSpanFront(c, rest, letter, l);
      }
    case OtherTag(b) =>
      SubSpansTagFront(b, rest, letter);
  }

  /** The substitution for one letter turns exactly that letter's spans into parentheses. */
  lemma {:induction false} SubSpansPieces(ps: seq<Piece>, letter: char)
    requires IsFormattingLetter(letter) && WellFormedPieces(ps)
    ensures SubSpans(Render(ps), letter) == Render(Replaced(ps, letter))
  {
    if ps != [] {
      var r := Replaced(ps, letter);
      SubSpansPieceFront(ps[0], Render(ps[1..]), letter);
      SubSpansPieces(ps[1..], letter);
      assert r[1..] == Replaced(ps[1..], letter);
    }
  }

  lemma ReplacedWellFormed(ps: seq<Piece>, letter: char)
    requires WellFormedPieces(ps)
    ensures WellFormedPieces(Replaced(ps, letter))
  {
    var r := Replaced(ps, letter);
    forall k | 0 <= k < |r| ensures WellFormedPiece(r[k]) {
      if ps[k].Formatted? && ps[k].letter == letter {
        assert '<' !in "(" + ps[k].content + ")";
      }
    }
  }

  /** A substitution pass changes nothing in what the pieces should leave behind. */
  lemma {:induction false} CleanedReplaced(ps: seq<Piece>, letter: char)
    ensures Cleaned(Replaced(ps, letter)) == Cleaned(ps)
  {
    if ps != [] {
      var r := Replaced(ps, letter);
      assert r[1..] == Replaced(ps[1..], letter);
      CleanedReplaced(ps[1..], letter);
    }
  }

  /** Once no span is left, removing tags leaves the text and drops every other tag. */
  lemma {:induction false} RemoveTagsPieces(ps: seq<Piece>)
    requires WellFormedPieces(ps)
    requires forall k :: 0 <= k < |ps| ==> !ps[k].Formatted?
    ensures RemoveTags(Render(ps)) == Cleaned(ps)
  {
    if ps != [] {
      var rest := Render(ps[1..]);
      RemoveTagsPieces(ps[1..]);
      match ps[0]
      case Plain(t) =>
        RemoveTagsPrefix(t, rest);
      case OtherTag(b) =>
        RemoveTagsLeadingTag(b, rest);
    }
  }

  lemma {:induction false} CleanedMarkupFree(ps: seq<Piece>)
    requires WellFormedPieces(ps)
    ensures '<' !in Cleaned(ps)
  {
    if ps != [] {
      CleanedMarkupFree(ps[1..]);
    }
  }

  /**
   * Any well-formed markup is cleaned as the text of its pieces, each span's
   * content in parentheses and every other tag removed, with whitespace
   * normalised.
   */
  lemma CleanPieces(ps: seq<Piece>)
    requires WellFormedPieces(ps)
    ensures '<' !in Cleaned(ps)
    ensures CleanDialogueText(Render(ps)) == Strip(CollapseSpace(Cleaned(ps)))
    ensures CleanDialogueText(Render(ps)) == CleanDialogueText(Cleaned(ps))
  {
    var p1 := Replaced(ps, 'i');
    var p2 := Replaced(p1, 'b');
    var p3 := Replaced(p2, 'u');
    SubSpansPieces(ps, 'i');
    ReplacedWellFormed(ps, 'i');
    SubSpansPieces(p1, 'b');
    ReplacedWellFormed(p1, 'b');
    SubSpansPieces(p2, 'u');
    ReplacedWellFormed(p2, 'u');
    forall k | 0 <= k < |p3| ensures !p3[k].Formatted? {
      assert p1[k] == ReplacedPiece(ps[k], 'i');
      assert p2[k] == ReplacedPiece(p1[k], 'b');
    }
    RemoveTagsPieces(p3);
    CleanedReplaced(ps, 'i');
    CleanedReplaced(p1, 'b');
    CleanedReplaced(p2, 'u');
    CleanedMarkupFree(ps);
    CleanMarkupFree(Cleaned(ps));
  }

  lemma RenderCons(p: Piece, ps: seq<Piece>)
    ensures Render([p] + ps) == RenderPiece(p) + Render(ps)
    ensures Cleaned([p] + ps) == CleanedPiece(p) + Cleaned(ps)
  {
    assert ([p] + ps)[0] == p && ([p] + ps)[1..] == ps;
  }

  lemma RenderFive(a: Piece, b: Piece, c: Piece, d: Piece, e: Piece)
    ensures Render([a, b, c, d, e])
         == RenderPiece(a) + (RenderPiece(b) + (RenderPiece(c) + (RenderPiece(d) + RenderPiece(e))))
    ensures Cleaned([a, b, c, d, e])
         == CleanedPiece(a) + (CleanedPiece(b) + (CleanedPiece(c) + (CleanedPiece(d) + CleanedPiece(e))))
  {
    var t3 := [d] + [e];
    var t2 := [c] + t3;
    var t1 := [b] + t2;
    assert [a, b, c, d, e] == [a] + t1;
    RenderCons(a, t1);
    RenderCons(b, t2);
    RenderCons(c, t3);
    RenderCons(d, [e]);
    RenderCons(e, []);
    assert [e] + [] == [e];
    assert RenderPiece(e) + [] == RenderPiece(e);
    assert CleanedPiece(e) + [] == CleanedPiece(e);
  }


  /** Appending `(c)` to `x`, grouped. */
  lemma ParenRegroup(x: string, c: string)
    ensures x + "(" + c + ")" == x + ("(" + c + ")")
  {
    Regroup(x, "(" + c, ")");
    Regroup(x, "(", c);
  }

  /** Appending `<body>` to `x`, grouped. */
  lemma TagAppendRegroup(x: string, body: string)
    ensures x + "<" + body + ">" == x + ("<" + body + ">")
  {
    Regroup(x, "<" + body, ">");
    Regroup(x, "<", body);
  }

  /** Two spans with text between them are cleaned as their two parenthesised contents. */
  lemma CleanTwoSpans(pre: string, l1: char, c1: string, mid: string, l2: char, c2: string, post: string)
    requires IsFormattingLetter(l1) && IsFormattingLetter(l2)
    requires '<' !in pre && '<' !in c1 && '<' !in mid && '<' !in c2 && '<' !in post
    ensures CleanDialogueText(pre + Span(l1, c1) + mid + Span(l2, c2) + post)
         == CleanDialogueText(pre + "(" + c1 + ")" + mid + "(" + c2 + ")" + post)
  {
    var ps := [Plain(pre), Formatted(l1, c1), Plain(mid), Formatted(l2, c2), Plain(post)];
    var s1, s2 := Span(l1, c1), Span(l2, c2);
    var q1, q2 := "(" + c1 + ")", "(" + c2 + ")";
    RenderFive(Plain(pre), Formatted(l1, c1), Plain(mid), Formatted(l2, c2), Plain(post));
    assert Render(ps) == pre + s1 + mid + s2 + post by {
      Regroup(pre, s1, mid + (s2 + post));
      Regroup(pre + s1, mid, s2 + post);
      Regroup(pre + s1 + mid, s2, post);
    }
    assert Cleaned(ps) == pre + "(" + c1 + ")" + mid + "(" + c2 + ")" + post by {
      Regroup(pre, q1, mid + (q2 + post));
      Regroup(pre + q1, mid, q2 + post);
      Regroup(pre + q1 + mid, q2, post);
      ParenRegroup(pre, c1);
      ParenRegroup(pre + q1 + mid, c2);
    }
    CleanPieces(ps);
  }

  /**
   * A span wrapped in another pair of tags, such as `<font color="x"><i>hi</i></font>`,
   * is cleaned as its parenthesised content: the wrapping tags are removed.
   */
  lemma CleanWrappedSpan(pre: string, tag: string, letter: char, content: string, closeTag: string, post: string)
    requires WellFormedPiece(OtherTag(tag)) && WellFormedPiece(OtherTag(closeTag))
    requires IsFormattingLetter(letter)
    requires '<' !in pre && '<' !in content && '<' !in post
    ensures CleanDialogueText(pre + "<" + tag + ">" + Span(letter, content) + "<" + closeTag + ">" + post)
         == CleanDialogueText(pre + "(" + content + ")" + post)
  {
    var ps := [Plain(pre), OtherTag(tag), Formatted(letter, content), OtherTag(closeTag), Plain(post)];
    var t1, t2 := "<" + tag + ">", "<" + closeTag + ">";
    var sp, q := Span(letter, content), "(" + content + ")";
    RenderFive(Plain(pre), OtherTag(tag), Formatted(letter, content), OtherTag(closeTag), Plain(post));
    assert Render(ps) == pre + "<" + tag + ">" + Span(letter, content) + "<" + closeTag + ">" + post by {
      Regroup(pre, t1, sp + (t2 + post));
      Regroup(pre + t1, sp, t2 + post);
      Regroup(pre + t1 + sp, t2, post);
      TagAppendRegroup(pre, tag);
      TagAppendRegroup(pre + t1 + sp, closeTag);
    }
    assert Cleaned(ps) == pre + "(" + content + ")" + post by {
      assert Cleaned(ps) == pre + ("" + (q + ("" + post)));
      assert "" + post == post;
      assert "" + (q + post) == q + post;
      Regroup(pre, q, post);
      ParenRegroup(pre, content);
    }
    CleanPieces(ps);
  }

  /** Text that is already single-spaced with plain spaces is left as it is. */
  lemma {:induction false} CollapseSpaceSingleSpaced(s: string)
    requires PlainSpaces(s)
    requires NoDoubleSpace(s)
    ensures CollapseSpace(s) == s
    decreases |s|
  {
    if s != [] {
      SpacingTail(s);
      CollapseSpaceSingleSpaced(s[1..]);
      if IsSpace(s[0]) {
        assert TrimLeft(s) == s[1..] by {
          if |s| > 1 {
            assert !IsSpace(s[1]);
          }
        }
        assert CollapseSpace(s) == " " + s[1..];
        assert s[0] == ' ';
      } else {
        assert CollapseSpace(s) == [s[0]] + s[1..];
      }
      assert s == [s[0]] + s[1..];
    }
  }

  /** Dropping the first character keeps a text single-spaced with plain spaces. */
  lemma SpacingTail(s: string)
    requires s != [] && PlainSpaces(s) && NoDoubleSpace(s)
    ensures PlainSpaces(s[1..]) && NoDoubleSpace(s[1..])
  {
    var t := s[1..];
    forall k | 0 <= k < |t| && IsSpace(t[k]) ensures t[k] == ' ' {
      assert t[k] == s[k + 1];
    }
    forall k | 0 <= k < |t| - 1 ensures !(IsSpace(t[k]) && IsSpace(t[k + 1])) {
      assert t[k] == s[k + 1] && t[k + 1] == s[k + 2];
    }
  }
}
