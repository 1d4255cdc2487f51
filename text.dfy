/**
 * Character classes and the Python `str` operations the parser relies on,
 * stated at ASCII level: `\s`, `str.isspace`, `str.strip` and `str.split()`
 * use the ASCII characters for which `str.isspace` holds; `\w`, `\d`,
 * `str.lower`, `str.isalpha` and `str.islower` use the ASCII letters and digits.
 */
module Text {

  /** ASCII characters for which Python's `str.isspace` holds: 9-13, 28-31 and 32. */
  predicate IsSpace(c: char) {
    9 <= c as int <= 13 || 28 <= c as int <= 32
  }

  predicate IsDigit(c: char) {
    '0' <= c <= '9'
  }

  predicate IsAlpha(c: char) {
    'a' <= c <= 'z' || 'A' <= c <= 'Z'
  }

  predicate IsLower(c: char) {
    'a' <= c <= 'z'
  }

  /** The regular-expression class `\w`: letters, digits and underscore. */
  predicate IsWordChar(c: char) {
    IsAlpha(c) || IsDigit(c) || c == '_'
  }

  function LowerChar(c: char): (r: char)
    ensures !('A' <= r <= 'Z')
    ensures IsAlpha(c) <==> IsAlpha(r)
  {
    if 'A' <= c <= 'Z' then (c as int + 32) as char else c
  }

  /** `str.lower()`. */
  function Lower(s: string): (r: string)
    ensures |r| == |s|
    ensures forall k :: 0 <= k < |s| ==> r[k] == LowerChar(s[k])
  {
    if s == [] then [] else [LowerChar(s[0])] + Lower(s[1..])
  }

  predicate NoSpace(s: string) {
    forall k :: 0 <= k < |s| ==> !IsSpace(s[k])
  }

  /** `str.lstrip()`: the suffix left after dropping leading whitespace. */
  function TrimLeft(s: string): (r: string)
    ensures |r| <= |s| && r == s[|s| - |r|..]
    ensures r == [] || !IsSpace(r[0])
    ensures forall k :: 0 <= k < |s| - |r| ==> IsSpace(s[k])
  {
    if s != [] && IsSpace(s[0]) then TrimLeft(s[1..]) else s
  }

  /** Dropping leading whitespace keeps the last character, unless nothing is left. */
  lemma TrimLeftKeepsLast(s: string)
    requires TrimLeft(s) != []
    ensures TrimLeft(s)[|TrimLeft(s)| - 1] == s[|s| - 1]
  {
    var t := TrimLeft(s);
    assert t[|t| - 1] == s[|s| - |t|..][|t| - 1];
  }

  /** The end of the run of whitespace starting at `p`. */
  function SpaceRunEnd(s: string, p: nat): (q: nat)
    requires p <= |s|
    ensures p <= q <= |s|
    ensures forall k :: p <= k < q ==> IsSpace(s[k])
    ensures q == |s| || !IsSpace(s[q])
    decreases |s| - p
  {
    if p == |s| || !IsSpace(s[p]) then p else SpaceRunEnd(s, p + 1)
  }

  /** The end of `s[lo..hi]` once its trailing whitespace is dropped. */
  function ContentEnd(s: string, lo: nat, hi: nat): (q: nat)
    requires lo <= hi <= |s|
    ensures lo <= q <= hi
    ensures forall k :: q <= k < hi ==> IsSpace(s[k])
    ensures q == lo || !IsSpace(s[q - 1])
    decreases hi - lo
  {
    if hi == lo || !IsSpace(s[hi - 1]) then hi else ContentEnd(s, lo, hi - 1)
  }

  /** `str.strip()`: the slice between the first and the last non-whitespace character. */
  function Strip(s: string): (r: string)
    ensures SpaceRunEnd(s, 0) + |r| <= |s|
    ensures r == s[SpaceRunEnd(s, 0)..SpaceRunEnd(s, 0) + |r|]
    ensures forall k :: SpaceRunEnd(s, 0) + |r| <= k < |s| ==> IsSpace(s[k])
    ensures r == [] || (!IsSpace(r[0]) && !IsSpace(r[|r| - 1]))
  {
    var a := SpaceRunEnd(s, 0);
    s[a..ContentEnd(s, a, |s|)]
  }

  /** A string opening with a non-space character keeps it first after `Strip`. */
  lemma StripKeepsFirst(s: string)
    requires s != [] && !IsSpace(s[0])
    ensures Strip(s) != [] && Strip(s)[0] == s[0]
  {
  }

  /** A string already without leading or trailing whitespace is left as it is by `Strip`. */
  lemma StripTrimmed(s: string)
    requires s == [] || (!IsSpace(s[0]) && !IsSpace(s[|s| - 1]))
    ensures Strip(s) == s
  {
  }

  /** Stripping a trimmed text followed by one space gives the text back. */
  lemma StripTrailingSpace(x: string)
    requires x != [] && !IsSpace(x[0]) && !IsSpace(x[|x| - 1])
    ensures Strip(x + " ") == x
  {
    var s := x + " ";
    assert SpaceRunEnd(s, 0) == 0;
    assert ContentEnd(s, 0, |s|) == ContentEnd(s, 0, |x|) == |x|;
    assert s[..|x|] == x;
  }

  /** Stripping a trimmed text between two single spaces gives the text back. */
  lemma StripSpaced(x: string)
    requires x != [] && !IsSpace(x[0]) && !IsSpace(x[|x| - 1])
    ensures Strip(" " + x + " ") == x
  {
    var s := " " + x + " ";
    assert SpaceRunEnd(s, 1) == 1;
    assert SpaceRunEnd(s, 0) == 1;
    assert ContentEnd(s, 1, |s|) == ContentEnd(s, 1, |x| + 1) == |x| + 1;
    assert s[1..|x| + 1] == x;
  }

  /** A character absent from a text is absent from its stripped form. */
  lemma StripKeepsOut(s: string, c: char)
    requires c !in s
    ensures c !in Strip(s)
  {
    var r := Strip(s);
    var a := SpaceRunEnd(s, 0);
    forall k | 0 <= k < |r| ensures r[k] != c {
      assert r[k] == s[a + k];
    }
  }

  /** `str.replace(pat, repl)`: every non-overlapping occurrence, scanned from the left. */
  function ReplaceAll(s: string, pat: string, repl: string): string
    requires pat != []
    decreases |s|
  {
    if |s| < |pat| then s
    else if s[..|pat|] == pat then repl + ReplaceAll(s[|pat|..], pat, repl)
    else [s[0]] + ReplaceAll(s[1..], pat, repl)
  }

  /** When the first character of the pattern does not occur, nothing is replaced. */
  lemma {:induction false} ReplaceAllAbsent(s: string, pat: string, repl: string)
    requires pat != [] && pat[0] !in s
    ensures ReplaceAll(s, pat, repl) == s
    decreases |s|
  {
    if |s| >= |pat| {
      assert s[..|pat|][0] == s[0];
      ReplaceAllAbsent(s[1..], pat, repl);
    }
  }

  /** When the first two characters of the pattern never occur side by side, nothing is replaced. */
  lemma {:induction false} ReplaceAllNoPair(s: string, pat: string, repl: string)
    requires |pat| >= 2
    requires forall k :: 0 <= k < |s| - 1 ==> !(s[k] == pat[0] && s[k + 1] == pat[1])
    ensures ReplaceAll(s, pat, repl) == s
    decreases |s|
  {
    if |s| >= |pat| {
      assert s[..|pat|][0] == s[0] && s[..|pat|][1] == s[1];
      ReplaceAllNoPair(s[1..], pat, repl);
    }
  }

  /** Text before the first possible occurrence is copied. */
  lemma {:induction false} ReplaceAllPrefix(pre: string, rest: string, pat: string, repl: string)
    requires pat != [] && pat[0] !in pre
    ensures ReplaceAll(pre + rest, pat, repl) == pre + ReplaceAll(rest, pat, repl)
    decreases |pre|
  {
    if pre == [] {
      assert pre + rest == rest;
    } else {
      var s := pre + rest;
      assert s[0] == pre[0] && s[1..] == pre[1..] + rest;
      if |s| >= |pat| {
        assert s[..|pat|][0] == pre[0];
      }
      ReplaceAllPrefix(pre[1..], rest, pat, repl);
      assert [pre[0]] + (pre[1..] + ReplaceAll(rest, pat, repl)) == pre + ReplaceAll(rest, pat, repl);
    }
  }

  /**
   * Replacing one character by another: the length is kept, every occurrence
   * of the character is replaced at its own position, every other character is
   * kept, and no occurrence is left.
   */
  lemma {:induction false} ReplaceAllChar(s: string, c: char, d: char)
    requires c != d
    ensures |ReplaceAll(s, [c], [d])| == |s|
    ensures forall k :: 0 <= k < |s| ==> ReplaceAll(s, [c], [d])[k] == if s[k] == c then d else s[k]
    ensures c !in ReplaceAll(s, [c], [d])
    decreases |s|
  {
    if s != [] {
      ReplaceAllChar(s[1..], c, d);
      var tail := ReplaceAll(s[1..], [c], [d]);
      var head := if s[0] == c then d else s[0];
      assert s[..1] == [s[0]];
      assert ReplaceAll(s, [c], [d]) == [head] + tail;
      assert forall k :: 1 <= k < |s| ==> ([head] + tail)[k] == tail[k - 1] && s[k] == s[1..][k - 1];
    }
  }

  /** An occurrence at the front is replaced. */
  lemma ReplaceAllFront(rest: string, pat: string, repl: string)
    requires pat != []
    ensures ReplaceAll(pat + rest, pat, repl) == repl + ReplaceAll(rest, pat, repl)
  {
    assert (pat + rest)[..|pat|] == pat;
    assert (pat + rest)[|pat|..] == rest;
  }

  /** A first character that cannot start the pattern is kept in front. */
  lemma ReplaceAllKeepsFirst(s: string, pat: string, repl: string)
    requires pat != [] && s != [] && s[0] != pat[0]
    ensures ReplaceAll(s, pat, repl) != [] && ReplaceAll(s, pat, repl)[0] == s[0]
  {
    if |s| >= |pat| {
      assert s[..|pat|][0] != pat[0];
    }
  }

  /** The longest prefix of `s` without whitespace. */
  function TakeWord(s: string): (w: string)
    ensures |w| <= |s| && w == s[..|w|]
    ensures NoSpace(w)
    ensures |w| == |s| || IsSpace(s[|w|])
  {
    if s == [] || IsSpace(s[0]) then [] else [s[0]] + TakeWord(s[1..])
  }

  /** `str.split()` with no separator: the maximal runs of non-whitespace characters. */
  function Words(s: string): (ws: seq<string>)
    ensures forall k :: 0 <= k < |ws| ==> ws[k] != [] && NoSpace(ws[k])
    decreases |s|
  {
    if s == [] then []
    else if IsSpace(s[0]) then Words(s[1..])
    else
      var w := TakeWord(s);
      [w] + Words(s[|w|..])
  }

  /** Leading whitespace does not change the words. */
  lemma {:induction false} WordsTrimLeft(s: string)
    ensures Words(TrimLeft(s)) == Words(s)
    decreases |s|
  {
    if s != [] && IsSpace(s[0]) {
      WordsTrimLeft(s[1..]);
    }
  }

  /** A space in front does not change the words. */
  lemma WordsLeadingSpace(x: string)
    ensures Words(" " + x) == Words(x)
  {
    assert (" " + x)[1..] == x;
  }

  /**
   * A non-whitespace character in front of a text either opens a word of its
   * own, when the text is empty or opens with whitespace, or joins the text's
   * first word.
   */
  lemma WordsCons(c: char, x: string)
    requires !IsSpace(c)
    ensures x == [] || IsSpace(x[0]) ==> Words([c] + x) == [[c]] + Words(x)
    ensures x != [] && !IsSpace(x[0]) ==>
      |Words(x)| >= 1 && Words([c] + x) == [[c] + Words(x)[0]] + Words(x)[1..]
  {
    var s := [c] + x;
    assert s[1..] == x;
    var w := TakeWord(x);
    assert TakeWord(s) == [c] + w;
    assert s[|TakeWord(s)|..] == x[|w|..];
  }

  /**
   * An independent count of words: the number of non-whitespace characters
   * that open the string or follow a whitespace character.
   */
  function WordStarts(s: string, afterSpace: bool): nat
  {
    if s == [] then 0
    else (if afterSpace && !IsSpace(s[0]) then 1 else 0) + WordStarts(s[1..], IsSpace(s[0]))
  }

  function WordCount(s: string): nat {
    WordStarts(s, true)
  }

  lemma {:induction false} WordStartsSkipWord(s: string, n: nat)
    requires n <= |s| && NoSpace(s[..n])
    ensures WordStarts(s, false) == WordStarts(s[n..], false)
    decreases n
  {
    if n > 0 {
      assert !IsSpace(s[..n][0]);
      assert s[1..][..n - 1] == s[1..n];
      WordStartsSkipWord(s[1..], n - 1);
      assert s[1..][n - 1..] == s[n..];
    }
  }

  /** `str.split()` yields exactly as many words as there are word starts. */
  lemma {:induction false} WordsCount(s: string)
    ensures |Words(s)| == WordCount(s)
    decreases |s|
  {
    if s != [] {
      if IsSpace(s[0]) {
        WordsCount(s[1..]);
      } else {
        var w := TakeWord(s);
        assert s[1..][..|w| - 1] == w[1..];
        WordStartsSkipWord(s[1..], |w| - 1);
        var u := s[|w|..];
        assert s[1..][|w| - 1..] == u;
        assert WordStarts(u, false) == WordStarts(u, true);
        WordsCount(u);
      }
    }
  }

  /** A non-empty string without whitespace is one word. */
  lemma WordCountOfWord(w: string)
    requires w != [] && NoSpace(w)
    ensures WordCount(w) == 1
  {
    assert w[1..][..|w| - 1] == w[1..];
    WordStartsSkipWord(w[1..], |w| - 1);
  }

  /** A word followed by a space adds one to the count of what follows. */
  lemma WordCountCons(w: string, rest: string)
    requires w != [] && NoSpace(w)
    ensures WordCount(w + " " + rest) == 1 + WordCount(rest)
  {
    var s := w + " " + rest;
    assert s[1..][..|w| - 1] == w[1..];
    WordStartsSkipWord(s[1..], |w| - 1);
    assert s[1..][|w| - 1..] == " " + rest;
    assert (" " + rest)[1..] == rest;
  }

  /** A leading space does not start a word. */
  lemma WordCountLeadingSpace(rest: string)
    ensures WordCount(" " + rest) == WordCount(rest)
  {
    assert (" " + rest)[1..] == rest;
  }

  /** When `s` opens with a non-whitespace character, it is the first character of the first word. */
  lemma FirstWord(s: string)
    requires s != [] && !IsSpace(s[0])
    ensures |Words(s)| >= 1 && Words(s)[0][0] == s[0]
  {
  }

  /** Index of the first occurrence of `c` in `s`. */
  function IndexOf(s: string, c: char): (k: nat)
    requires c in s
    ensures k < |s| && s[k] == c && c !in s[..k]
  {
    if s[0] == c then 0 else IndexOf(s[1..], c) + 1
  }

  /** `str.split(sep)` with an explicit separator: empty pieces are kept. */
  function SplitOn(s: string, sep: char): (parts: seq<string>)
    ensures |parts| >= 1
    ensures forall k :: 0 <= k < |parts| ==> sep !in parts[k]
    decreases |s|
  {
    if sep !in s then [s]
    else
      var k := IndexOf(s, sep);
      [s[..k]] + SplitOn(s[k + 1..], sep)
  }

  function JoinWith(parts: seq<string>, sep: char): string
    requires |parts| >= 1
  {
    if |parts| == 1 then parts[0] else parts[0] + [sep] + JoinWith(parts[1..], sep)
  }

  /** Joining the pieces of `SplitOn` with the separator gives back the input. */
  lemma {:induction false} SplitOnJoin(s: string, sep: char)
    ensures JoinWith(SplitOn(s, sep), sep) == s
    decreases |s|
  {
    if sep in s {
      var k := IndexOf(s, sep);
      var tail := SplitOn(s[k + 1..], sep);
      var parts := SplitOn(s, sep);
      assert parts == [s[..k]] + tail;
      assert parts[0] == s[..k] && parts[1..] == tail;
      assert JoinWith(parts, sep) == s[..k] + [sep] + JoinWith(tail, sep);
      SplitOnJoin(s[k + 1..], sep);
      assert s == s[..k] + [sep] + s[k + 1..];
    }
  }

  /** `str.split` on a separator gives one more piece than there are separators. */
  lemma {:induction false} SplitOnCount(s: string, sep: char)
    ensures |SplitOn(s, sep)| == multiset(s)[sep] + 1
    decreases |s|
  {
    if sep in s {
      var k := IndexOf(s, sep);
      SplitOnCount(s[k + 1..], sep);
      assert s == s[..k] + [sep] + s[k + 1..];
      assert multiset(s) == multiset(s[..k]) + multiset{sep} + multiset(s[k + 1..]);
      assert multiset(s[..k])[sep] == 0;
    } else {
      assert multiset(s)[sep] == 0;
    }
  }

  function Concat(parts: seq<string>): string {
    if parts == [] then [] else parts[0] + Concat(parts[1..])
  }

  /** Joining is the join of a prefix followed by the join of the rest. */
  lemma {:induction false} ConcatSplitAt(parts: seq<string>, j: nat)
    requires j <= |parts|
    ensures Concat(parts) == Concat(parts[..j]) + Concat(parts[j..])
    decreases j
  {
    if j == 0 {
      assert parts[..0] == [] && parts[0..] == parts;
    } else {
      ConcatSplitAt(parts[1..], j - 1);
      assert parts[..j][0] == parts[0] && parts[..j][1..] == parts[1..][..j - 1];
      assert parts[j..] == parts[1..][j - 1..];
    }
  }
}
