/**
 * `is_valid_speaker_tag` (app.py:154-166): decides whether the text before a
 * colon names a speaker, with the checks applied in the source's order.
 */
module SpeakerTag {
  import opened Text

  const MaxSpeakerNameLength: nat := 35
  const MaxSpeakerNameWords: nat := 4

  /**
   * Lead-ins that end in a colon but are not speakers, compared after
   * lower-casing, in the order of the list at app.py:22-41. The list is written
   * as four runs of twenty so that facts about single entries stay small.
   */
  const NonSpeakerPhrases: seq<string> := PhrasesFirst + PhrasesSecond + PhrasesThird + PhrasesFourth

  const PhrasesFirst: seq<string> := [
    "the only problem", "note", "warning", "things", "and on the way we came across this",
    "this is the highest swing in europe", "and i swear", "which meant", "the only thing is", "and remember",
    "official distance", "first and foremost", "i said", "here we go", "next up", "step 1", "step 2",
    "step 3", "and step 3", "first up"
  ]

  const PhrasesSecond: seq<string> := [
    "so the question is", "i was growing up", "you might be wondering", "update", "nashville to miami",
    "all i know is", "unlike judy", "the good news is", "aer lingus seat", "the true test is",
    "just as i suspected", "like i said", "star review and said", "i told them all", "and best of all",
    "the point is", "americans", "i was thinking", "and they go", "first of all"
  ]

  const PhrasesThird: seq<string> := [
    "second", "are you like", "as a reminder", "round 2", "round 1", "round 3", "round 4", "round 5",
    "welcome to round 3", "the question is", "quick reminder", "in 2nd place", "coming up", "first stop",
    "next step", "and that means", "hashtag", "so to be clear", "your second word", "welcome to round 6"
  ]

  const PhrasesFourth: seq<string> := [
    "battle finale time", "number 1", "number 2", "but the truth is", "score to beat", "and your winner",
    "\"crafty\" and \"betcha\". coming up", "next one", "keep in mind", "and it says", "you could say",
    "welcome to round 2", "and the best part", "onto round 2", "the ride we chose", "good news is",
    "bad news", "good news", "he thought", "3 teams remain"
  ]

  /** Membership in the list as Python tests it: a scan from index `i` for an equal entry. */
  predicate ListedFrom(p: string, phrases: seq<string>, i: nat)
    decreases |phrases| - i
  {
    i < |phrases| && (phrases[i] == p || ListedFrom(p, phrases, i + 1))
  }

  /** `p in NON_SPEAKER_PHRASES`. */
  predicate IsNonSpeakerPhrase(p: string) {
    ListedFrom(p, NonSpeakerPhrases, 0)
  }

  /** The scan finds exactly the entries at or after `i`. */
  lemma {:induction false} ListedFromIff(p: string, phrases: seq<string>, i: nat)
    ensures ListedFrom(p, phrases, i) <==> exists k :: i <= k < |phrases| && phrases[k] == p
    decreases |phrases| - i
  {
    if i < |phrases| {
      ListedFromIff(p, phrases, i + 1);
      if ListedFrom(p, phrases, i + 1) {
        var k :| i + 1 <= k < |phrases| && phrases[k] == p;
      }
    }
  }

  /** The scan from the start is list membership. */
  lemma NonSpeakerPhraseIff(p: string)
    ensures IsNonSpeakerPhrase(p) <==> p in NonSpeakerPhrases
  {
    ListedFromIff(p, NonSpeakerPhrases, 0);
  }

  /**
   * `" and "` becomes a space, a remaining `" and"` is dropped, `&` becomes a
   * space; then strip. No `&` is left and no whitespace at either end.
   */
  function Normalize(tag: string): (r: string)
    ensures '&' !in r
    ensures r == [] || (!IsSpace(r[0]) && !IsSpace(r[|r| - 1]))
  {
    var joined := ReplaceAll(ReplaceAll(tag, " and ", " "), " and", "");
    ReplaceAllChar(joined, '&', ' ');
    assert "&" == ['&'] && " " == [' '];
    StripKeepsOut(ReplaceAll(joined, "&", " "), '&');
    Strip(ReplaceAll(joined, "&", " "))
  }

  /** `is_valid_speaker_tag`. */
  predicate IsValidSpeakerTag(tag: string) {
    var t := Strip(tag);
    if t == [] then false
    else if IsNonSpeakerPhrase(Lower(t)) then false
    else if |t| > MaxSpeakerNameLength then false
    else
      var normalized := Normalize(t);
      if normalized == [] then false
      else
        var words := Words(normalized);
        if |words| > MaxSpeakerNameWords then false
        else
          var first := if |words| > 0 then words[0] else normalized;
          !(IsAlpha(first[0]) && IsLower(first[0]))
  }

  /**
   * Every check of `is_valid_speaker_tag` except the phrase list, applied to a
   * stripped tag: non-empty, at most 35 characters, and a normalised form that is
   * non-empty, has at most four words and does not open with a lower-case letter.
   */
  predicate HasSpeakerShape(t: string) {
    var normalized := Normalize(t);
    && t != []
    && |t| <= MaxSpeakerNameLength
    && normalized != []
    && WordCount(normalized) <= MaxSpeakerNameWords
    && !IsLower(normalized[0])
  }

  /**
   * The decision without its order and without the split into words: a tag is a
   * speaker exactly when its stripped form is not a listed phrase and has the
   * shape of a name.
   */
  lemma {:induction false} ValidSpeakerTagIff(tag: string)
    ensures IsValidSpeakerTag(tag) <==>
      !IsNonSpeakerPhrase(Lower(Strip(tag))) && HasSpeakerShape(Strip(tag))
  {
    var normalized := Normalize(Strip(tag));
    if normalized != [] {
      WordsCount(normalized);
      FirstWord(normalized);
    }
  }

  /** An accepted tag is non-empty and its normalised form has one to four words, the first not opening in lower case. */
  lemma AcceptedTagShape(tag: string)
    requires IsValidSpeakerTag(tag)
    ensures tag != [] && Strip(tag) != [] && |Strip(tag)| <= MaxSpeakerNameLength
    ensures 1 <= |Words(Normalize(Strip(tag)))| <= MaxSpeakerNameWords
    ensures !IsLower(Words(Normalize(Strip(tag)))[0][0])
  {
    FirstWord(Normalize(Strip(tag)));
  }

  /** Empty or whitespace-only tags, listed phrases and over-long tags are rejected. */
  lemma RejectedTags(tag: string)
    ensures Strip(tag) == [] ==> !IsValidSpeakerTag(tag)
    ensures Lower(Strip(tag)) in NonSpeakerPhrases ==> !IsValidSpeakerTag(tag)
    ensures |Strip(tag)| > MaxSpeakerNameLength ==> !IsValidSpeakerTag(tag)
  {
    NonSpeakerPhraseIff(Lower(Strip(tag)));
  }

  /** Without a space directly before an `a`, neither `" and "` nor `" and"` occurs. */
  lemma NoAndReplaced(t: string)
    requires forall k :: 0 <= k < |t| - 1 ==> !(t[k] == ' ' && t[k + 1] == 'a')
    ensures ReplaceAll(ReplaceAll(t, " and ", " "), " and", "") == t
  {
    ReplaceAllNoPair(t, " and ", " ");
    ReplaceAllNoPair(t, " and", "");
  }

  /** A stripped tag without `&` and without a space before an `a` is its own normalised form. */
  lemma NormalizeUnchanged(t: string)
    requires t == Strip(t) && '&' !in t
    requires forall k :: 0 <= k < |t| - 1 ==> !(t[k] == ' ' && t[k + 1] == 'a')
    ensures Normalize(t) == t
  {
    NoAndReplaced(t);
    ReplaceAllAbsent(t, "&", " ");
  }

  /** A single word without `&` has the shape of a name exactly when it is short enough and does not open in lower case. */
  lemma SingleWordShape(tag: string)
    requires tag != [] && NoSpace(tag) && '&' !in tag
    ensures HasSpeakerShape(tag) <==> |tag| <= MaxSpeakerNameLength && !IsLower(tag[0])
  {
    StripTrimmed(tag);
    NormalizeUnchanged(tag);
    WordCountOfWord(tag);
  }

  /** A tag whose stripped form opens with a lower-case letter is narration, not a speaker. */
  lemma LowerCaseOpeningRejected(tag: string)
    requires Strip(tag) != [] && IsLower(Strip(tag)[0])
    ensures !IsValidSpeakerTag(tag)
  {
    var t := Strip(tag);
    var a := ReplaceAll(t, " and ", " ");
    ReplaceAllKeepsFirst(t, " and ", " ");
    var b := ReplaceAll(a, " and", "");
    ReplaceAllKeepsFirst(a, " and", "");
    var c := ReplaceAll(b, "&", " ");
    ReplaceAllKeepsFirst(b, "&", " ");
    StripKeepsFirst(c);
    ValidSpeakerTagIff(tag);
  }

  /**
   * Two names joined by `&`, the second capitalised, have the shape of one
   * speaker: `&` becomes a space, so the normalised tag has two words and opens
   * with the first name.
   */
  lemma AmpersandPairShape(a: string, b: string)
    requires a != [] && NoSpace(a) && '&' !in a
    requires b != [] && NoSpace(b) && '&' !in b && !IsLower(b[0])
    ensures WordCount(Normalize(a + " & " + b)) == 2
    ensures var tag := a + " & " + b;
      HasSpeakerShape(tag) <==> |tag| <= MaxSpeakerNameLength && !IsLower(a[0])
  {
    var tag := a + " & " + b;
    AmpersandPairNormalized(a, b);
    var spaced := a + " " + (" " + (" " + b));
    assert Normalize(tag) == spaced;
    assert spaced[0] == a[0];
    WordCountCons(a, " " + (" " + b));
    WordCountLeadingSpace(" " + b);
    WordCountLeadingSpace(b);
    WordCountOfWord(b);
  }

  /** `a & b` normalises to the two names three spaces apart. */
  lemma AmpersandPairNormalized(a: string, b: string)
    requires a != [] && NoSpace(a) && '&' !in a
    requires b != [] && NoSpace(b) && '&' !in b && b[0] != 'a'
    ensures Normalize(a + " & " + b) == a + " " + (" " + (" " + b))
  {
    var tag := a + " & " + b;
    AndAbsentAroundAmpersand(a, b);
    AmpersandReplaced(a, b);
    var spaced := a + " " + (" " + (" " + b));
    assert ReplaceAll(tag, "&", " ") == spaced;
    assert spaced[0] == a[0] && spaced[|spaced| - 1] == b[|b| - 1];
    StripTrimmed(spaced);
  }

  /** The one `&` between two texts without `&` becomes a space. */
  lemma AmpersandReplaced(a: string, b: string)
    requires '&' !in a && '&' !in b
    ensures ReplaceAll(a + " & " + b, "&", " ") == a + " " + (" " + (" " + b))
  {
    var rest := " " + b;
    assert a + " & " + b == (a + " ") + ("&" + rest);
    ReplaceAllPrefix(a + " ", "&" + rest, "&", " ");
    ReplaceAllFront(rest, "&", " ");
    ReplaceAllAbsent(rest, "&", " ");
    assert (a + " ") + (" " + rest) == a + " " + (" " + (" " + b));
  }

  /** In `a & b` no space is followed by an `a`, so no `and` is removed. */
  lemma AndAbsentAroundAmpersand(a: string, b: string)
    requires NoSpace(a) && b != [] && NoSpace(b) && b[0] != 'a'
    ensures var tag := a + " & " + b;
      ReplaceAll(ReplaceAll(tag, " and ", " "), " and", "") == tag
  {
    var tag := a + " & " + b;
    forall k | 0 <= k < |tag| - 1 && tag[k] == ' '
      ensures tag[k + 1] != 'a'
    {
      if k == |a| {
        assert tag[k + 1] == '&';
      } else if k == |a| + 2 {
        assert tag[k + 1] == b[0];
      } else {
        assert false;
      }
    }
    NoAndReplaced(tag);
  }

  /**
   * Two names joined by ` and ` have the shape of one speaker: the `and` becomes
   * a space, so the normalised tag has two words and opens with the first name.
   * A second name that opens with `and` is excluded: there the second
   * replacement would also remove the ` and` the first one leaves.
   */
  lemma AndPairShape(a: string, b: string)
    requires a != [] && NoSpace(a) && '&' !in a
    requires b != [] && NoSpace(b) && '&' !in b && !(|b| >= 3 && b[..3] == "and")
    ensures Normalize(a + " and " + b) == a + " " + b
    ensures WordCount(Normalize(a + " and " + b)) == 2
    ensures var tag := a + " and " + b;
      HasSpeakerShape(tag) <==> |tag| <= MaxSpeakerNameLength && !IsLower(a[0])
  {
    AndPairNormalized(a, b);
    WordCountCons(a, b);
    WordCountOfWord(b);
  }

  /** `a and b` normalises to the two names one space apart. */
  lemma AndPairNormalized(a: string, b: string)
    requires a != [] && NoSpace(a) && '&' !in a
    requires b != [] && NoSpace(b) && '&' !in b && !(|b| >= 3 && b[..3] == "and")
    ensures Normalize(a + " and " + b) == a + " " + b
  {
    AndReplaced(a, b);
    AndTailKept(a, b);
    var spaced := a + " " + b;
    assert '&' !in spaced;
    ReplaceAllAbsent(spaced, "&", " ");
    assert spaced[0] == a[0] && spaced[|spaced| - 1] == b[|b| - 1];
    StripTrimmed(spaced);
  }

  /** The one `" and "` between two single words becomes a space. */
  lemma AndReplaced(a: string, b: string)
    requires NoSpace(a) && NoSpace(b)
    ensures ReplaceAll(a + " and " + b, " and ", " ") == a + " " + b
  {
    assert ' ' !in a && ' ' !in b;
    assert a + " and " + b == a + (" and " + b);
    ReplaceAllPrefix(a, " and " + b, " and ", " ");
    ReplaceAllFront(b, " and ", " ");
    ReplaceAllAbsent(b, " and ", " ");
    assert a + (" " + b) == a + " " + b;
  }

  /** In `a b` no `" and"` occurs when `b` does not open with `and`. */
  lemma AndTailKept(a: string, b: string)
    requires NoSpace(a) && NoSpace(b) && !(|b| >= 3 && b[..3] == "and")
    ensures ReplaceAll(a + " " + b, " and", "") == a + " " + b
  {
    assert ' ' !in a && ' ' !in b;
    assert a + " " + b == a + (" " + b);
    ReplaceAllPrefix(a, " " + b, " and", "");
    var t := " " + b;
    if |t| >= 4 {
      assert t[..4][1..] == b[..3];
    }
    assert t[1..] == b;
    ReplaceAllAbsent(b, " and", "");
    assert a + (" " + b) == a + " " + b;
  }

  /**
   * A trailing ` and` is dropped: `a and` normalises to `a`, one word, and has
   * the shape of a name exactly when the whole tag is short enough and `a` does
   * not open in lower case.
   */
  lemma TrailingAndShape(a: string)
    requires a != [] && NoSpace(a) && '&' !in a
    ensures Normalize(a + " and") == a
    ensures WordCount(Normalize(a + " and")) == 1
    ensures HasSpeakerShape(a + " and") <==> |a| + 4 <= MaxSpeakerNameLength && !IsLower(a[0])
  {
    assert a + " and" == a + " and" + [] && a + [] == a;
    AndPrefixDropped(a, []);
    WordCountOfWord(a);
  }

  /**
   * The second replacement drops ` and` wherever it occurs, also where it opens
   * a word: `a andc` normalises to `ac`, and `a and` to `a`.
   */
  lemma AndPrefixDropped(a: string, c: string)
    requires a != [] && NoSpace(a) && '&' !in a
    requires NoSpace(c) && '&' !in c
    ensures Normalize(a + " and" + c) == a + c
  {
    AndPrefixKept(a, c);
    var joined := a + c;
    assert '&' !in joined && NoSpace(joined);
    ReplaceAllAbsent(joined, "&", " ");
    assert joined[0] == a[0];
    StripTrimmed(joined);
  }

  /** In `a andc` the first replacement finds no ` and `; the second removes the ` and`. */
  lemma AndPrefixKept(a: string, c: string)
    requires NoSpace(a) && NoSpace(c)
    ensures ReplaceAll(a + " and" + c, " and ", " ") == a + " and" + c
    ensures ReplaceAll(a + " and" + c, " and", "") == a + c
  {
    assert a + " and" + c == a + (" and" + c);
    assert ' ' !in a;
    AndPrefixFirstPass(a, c);
    AndPrefixSecondPass(a, c);
  }

  /** A space not followed by `and ` is copied in the first replacement. */
  lemma AndPrefixFirstPass(a: string, c: string)
    requires ' ' !in a && NoSpace(c)
    ensures ReplaceAll(a + (" and" + c), " and ", " ") == a + (" and" + c)
  {
    ReplaceAllPrefix(a, " and" + c, " and ", " ");
    assert " and" + c == " " + ("and" + c);
    assert ' ' !in "and" + c;
    LeadingSpaceKept("and" + c);
  }

  /** A space followed by a text without spaces holds no ` and `. */
  lemma LeadingSpaceKept(w: string)
    requires ' ' !in w
    ensures ReplaceAll(" " + w, " and ", " ") == " " + w
  {
    var t := " " + w;
    if |t| >= 5 {
      assert t[..5][4] == w[3];
    }
    assert t[1..] == w;
    ReplaceAllAbsent(w, " and ", " ");
  }

  /** The one ` and` in `a andc` is removed in the second replacement. */
  lemma AndPrefixSecondPass(a: string, c: string)
    requires ' ' !in a && NoSpace(c)
    ensures ReplaceAll(a + (" and" + c), " and", "") == a + c
  {
    ReplaceAllPrefix(a, " and" + c, " and", "");
    ReplaceAllFront(c, " and", "");
    assert ' ' !in c;
    ReplaceAllAbsent(c, " and", "");
    assert "" + c == c;
  }

  /** `note` is a listed phrase. */
  lemma ExampleNote(tag: string)
    requires tag == "note"
    ensures !IsValidSpeakerTag(tag)
  {
    StripTrimmed(tag);
    assert Lower(tag) == "note" == PhrasesFirst[1] == NonSpeakerPhrases[1];
    NonSpeakerPhraseIff(Lower(tag));
  }

  /** The only listed phrase that opens with `j` is nineteen characters long. */
  lemma UnlistedJ(p: string)
    requires p != [] && p[0] == 'j' && |p| != 19
    ensures p !in NonSpeakerPhrases
  {
    UnlistedJFirst(p);
    UnlistedJSecond(p);
    UnlistedJThird(p);
    UnlistedJFourth(p);
  }

  lemma UnlistedJFirst(p: string)
    requires p != [] && p[0] == 'j' && |p| != 19
    ensures p !in PhrasesFirst
  {
    UnlistedIn(p, PhrasesFirst);
  }

  lemma UnlistedJSecond(p: string)
    requires p != [] && p[0] == 'j' && |p| != 19
    ensures p !in PhrasesSecond
  {
    UnlistedIn(p, PhrasesSecond);
  }

  lemma UnlistedJThird(p: string)
    requires p != [] && p[0] == 'j' && |p| != 19
    ensures p !in PhrasesThird
  {
    UnlistedIn(p, PhrasesThird);
  }

  lemma UnlistedJFourth(p: string)
    requires p != [] && p[0] == 'j' && |p| != 19
    ensures p !in PhrasesFourth
  {
    UnlistedIn(p, PhrasesFourth);
  }

  lemma UnlistedIn(p: string, run: seq<string>)
    requires p != [] && p[0] == 'j' && |p| != 19
    requires forall k :: 0 <= k < |run| ==> run[k] == [] || run[k][0] != 'j' || |run[k]| == 19
    ensures p !in run
  {
  }

  /** `John` is not a listed phrase and has the shape of a name, so it is a speaker. */
  lemma ExampleJohn(tag: string)
    requires tag == "John"
    ensures IsValidSpeakerTag(tag)
  {
    StripTrimmed(tag);
    assert Lower(Strip(tag)) == "john";
    UnlistedJ("john");
    NonSpeakerPhraseIff("john");
    ExampleJohnShape(tag);
    ValidSpeakerTagIff(tag);
  }

  /**
   * `Jack & Jill` is one speaker: `jack & jill` is not a listed phrase, and
   * `&` joins the two names into a two-word name that opens in upper case.
   */
  lemma ExampleJackAndJill(tag: string)
    requires tag == "Jack & Jill"
    ensures IsValidSpeakerTag(tag)
  {
    JackAndJillUnlisted(tag);
    JackAndJillShape(tag);
    ValidSpeakerTagIff(tag);
  }

  /** `Jack & Jill` strips to itself and, lower-cased, is not a listed phrase. */
  lemma JackAndJillUnlisted(tag: string)
    requires tag == "Jack & Jill"
    ensures Strip(tag) == tag && !IsNonSpeakerPhrase(Lower(tag))
  {
    assert tag[0] == 'J' && tag[|tag| - 1] == 'l';
    StripTrimmed(tag);
    JackAndJillLower(tag);
    JackAndJillPhrase(Lower(tag));
  }

  lemma JackAndJillLower(tag: string)
    requires tag == "Jack & Jill"
    ensures Lower(tag) == "jack & jill"
  {
  }

  lemma JackAndJillPhrase(p: string)
    requires p == "jack & jill"
    ensures !IsNonSpeakerPhrase(p)
  {
    UnlistedJ(p);
    NonSpeakerPhraseIff(p);
  }

  /** `Jack & Jill` has the shape of a name. */
  lemma JackAndJillShape(tag: string)
    requires tag == "Jack & Jill"
    ensures HasSpeakerShape(tag)
  {
    assert tag == "Jack" + " & " + "Jill";
    AmpersandPairShape("Jack", "Jill");
  }

  /** Five one-letter names are one word too many. */
  lemma ExampleFiveWords(tag: string)
    requires tag == "A B C D E"
    ensures !IsValidSpeakerTag(tag)
  {
    StripTrimmed(tag);
    ExampleFiveWordsShape(tag);
    ValidSpeakerTagIff(tag);
  }

  /** The normalised form of `A B C D E` is itself, and it has five words. */
  lemma ExampleFiveWordsShape(tag: string)
    requires tag == "A B C D E"
    ensures !HasSpeakerShape(tag)
  {
    StripTrimmed(tag);
    NormalizeUnchanged(tag);
    FiveWordCount(tag);
  }

  lemma FiveWordCount(tag: string)
    requires tag == "A B C D E"
    ensures WordCount(tag) == 5
  {
    var de := "D" + " " + "E";
    var cde := "C" + " " + de;
    var bcde := "B" + " " + cde;
    assert tag == "A" + " " + bcde;
    WordCountOfWord("E");
    WordCountCons("D", "E");
    WordCountCons("C", de);
    WordCountCons("B", cde);
    WordCountCons("A", bcde);
  }

  /** `John` has the shape of a name. */
  lemma ExampleJohnShape(tag: string)
    requires tag == "John"
    ensures HasSpeakerShape(tag)
  {
    SingleWordShape(tag);
  }
}
