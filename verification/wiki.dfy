/** The two text tools of the ReAct agent use case: `lookup`, which keeps the
    sentences of a passage that mention a keyword, and the text post-processing
    of `search`, which turns the paragraphs of a fetched page into at most five
    sentences. Fetching and parsing the page are not modelled: their results
    (the similar-title list and the paragraph texts) are inputs, and
    `clean_str` is a parameter. */
module Wiki {
  import opened Text

  /* ---------------- lookup ---------------- */

  const NoMatchMessage: string := "No sentences found with the keyword."

  /** A `.`-separated segment mentions the keyword, ignoring ASCII case. */
  predicate Mentions(segment: string, keyword: string) {
    Contains(Lower(segment), Lower(keyword))
  }

  /** No segment mentions the keyword. */
  predicate NoMention(segments: seq<string>, keyword: string) {
    forall i :: 0 <= i < |segments| ==> !Mentions(segments[i], keyword)
  }

  /** The stripped form of a segment, with its full stop restored. */
  function AsSentence(segment: string): string {
    Strip(segment) + "."
  }

  /** The segments that mention the keyword, in order, each as a sentence. */
  function MatchingSentences(segments: seq<string>, keyword: string): (r: seq<string>)
    ensures |r| <= |segments|
    decreases |segments|
  {
    if |segments| == 0 then []
    else
      var rest := MatchingSentences(segments[1..], keyword);
      if Mentions(segments[0], keyword) then [AsSentence(segments[0])] + rest else rest
  }

  /** No sentence is kept exactly when no segment mentions the keyword. */
  lemma {:induction false} MatchingSentencesEmpty(segments: seq<string>, keyword: string)
    ensures MatchingSentences(segments, keyword) == [] <==> NoMention(segments, keyword)
    decreases |segments|
  {
    if |segments| > 0 {
      var tail := segments[1..];
      MatchingSentencesEmpty(tail, keyword);
      forall i | 1 <= i < |segments|
        ensures segments[i] == tail[i - 1]
      {
      }
    }
  }

  /** Every segment that mentions the keyword is kept, as a sentence. */
  lemma {:induction false} MatchingSentencesComplete(segments: seq<string>, keyword: string)
    ensures forall i :: 0 <= i < |segments| && Mentions(segments[i], keyword) ==>
      AsSentence(segments[i]) in MatchingSentences(segments, keyword)
    decreases |segments|
  {
    if |segments| > 0 {
      var tail := segments[1..];
      MatchingSentencesComplete(tail, keyword);
      forall i | 1 <= i < |segments|
        ensures segments[i] == tail[i - 1]
      {
      }
    }
  }

  /** The text is non-empty and its last character is a full stop. */
  predicate EndsWithStop(s: string) {
    |s| > 0 && s[|s| - 1] == '.'
  }

  /** Every kept sentence ends with a full stop. */
  lemma {:induction false} MatchingSentencesEndWithStop(segments: seq<string>, keyword: string)
    ensures forall j :: 0 <= j < |MatchingSentences(segments, keyword)| ==>
      EndsWithStop(MatchingSentences(segments, keyword)[j])
    decreases |segments|
  {
    if |segments| > 0 {
      var r := MatchingSentences(segments, keyword);
      var rest := MatchingSentences(segments[1..], keyword);
      MatchingSentencesEndWithStop(segments[1..], keyword);
      if Mentions(segments[0], keyword) {
        assert r == [AsSentence(segments[0])] + rest;
        assert EndsWithStop(AsSentence(segments[0]));
      } else {
        assert r == rest;
      }
    }
  }

  /** Every sentence kept comes from a segment that mentions the keyword. */
  lemma {:induction false} MatchingSentencesSound(segments: seq<string>, keyword: string, j: nat)
    requires j < |MatchingSentences(segments, keyword)|
    ensures exists i :: (0 <= i < |segments| && Mentions(segments[i], keyword)
      && MatchingSentences(segments, keyword)[j] == AsSentence(segments[i]))
    decreases |segments|
  {
    var r := MatchingSentences(segments, keyword);
    var tail := segments[1..];
    var rest := MatchingSentences(tail, keyword);
    if Mentions(segments[0], keyword) && j == 0 {
      assert r[0] == AsSentence(segments[0]);
    } else {
      var j' := if Mentions(segments[0], keyword) then j - 1 else j;
      assert r[j] == rest[j'];
      MatchingSentencesSound(tail, keyword, j');
      var i :| 0 <= i < |tail| && Mentions(tail[i], keyword) && rest[j'] == AsSentence(tail[i]);
      assert tail[i] == segments[i + 1];
    }
  }

  /** Matching is done segment by segment, so it distributes over
      concatenation: the order of the segments is kept. */
  lemma {:induction false} MatchingSentencesAppend(a: seq<string>, b: seq<string>, keyword: string)
    ensures MatchingSentences(a + b, keyword) == MatchingSentences(a, keyword) + MatchingSentences(b, keyword)
    decreases |a|
  {
    if |a| == 0 {
      assert a + b == b;
    } else {
      assert (a + b)[0] == a[0];
      assert (a + b)[1..] == a[1..] + b;
      MatchingSentencesAppend(a[1..], b, keyword);
    }
  }

  /** `lookup(text, keyword)`: the message when no `.`-separated segment
      mentions the keyword, otherwise the mentioning segments as sentences
      joined by single spaces (which then ends with a full stop). */
  function Lookup(text: string, keyword: string): (r: string)
    ensures NoMention(SplitOn(text, "."), keyword) ==> r == NoMatchMessage
    ensures !NoMention(SplitOn(text, "."), keyword) ==>
      r == JoinWith(" ", MatchingSentences(SplitOn(text, "."), keyword)) && EndsWithStop(r)
  {
    var segments := SplitOn(text, ".");
    var matching := MatchingSentences(segments, keyword);
    MatchingSentencesEmpty(segments, keyword);
    if matching == [] then NoMatchMessage
    else
      MatchingSentencesEndWithStop(segments, keyword);
      JoinEndsWithLast(matching);
      JoinWith(" ", matching)
  }

  /** A join ends with the end of its last part. */
  lemma {:induction false} JoinEndsWithLast(parts: seq<string>)
    requires |parts| > 0 && forall k :: 0 <= k < |parts| ==> EndsWithStop(parts[k])
    ensures EndsWithStop(JoinWith(" ", parts))
    decreases |parts|
  {
    if |parts| > 1 {
      JoinEndsWithLast(parts[1..]);
    }
  }

  /** Every segment of the passage that mentions the keyword appears, as a
      sentence, in the result of `lookup`. */
  lemma LookupFindsEveryMention(text: string, keyword: string, i: nat)
    requires i < |SplitOn(text, ".")| && Mentions(SplitOn(text, ".")[i], keyword)
    ensures Contains(Lookup(text, keyword), AsSentence(SplitOn(text, ".")[i]))
  {
    var segments := SplitOn(text, ".");
    var matching := MatchingSentences(segments, keyword);
    MatchingSentencesEmpty(segments, keyword);
    MatchingSentencesComplete(segments, keyword);
    var k :| 0 <= k < |matching| && matching[k] == AsSentence(segments[i]);
    JoinContainsPart(" ", matching, k);
  }

  /** Each part of a join occurs in it. */
  lemma {:induction false} JoinContainsPart(sep: string, parts: seq<string>, k: nat)
    requires k < |parts|
    ensures Contains(JoinWith(sep, parts), parts[k])
    decreases |parts|
  {
    var j := JoinWith(sep, parts);
    if |parts| == 1 {
      assert OccursAt(j, parts[k], 0);
    } else if k == 0 {
      assert j[..|parts[0]|] == parts[0];
      assert OccursAt(j, parts[k], 0);
    } else {
      JoinContainsPart(sep, parts[1..], k - 1);
      var tail := JoinWith(sep, parts[1..]);
      ContainsIffOccurs(tail, parts[k]);
      var i :| OccursAt(tail, parts[k], i);
      var off := |parts[0]| + |sep|;
      assert j == parts[0] + sep + tail;
      assert j[off + i..off + i + |parts[k]|] == tail[i..i + |parts[k]|];
      assert OccursAt(j, parts[k], off + i);
    }
    ContainsIffOccurs(j, parts[k]);
  }

  /* ---------------- search ---------------- */

  const NoContentMessage: string := "No content found on this page."

  /** What `search` answers: either the similar titles shown when no exact page
      exists (the text of that message is not modelled) or the page text. */
  datatype SearchReply =
    | SimilarTopics(entity: string, titles: seq<string>)
    | PageText(text: string)

  /** `len(p.split(" ")) > 2`: the paragraph holds at least two spaces. */
  predicate IsLongParagraph(p: string) {
    |SplitOn(p, " ")| > 2
  }

  /** The page text accumulated from the paragraphs: each long paragraph is
      cleaned and terminated by a newline unless it already ends with one. */
  function BuildPage(paragraphs: seq<string>, clean: string -> string): string
    decreases |paragraphs|
  {
    if |paragraphs| == 0 then ""
    else
      var p := paragraphs[0];
      var piece := if IsLongParagraph(p) then clean(p) + (if EndsWith(p, "\n") then "" else "\n") else "";
      piece + BuildPage(paragraphs[1..], clean)
  }

  /** The page is built paragraph by paragraph. */
  lemma {:induction false} BuildPageAppend(a: seq<string>, b: seq<string>, clean: string -> string)
    ensures BuildPage(a + b, clean) == BuildPage(a, clean) + BuildPage(b, clean)
    decreases |a|
  {
    if |a| == 0 {
      assert a + b == b;
    } else {
      assert (a + b)[0] == a[0];
      assert (a + b)[1..] == a[1..] + b;
      BuildPageAppend(a[1..], b, clean);
    }
  }

  /** A paragraph with fewer than two spaces contributes nothing to the page. */
  lemma ShortParagraphIgnored(a: seq<string>, p: string, b: seq<string>, clean: string -> string)
    requires CountChar(p, ' ') < 2
    ensures BuildPage(a + [p] + b, clean) == BuildPage(a + b, clean)
  {
    SplitOnCharCount(p, ' ');
    assert !IsLongParagraph(p);
    BuildPageAppend(a + [p], b, clean);
    BuildPageAppend(a, [p], clean);
    BuildPageAppend(a, b, clean);
    assert BuildPage([p], clean) == "";
  }

  /** The stripped non-blank pieces of `parts`, in order. */
  function NonBlankStripped(parts: seq<string>): (r: seq<string>)
    ensures |r| <= |parts|
    ensures forall k :: 0 <= k < |r| ==> |r[k]| > 0 && !IsWhitespace(r[k][0])
    decreases |parts|
  {
    if |parts| == 0 then []
    else
      var s := Strip(parts[0]);
      (if s == "" then [] else [s]) + NonBlankStripped(parts[1..])
  }

  /** What one piece contributes: itself stripped, unless that is blank. */
  function Kept(p: string): seq<string> {
    if Strip(p) == "" then [] else [Strip(p)]
  }

  /** One piece is kept, stripped, exactly when it is not blank. */
  lemma NonBlankStrippedOne(p: string)
    ensures NonBlankStripped([p]) == if Strip(p) == "" then [] else [Strip(p)]
  {
    NonBlankStrippedCons(p, []);
  }

  lemma NonBlankStrippedCons(p: string, rest: seq<string>)
    ensures NonBlankStripped([p] + rest) == Kept(p) + NonBlankStripped(rest)
  {
    assert ([p] + rest)[1..] == rest;
  }

  /** Pieces are kept or dropped one at a time, so the filter distributes
      over concatenation and keeps the order. */
  lemma {:induction false} NonBlankStrippedAppend(a: seq<string>, b: seq<string>)
    ensures NonBlankStripped(a + b) == NonBlankStripped(a) + NonBlankStripped(b)
    decreases |a|
  {
    if |a| == 0 {
      assert a + b == b;
    } else {
      var p, a' := a[0], a[1..];
      assert a == [p] + a';
      assert a + b == [p] + (a' + b);
      NonBlankStrippedCons(p, a' + b);
      NonBlankStrippedCons(p, a');
      NonBlankStrippedAppend(a', b);
      ConcatAssoc(Kept(p), NonBlankStripped(a'), NonBlankStripped(b));
    }
  }

  /** The sentences of the paragraphs: each paragraph split at ". ". */
  function SplitSentences(paragraphs: seq<string>): (r: seq<string>)
    ensures |paragraphs| > 0 ==> |r| >= |paragraphs|
    decreases |paragraphs|
  {
    if |paragraphs| == 0 then [] else SplitOn(paragraphs[0], ". ") + SplitSentences(paragraphs[1..])
  }

  /** One paragraph gives exactly its ". "-separated pieces. */
  lemma SplitSentencesOne(p: string)
    ensures SplitSentences([p]) == SplitOn(p, ". ")
  {
    assert [p][1..] == [];
    assert SplitOn(p, ". ") + [] == SplitOn(p, ". ");
  }

  /** The pieces of several paragraphs are those of each paragraph, in order. */
  lemma {:induction false} SplitSentencesAppend(a: seq<string>, b: seq<string>)
    ensures SplitSentences(a + b) == SplitSentences(a) + SplitSentences(b)
    decreases |a|
  {
    if |a| == 0 {
      assert a + b == b;
    } else {
      assert (a + b)[0] == a[0];
      assert (a + b)[1..] == a[1..] + b;
      SplitSentencesAppend(a[1..], b);
    }
  }

  /** Each piece with a full stop appended. */
  function WithStops(pieces: seq<string>): seq<string> {
    seq(|pieces|, k requires 0 <= k < |pieces| => pieces[k] + ".")
  }

  lemma WithStopsAppend(a: seq<string>, b: seq<string>)
    ensures WithStops(a + b) == WithStops(a) + WithStops(b)
  {
  }

  /** The sentences of the page, stripped, non-blank, each ending with a full stop. */
  function PageSentences(page: string): (r: seq<string>)
    ensures forall k :: 0 <= k < |r| ==> |r[k]| > 1 && !IsWhitespace(r[k][0]) && r[k][|r[k]| - 1] == '.'
  {
    var paragraphs := NonBlankStripped(SplitOn(page, "\n"));
    WithStops(NonBlankStripped(SplitSentences(paragraphs)))
  }

  /** The sentences of one line, read directly: the non-blank ". "-pieces of
      the stripped line, stripped, each with a full stop. */
  function LineSentences(line: string): seq<string> {
    WithStops(NonBlankStripped(SplitOn(Strip(line), ". ")))
  }

  /** The sentences of each line in turn. */
  function LinesSentences(lines: seq<string>): seq<string>
    decreases |lines|
  {
    if |lines| == 0 then [] else LineSentences(lines[0]) + LinesSentences(lines[1..])
  }

  /** A page of one line has that line's sentences. */
  lemma PageSentencesOfLine(line: string)
    requires '\n' !in line
    ensures PageSentences(line) == LineSentences(line)
  {
    SplitOnAbsent(line, '\n');
    NonBlankStrippedOne(line);
    if Strip(line) == "" {
      assert SplitOn("", ". ") == [""];
      NonBlankStrippedOne("");
    } else {
      SplitSentencesOne(Strip(line));
    }
  }

  /** The sentences of two pieces of page joined by a newline are those of
      the first piece followed by those of the second. */
  lemma PageSentencesAppend(a: string, b: string)
    ensures PageSentences(a + "\n" + b) == PageSentences(a) + PageSentences(b)
  {
    SplitOnAppend(a, '\n', b);
    var la, lb := SplitOn(a, "\n"), SplitOn(b, "\n");
    NonBlankStrippedAppend(la, lb);
    var pa, pb := NonBlankStripped(la), NonBlankStripped(lb);
    SplitSentencesAppend(pa, pb);
    NonBlankStrippedAppend(SplitSentences(pa), SplitSentences(pb));
    WithStopsAppend(NonBlankStripped(SplitSentences(pa)), NonBlankStripped(SplitSentences(pb)));
  }

  /** The sentences of a page are the sentences of its lines, in order. */
  lemma {:induction false} PageSentencesOfLines(lines: seq<string>)
    requires |lines| > 0 && forall i :: 0 <= i < |lines| ==> '\n' !in lines[i]
    ensures PageSentences(JoinWith("\n", lines)) == LinesSentences(lines)
    decreases |lines|
  {
    PageSentencesOfLine(lines[0]);
    LinesStep(lines);
    if |lines| > 1 {
      var rest := lines[1..];
      assert forall i :: 0 <= i < |rest| ==> rest[i] == lines[i + 1];
      PageSentencesOfLines(rest);
      PageSentencesAppend(lines[0], JoinWith("\n", rest));
    }
  }

  /** How a list of lines is joined and read: its first line, then the rest. */
  lemma LinesStep(lines: seq<string>)
    requires |lines| > 0
    ensures |lines| == 1 ==> JoinWith("\n", lines) == lines[0] && LinesSentences(lines) == LineSentences(lines[0])
    ensures |lines| > 1 ==> JoinWith("\n", lines) == lines[0] + "\n" + JoinWith("\n", lines[1..])
    ensures LinesSentences(lines) == LineSentences(lines[0]) + LinesSentences(lines[1..])
  {
    if |lines| == 1 {
      assert LineSentences(lines[0]) + [] == LineSentences(lines[0]);
    }
  }

  /** The cleaned long paragraphs, in order: the lines the page is made of. */
  function CleanedLong(paragraphs: seq<string>, clean: string -> string): seq<string>
    decreases |paragraphs|
  {
    if |paragraphs| == 0 then []
    else
      var p := paragraphs[0];
      (if IsLongParagraph(p) then [clean(p)] else []) + CleanedLong(paragraphs[1..], clean)
  }

  /** The sentences of each piece of text in turn, each piece read as a page
      of its own. */
  function PiecesSentences(pieces: seq<string>): seq<string>
    decreases |pieces|
  {
    if |pieces| == 0 then [] else PageSentences(pieces[0]) + PiecesSentences(pieces[1..])
  }

  /** Pieces that are single lines are read line by line. */
  lemma {:induction false} PiecesSentencesOfLines(lines: seq<string>)
    requires forall i :: 0 <= i < |lines| ==> '\n' !in lines[i]
    ensures PiecesSentences(lines) == LinesSentences(lines)
    decreases |lines|
  {
    if |lines| > 0 {
      PageSentencesOfLine(lines[0]);
      PiecesSentencesOfLines(lines[1..]);
    }
  }

  /** A page with no text has no sentence. */
  lemma NoSentenceInEmptyPage()
    ensures PageSentences("") == []
  {
    assert SplitOn("", "\n") == [""];
    NonBlankStrippedOne("");
  }

  /** When no paragraph ends with a newline (they are stripped), the
      sentences of the built page are those of the cleaned long paragraphs,
      each read on its own, in order. */
  lemma {:induction false} PageSentencesOfBuildPage(paragraphs: seq<string>, clean: string -> string)
    requires forall i :: 0 <= i < |paragraphs| ==> !EndsWith(paragraphs[i], "\n")
    ensures PageSentences(BuildPage(paragraphs, clean)) == PiecesSentences(CleanedLong(paragraphs, clean))
    decreases |paragraphs|
  {
    if |paragraphs| == 0 {
      NoSentenceInEmptyPage();
    } else {
      var p, rest := paragraphs[0], paragraphs[1..];
      var tail := BuildPage(rest, clean);
      PageSentencesOfBuildPage(rest, clean);
      if IsLongParagraph(p) {
        assert BuildPage(paragraphs, clean) == clean(p) + "\n" + tail;
        PageSentencesAppend(clean(p), tail);
        var lines := CleanedLong(rest, clean);
        assert ([clean(p)] + lines)[1..] == lines;
      } else {
        assert BuildPage(paragraphs, clean) == tail;
        assert CleanedLong(paragraphs, clean) == CleanedLong(rest, clean);
      }
    }
  }

  /** When, in addition, no cleaned paragraph holds a newline, each of them
      is one line of the page. */
  lemma PageSentencesOfBuildPageLines(paragraphs: seq<string>, clean: string -> string)
    requires forall i :: 0 <= i < |paragraphs| ==> !EndsWith(paragraphs[i], "\n") && '\n' !in clean(paragraphs[i])
    ensures PageSentences(BuildPage(paragraphs, clean)) == LinesSentences(CleanedLong(paragraphs, clean))
  {
    PageSentencesOfBuildPage(paragraphs, clean);
    CleanedLongNoNewline(paragraphs, clean);
    PiecesSentencesOfLines(CleanedLong(paragraphs, clean));
  }

  /** Cleaning that adds no newline leaves none in the cleaned long paragraphs. */
  lemma {:induction false} CleanedLongNoNewline(paragraphs: seq<string>, clean: string -> string)
    requires forall i :: 0 <= i < |paragraphs| ==> '\n' !in clean(paragraphs[i])
    ensures forall i :: 0 <= i < |CleanedLong(paragraphs, clean)| ==> '\n' !in CleanedLong(paragraphs, clean)[i]
    decreases |paragraphs|
  {
    if |paragraphs| > 0 {
      CleanedLongNoNewline(paragraphs[1..], clean);
    }
  }

  /** With stripped paragraphs the page is empty or ends with a newline. */
  lemma {:induction false} BuildPageEndsAtLine(paragraphs: seq<string>, clean: string -> string)
    requires forall i :: 0 <= i < |paragraphs| ==> !EndsWith(paragraphs[i], "\n")
    ensures var page := BuildPage(paragraphs, clean); page == "" || page[|page| - 1] == '\n'
    decreases |paragraphs|
  {
    if |paragraphs| > 0 {
      BuildPageEndsAtLine(paragraphs[1..], clean);
    }
  }

  /** Text that ends a line can be read apart from what follows it. */
  lemma PageSentencesAfterLine(x: string, y: string)
    requires x == "" || x[|x| - 1] == '\n'
    ensures PageSentences(x + y) == PageSentences(x) + PageSentences(y)
  {
    NoSentenceInEmptyPage();
    if x == "" {
      assert x + y == y;
    } else {
      var x' := x[..|x| - 1];
      assert x == x' + "\n" + "";
      assert x + y == x' + "\n" + y;
      PageSentencesAppend(x', y);
      PageSentencesAppend(x', "");
    }
  }

  /** `sentences[:5]`: the first five sentences, or all of them when there are fewer. */
  function FirstFive(sentences: seq<string>): (r: seq<string>)
    ensures |r| <= 5 && |r| <= |sentences| && r == sentences[..|r|]
    ensures |r| < 5 ==> r == sentences
  {
    if |sentences| >= 5 then sentences[..5] else sentences
  }

  /** The text returned for an exact page: its first five sentences (or all
      of them) in order, so it contains each of them and ends with a full
      stop; "No content found on this page." when there is none. */
  function PageSummary(paragraphs: seq<string>, clean: string -> string): (r: string)
    ensures PageSentences(BuildPage(paragraphs, clean)) == [] ==> r == NoContentMessage
    ensures PageSentences(BuildPage(paragraphs, clean)) != [] ==>
      r == JoinWith(" ", FirstFive(PageSentences(BuildPage(paragraphs, clean))))
    ensures PageSentences(BuildPage(paragraphs, clean)) != [] ==>
      (EndsWithStop(r) &&
       forall k :: 0 <= k < 5 && k < |PageSentences(BuildPage(paragraphs, clean))| ==>
         Contains(r, PageSentences(BuildPage(paragraphs, clean))[k]))
  {
    var sentences := PageSentences(BuildPage(paragraphs, clean));
    if |sentences| > 0 then
      FirstFiveJoined(sentences);
      JoinWith(" ", FirstFive(sentences))
    else NoContentMessage
  }

  /** Joining the first five of some sentences ending with full stops gives
      text that ends with a full stop and contains each of them. */
  lemma FirstFiveJoined(sentences: seq<string>)
    requires |sentences| > 0
    requires forall k :: 0 <= k < |sentences| ==> |sentences[k]| > 1 && sentences[k][|sentences[k]| - 1] == '.'
    ensures var r := JoinWith(" ", FirstFive(sentences));
      EndsWithStop(r) && forall k :: 0 <= k < 5 && k < |sentences| ==> Contains(r, sentences[k])
  {
    var first := FirstFive(sentences);
    assert forall k :: 0 <= k < |first| ==> first[k] == sentences[k];
    JoinEndsWithLast(first);
    JoinContainsAll(" ", first);
  }

  /** A join contains every one of its parts. */
  lemma JoinContainsAll(sep: string, parts: seq<string>)
    ensures forall k :: 0 <= k < |parts| ==> Contains(JoinWith(sep, parts), parts[k])
  {
    forall k | 0 <= k < |parts|
      ensures Contains(JoinWith(sep, parts), parts[k])
    {
      JoinContainsPart(sep, parts, k);
    }
  }

  /** Read in terms of the paragraphs: the summary is the first five
      sentences of the cleaned long paragraphs, in order. */
  lemma PageSummaryOfParagraphs(paragraphs: seq<string>, clean: string -> string)
    requires forall i :: 0 <= i < |paragraphs| ==> !EndsWith(paragraphs[i], "\n")
    ensures var sentences := PiecesSentences(CleanedLong(paragraphs, clean));
      PageSummary(paragraphs, clean) ==
        if sentences == [] then NoContentMessage else JoinWith(" ", FirstFive(sentences))
  {
    PageSentencesOfBuildPage(paragraphs, clean);
  }

  /** Once the leading paragraphs give five sentences, the paragraphs after
      them do not change the summary. */
  lemma PageSummaryKeepsFirstParagraphs(a: seq<string>, b: seq<string>, clean: string -> string)
    requires forall i :: 0 <= i < |a| ==> !EndsWith(a[i], "\n")
    requires |PageSentences(BuildPage(a, clean))| >= 5
    ensures PageSummary(a + b, clean) == PageSummary(a, clean)
  {
    var x, y := BuildPage(a, clean), BuildPage(b, clean);
    BuildPageAppend(a, b, clean);
    BuildPageEndsAtLine(a, clean);
    PageSentencesAfterLine(x, y);
    var s1, s2 := PageSentences(x), PageSentences(y);
    assert (s1 + s2)[..5] == s1[..5];
  }

  /** `search(entity)` once the page has been fetched: `similarTitles` are the
      titles of the search-result headings and `paragraphs` the stripped texts
      of the page's paragraphs and lists. */
  function Search(entity: string, similarTitles: seq<string>, paragraphs: seq<string>,
                  clean: string -> string): (r: SearchReply)
    ensures |similarTitles| > 0 <==> r.SimilarTopics?
    ensures r.SimilarTopics? ==> r.entity == entity && 0 < |r.titles| <= 5 && r.titles == FirstFive(similarTitles)
    ensures r.PageText? ==> r.text == PageSummary(paragraphs, clean)
  {
    if |similarTitles| > 0 then SimilarTopics(entity, FirstFive(similarTitles))
    else PageText(PageSummary(paragraphs, clean))
  }

  /** When similar titles are shown, the page content plays no part. */
  lemma SimilarTopicsIgnorePage(entity: string, similarTitles: seq<string>, p1: seq<string>, p2: seq<string>,
                                c1: string -> string, c2: string -> string)
    requires |similarTitles| > 0
    ensures Search(entity, similarTitles, p1, c1) == Search(entity, similarTitles, p2, c2)
  {
  }
}
