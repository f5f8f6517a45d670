/** `normalize_answer` from the ReAct agent use case: lower-case, drop ASCII
    punctuation, replace the standalone words "a", "an" and "the" by a space,
    and collapse whitespace. */
module Normalize {
  import opened Text

  /** The words removed by `remove_articles`. */
  predicate IsArticle(w: string) {
    w == "a" || w == "an" || w == "the"
  }

  /** The longest prefix of `s` made of word characters (`\w`). */
  function WordRun(s: string): (r: string)
    ensures |r| <= |s| && r == s[..|r|]
    ensures forall i :: 0 <= i < |r| ==> IsWordChar(r[i])
    ensures |r| < |s| ==> !IsWordChar(s[|r|])
    decreases |s|
  {
    if |s| == 0 || !IsWordChar(s[0]) then "" else [s[0]] + WordRun(s[1..])
  }

  /** `remove_punc`: every character of `string.punctuation` is dropped. */
  function RemovePunctuation(s: string): (r: string)
    ensures forall i :: 0 <= i < |r| ==> !IsPunctuation(r[i])
    ensures forall c :: c in r <==> c in s && !IsPunctuation(c)
    decreases |s|
  {
    if |s| == 0 then ""
    else if IsPunctuation(s[0]) then RemovePunctuation(s[1..])
    else [s[0]] + RemovePunctuation(s[1..])
  }

  /** Removing punctuation works character by character: the kept characters
      of `a + b` are those of `a` followed by those of `b`. */
  lemma {:induction false} RemovePunctuationAppend(a: string, b: string)
    ensures RemovePunctuation(a + b) == RemovePunctuation(a) + RemovePunctuation(b)
    decreases |a|
  {
    if |a| == 0 {
      assert a + b == b;
    } else {
      assert (a + b)[0] == a[0];
      assert (a + b)[1..] == a[1..] + b;
      RemovePunctuationAppend(a[1..], b);
    }
  }

  /** A single character is kept exactly when it is not punctuation. */
  lemma RemovePunctuationChar(c: char)
    ensures RemovePunctuation([c]) == if IsPunctuation(c) then "" else [c]
  {
  }

  /** `re.sub(r"\b(a|an|the)\b", " ", s)` scanned from the current position;
      `afterWord` says whether the character before it (in the original text)
      is a word character, which decides whether `\b` holds there. A match is
      exactly a maximal run of word characters that is an article, because the
      pattern is anchored by `\b` on both sides. */
  function RemoveArticlesFrom(s: string, afterWord: bool): string
    decreases |s|
  {
    if |s| == 0 then ""
    else if !afterWord && IsArticle(WordRun(s)) then
      " " + RemoveArticlesFrom(s[|WordRun(s)|..], true)
    else
      [s[0]] + RemoveArticlesFrom(s[1..], IsWordChar(s[0]))
  }

  /** `remove_articles`: at the start of the text `\b` holds before a word
      character. The result has no standalone article, and text without one
      is returned unchanged. */
  function RemoveArticles(s: string): (r: string)
    ensures ArticleFree(r, false)
    ensures ArticleFree(s, false) ==> r == s
  {
    RemoveArticlesResultFree(s, false);
    RemoveArticlesKeepsFree(s);
    RemoveArticlesFrom(s, false)
  }

  lemma RemoveArticlesKeepsFree(s: string)
    ensures ArticleFree(s, false) ==> RemoveArticlesFrom(s, false) == s
  {
    if ArticleFree(s, false) {
      RemoveArticlesOfFree(s, false);
    }
  }

  /** No standalone article occurs in `s`: scanning left to right, no position
      where `\b` holds starts a word run that is an article. */
  predicate ArticleFree(s: string, afterWord: bool)
    decreases |s|
  {
    |s| == 0 ||
    ((afterWord || !IsArticle(WordRun(s))) && ArticleFree(s[1..], IsWordChar(s[0])))
  }

  /** The same property stated by positions: no maximal word run is an article. */
  predicate NoStandaloneArticle(s: string) {
    forall i :: 0 <= i < |s| && (i == 0 || !IsWordChar(s[i - 1])) ==> !IsArticle(WordRun(s[i..]))
  }

  /** `normalize_answer`. */
  function NormalizeAnswer(s: string): (r: string)
    ensures forall i :: 0 <= i < |r| ==> !IsUpper(r[i]) && !IsPunctuation(r[i])
    ensures Collapsed(r)
    ensures ArticleFree(r, false)
  {
    NormalizedShape(s);
    CollapseWhitespace(RemoveArticles(RemovePunctuation(Lower(s))))
  }

  /** The three pipeline stages together establish the shape of a normalised answer. */
  lemma NormalizedShape(s: string)
    ensures var r := CollapseWhitespace(RemoveArticles(RemovePunctuation(Lower(s))));
      AllChars(r, Clean) && Collapsed(r) && ArticleFree(r, false)
  {
    var cleaned := RemovePunctuation(Lower(s));
    var noArticles := RemoveArticles(cleaned);
    CleanAfterPunctuation(s);
    RemoveArticlesChars(cleaned, false, Clean);
    CollapseKeepsChars(noArticles, Clean);
    CollapseKeepsArticleFree(noArticles);
  }

  /** Lower-casing and removing punctuation leave only clean characters. */
  lemma CleanAfterPunctuation(s: string)
    ensures AllChars(RemovePunctuation(Lower(s)), Clean)
  {
    var cleaned := RemovePunctuation(Lower(s));
    forall i | 0 <= i < |cleaned|
      ensures Clean(cleaned[i])
    {
      assert cleaned[i] in cleaned;
    }
  }

  /** The character property that lower-casing and punctuation removal establish. */
  predicate Clean(c: char) {
    !IsUpper(c) && !IsPunctuation(c)
  }

  /* ---------------- properties of the article scan ---------------- */

  /** The scan copies characters of its input or inserts spaces. */
  lemma {:induction false} RemoveArticlesChars(s: string, afterWord: bool, p: char -> bool)
    requires AllChars(s, p) && p(' ')
    ensures AllChars(RemoveArticlesFrom(s, afterWord), p)
    decreases |s|
  {
    if |s| > 0 {
      if !afterWord && IsArticle(WordRun(s)) {
        RemoveArticlesChars(s[|WordRun(s)|..], true, p);
      } else {
        RemoveArticlesChars(s[1..], IsWordChar(s[0]), p);
      }
    }
  }

  /** Inside a word the scan copies the run unchanged. */
  lemma {:induction false} WordRunAfterWord(s: string)
    ensures WordRun(RemoveArticlesFrom(s, true)) == WordRun(s)
    decreases |s|
  {
    if |s| > 0 {
      var out := RemoveArticlesFrom(s, true);
      assert out == [s[0]] + RemoveArticlesFrom(s[1..], IsWordChar(s[0]));
      if IsWordChar(s[0]) {
        WordRunAfterWord(s[1..]);
        assert out[1..] == RemoveArticlesFrom(s[1..], true);
      }
    }
  }

  /** A string that starts with a non-word character is article free
      regardless of what precedes it. */
  lemma ArticleFreeAfterNonWord(s: string)
    requires |s| > 0 && !IsWordChar(s[0])
    ensures ArticleFree(s, true) <==> ArticleFree(s, false)
  {
    assert WordRun(s) == "";
  }

  /** The output of the article scan contains no standalone article. */
  lemma {:induction false} RemoveArticlesResultFree(s: string, afterWord: bool)
    ensures ArticleFree(RemoveArticlesFrom(s, afterWord), afterWord)
    decreases |s|
  {
    if |s| > 0 {
      var out := RemoveArticlesFrom(s, afterWord);
      if !afterWord && IsArticle(WordRun(s)) {
        var w := WordRun(s);
        var rest := s[|w|..];
        var tail := RemoveArticlesFrom(rest, true);
        RemoveArticlesResultFree(rest, true);
        assert out == " " + tail;
        assert WordRun(out) == "";
        assert out[1..] == tail;
        if |rest| > 0 {
          assert tail[0] == rest[0];
          ArticleFreeAfterNonWord(tail);
        }
      } else {
        var tail := RemoveArticlesFrom(s[1..], IsWordChar(s[0]));
        RemoveArticlesResultFree(s[1..], IsWordChar(s[0]));
        assert out == [s[0]] + tail;
        assert out[1..] == tail;
        if !afterWord {
          if IsWordChar(s[0]) {
            WordRunAfterWord(s[1..]);
            assert WordRun(out) == [s[0]] + WordRun(tail);
            assert WordRun(s) == [s[0]] + WordRun(s[1..]);
          } else {
            assert WordRun(out) == "";
          }
        }
      }
    }
  }

  /** An article-free text passes through the scan unchanged. */
  lemma {:induction false} RemoveArticlesOfFree(s: string, afterWord: bool)
    requires ArticleFree(s, afterWord)
    ensures RemoveArticlesFrom(s, afterWord) == s
    decreases |s|
  {
    if |s| > 0 {
      RemoveArticlesOfFree(s[1..], IsWordChar(s[0]));
      assert s == [s[0]] + s[1..];
    }
  }

  /* ---------------- article freedom under split and join ---------------- */

  /** A word run that stops before a non-word character is unchanged by what follows. */
  lemma {:induction false} WordRunStopsAtNonWord(a: string, b: string)
    requires |b| > 0 && !IsWordChar(b[0])
    ensures WordRun(a + b) == WordRun(a)
    decreases |a|
  {
    if |a| > 0 {
      assert (a + b)[0] == a[0];
      assert (a + b)[1..] == a[1..] + b;
      WordRunStopsAtNonWord(a[1..], b);
    } else {
      assert a + b == b;
    }
  }

  /** Article freedom survives appending a text that starts with a non-word character. */
  lemma {:induction false} ArticleFreeAppend(a: string, b: string, afterWord: bool)
    requires ArticleFree(a, afterWord)
    requires |b| > 0 && !IsWordChar(b[0]) && ArticleFree(b, false)
    ensures ArticleFree(a + b, afterWord)
    decreases |a|
  {
    if |a| == 0 {
      assert a + b == b;
      ArticleFreeAfterNonWord(b);
    } else {
      WordRunStopsAtNonWord(a, b);
      assert (a + b)[0] == a[0];
      assert (a + b)[1..] == a[1..] + b;
      ArticleFreeAppend(a[1..], b, IsWordChar(a[0]));
    }
  }

  /** A suffix of an article-free text is article free. */
  lemma {:induction false} ArticleFreeSuffix(s: string, afterWord: bool, k: nat)
    requires ArticleFree(s, afterWord) && 0 < k <= |s|
    ensures ArticleFree(s[k..], IsWordChar(s[k - 1]))
    decreases k
  {
    if k > 1 {
      ArticleFreeSuffix(s[1..], IsWordChar(s[0]), k - 1);
      assert s[1..][k - 1..] == s[k..];
    }
  }

  /** A prefix of an article-free text that ends before a non-word character
      is article free. */
  lemma {:induction false} ArticleFreePrefix(s: string, afterWord: bool, k: nat)
    requires ArticleFree(s, afterWord) && k <= |s|
    requires k < |s| ==> !IsWordChar(s[k])
    ensures ArticleFree(s[..k], afterWord)
    decreases k
  {
    if k > 0 {
      if k < |s| {
        WordRunStopsAtNonWord(s[..k], s[k..]);
        assert s[..k] + s[k..] == s;
      } else {
        assert s[..k] == s;
      }
      ArticleFreePrefix(s[1..], IsWordChar(s[0]), k - 1);
      assert s[..k][1..] == s[1..][..k - 1];
    }
  }

  /** Every token of a whitespace split of an article-free text is article free. */
  lemma {:induction false} SplitWhitespaceArticleFree(s: string)
    requires ArticleFree(s, false)
    ensures forall k :: 0 <= k < |SplitWhitespace(s)| ==> ArticleFree(SplitWhitespace(s)[k], false)
    decreases |s|
  {
    var t := StripLeft(s);
    if |t| > 0 {
      StripLeftArticleFree(s);
      var w := TakeToken(t);
      var rest := t[|w|..];
      TokenAndRestArticleFree(t, w);
      SplitWhitespaceArticleFree(rest);
      var tokens := SplitWhitespace(s);
      assert tokens == [w] + SplitWhitespace(rest);
      forall k | 0 <= k < |tokens|
        ensures ArticleFree(tokens[k], false)
      {
        if k > 0 {
          assert tokens[k] == SplitWhitespace(rest)[k - 1];
        }
      }
    }
  }

  lemma StripLeftArticleFree(s: string)
    requires ArticleFree(s, false)
    ensures ArticleFree(StripLeft(s), false)
  {
    var t := StripLeft(s);
    var d := |s| - |t|;
    if d > 0 {
      ArticleFreeSuffix(s, false, d);
      assert t == s[d..];
    }
  }

  lemma TokenAndRestArticleFree(t: string, w: string)
    requires ArticleFree(t, false) && |t| > 0 && w == TakeToken(t)
    ensures ArticleFree(w, false)
    ensures ArticleFree(t[|w|..], false)
  {
    ArticleFreePrefix(t, false, |w|);
    assert t[..|w|] == w;
    var rest := t[|w|..];
    if |rest| > 0 {
      if |w| > 0 {
        ArticleFreeSuffix(t, false, |w|);
      }
      ArticleFreeAfterNonWord(rest);
    }
  }

  /** Joining article-free tokens with single spaces is article free. */
  lemma {:induction false} JoinArticleFree(tokens: seq<string>)
    requires forall k :: 0 <= k < |tokens| ==> ArticleFree(tokens[k], false)
    ensures ArticleFree(JoinWith(" ", tokens), false)
    decreases |tokens|
  {
    if |tokens| > 1 {
      var rest := JoinWith(" ", tokens[1..]);
      JoinArticleFree(tokens[1..]);
      assert ArticleFree(" " + rest, false) by {
        assert (" " + rest)[1..] == rest;
      }
      ArticleFreeAppend(tokens[0], " " + rest, false);
      assert tokens[0] + " " + rest == tokens[0] + (" " + rest);
    }
  }

  /** Collapsing whitespace keeps the characters of a text. */
  lemma CollapseKeepsChars(s: string, p: char -> bool)
    requires AllChars(s, p) && p(' ')
    ensures AllChars(CollapseWhitespace(s), p)
  {
    SplitWhitespaceChars(s, p);
    JoinChars(" ", SplitWhitespace(s), p);
  }

  /** Collapsing whitespace keeps the article freedom of a text. */
  lemma CollapseKeepsArticleFree(s: string)
    requires ArticleFree(s, false)
    ensures ArticleFree(CollapseWhitespace(s), false)
  {
    SplitWhitespaceArticleFree(s);
    JoinArticleFree(SplitWhitespace(s));
  }

  /* ---------------- the promised properties ---------------- */

  /** The recursive scan and the positional statement of article freedom agree. */
  lemma {:induction false} ArticleFreeIffNoStandalone(s: string)
    ensures ArticleFree(s, false) <==> NoStandaloneArticle(s)
  {
    ArticleFreeAt(s, false);
    if |s| > 0 {
      assert s[0..] == s;
    }
  }

  lemma {:induction false} ArticleFreeAt(s: string, afterWord: bool)
    ensures ArticleFree(s, afterWord) <==>
      (|s| > 0 && !afterWord ==> !IsArticle(WordRun(s))) &&
      forall i :: 0 < i < |s| && !IsWordChar(s[i - 1]) ==> !IsArticle(WordRun(s[i..]))
    decreases |s|
  {
    if |s| > 0 {
      ArticleFreeAt(s[1..], IsWordChar(s[0]));
      forall i | 1 < i < |s|
        ensures s[1..][i - 1..] == s[i..] && s[1..][i - 2] == s[i - 1]
      {
      }
      if !IsWordChar(s[0]) && |s| > 1 {
        assert s[1..] == s[1..][0..];
      }
    }
  }

  /** A normalised answer normalises to itself. */
  lemma NormalizeIdempotent(s: string)
    ensures NormalizeAnswer(NormalizeAnswer(s)) == NormalizeAnswer(s)
  {
    var r := NormalizeAnswer(s);
    LowerOfLowerCase(r);
    RemovePunctuationOfClean(r);
    RemoveArticlesOfFree(r, false);
    CollapsedIsFixed(r);
  }

  /** Text without punctuation passes `remove_punc` unchanged. */
  lemma {:induction false} RemovePunctuationOfClean(s: string)
    requires forall i :: 0 <= i < |s| ==> !IsPunctuation(s[i])
    ensures RemovePunctuation(s) == s
    decreases |s|
  {
    if |s| > 0 {
      RemovePunctuationOfClean(s[1..]);
      assert s == [s[0]] + s[1..];
    }
  }

  /** Text in canonical spacing is its own whitespace collapse. */
  lemma {:induction false} CollapsedIsFixed(s: string)
    requires Collapsed(s)
    ensures CollapseWhitespace(s) == s
    decreases |s|
  {
    if |s| > 0 {
      assert StripLeft(s) == s;
      var w := TakeToken(s);
      var rest := s[|w|..];
      assert SplitWhitespace(s) == [w] + SplitWhitespace(rest);
      if |rest| > 0 {
        var more := rest[1..];
        assert s[|w|] == ' ' && |w| + 1 < |s| && !IsWhitespace(s[|w| + 1]);
        assert StripLeft(rest) == more;
        assert SplitWhitespace(rest) == SplitWhitespace(more);
        CollapsedSuffix(s, |w| + 1);
        assert more == s[|w| + 1..];
        CollapsedIsFixed(more);
        assert |SplitWhitespace(more)| > 0;
        JoinCons(" ", w, SplitWhitespace(more));
        PickAt(s, |w|);
      }
    }
  }

  /** A suffix of text in canonical spacing that starts at a token is in canonical spacing. */
  lemma CollapsedSuffix(s: string, k: nat)
    requires Collapsed(s) && k < |s| && !IsWhitespace(s[k])
    ensures Collapsed(s[k..])
  {
    var t := s[k..];
    forall i | 0 <= i < |t| && IsWhitespace(t[i])
      ensures t[i] == ' ' && i + 1 < |t| && !IsWhitespace(t[i + 1])
    {
      assert t[i] == s[k + i];
    }
  }

  /* ---------------- what survives normalisation ---------------- */

  /** The words of a list that are not articles, in order. */
  function NonArticles(words: seq<string>): (r: seq<string>)
    ensures |r| <= |words|
    ensures forall k :: 0 <= k < |r| ==> !IsArticle(r[k])
    decreases |words|
  {
    if |words| == 0 then []
    else (if IsArticle(words[0]) then [] else [words[0]]) + NonArticles(words[1..])
  }

  /** Text made only of word characters and whitespace. */
  predicate WordsAndSpaces(s: string) {
    forall i :: 0 <= i < |s| ==> IsWordChar(s[i]) || IsWhitespace(s[i])
  }

  /** In such text a whitespace token is exactly a word run. */
  lemma {:induction false} TakeTokenIsWordRun(s: string)
    requires WordsAndSpaces(s)
    ensures TakeToken(s) == WordRun(s)
    decreases |s|
  {
    if |s| > 0 && IsWordChar(s[0]) {
      TakeTokenIsWordRun(s[1..]);
    }
  }

  /** After a non-word character the scan does not depend on what came before. */
  lemma ScanAfterNonWord(s: string)
    requires |s| > 0 ==> !IsWordChar(s[0])
    ensures RemoveArticlesFrom(s, true) == RemoveArticlesFrom(s, false)
  {
    if |s| > 0 {
      assert WordRun(s) == "";
    }
  }

  /** Inside a word the scan copies the word's characters. */
  lemma {:induction false} ScanCopiesWord(w: string, rest: string)
    requires |w| > 0 && forall i :: 0 <= i < |w| ==> IsWordChar(w[i])
    ensures RemoveArticlesFrom(w + rest, true) == w + RemoveArticlesFrom(rest, true)
    decreases |w|
  {
    var s := w + rest;
    assert s[0] == w[0];
    assert s[1..] == w[1..] + rest;
    if |w| > 1 {
      ScanCopiesWord(w[1..], rest);
      assert [w[0]] + (w[1..] + RemoveArticlesFrom(rest, true)) == w + RemoveArticlesFrom(rest, true);
    } else {
      assert w[1..] + rest == rest;
      assert [w[0]] == w;
    }
  }

  /** At the start of a word the scan emits one space for an article and the
      word itself otherwise, then carries on after the word. */
  lemma ScanWord(s: string)
    requires |s| > 0 && IsWordChar(s[0])
    ensures var w := WordRun(s);
      RemoveArticlesFrom(s, false) == (if IsArticle(w) then " " else w) + RemoveArticlesFrom(s[|w|..], false)
  {
    var w := WordRun(s);
    var rest := s[|w|..];
    assert |w| > 0 && s == w + rest;
    ScanAfterNonWord(rest);
    if IsArticle(w) {
      assert RemoveArticlesFrom(s, false) == " " + RemoveArticlesFrom(rest, true);
    } else {
      ScanOtherWord(s, w, rest);
    }
  }

  lemma ScanOtherWord(s: string, w: string, rest: string)
    requires |s| > 0 && IsWordChar(s[0]) && w == WordRun(s) && !IsArticle(w) && rest == s[|w|..]
    ensures RemoveArticlesFrom(s, false) == w + RemoveArticlesFrom(rest, true)
  {
    var w' := WordRun(s[1..]);
    assert w == [s[0]] + w';
    var rest' := s[1..][|w'|..];
    assert rest' == rest;
    assert s[1..] == w' + rest';
    ScanCopiesWordOrNone(w', rest');
    ConcatAssoc([s[0]], w', RemoveArticlesFrom(rest, true));
  }

  /** `ScanCopiesWord`, allowing an empty word. */
  lemma ScanCopiesWordOrNone(w: string, rest: string)
    requires forall i :: 0 <= i < |w| ==> IsWordChar(w[i])
    ensures RemoveArticlesFrom(w + rest, true) == w + RemoveArticlesFrom(rest, true)
  {
    if |w| > 0 {
      ScanCopiesWord(w, rest);
    } else {
      assert w + rest == rest;
      assert w + RemoveArticlesFrom(rest, true) == RemoveArticlesFrom(rest, true);
    }
  }

  /** The scan starts with the first character of text that starts with whitespace. */
  lemma ScanKeepsLeadingSpace(s: string)
    requires |s| > 0 && IsWhitespace(s[0])
    ensures RemoveArticlesFrom(s, false) == [s[0]] + RemoveArticlesFrom(s[1..], false)
  {
    assert WordRun(s) == "";
  }

  /** On text of word characters and whitespace, `remove_articles` followed by
      `split()` gives the words of the text that are not articles, in order. */
  lemma {:induction false} RemoveArticlesWords(s: string)
    requires WordsAndSpaces(s)
    ensures SplitWhitespace(RemoveArticles(s)) == NonArticles(SplitWhitespace(s))
    decreases |s|
  {
    if |s| > 0 {
      assert WordsAndSpaces(s[1..]) by {
        forall i | 0 <= i < |s| - 1
          ensures IsWordChar(s[1..][i]) || IsWhitespace(s[1..][i])
        {
          assert s[1..][i] == s[i + 1];
        }
      }
      if IsWhitespace(s[0]) {
        var t := RemoveArticles(s[1..]);
        ScanKeepsLeadingSpace(s);
        assert RemoveArticles(s) == [s[0]] + t;
        RemoveArticlesWords(s[1..]);
        SplitWhitespaceSkipsLeading([s[0]], t);
        PickAt(s, 0);
        SplitWhitespaceSkipsLeading([s[0]], s[1..]);
      } else {
        WordStep(s);
      }
    }
  }

  /** The step of `RemoveArticlesWords` at a word. */
  lemma {:induction false} WordStep(s: string)
    requires WordsAndSpaces(s) && |s| > 0 && IsWordChar(s[0])
    ensures SplitWhitespace(RemoveArticles(s)) == NonArticles(SplitWhitespace(s))
    decreases |s|, 0
  {
    var w := WordRun(s);
    var rest := s[|w|..];
    assert s == w + rest;
    assert |rest| > 0 ==> IsWhitespace(rest[0]);
    assert WordsAndSpaces(rest) by {
      forall i | 0 <= i < |rest|
        ensures IsWordChar(rest[i]) || IsWhitespace(rest[i])
      {
        assert rest[i] == s[|w| + i];
      }
    }
    TakeTokenIsWordRun(s);
    assert IsToken(w);
    SplitTokenThen(w, rest);
    ScanWord(s);
    RemoveArticlesWords(rest);
    var tail := RemoveArticles(rest);
    var words := SplitWhitespace(rest);
    assert SplitWhitespace(s) == [w] + words;
    NonArticlesCons(w, words);
    if IsArticle(w) {
      ArticleWordStep(RemoveArticles(s), SplitWhitespace(s), w, tail, words);
    } else {
      if |rest| > 0 {
        ScanKeepsLeadingSpace(rest);
      }
      OtherWordStep(RemoveArticles(s), SplitWhitespace(s), w, tail, words);
    }
  }

  /** The words of the output after an article are those after it. */
  lemma ArticleWordStep(r: string, ws: seq<string>, w: string, tail: string, words: seq<string>)
    requires r == " " + tail && ws == [w] + words && IsArticle(w)
    requires SplitWhitespace(tail) == NonArticles(words)
    ensures SplitWhitespace(r) == NonArticles(ws)
  {
    SplitWhitespaceSkipsLeading(" ", tail);
    NonArticlesCons(w, words);
    assert [] + NonArticles(words) == NonArticles(words);
  }

  /** The words of the output at any other word are that word, then those after it. */
  lemma OtherWordStep(r: string, ws: seq<string>, w: string, tail: string, words: seq<string>)
    requires r == w + tail && ws == [w] + words && IsToken(w) && !IsArticle(w)
    requires |tail| > 0 ==> IsWhitespace(tail[0])
    requires SplitWhitespace(tail) == NonArticles(words)
    ensures SplitWhitespace(r) == NonArticles(ws)
  {
    SplitTokenThen(w, tail);
    NonArticlesCons(w, words);
  }

  lemma NonArticlesCons(w: string, words: seq<string>)
    ensures NonArticles([w] + words) == (if IsArticle(w) then [] else [w]) + NonArticles(words)
  {
    assert ([w] + words)[1..] == words;
  }

  /** For printable ASCII text, `normalize_answer` keeps exactly the words of
      the lower-cased, punctuation-free text that are not articles, in order,
      separated by single spaces. */
  lemma NormalizeAnswerWords(s: string)
    requires forall i :: 0 <= i < |s| ==> IsWordChar(s[i]) || IsWhitespace(s[i]) || IsPunctuation(s[i])
    ensures NormalizeAnswer(s) == JoinWith(" ", NonArticles(SplitWhitespace(RemovePunctuation(Lower(s)))))
  {
    var lowered := Lower(s);
    var cleaned := RemovePunctuation(lowered);
    assert WordsAndSpaces(cleaned) by {
      forall i | 0 <= i < |cleaned|
        ensures IsWordChar(cleaned[i]) || IsWhitespace(cleaned[i])
      {
        assert cleaned[i] in cleaned;
        var j :| 0 <= j < |lowered| && lowered[j] == cleaned[i];
        assert lowered[j] == ToLower(s[j]);
      }
    }
    RemoveArticlesWords(cleaned);
  }

  /** Text of letters, digits and whitespace normalises to its lower-cased
      words that are not articles. */
  lemma NormalizePlainWords(s: string)
    requires forall i :: 0 <= i < |s| ==> (IsWordChar(s[i]) && s[i] != '_') || IsWhitespace(s[i])
    ensures NormalizeAnswer(s) == JoinWith(" ", NonArticles(SplitWhitespace(Lower(s))))
  {
    NormalizeAnswerWords(s);
    var lowered := Lower(s);
    LowerPlainHasNoPunctuation(s);
    RemovePunctuationOfClean(lowered);
  }

  /** Lower-casing letters, digits and whitespace gives no punctuation. */
  lemma LowerPlainHasNoPunctuation(s: string)
    requires forall i :: 0 <= i < |s| ==> (IsWordChar(s[i]) && s[i] != '_') || IsWhitespace(s[i])
    ensures forall i :: 0 <= i < |Lower(s)| ==> !IsPunctuation(Lower(s)[i])
  {
    forall i | 0 <= i < |Lower(s)|
      ensures !IsPunctuation(Lower(s)[i])
    {
      PlainCharLowered(s[i]);
    }
  }

  /** One character of the above. */
  lemma PlainCharLowered(c: char)
    requires (IsWordChar(c) && c != '_') || IsWhitespace(c)
    ensures !IsPunctuation(ToLower(c))
  { }
}
