/** ASCII string operations with Python `str` semantics, shared by every other
    module: case mapping, character classes, substring search, `split`, `strip`
    and `join`. Strings are sequences of ASCII characters; Unicode case mapping
    and Unicode whitespace beyond ASCII are not modelled. */
module Text {

  /* ---------------- character classes ---------------- */

  predicate IsUpper(c: char) {
    'A' <= c <= 'Z'
  }

  /** `str.lower()` on one ASCII character. */
  function ToLower(c: char): (r: char)
    ensures !IsUpper(r)
    ensures IsUpper(c) ==> r as int == c as int + 32
    ensures !IsUpper(c) ==> r == c
  {
    if IsUpper(c) then (c as int + 32) as char else c
  }

  /** The ASCII characters for which Python's `str.isspace()` holds; these are
      the separators of `str.split()` and what `str.strip()` removes. */
  predicate IsWhitespace(c: char) {
    c == ' ' || ('\t' <= c <= '\r') || ('\U{1C}' <= c <= '\U{1F}')
  }

  /** Python's `string.punctuation`, the 32 ASCII characters
      !"#$%&'()*+,-./ :;<=>?@ [\]^_` {|}~ written as their four code ranges. */
  predicate IsPunctuation(c: char) {
    ('!' <= c <= '/') || (':' <= c <= '@') || ('[' <= c <= '`') || ('{' <= c <= '~')
  }

  /** The regular-expression class `\w` restricted to ASCII. */
  predicate IsWordChar(c: char) {
    ('a' <= c <= 'z') || ('A' <= c <= 'Z') || ('0' <= c <= '9') || c == '_'
  }

  /** Every character of `s` satisfies `p`. */
  predicate AllChars(s: string, p: char -> bool) {
    forall i :: 0 <= i < |s| ==> p(s[i])
  }

  /* ---------------- case mapping ---------------- */

  /** `str.lower()`. */
  function Lower(s: string): (r: string)
    ensures |r| == |s| && forall i :: 0 <= i < |s| ==> r[i] == ToLower(s[i])
  {
    seq(|s|, i requires 0 <= i < |s| => ToLower(s[i]))
  }

  /** Lower-casing is idempotent, and a string without upper-case letters is
      its own lower-case form. */
  lemma LowerOfLowerCase(s: string)
    requires forall i :: 0 <= i < |s| ==> !IsUpper(s[i])
    ensures Lower(s) == s
  {
  }

  /* ---------------- prefixes and substrings ---------------- */

  predicate StartsWith(s: string, prefix: string) {
    |prefix| <= |s| && s[..|prefix|] == prefix
  }

  predicate EndsWith(s: string, suffix: string) {
    |suffix| <= |s| && s[|s| - |suffix|..] == suffix
  }

  /** Python's `sub in s`, by scanning the start positions left to right. */
  predicate Contains(s: string, sub: string)
    decreases |s|
  {
    StartsWith(s, sub) || (|s| > 0 && Contains(s[1..], sub))
  }

  /** `sub` occurs in `s` at position `i`. */
  predicate OccursAt(s: string, sub: string, i: int) {
    0 <= i && i + |sub| <= |s| && s[i..i + |sub|] == sub
  }

  /** The scanning definition of `Contains` agrees with the positional one. */
  lemma {:induction false} ContainsIffOccurs(s: string, sub: string)
    ensures Contains(s, sub) <==> exists i :: OccursAt(s, sub, i)
    decreases |s|
  {
    if StartsWith(s, sub) {
      assert OccursAt(s, sub, 0);
    } else if |s| == 0 {
    } else {
      ContainsIffOccurs(s[1..], sub);
      if Contains(s[1..], sub) {
        var i :| OccursAt(s[1..], sub, i);
        assert s[1..][i..i + |sub|] == s[i + 1..i + 1 + |sub|];
        assert OccursAt(s, sub, i + 1);
      }
      if exists i :: OccursAt(s, sub, i) {
        var i :| OccursAt(s, sub, i);
        assert s[1..][i - 1..i - 1 + |sub|] == s[i..i + |sub|];
        assert OccursAt(s[1..], sub, i - 1);
      }
    }
  }

  /* ---------------- split and join ---------------- */

  /** Python's `s.split(sep)` for a non-empty separator: the separator's
      occurrences are found left to right without overlap, and empty pieces
      are kept. */
  function SplitOn(s: string, sep: string): (parts: seq<string>)
    requires |sep| > 0
    ensures |parts| >= 1
    decreases |s|
  {
    if |s| < |sep| then [s]
    else if s[..|sep|] == sep then [""] + SplitOn(s[|sep|..], sep)
    else
      var rest := SplitOn(s[1..], sep);
      [[s[0]] + rest[0]] + rest[1..]
  }

  /** Python's `sep.join(parts)`. */
  function JoinWith(sep: string, parts: seq<string>): string
    decreases |parts|
  {
    if |parts| == 0 then ""
    else if |parts| == 1 then parts[0]
    else parts[0] + sep + JoinWith(sep, parts[1..])
  }

  /** Concatenation is associative. */
  lemma ConcatAssoc<T>(a: seq<T>, b: seq<T>, c: seq<T>)
    ensures a + (b + c) == (a + b) + c
  {
  }

  /** A sequence is its prefix, the element at `k` and its suffix. */
  lemma PickAt<T>(s: seq<T>, k: nat)
    requires k < |s|
    ensures s == s[..k] + [s[k]] + s[k + 1..]
  {
  }

  /** Joining a list of at least two parts puts the separator after the first. */
  lemma JoinCons(sep: string, x: string, rest: seq<string>)
    requires |rest| > 0
    ensures JoinWith(sep, [x] + rest) == x + sep + JoinWith(sep, rest)
  {
    assert ([x] + rest)[1..] == rest;
  }

  /** Joining the pieces of a split with the same separator gives back the
      original string. */
  lemma {:induction false} JoinSplitOn(s: string, sep: string)
    requires |sep| > 0
    ensures JoinWith(sep, SplitOn(s, sep)) == s
    decreases |s|
  {
    if |s| < |sep| {
    } else if s[..|sep|] == sep {
      var rest := SplitOn(s[|sep|..], sep);
      JoinSplitOn(s[|sep|..], sep);
      assert SplitOn(s, sep) == [""] + rest;
      JoinCons(sep, "", rest);
      assert "" + sep + s[|sep|..] == s;
    } else {
      var rest := SplitOn(s[1..], sep);
      JoinSplitOn(s[1..], sep);
      JoinExtendFirst(s[0], sep, rest);
      assert s == [s[0]] + s[1..];
    }
  }

  /** Prepending a character to the first part prepends it to the join. */
  lemma JoinExtendFirst(c: char, sep: string, parts: seq<string>)
    requires |parts| >= 1
    ensures JoinWith(sep, [[c] + parts[0]] + parts[1..]) == [c] + JoinWith(sep, parts)
  {
    var ext := [[c] + parts[0]] + parts[1..];
    if |parts| > 1 {
      assert ext[1..] == parts[1..];
    }
  }

  /** No piece of a split contains the separator. */
  lemma {:induction false} SplitOnPiecesAvoidSeparator(s: string, sep: string)
    requires |sep| > 0
    ensures forall k :: 0 <= k < |SplitOn(s, sep)| ==> !Contains(SplitOn(s, sep)[k], sep)
    decreases |s|
  {
    var parts := SplitOn(s, sep);
    if |s| < |sep| {
      NoRoomNoOccurrence(s, sep);
    } else if s[..|sep|] == sep {
      SplitOnPiecesAvoidSeparator(s[|sep|..], sep);
      NoRoomNoOccurrence("", sep);
      assert parts[0] == "";
      forall k | 1 <= k < |parts|
        ensures !Contains(parts[k], sep)
      {
        assert parts[k] == SplitOn(s[|sep|..], sep)[k - 1];
      }
    } else {
      var rest := SplitOn(s[1..], sep);
      SplitOnPiecesAvoidSeparator(s[1..], sep);
      SplitOnFirstIsPrefix(s[1..], sep);
      var first := [s[0]] + rest[0];
      assert first[1..] == rest[0];
      assert !Contains(first, sep);
      forall k | 1 <= k < |parts|
        ensures !Contains(parts[k], sep)
      {
        assert parts[k] == rest[k];
      }
    }
  }

  /** A string shorter than `sep` cannot contain it. */
  lemma {:induction false} NoRoomNoOccurrence(s: string, sep: string)
    requires |s| < |sep|
    ensures !Contains(s, sep)
    decreases |s|
  {
    if |s| > 0 {
      NoRoomNoOccurrence(s[1..], sep);
    }
  }

  /** The first piece of a split is a prefix of the split string. */
  lemma {:induction false} SplitOnFirstIsPrefix(s: string, sep: string)
    requires |sep| > 0
    ensures StartsWith(s, SplitOn(s, sep)[0])
    decreases |s|
  {
    if |s| < |sep| {
    } else if s[..|sep|] == sep {
    } else {
      SplitOnFirstIsPrefix(s[1..], sep);
    }
  }

  /** A text without the separator is a single piece. */
  lemma {:induction false} SplitOnAbsent(s: string, c: char)
    requires c !in s
    ensures SplitOn(s, [c]) == [s]
    decreases |s|
  {
    if |s| > 0 {
      assert s[..1] != [c] by { assert s[..1][0] == s[0]; }
      assert c !in s[1..] by {
        forall k | 0 <= k < |s| - 1
          ensures s[1..][k] != c
        {
          assert s[1..][k] == s[k + 1];
        }
      }
      SplitOnAbsent(s[1..], c);
      assert [s[0]] + s[1..] == s;
    }
  }

  /** Splitting on a one-character separator distributes over a join at
      that separator: the pieces of each side, in order. */
  lemma {:induction false} SplitOnAppend(a: string, c: char, b: string)
    ensures SplitOn(a + [c] + b, [c]) == SplitOn(a, [c]) + SplitOn(b, [c])
    decreases |a|
  {
    var s := a + [c] + b;
    if |a| == 0 {
      assert s == [c] + b;
      assert s[..1] == [c];
      assert s[1..] == b;
    } else if a[0] == c {
      assert s[..1] == [c];
      assert s[1..] == a[1..] + [c] + b;
      assert a[..1] == [c];
      SplitOnAppend(a[1..], c, b);
      ConcatAssoc([""], SplitOn(a[1..], [c]), SplitOn(b, [c]));
    } else {
      assert s[..1] != [c] by { assert s[..1][0] == a[0]; }
      assert a[..1] != [c] by { assert a[..1][0] == a[0]; }
      assert s[1..] == a[1..] + [c] + b;
      SplitOnAppend(a[1..], c, b);
      var left := SplitOn(a[1..], [c]);
      var rest := left + SplitOn(b, [c]);
      assert rest[0] == left[0];
      assert rest[1..] == left[1..] + SplitOn(b, [c]);
      assert SplitOn(s, [c]) == [[a[0]] + rest[0]] + rest[1..];
      assert SplitOn(a, [c]) == [[a[0]] + left[0]] + left[1..];
      ConcatAssoc([[a[0]] + left[0]], left[1..], SplitOn(b, [c]));
    }
  }

  /** The number of occurrences of the character `c` in `s`. */
  function CountChar(s: string, c: char): nat
    decreases |s|
  {
    if |s| == 0 then 0 else (if s[0] == c then 1 else 0) + CountChar(s[1..], c)
  }

  /** Splitting on a one-character separator yields one piece more than the
      separator occurs. */
  lemma {:induction false} SplitOnCharCount(s: string, c: char)
    ensures |SplitOn(s, [c])| == CountChar(s, c) + 1
    decreases |s|
  {
    if |s| == 0 {
    } else {
      SplitOnCharCount(s[1..], c);
      assert s[..1] == [s[0]];
    }
  }

  /* ---------------- strip and whitespace split ---------------- */

  /** `str.lstrip()`. */
  function StripLeft(s: string): (r: string)
    ensures |r| <= |s| && r == s[|s| - |r|..]
    ensures |r| > 0 ==> !IsWhitespace(r[0])
    ensures forall i :: 0 <= i < |s| - |r| ==> IsWhitespace(s[i])
    decreases |s|
  {
    if |s| > 0 && IsWhitespace(s[0]) then StripLeft(s[1..]) else s
  }

  /** `str.rstrip()`. */
  function StripRight(s: string): (r: string)
    ensures |r| <= |s| && r == s[..|r|]
    ensures |r| > 0 ==> !IsWhitespace(r[|r| - 1])
    ensures forall i :: |r| <= i < |s| ==> IsWhitespace(s[i])
    decreases |s|
  {
    if |s| > 0 && IsWhitespace(s[|s| - 1]) then StripRight(s[..|s| - 1]) else s
  }

  /** `str.strip()`: neither end of the result is whitespace. */
  function Strip(s: string): (r: string)
    ensures |r| > 0 ==> !IsWhitespace(r[0]) && !IsWhitespace(r[|r| - 1])
  {
    StripRight(StripLeft(s))
  }

  /** What `strip` removes: `s` is a whitespace prefix `a`, the result, and
      a whitespace suffix `b`. */
  lemma StripParts(s: string) returns (a: string, b: string)
    ensures s == a + Strip(s) + b && AllWhitespace(a) && AllWhitespace(b)
  {
    var l := StripLeft(s);
    var r := StripRight(l);
    StripLeftParts(s);
    StripRightParts(l);
    a, b := s[..|s| - |l|], l[|r|..];
    assert s == a + (r + b);
    ConcatAssoc(a, r, b);
  }

  /** `lstrip` removes a whitespace prefix. */
  lemma StripLeftParts(s: string)
    ensures var l := StripLeft(s);
      s == s[..|s| - |l|] + l && AllWhitespace(s[..|s| - |l|])
  {
    var l := StripLeft(s);
    var head := s[..|s| - |l|];
    forall k | 0 <= k < |head|
      ensures IsWhitespace(head[k])
    {
      assert head[k] == s[k];
    }
  }

  /** `rstrip` removes a whitespace suffix. */
  lemma StripRightParts(l: string)
    ensures var r := StripRight(l);
      l == r + l[|r|..] && AllWhitespace(l[|r|..])
  {
    var r := StripRight(l);
    var tail := l[|r|..];
    forall k | 0 <= k < |tail|
      ensures IsWhitespace(tail[k])
    {
      assert tail[k] == l[|r| + k];
    }
  }

  /** Every character of `w` is whitespace. */
  predicate AllWhitespace(w: string) {
    forall i :: 0 <= i < |w| ==> IsWhitespace(w[i])
  }

  /** Stripping leaves nothing exactly when the text is all whitespace. */
  lemma StripEmpty(s: string)
    ensures Strip(s) == [] <==> forall i :: 0 <= i < |s| ==> IsWhitespace(s[i])
  {
    var l := StripLeft(s);
    if |l| > 0 {
      assert !IsWhitespace(s[|s| - |l|]);
    }
  }

  /** The longest prefix of `s` without whitespace. */
  function TakeToken(s: string): (r: string)
    ensures |r| <= |s| && r == s[..|r|]
    ensures forall i :: 0 <= i < |r| ==> !IsWhitespace(r[i])
    ensures |r| < |s| ==> IsWhitespace(s[|r|])
    decreases |s|
  {
    if |s| == 0 || IsWhitespace(s[0]) then "" else [s[0]] + TakeToken(s[1..])
  }

  /** A token of `str.split()`: non-empty and free of whitespace. */
  predicate IsToken(t: string) {
    |t| > 0 && forall i :: 0 <= i < |t| ==> !IsWhitespace(t[i])
  }

  /** Python's `s.split()` with no argument: the maximal runs of
      non-whitespace characters, in order. */
  function SplitWhitespace(s: string): (tokens: seq<string>)
    ensures forall k :: 0 <= k < |tokens| ==> IsToken(tokens[k])
    decreases |s|
  {
    var t := StripLeft(s);
    if |t| == 0 then []
    else
      var w := TakeToken(t);
      [w] + SplitWhitespace(t[|w|..])
  }

  /** A string in canonical spacing: no leading or trailing whitespace, and
      every whitespace character is a single space followed by a
      non-whitespace character. */
  predicate Collapsed(s: string) {
    && (|s| > 0 ==> !IsWhitespace(s[0]))
    && forall i :: 0 <= i < |s| && IsWhitespace(s[i]) ==>
         s[i] == ' ' && i + 1 < |s| && !IsWhitespace(s[i + 1])
  }

  /** Joining tokens with single spaces gives a string in canonical spacing. */
  lemma {:induction false} JoinTokensCollapsed(tokens: seq<string>)
    requires forall k :: 0 <= k < |tokens| ==> IsToken(tokens[k])
    ensures Collapsed(JoinWith(" ", tokens))
    decreases |tokens|
  {
    if |tokens| > 1 {
      var rest := JoinWith(" ", tokens[1..]);
      JoinTokensCollapsed(tokens[1..]);
      var t := tokens[0];
      var s := t + " " + rest;
      assert rest[0] == tokens[1][0] by {
        JoinStartsWithFirst(tokens[1..]);
      }
      forall i | 0 <= i < |s| && IsWhitespace(s[i])
        ensures s[i] == ' ' && i + 1 < |s| && !IsWhitespace(s[i + 1])
      {
        if i == |t| {
          assert s[i + 1] == rest[0];
        } else if i > |t| {
          assert s[i] == rest[i - |t| - 1];
          assert s[i + 1] == rest[i - |t|];
        }
      }
    }
  }

  /** A join of tokens starts with the first token's first character. */
  lemma JoinStartsWithFirst(tokens: seq<string>)
    requires |tokens| > 0 && |tokens[0]| > 0
    ensures |JoinWith(" ", tokens)| > 0 && JoinWith(" ", tokens)[0] == tokens[0][0]
  {
  }

  /** Leading whitespace does not change the whitespace split. */
  lemma SplitWhitespaceSkipsLeading(w: string, s: string)
    requires forall i :: 0 <= i < |w| ==> IsWhitespace(w[i])
    ensures SplitWhitespace(w + s) == SplitWhitespace(s)
  {
    assert StripLeft(w + s) == StripLeft(s) by {
      StripLeftPastWhitespace(w, s);
    }
  }

  lemma {:induction false} StripLeftPastWhitespace(w: string, s: string)
    requires forall i :: 0 <= i < |w| ==> IsWhitespace(w[i])
    ensures StripLeft(w + s) == StripLeft(s)
    decreases |w|
  {
    if |w| > 0 {
      assert (w + s)[0] == w[0];
      assert (w + s)[1..] == w[1..] + s;
      StripLeftPastWhitespace(w[1..], s);
    } else {
      assert w + s == s;
    }
  }

  /** Splitting a single-space join of tokens recovers the tokens. */
  lemma {:induction false} SplitJoinTokens(tokens: seq<string>)
    requires forall k :: 0 <= k < |tokens| ==> IsToken(tokens[k])
    ensures SplitWhitespace(JoinWith(" ", tokens)) == tokens
    decreases |tokens|
  {
    if |tokens| == 1 {
      SplitTokenThen(tokens[0], "");
      assert tokens[0] + "" == tokens[0];
    } else if |tokens| > 1 {
      var tail := tokens[1..];
      SplitJoinCons(tokens);
      SplitJoinTokens(tail);
      ConsEqual(SplitWhitespace(JoinWith(" ", tokens)), tokens, tokens[0], tail);
    }
  }

  /** Two sequences with the same head and tail are equal. */
  lemma ConsEqual<T>(a: seq<T>, b: seq<T>, x: T, r: seq<T>)
    requires a == [x] + r && |b| > 0 && b[0] == x && b[1..] == r
    ensures a == b
  {
    assert b == [b[0]] + b[1..];
  }

  /** The first token of a join is split off first. */
  lemma SplitJoinCons(tokens: seq<string>)
    requires |tokens| > 1 && IsToken(tokens[0])
    ensures SplitWhitespace(JoinWith(" ", tokens)) == [tokens[0]] + SplitWhitespace(JoinWith(" ", tokens[1..]))
  {
    var rest := JoinWith(" ", tokens[1..]);
    assert JoinWith(" ", tokens) == tokens[0] + " " + rest;
    SplitTokenSpace(tokens[0], rest);
  }

  /** A token followed by a space is split off first. */
  lemma SplitTokenSpace(t: string, rest: string)
    requires IsToken(t)
    ensures SplitWhitespace(t + " " + rest) == [t] + SplitWhitespace(rest)
  {
    assert t + " " + rest == t + (" " + rest);
    SplitTokenThen(t, " " + rest);
    SplitWhitespaceSkipsLeading(" ", rest);
  }

  /** A token followed by whitespace (or nothing) is split off first. */
  lemma SplitTokenThen(t: string, rest: string)
    requires IsToken(t) && (|rest| > 0 ==> IsWhitespace(rest[0]))
    ensures SplitWhitespace(t + rest) == [t] + SplitWhitespace(rest)
  {
    var s := t + rest;
    assert s[0] == t[0];
    assert StripLeft(s) == s;
    TakeTokenOfJoin(t, rest);
    assert s[|t|..] == rest;
  }

  lemma {:induction false} TakeTokenOfJoin(t: string, rest: string)
    requires forall i :: 0 <= i < |t| ==> !IsWhitespace(t[i])
    requires |rest| > 0 ==> IsWhitespace(rest[0])
    ensures TakeToken(t + rest) == t
    decreases |t|
  {
    if |t| > 0 {
      assert (t + rest)[1..] == t[1..] + rest;
      TakeTokenOfJoin(t[1..], rest);
    }
  }

  /** Python's `" ".join(s.split())`. */
  function CollapseWhitespace(s: string): (r: string)
    ensures Collapsed(r)
    ensures SplitWhitespace(r) == SplitWhitespace(s)
  {
    JoinTokensCollapsed(SplitWhitespace(s));
    SplitJoinTokens(SplitWhitespace(s));
    JoinWith(" ", SplitWhitespace(s))
  }

  /* ---------------- character preservation ---------------- */

  /** Tokens of a whitespace split consist of characters of the split string. */
  lemma {:induction false} SplitWhitespaceChars(s: string, p: char -> bool)
    requires AllChars(s, p)
    ensures forall k :: 0 <= k < |SplitWhitespace(s)| ==> AllChars(SplitWhitespace(s)[k], p)
    decreases |s|
  {
    var t := StripLeft(s);
    if |t| > 0 {
      var w := TakeToken(t);
      var rest := t[|w|..];
      AllCharsSlice(s, |s| - |t|, |s|, p);
      AllCharsSlice(t, 0, |w|, p);
      AllCharsSlice(t, |w|, |t|, p);
      SplitWhitespaceChars(rest, p);
      SplitWhitespaceCons(s, w, rest);
      AllCharsCons(w, SplitWhitespace(rest), p);
      var ws := SplitWhitespace(s);
      assert ws == [w] + SplitWhitespace(rest);
    }
  }

  /** A slice of a string of characters satisfying `p` satisfies `p`. */
  lemma AllCharsSlice(s: string, i: nat, j: nat, p: char -> bool)
    requires i <= j <= |s| && AllChars(s, p)
    ensures AllChars(s[i..j], p)
  {
    forall k | 0 <= k < j - i ensures p(s[i..j][k]) {
      assert s[i..j][k] == s[i + k];
    }
  }

  /** The whitespace split of a string whose first token is `w`. */
  lemma SplitWhitespaceCons(s: string, w: string, rest: string)
    requires |StripLeft(s)| > 0 && w == TakeToken(StripLeft(s))
    requires rest == StripLeft(s)[|w|..]
    ensures SplitWhitespace(s) == [w] + SplitWhitespace(rest)
  { }

  /** Adding a token of characters satisfying `p` to tokens of such characters. */
  lemma AllCharsCons(w: string, ws: seq<string>, p: char -> bool)
    requires AllChars(w, p)
    requires forall k :: 0 <= k < |ws| ==> AllChars(ws[k], p)
    ensures forall k :: 0 <= k < |[w] + ws| ==> AllChars(([w] + ws)[k], p)
  {
    forall k | 0 <= k < |[w] + ws| ensures AllChars(([w] + ws)[k], p) {
      if k > 0 { assert ([w] + ws)[k] == ws[k - 1]; }
    }
  }

  /** A join consists of characters of the parts and of the separator. */
  lemma {:induction false} JoinChars(sep: string, parts: seq<string>, p: char -> bool)
    requires AllChars(sep, p)
    requires forall k :: 0 <= k < |parts| ==> AllChars(parts[k], p)
    ensures AllChars(JoinWith(sep, parts), p)
    decreases |parts|
  {
    if |parts| > 1 {
      JoinChars(sep, parts[1..], p);
    }
  }
}
