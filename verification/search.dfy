/** The folder search box of both the home page and the gallery page: a
    folder name matches when its lower-cased form, or the string of its word
    initials, contains the trimmed, lower-cased search term. */
module Search {
  import opened Text
  import opened Sequences

  /** `s.split(/\s+/)`: the pieces between whitespace runs. A leading or
      trailing run yields an empty first or last piece, and the empty string
      yields one empty piece. */
  function SplitWords(s: string): (r: seq<string>)
    ensures |r| > 0
    ensures forall k :: 0 <= k < |r| ==> forall i :: 0 <= i < |r[k]| ==> !IsWhitespace(r[k][i])
    decreases |s|
  {
    var word := TakeWhile(s, IsWordChar);
    if |word| == |s| then [s]
    else [word] + SplitWords(DropWhile(s[|word|..], IsWhitespace))
  }

  predicate IsWordChar(c: char) {
    !IsWhitespace(c)
  }

  /** `words.join(sep)`. */
  function JoinWords(words: seq<string>, sep: char): string
    decreases |words|
  {
    if |words| == 0 then []
    else if |words| == 1 then words[0]
    else words[0] + [sep] + JoinWords(words[1..], sep)
  }

  /** The pieces are the text with every whitespace run cut out: joined with
      single spaces they give the text with each run collapsed to one space.
      As no piece holds whitespace, this fixes the pieces. */
  lemma {:induction false} SplitWordsJoin(s: string)
    ensures JoinWords(SplitWords(s), ' ') == CollapseRuns(s, IsWhitespace, ' ')
    decreases |s|
  {
    var word := TakeWhile(s, IsWordChar);
    if |word| == |s| {
      assert word == s && s + [] == s;
      CollapseRunsByCharacter(s, IsWhitespace, ' ');
      CollapseFromKeepsWord(s, [], IsWhitespace, ' ');
    } else {
      var t := s[|word|..];
      var rest := DropWhile(t, IsWhitespace);
      assert s == word + t && IsWhitespace(t[0]);
      assert SplitWords(s) == [word] + SplitWords(rest);
      SplitWordsJoin(rest);
      JoinAfterWord(s, word, t, rest, SplitWords(rest));
    }
  }

  /** One step of `SplitWordsJoin`: a word, a whitespace run, and the rest. */
  lemma JoinAfterWord(s: string, word: string, t: string, rest: string, words: seq<string>)
    requires s == word + t && |t| > 0 && IsWhitespace(t[0])
    requires forall i :: 0 <= i < |word| ==> !IsWhitespace(word[i])
    requires rest == DropWhile(t, IsWhitespace)
    requires |words| > 0 && JoinWords(words, ' ') == CollapseRuns(rest, IsWhitespace, ' ')
    ensures JoinWords([word] + words, ' ') == CollapseRuns(s, IsWhitespace, ' ')
  {
    CollapseRunsByCharacter(s, IsWhitespace, ' ');
    CollapseRunsByCharacter(rest, IsWhitespace, ' ');
    CollapseAfterWord(s, word, t, rest);
    JoinCons(word, words, ' ');
  }

  lemma JoinCons(word: string, words: seq<string>, sep: char)
    requires |words| > 0
    ensures JoinWords([word] + words, sep) == word + [sep] + JoinWords(words, sep)
  {
    assert ([word] + words)[1..] == words;
  }

  /** A word, then a whitespace run, then the rest: the word, one space, and
      the rest read from its start. */
  lemma CollapseAfterWord(s: string, word: string, t: string, rest: string)
    requires s == word + t && |t| > 0 && IsWhitespace(t[0])
    requires forall i :: 0 <= i < |word| ==> !IsWhitespace(word[i])
    requires rest == DropWhile(t, IsWhitespace)
    ensures CollapseFrom(s, IsWhitespace, ' ', false) == word + [' '] + CollapseFrom(rest, IsWhitespace, ' ', false)
  {
    CollapseFromKeepsWord(word, t, IsWhitespace, ' ');
    DropWhileStep(t, IsWhitespace);
    SkipRun(t[1..], IsWhitespace, ' ');
    assert CollapseFrom(t, IsWhitespace, ' ', false) == [' '] + CollapseFrom(t[1..], IsWhitespace, ' ', true);
  }

  /** `word.charAt(0).toLowerCase()`. */
  function Initial(word: string): string {
    if |word| == 0 then "" else [LowerChar(word[0])]
  }

  /** `getFirstLetters`: the lower-cased first character of every word, in order. */
  function FirstLetters(text: string): string {
    ConcatInitials(SplitWords(text))
  }

  function ConcatInitials(words: seq<string>): string
    decreases |words|
  {
    if |words| == 0 then "" else Initial(words[0]) + ConcatInitials(words[1..])
  }

  /** The reference reading of the initials, one character at a time: a
      character that is not whitespace contributes its lower-cased form when
      it starts the text or follows whitespace. */
  function InitialsFrom(s: string, atWordStart: bool): string
    decreases |s|
  {
    if |s| == 0 then ""
    else if IsWhitespace(s[0]) then InitialsFrom(s[1..], true)
    else (if atWordStart then [LowerChar(s[0])] else "") + InitialsFrom(s[1..], false)
  }

  /** Inside a word nothing is contributed. */
  lemma {:induction false} InitialsInsideWord(word: string, rest: string)
    requires forall i :: 0 <= i < |word| ==> !IsWhitespace(word[i])
    ensures InitialsFrom(word + rest, false) == InitialsFrom(rest, false)
    decreases |word|
  {
    if |word| > 0 {
      assert (word + rest)[1..] == word[1..] + rest;
      InitialsInsideWord(word[1..], rest);
    } else {
      assert word + rest == rest;
    }
  }

  /** A whitespace run resets to the start of a word. */
  lemma {:induction false} InitialsAfterSpace(run: string, rest: string, atWordStart: bool)
    requires |run| > 0 && forall i :: 0 <= i < |run| ==> IsWhitespace(run[i])
    ensures InitialsFrom(run + rest, atWordStart) == InitialsFrom(rest, true)
    decreases |run|
  {
    assert (run + rest)[1..] == run[1..] + rest;
    if |run| > 1 {
      InitialsAfterSpace(run[1..], rest, true);
    } else {
      assert run[1..] + rest == rest;
    }
  }

  /** The initials of a word followed by more text. */
  lemma InitialsOfWord(word: string, rest: string)
    requires forall i :: 0 <= i < |word| ==> !IsWhitespace(word[i])
    ensures InitialsFrom(word + rest, true) == Initial(word) + InitialsFrom(rest, |word| == 0)
  {
    if |word| > 0 {
      assert (word + rest)[0] == word[0];
      assert (word + rest)[1..] == word[1..] + rest;
      InitialsInsideWord(word[1..], rest);
    } else {
      assert word + rest == rest;
    }
  }

  /** Splitting into words and taking initials is the character-level reading. */
  lemma {:induction false} FirstLettersByCharacter(s: string)
    ensures FirstLetters(s) == InitialsFrom(s, true)
    decreases |s|
  {
    var word := TakeWhile(s, IsWordChar);
    if |word| == |s| {
      SingleWord(s);
    } else {
      var rest := DropWhile(s[|word|..], IsWhitespace);
      var run := SplitPieces(s, word, rest);
      FirstLettersByCharacter(rest);
      InitialsOfWord(word, run + rest);
      InitialsAfterSpace(run, rest, |word| == 0);
      ConcatFirst(word, SplitWords(rest));
    }
  }

  /** A text without whitespace is one word. */
  lemma SingleWord(s: string)
    requires |TakeWhile(s, IsWordChar)| == |s|
    ensures FirstLetters(s) == InitialsFrom(s, true)
  {
    assert SplitWords(s) == [s];
    assert s + "" == s;
    InitialsOfWord(s, "");
    assert InitialsFrom("", false) == "";
    ConcatFirst(s, []);
    assert [s] + [] == [s];
  }

  /** A text that does not end inside its first word is that word, a
      whitespace run, and the rest. */
  lemma SplitPieces(s: string, word: string, rest: string) returns (run: string)
    requires word == TakeWhile(s, IsWordChar) && |word| < |s|
    requires rest == DropWhile(s[|word|..], IsWhitespace)
    ensures s == word + (run + rest)
    ensures |run| > 0 && forall i :: 0 <= i < |run| ==> IsWhitespace(run[i])
  {
    var tail := s[|word|..];
    run := tail[..|tail| - |rest|];
    assert tail == run + rest;
    assert s == word + tail;
  }

  lemma ConcatFirst(word: string, words: seq<string>)
    ensures ConcatInitials([word] + words) == Initial(word) + ConcatInitials(words)
  {
    assert ([word] + words)[1..] == words;
  }

  /** The search term after `toLowerCase().trim()`. */
  function NormalizeTerm(raw: string): string {
    Trim(Lower(raw))
  }

  /** The test `searchFolders` applies to one folder name. */
  predicate Matches(name: string, term: string) {
    Contains(Lower(name), term) || Contains(FirstLetters(name), term)
  }

  /** `searchFolders`: the folders matching the normalized term, in their
      original order. */
  function SearchFolders(all: seq<string>, raw: string): (r: seq<string>)
    ensures forall name :: name in r <==> name in all && Matches(name, NormalizeTerm(raw))
    ensures |r| <= |all|
    ensures NormalizeTerm(raw) == [] ==> r == all
  {
    var term := NormalizeTerm(raw);
    EmptyTermMatches(all);
    Filter(all, name => Matches(name, term))
  }

  /** Every name contains the empty term. */
  lemma EmptyTermMatches(all: seq<string>)
    ensures forall i :: 0 <= i < |all| ==> Matches(all[i], [])
  {
    forall i | 0 <= i < |all| ensures Matches(all[i], []) {
      ContainsEmpty(Lower(all[i]));
    }
  }

  /** The result keeps the relative order of the folder list. */
  lemma SearchKeepsOrder(all: seq<string>, raw: string)
    ensures IsSubsequence(SearchFolders(all, raw), all)
  {
    FilterIsSubsequence(all, name => Matches(name, NormalizeTerm(raw)));
  }

  /** A term made only of whitespace, or empty, lists every folder. */
  lemma BlankTermListsAll(all: seq<string>, raw: string)
    requires forall i :: 0 <= i < |raw| ==> IsWhitespace(raw[i])
    ensures SearchFolders(all, raw) == all
  {
    forall i | 0 <= i < |raw| ensures IsWhitespace(Lower(raw)[i]) {
    }
  }
}
