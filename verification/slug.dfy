/** `createSlug` of the catalog builder: the URL key of a folder, made by
    lower-casing, stripping diacritics, keeping `[a-z0-9]`, whitespace and
    hyphens, trimming, and turning whitespace and hyphen runs into single
    hyphens. */
module Slug {
  import opened Text
  import opened Sequences

  const SmallDStroke: char := '\U{111}'
  const CapitalDStroke: char := '\U{110}'

  /** The characters the filter step keeps: the class `[a-z0-9\s-]`. */
  predicate IsKept(c: char) {
    IsAsciiLowerLetter(c) || IsAsciiDigit(c) || IsWhitespace(c) || IsHyphen(c)
  }

  predicate IsAlphanumeric(c: char) {
    IsAsciiLowerLetter(c) || IsAsciiDigit(c)
  }

  /** The output alphabet `[a-z0-9-]`. */
  predicate IsSlugChar(c: char) {
    IsAlphanumeric(c) || IsHyphen(c)
  }

  /** A well-formed slug: only `[a-z0-9-]`, and never two hyphens in a row. */
  predicate IsSlug(s: string) {
    && (forall i :: 0 <= i < |s| ==> IsSlugChar(s[i]))
    && NoAdjacent(s, IsHyphen)
  }

  /** The first steps: lower-case, decompose, drop the combining marks, then
      replace đ and Đ by d. Đ can no longer occur once the text is lower-cased,
      so its replacement never changes anything. */
  function Folded(text: string): string {
    ReplaceChar(ReplaceChar(Fold(text), SmallDStroke, 'd'), CapitalDStroke, 'd')
  }

  /** The full pipeline of `createSlug`. */
  function CreateSlug(text: string): (r: string)
    ensures IsSlug(r)
  {
    var trimmed := Trim(Filter(Folded(text), IsKept));
    TrimmedKept(Folded(text));
    var spaced := CollapseRuns(trimmed, IsWhitespace, '-');
    SpacedChars(trimmed);
    HyphensCollapsed(spaced);
    CollapseRuns(spaced, IsHyphen, '-')
  }

  lemma TrimmedKept(s: string)
    ensures forall c :: c in Trim(Filter(s, IsKept)) ==> IsKept(c)
  {
  }

  /** Once whitespace runs are hyphens, only the output alphabet is left. */
  lemma SpacedChars(trimmed: string)
    requires forall c :: c in trimmed ==> IsKept(c)
    ensures forall i :: 0 <= i < |CollapseRuns(trimmed, IsWhitespace, '-')| ==>
      IsSlugChar(CollapseRuns(trimmed, IsWhitespace, '-')[i])
  {
    var spaced := CollapseRuns(trimmed, IsWhitespace, '-');
    forall i | 0 <= i < |spaced| ensures IsSlugChar(spaced[i]) {
      if spaced[i] != '-' {
        assert spaced[i] in trimmed && !IsWhitespace(spaced[i]);
      }
    }
  }

  lemma HyphensCollapsed(spaced: string)
    requires forall i :: 0 <= i < |spaced| ==> IsSlugChar(spaced[i])
    ensures IsSlug(CollapseRuns(spaced, IsHyphen, '-'))
  {
    var r := CollapseRuns(spaced, IsHyphen, '-');
    forall i | 0 <= i < |r| ensures IsSlugChar(r[i]) {
      if r[i] != '-' {
        var j :| 0 <= j < |spaced| && spaced[j] == r[i];
      }
    }
  }

  /** Every character of a slug is its own fold. */
  lemma FoldSlug(s: string)
    requires forall i :: 0 <= i < |s| ==> IsSlugChar(s[i])
    ensures Fold(s) == s
    decreases |s|
  {
    if |s| > 0 {
      FoldSlug(s[1..]);
      assert s == [s[0]] + s[1..];
    }
  }

  /** No slug character is whitespace, and only the hyphen is a hyphen. */
  lemma SlugCharClasses(c: char)
    requires IsSlugChar(c)
    ensures !IsWhitespace(c) && IsKept(c)
  {
  }

  /** A well-formed slug passes through `createSlug` unchanged. */
  lemma SlugFixpoint(s: string)
    requires IsSlug(s)
    ensures CreateSlug(s) == s
  {
    FoldSlug(s);
    forall i | 0 <= i < |s| ensures !IsWhitespace(s[i]) && IsKept(s[i]) {
      SlugCharClasses(s[i]);
    }
    assert SmallDStroke !in s && CapitalDStroke !in s;
    assert Folded(s) == s;
    assert Filter(s, IsKept) == s;
    assert Trim(s) == s;
    assert CollapseRuns(s, IsWhitespace, '-') == s;
    CollapseRunsFixpoint(s, IsHyphen, '-');
  }

  /** `createSlug` is idempotent. */
  lemma SlugIdempotent(text: string)
    ensures CreateSlug(CreateSlug(text)) == CreateSlug(text)
  {
    SlugFixpoint(CreateSlug(text));
  }

  /** The strings `createSlug` leaves unchanged are exactly the well-formed slugs. */
  lemma SlugFixpointIff(s: string)
    ensures CreateSlug(s) == s <==> IsSlug(s)
  {
    if IsSlug(s) {
      SlugFixpoint(s);
    }
  }

  /** Collapsing runs of characters that are not letters or digits, into a
      character that is not one either, keeps the letters and digits. */
  lemma {:induction false} CollapseKeepsAlphanumerics(s: string, inRun: char -> bool, rep: char)
    requires !IsAlphanumeric(rep)
    requires forall c :: inRun(c) ==> !IsAlphanumeric(c)
    ensures Filter(CollapseRuns(s, inRun, rep), IsAlphanumeric) == Filter(s, IsAlphanumeric)
    decreases |s|
  {
    if |s| > 0 {
      if inRun(s[0]) {
        var rest := DropWhile(s[1..], inRun);
        CollapseKeepsAlphanumerics(rest, inRun, rep);
        SkipRun(s, rest, inRun);
        assert CollapseRuns(s, inRun, rep) == [rep] + CollapseRuns(rest, inRun, rep);
      } else {
        CollapseKeepsAlphanumerics(s[1..], inRun, rep);
        assert CollapseRuns(s, inRun, rep) == [s[0]] + CollapseRuns(s[1..], inRun, rep);
      }
    }
  }

  /** Dropping a leading run of characters that are not letters or digits
      keeps the letters and digits. */
  lemma SkipRun(s: string, rest: string, inRun: char -> bool)
    requires forall c :: inRun(c) ==> !IsAlphanumeric(c)
    requires |s| > 0 && inRun(s[0])
    requires rest == DropWhile(s[1..], inRun)
    ensures Filter(s, IsAlphanumeric) == Filter(rest, IsAlphanumeric)
  {
    var run := s[..|s| - |rest|];
    RunNotAlphanumeric(s, rest, inRun, run);
    assert s == run + rest;
    DropNonAlphanumeric(run, rest);
  }

  lemma DropNonAlphanumeric(run: string, rest: string)
    requires forall i :: 0 <= i < |run| ==> !IsAlphanumeric(run[i])
    ensures Filter(run + rest, IsAlphanumeric) == Filter(rest, IsAlphanumeric)
  {
    FilterConcat(run, rest, IsAlphanumeric);
    NoneKept(run);
  }

  lemma RunNotAlphanumeric(s: string, rest: string, inRun: char -> bool, run: string)
    requires forall c :: inRun(c) ==> !IsAlphanumeric(c)
    requires |s| > 0 && inRun(s[0])
    requires rest == DropWhile(s[1..], inRun) && run == s[..|s| - |rest|]
    ensures forall i :: 0 <= i < |run| ==> !IsAlphanumeric(run[i])
  {
    forall i | 0 <= i < |run| ensures inRun(run[i]) {
      if i > 0 {
        assert run[i] == s[1..][i - 1];
      }
    }
  }

  /** A string without letters or digits filters to nothing. */
  lemma {:induction false} NoneKept(run: string)
    requires forall i :: 0 <= i < |run| ==> !IsAlphanumeric(run[i])
    ensures Filter(run, IsAlphanumeric) == []
    decreases |run|
  {
    if |run| > 0 {
      NoneKept(run[1..]);
    }
  }

  /** Letters and digits of `pre + mid + post` when neither end holds any. */
  lemma FilterMiddle(pre: string, mid: string, post: string)
    requires forall i :: 0 <= i < |pre| ==> !IsAlphanumeric(pre[i])
    requires forall i :: 0 <= i < |post| ==> !IsAlphanumeric(post[i])
    ensures Filter(pre + mid + post, IsAlphanumeric) == Filter(mid, IsAlphanumeric)
  {
    FilterConcat(pre + mid, post, IsAlphanumeric);
    FilterConcat(pre, mid, IsAlphanumeric);
    NoneKept(pre);
    NoneKept(post);
  }

  /** Trimming removes whitespace only, so it keeps the letters and digits. */
  lemma TrimKeepsAlphanumerics(s: string)
    ensures Filter(Trim(s), IsAlphanumeric) == Filter(s, IsAlphanumeric)
  {
    TrimShape(s);
    var t := TrimStart(s);
    var r := TrimEnd(t);
    var lo := |s| - |t|;
    var hi := lo + |r|;
    TrimmedStart(s, t, s[..lo]);
    TrimmedEnd(t, r, t[|r|..]);
    Pieces(s, lo, hi, |r|);
    FilterMiddle(s[..lo], s[lo..hi], s[hi..]);
  }

  /** `s` cut at `lo` and `hi`, where the part from `lo` on is itself cut at `k`. */
  lemma Pieces(s: string, lo: nat, hi: nat, k: nat)
    requires lo <= hi <= |s| && hi == lo + k
    ensures s == s[..lo] + s[lo..hi] + s[hi..]
    ensures s[lo..][k..] == s[hi..]
  {
  }

  /** What trimming removes at the start is whitespace. */
  lemma TrimmedStart(s: string, t: string, pre: string)
    requires t == TrimStart(s) && pre == s[..|s| - |t|]
    ensures forall i :: 0 <= i < |pre| ==> !IsAlphanumeric(pre[i])
  {
    forall i | 0 <= i < |pre| ensures !IsAlphanumeric(pre[i]) {
      WhitespaceNotAlphanumeric(pre[i]);
    }
  }

  /** What trimming removes at the end is whitespace. */
  lemma TrimmedEnd(t: string, r: string, post: string)
    requires r == TrimEnd(t) && post == t[|r|..]
    ensures forall i :: 0 <= i < |post| ==> !IsAlphanumeric(post[i])
  {
    forall i | 0 <= i < |post| ensures !IsAlphanumeric(post[i]) {
      assert post[i] == t[|r| + i];
      WhitespaceNotAlphanumeric(post[i]);
    }
  }

  lemma WhitespaceNotAlphanumeric(c: char)
    requires IsWhitespace(c)
    ensures !IsAlphanumeric(c)
  {
  }

  /** The slug holds exactly the letters and digits of the folded text, in
      order: only separators are added or removed. */
  lemma SlugKeepsAlphanumerics(text: string)
    ensures Filter(CreateSlug(text), IsAlphanumeric) == Filter(Folded(text), IsAlphanumeric)
  {
    var kept := Filter(Folded(text), IsKept);
    var trimmed := Trim(kept);
    var spaced := CollapseRuns(trimmed, IsWhitespace, '-');
    FilterFilter(Folded(text), IsKept, IsAlphanumeric);
    TrimKeepsAlphanumerics(kept);
    CollapseKeepsAlphanumerics(trimmed, IsWhitespace, '-');
    CollapseKeepsAlphanumerics(spaced, IsHyphen, '-');
  }

  /** The slug is empty exactly when the folded text has no letter, digit
      or hyphen: a name of spaces and symbols alone, since a lone `-`
      survives as the slug `-`. */
  lemma SlugEmptyIff(text: string)
    ensures CreateSlug(text) == [] <==> forall c :: c in Folded(text) ==> !IsSlugChar(c)
  {
    var kept := Filter(Folded(text), IsKept);
    var trimmed := Trim(kept);
    var spaced := CollapseRuns(trimmed, IsWhitespace, '-');
    assert CreateSlug(text) == CollapseRuns(spaced, IsHyphen, '-');
    if trimmed == [] {
      assert spaced == [];
      forall c | c in Folded(text) ensures !IsSlugChar(c) {
        assert IsSlugChar(c) ==> c in kept;
      }
    } else {
      assert trimmed[0] in kept;
    }
  }

  /** `Fold` character by character, when each character folds to one. */
  lemma {:induction false} FoldEach(a: string, b: string)
    requires |a| == |b|
    requires forall i :: 0 <= i < |a| ==> FoldChar(a[i]) == [b[i]]
    ensures Fold(a) == b
    decreases |a|
  {
    if |a| > 0 {
      FoldEach(a[1..], b[1..]);
      assert b == [b[0]] + b[1..];
    }
  }

  /** Collapsing the one run character between two run-free words. */
  lemma {:induction false} CollapseOne(w1: string, c: char, w2: string, inRun: char -> bool, rep: char)
    requires inRun(c) && |w2| > 0
    requires forall i :: 0 <= i < |w1| ==> !inRun(w1[i])
    requires forall i :: 0 <= i < |w2| ==> !inRun(w2[i])
    ensures CollapseRuns(w1 + [c] + w2, inRun, rep) == w1 + [rep] + w2
    decreases |w1|
  {
    if |w1| == 0 {
      CollapseOneBase(c, w2, inRun, rep);
      EmptyFront(w1, c, w2);
      EmptyFront(w1, rep, w2);
    } else {
      TailOutsideRuns(w1, inRun);
      CollapseOne(w1[1..], c, w2, inRun, rep);
      CollapseOneStep(w1, c, w2, inRun, rep);
    }
  }

  lemma EmptyFront(w1: string, c: char, w2: string)
    requires w1 == []
    ensures w1 + [c] + w2 == [c] + w2
  {
  }

  lemma TailOutsideRuns(w: string, inRun: char -> bool)
    requires |w| > 0 && forall i :: 0 <= i < |w| ==> !inRun(w[i])
    ensures forall i :: 0 <= i < |w[1..]| ==> !inRun(w[1..][i])
  {
    assert forall i :: 0 <= i < |w[1..]| ==> w[1..][i] == w[i + 1];
  }

  lemma CollapseOneBase(c: char, w2: string, inRun: char -> bool, rep: char)
    requires inRun(c) && |w2| > 0
    requires forall i :: 0 <= i < |w2| ==> !inRun(w2[i])
    ensures CollapseRuns([c] + w2, inRun, rep) == [rep] + w2
  {
    var s := [c] + w2;
    assert s[1..] == w2;
    DropNothing(w2, inRun);
    CollapseRunAtHead(s, inRun, rep);
  }

  lemma CollapseOneStep(w1: string, c: char, w2: string, inRun: char -> bool, rep: char)
    requires |w1| > 0 && !inRun(w1[0])
    requires CollapseRuns(w1[1..] + [c] + w2, inRun, rep) == w1[1..] + [rep] + w2
    ensures CollapseRuns(w1 + [c] + w2, inRun, rep) == w1 + [rep] + w2
  {
    HeadSplit(w1, c, w2);
    HeadSplit(w1, rep, w2);
    CollapseCons(w1[0], w1[1..] + [c] + w2, inRun, rep);
  }

  lemma HeadSplit(w1: string, c: char, w2: string)
    requires |w1| > 0
    ensures w1 + [c] + w2 == [w1[0]] + (w1[1..] + [c] + w2)
  {
  }

  /** A character outside runs in front is kept in front. */
  lemma CollapseCons(x: char, t: string, inRun: char -> bool, rep: char)
    requires !inRun(x)
    ensures CollapseRuns([x] + t, inRun, rep) == [x] + CollapseRuns(t, inRun, rep)
  {
    assert ([x] + t)[1..] == t;
    CollapseKeepHead([x] + t, inRun, rep);
  }

  /** Two words of lower-case letters separated by a space become two words
      joined by a hyphen. */
  lemma TwoWordSlug(text: string, w1: string, w2: string)
    requires |w1| > 0 && forall i :: 0 <= i < |w1| ==> IsAsciiLowerLetter(w1[i])
    requires |w2| > 0 && forall i :: 0 <= i < |w2| ==> IsAsciiLowerLetter(w2[i])
    requires Folded(text) == w1 + " " + w2
    ensures CreateSlug(text) == w1 + "-" + w2
  {
    TwoWordsKept(w1 + " " + w2, w1, w2);
    TwoWordsSpaced(w1, w2);
    HyphenJoined(w1, w2);
  }

  lemma TwoWordsKept(f: string, w1: string, w2: string)
    requires |w1| > 0 && forall i :: 0 <= i < |w1| ==> IsAsciiLowerLetter(w1[i])
    requires |w2| > 0 && forall i :: 0 <= i < |w2| ==> IsAsciiLowerLetter(w2[i])
    requires f == w1 + [' '] + w2
    ensures Trim(Filter(f, IsKept)) == f
  {
    AllKept(f, w1, w2);
    assert Filter(f, IsKept) == f;
    assert f[0] == w1[0];
    assert f[|f| - 1] == w2[|w2| - 1];
    LetterNotWhitespace(w1[0]);
    LetterNotWhitespace(w2[|w2| - 1]);
    TrimNothing(f);
  }

  lemma AllKept(f: string, w1: string, w2: string)
    requires forall i :: 0 <= i < |w1| ==> IsAsciiLowerLetter(w1[i])
    requires forall i :: 0 <= i < |w2| ==> IsAsciiLowerLetter(w2[i])
    requires f == w1 + [' '] + w2
    ensures forall i :: 0 <= i < |f| ==> IsKept(f[i])
  {
    forall i | 0 <= i < |f| ensures IsKept(f[i]) {
      if i < |w1| {
        assert f[i] == w1[i];
      } else if i > |w1| {
        assert f[i] == w2[i - |w1| - 1];
      }
    }
  }

  lemma TwoWordsSpaced(w1: string, w2: string)
    requires |w2| > 0
    requires forall i :: 0 <= i < |w1| ==> IsAsciiLowerLetter(w1[i])
    requires forall i :: 0 <= i < |w2| ==> IsAsciiLowerLetter(w2[i])
    ensures CollapseRuns(w1 + " " + w2, IsWhitespace, '-') == w1 + "-" + w2
  {
    WordNotWhitespace(w1);
    WordNotWhitespace(w2);
    CollapseOne(w1, ' ', w2, IsWhitespace, '-');
  }

  lemma LetterNotWhitespace(c: char)
    requires IsAsciiLowerLetter(c)
    ensures !IsWhitespace(c)
  {
  }

  lemma WordNotWhitespace(w: string)
    requires forall i :: 0 <= i < |w| ==> IsAsciiLowerLetter(w[i])
    ensures forall i :: 0 <= i < |w| ==> !IsWhitespace(w[i])
  {
    forall i | 0 <= i < |w| ensures !IsWhitespace(w[i]) {
      LetterNotWhitespace(w[i]);
    }
  }

  /** Two words of letters joined by one hyphen have no hyphen run to collapse. */
  lemma HyphenJoined(w1: string, w2: string)
    requires forall i :: 0 <= i < |w1| ==> IsAsciiLowerLetter(w1[i])
    requires forall i :: 0 <= i < |w2| ==> IsAsciiLowerLetter(w2[i])
    ensures CollapseRuns(w1 + "-" + w2, IsHyphen, '-') == w1 + "-" + w2
  {
    var h := w1 + "-" + w2;
    HyphenJoinedChars(w1, w2, h);
    assert NoAdjacent(h, IsHyphen) by {
      forall i | 0 <= i < |h| - 1 ensures !(IsHyphen(h[i]) && IsHyphen(h[i + 1])) {
        if i == |w1| {
          assert i + 1 != |w1|;
        }
      }
    }
    CollapseRunsFixpoint(h, IsHyphen, '-');
  }

  /** In `w1-w2` the hyphen sits at `|w1|` and letters everywhere else. */
  lemma HyphenJoinedChars(w1: string, w2: string, h: string)
    requires forall i :: 0 <= i < |w1| ==> IsAsciiLowerLetter(w1[i])
    requires forall i :: 0 <= i < |w2| ==> IsAsciiLowerLetter(w2[i])
    requires h == w1 + "-" + w2
    ensures |h| == |w1| + 1 + |w2|
    ensures forall i :: 0 <= i < |h| ==> (IsHyphen(h[i]) <==> i == |w1|)
  {
    forall i | 0 <= i < |h| ensures IsHyphen(h[i]) <==> i == |w1| {
      if i < |w1| {
        assert h[i] == w1[i];
      } else if i > |w1| {
        assert h[i] == w2[i - |w1| - 1];
      }
    }
  }

  lemma TrimNothing(f: string)
    requires |f| > 0 && !IsWhitespace(f[0]) && !IsWhitespace(f[|f| - 1])
    ensures Trim(f) == f
  {
  }

  /** The slug of the sample title "Đêm Đông" ("Winter Night"). */
  lemma SlugExample(text: string)
    requires text == "\U{110}\U{EA}m \U{110}\U{F4}ng"
    ensures CreateSlug(text) == "dem-dong"
  {
    FoldedExample(text);
    TwoWordSlug(text, "dem", "dong");
    ExampleJoined();
  }

  lemma ExampleJoined()
    ensures "dem" + "-" + "dong" == "dem-dong"
  {
  }

  lemma FoldedExample(text: string)
    requires text == "\U{110}\U{EA}m \U{110}\U{F4}ng"
    ensures Folded(text) == "dem" + " " + "dong"
  {
    var folded := "\U{111}em \U{111}ong";
    FoldCharsExample(text, folded);
    FoldEach(text, folded);
    ReplaceExample(folded);
  }

  lemma FoldCharsExample(text: string, folded: string)
    requires text == "\U{110}\U{EA}m \U{110}\U{F4}ng"
    requires folded == "\U{111}em \U{111}ong"
    ensures |text| == |folded|
    ensures forall i :: 0 <= i < |text| ==> FoldChar(text[i]) == [folded[i]]
  {
    forall i | 0 <= i < |text| ensures FoldChar(text[i]) == [folded[i]] {
    }
  }

  lemma ReplaceExample(folded: string)
    requires folded == "\U{111}em \U{111}ong"
    ensures ReplaceChar(ReplaceChar(folded, SmallDStroke, 'd'), CapitalDStroke, 'd') == "dem" + " " + "dong"
  {
  }
}
