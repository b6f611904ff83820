/** Character classes and string transforms shared by the catalog builder,
    the folder search and the viewers: JavaScript's `\s`, `toLowerCase`,
    `trim`, `includes`, and the canonical-decomposition fold used to strip
    diacritics. */
module Text {
  import opened Wrappers

  /** JavaScript's `\s` class, which is also the set `String.prototype.trim`
      removes: the ECMAScript WhiteSpace and LineTerminator characters. */
  predicate IsWhitespace(c: char) {
    || c == ' ' || c == '\t' || c == '\n' || c == '\U{0B}' || c == '\U{0C}' || c == '\r'
    || c == '\U{A0}' || c == '\U{1680}' || ('\U{2000}' <= c <= '\U{200A}')
    || c == '\U{2028}' || c == '\U{2029}' || c == '\U{202F}' || c == '\U{205F}'
    || c == '\U{3000}' || c == '\U{FEFF}'
  }

  predicate IsHyphen(c: char) {
    c == '-'
  }

  predicate IsAsciiDigit(c: char) {
    '0' <= c <= '9'
  }

  predicate IsAsciiLowerLetter(c: char) {
    'a' <= c <= 'z'
  }

  /** `toLowerCase` on one character, for ASCII, Latin-1 and the letters of
      Vietnamese (the language of the gallery's folder names). */
  function LowerChar(c: char): (l: char)
    ensures IsWhitespace(c) ==> l == c
    ensures l == '.' <==> c == '.'
    ensures l == '-' <==> c == '-'
    ensures (c as int < 128) <==> (l as int < 128)
  {
    if 'A' <= c <= 'Z' then (c as int + 32) as char
    else if '\U{C0}' <= c <= '\U{DE}' && c != '\U{D7}' then (c as int + 32) as char
    else if c == '\U{102}' || c == '\U{110}' || c == '\U{128}' || c == '\U{168}'
         || c == '\U{1A0}' || c == '\U{1AF}' then (c as int + 1) as char
    else if '\U{1EA0}' <= c <= '\U{1EF9}' && c as int % 2 == 0 then (c as int + 1) as char
    else c
  }

  /** `toLowerCase` on a string: character by character. */
  function Lower(s: string): (r: string)
    ensures |r| == |s|
    ensures forall i :: 0 <= i < |s| ==> r[i] == LowerChar(s[i])
  {
    seq(|s|, i requires 0 <= i < |s| => LowerChar(s[i]))
  }

  lemma LowerCharIdempotent(c: char)
    ensures LowerChar(LowerChar(c)) == LowerChar(c)
  {
  }

  lemma LowerIdempotent(s: string)
    ensures Lower(Lower(s)) == Lower(s)
  {
    forall i | 0 <= i < |s|
      ensures Lower(Lower(s))[i] == Lower(s)[i]
    {
      LowerCharIdempotent(s[i]);
    }
  }

  lemma LowerSlice(s: string, lo: nat, hi: nat)
    requires lo <= hi <= |s|
    ensures Lower(s)[lo..hi] == Lower(s[lo..hi])
  {
  }

  /** The base letter of an already lower-cased character once it has been
      canonically decomposed (NFD) and its combining marks dropped: Latin-1
      and Vietnamese vowels lose their diacritics; other characters are kept. */
  function BaseLetter(l: char): char {
    if '\U{E0}' <= l <= '\U{E5}' || l == '\U{103}' || ('\U{1EA1}' <= l <= '\U{1EB7}') then 'a'
    else if l == '\U{E7}' then 'c'
    else if '\U{E8}' <= l <= '\U{EB}' || ('\U{1EB9}' <= l <= '\U{1EC7}') then 'e'
    else if '\U{EC}' <= l <= '\U{EF}' || l == '\U{129}' || ('\U{1EC9}' <= l <= '\U{1ECB}') then 'i'
    else if l == '\U{F1}' then 'n'
    else if '\U{F2}' <= l <= '\U{F6}' || l == '\U{1A1}' || ('\U{1ECD}' <= l <= '\U{1EE3}') then 'o'
    else if '\U{F9}' <= l <= '\U{FC}' || l == '\U{169}' || l == '\U{1B0}' || ('\U{1EE5}' <= l <= '\U{1EF1}') then 'u'
    else if l == '\U{FD}' || l == '\U{FF}' || ('\U{1EF3}' <= l <= '\U{1EF9}') then 'y'
    else l
  }

  /** The combining diacritical marks U+0300 to U+036F that decomposition
      splits off and the catalog's slug and collation ignore. */
  predicate IsCombiningMark(c: char) {
    '\U{300}' <= c <= '\U{36F}'
  }

  /** Lower-case, decompose and drop combining marks: what one character
      contributes after `toLowerCase().normalize('NFD')` and the removal of
      U+0300 to U+036F. */
  function FoldChar(c: char): (r: string)
    ensures |r| <= 1
    ensures IsAsciiLowerLetter(c) || IsAsciiDigit(c) || IsHyphen(c) || IsWhitespace(c) ==> r == [c]
  {
    var l := LowerChar(c);
    if IsCombiningMark(l) then [] else [BaseLetter(l)]
  }

  /** `toLowerCase().normalize('NFD')` followed by the removal of combining
      marks, on a whole string. */
  function Fold(s: string): (r: string)
    ensures |r| <= |s|
    decreases |s|
  {
    if |s| == 0 then [] else FoldChar(s[0]) + Fold(s[1..])
  }

  /** The longest prefix of `s` whose characters all satisfy `p`. */
  function TakeWhile(s: string, p: char -> bool): (r: string)
    ensures |r| <= |s| && r == s[..|r|]
    ensures forall i :: 0 <= i < |r| ==> p(r[i])
    ensures |r| < |s| ==> !p(s[|r|])
  {
    if |s| > 0 && p(s[0]) then [s[0]] + TakeWhile(s[1..], p) else []
  }

  /** The length of the longest prefix of `s` whose characters all satisfy
      `p`. */
  function PrefixLength(s: string, p: char -> bool): (n: nat)
    ensures n <= |s|
    ensures forall i :: 0 <= i < n ==> p(s[i])
    ensures n < |s| ==> !p(s[n])
  {
    if |s| > 0 && p(s[0]) then
      var n := PrefixLength(s[1..], p);
      assert forall i :: 1 <= i < n + 1 ==> s[i] == s[1..][i - 1];
      n + 1
    else 0
  }

  /** `s` without its longest prefix whose characters all satisfy `p`. */
  function DropWhile(s: string, p: char -> bool): (r: string)
    ensures |r| <= |s| && r == s[|s| - |r|..]
    ensures forall i :: 0 <= i < |s| - |r| ==> p(s[i])
    ensures |r| > 0 ==> !p(r[0])
    ensures |s| > 0 && p(s[0]) ==> |r| < |s|
  {
    s[PrefixLength(s, p)..]
  }

  /** Removes leading whitespace. */
  function TrimStart(s: string): (r: string)
    ensures |r| <= |s| && r == s[|s| - |r|..]
    ensures forall i :: 0 <= i < |s| - |r| ==> IsWhitespace(s[i])
    ensures |r| > 0 ==> !IsWhitespace(r[0])
  {
    DropWhile(s, IsWhitespace)
  }

  /** Removes trailing whitespace. */
  function TrimEnd(s: string): (r: string)
    ensures |r| <= |s| && r == s[..|r|]
    ensures forall i :: |r| <= i < |s| ==> IsWhitespace(s[i])
    ensures |r| > 0 ==> !IsWhitespace(r[|r| - 1])
    ensures |s| > 0 && !IsWhitespace(s[0]) ==> |r| > 0
  {
    if |s| > 0 && IsWhitespace(s[|s| - 1]) then TrimEnd(s[..|s| - 1]) else s
  }

  /** `String.prototype.trim`: the contiguous part of `s` left once leading and
      trailing whitespace is removed. */
  function Trim(s: string): (r: string)
    ensures |r| > 0 ==> !IsWhitespace(r[0]) && !IsWhitespace(r[|r| - 1])
    ensures r == [] <==> forall i :: 0 <= i < |s| ==> IsWhitespace(s[i])
    ensures (|s| == 0 || (!IsWhitespace(s[0]) && !IsWhitespace(s[|s| - 1]))) ==> r == s
    ensures forall c :: c in r ==> c in s
    ensures PrefixLength(s, IsWhitespace) + |r| <= |s|
    ensures forall i :: 0 <= i < PrefixLength(s, IsWhitespace) ==> IsWhitespace(s[i])
    ensures r == s[PrefixLength(s, IsWhitespace)..PrefixLength(s, IsWhitespace) + |r|]
    ensures forall i :: PrefixLength(s, IsWhitespace) + |r| <= i < |s| ==> IsWhitespace(s[i])
  {
    TrimShape(s);
    TrimTail(s);
    TrimStartLength(s);
    TrimEnd(TrimStart(s))
  }

  lemma TrimShape(s: string)
    ensures var t := TrimStart(s); var r := TrimEnd(t);
      && r == s[|s| - |t|..|s| - |t| + |r|]
      && (r == [] <==> forall i :: 0 <= i < |s| ==> IsWhitespace(s[i]))
  {
    var t := TrimStart(s);
    var r := TrimEnd(t);
    if |r| > 0 {
      assert !IsWhitespace(r[0]) && r[0] == s[|s| - |t|];
    }
  }

  lemma TrimStartLength(s: string)
    ensures |s| - |TrimStart(s)| == PrefixLength(s, IsWhitespace)
  {
  }

  /** What trailing whitespace `TrimEnd` removes is whitespace of `s`. */
  lemma TrimTail(s: string)
    ensures var t := TrimStart(s); var r := TrimEnd(t);
      forall i :: |s| - |t| + |r| <= i < |s| ==> IsWhitespace(s[i])
  {
    var t := TrimStart(s);
    var r := TrimEnd(t);
    SuffixWhitespace(s, t, |r|);
  }

  lemma SuffixWhitespace(s: string, t: string, n: nat)
    requires |t| <= |s| && t == s[|s| - |t|..] && n <= |t|
    requires forall j :: n <= j < |t| ==> IsWhitespace(t[j])
    ensures forall i :: |s| - |t| + n <= i < |s| ==> IsWhitespace(s[i])
  {
    forall i | |s| - |t| + n <= i < |s| ensures IsWhitespace(s[i]) {
      assert s[i] == t[i - (|s| - |t|)];
    }
  }

  /** `t` is a prefix of `s`. */
  predicate IsPrefix(t: string, s: string) {
    |t| <= |s| && s[..|t|] == t
  }

  /** `String.prototype.includes`: `t` occurs in `s` at some position. */
  predicate Contains(s: string, t: string)
    decreases |s|
  {
    IsPrefix(t, s) || (|s| > 0 && Contains(s[1..], t))
  }

  /** Every string contains the empty string. */
  lemma ContainsEmpty(s: string)
    ensures Contains(s, [])
  {
  }

  /** The position of the last occurrence of `c` in `s`, if any. */
  function LastIndexOf(s: string, c: char): (r: Option<nat>)
    ensures r.None? <==> c !in s
    ensures r.Some? ==> r.value < |s| && s[r.value] == c
                        && forall j :: r.value < j < |s| ==> s[j] != c
  {
    if |s| == 0 then None
    else if s[|s| - 1] == c then Some(|s| - 1)
    else LastIndexOf(s[..|s| - 1], c)
  }

  /** No two neighbouring characters of `s` both satisfy `p`. */
  predicate NoAdjacent(s: string, p: char -> bool) {
    forall i :: 0 <= i < |s| - 1 ==> !(p(s[i]) && p(s[i + 1]))
  }

  /** Replaces every maximal run of characters satisfying `inRun` by the single
      character `rep`: the regular-expression replacement `s.replace(/X+/g, rep)`
      where `X` is the class `inRun`. */
  function CollapseRuns(s: string, inRun: char -> bool, rep: char): (r: string)
    ensures forall i :: 0 <= i < |r| ==> r[i] == rep || (r[i] in s && !inRun(r[i]))
    ensures |s| > 0 ==> |r| > 0 && r[0] == (if inRun(s[0]) then rep else s[0])
    ensures inRun(rep) ==> NoAdjacent(r, inRun)
    ensures (forall i :: 0 <= i < |s| ==> !inRun(s[i])) ==> r == s
    decreases |s|
  {
    if |s| == 0 then []
    else if inRun(s[0]) then
      var rest := DropWhile(s[1..], inRun);
      var tail := CollapseRuns(rest, inRun, rep);
      assert |tail| > 0 ==> !inRun(tail[0]);
      CollapseStep(s, rest, tail, inRun, rep, rep);
      NoAdjacentCons(rep, tail, inRun);
      [rep] + tail
    else
      var tail := CollapseRuns(s[1..], inRun, rep);
      CollapseStep(s, s[1..], tail, inRun, rep, s[0]);
      NoAdjacentCons(s[0], tail, inRun);
      assert s == [s[0]] + s[1..];
      [s[0]] + tail
  }

  lemma NoAdjacentCons(c: char, tail: string, p: char -> bool)
    ensures NoAdjacent(tail, p) && (|tail| > 0 && p(c) ==> !p(tail[0])) ==> NoAdjacent([c] + tail, p)
  {
    if NoAdjacent(tail, p) && (|tail| > 0 && p(c) ==> !p(tail[0])) {
      forall i | 0 <= i < |[c] + tail| - 1 ensures !(p(([c] + tail)[i]) && p(([c] + tail)[i + 1])) {
        if i > 0 {
          assert ([c] + tail)[i] == tail[i - 1];
        }
      }
    }
  }

  /** The characters of `[first] + tail` come from `s` or are `rep`. */
  lemma CollapseStep(s: string, rest: string, tail: string, inRun: char -> bool, rep: char, first: char)
    requires |s| > 0 && |rest| < |s| && rest == s[|s| - |rest|..]
    requires first == rep || (first == s[0] && !inRun(first))
    requires forall i :: 0 <= i < |tail| ==> tail[i] == rep || (tail[i] in rest && !inRun(tail[i]))
    ensures forall i :: 0 <= i < |[first] + tail| ==>
      ([first] + tail)[i] == rep || (([first] + tail)[i] in s && !inRun(([first] + tail)[i]))
  {
    forall i | 0 <= i < |[first] + tail|
      ensures ([first] + tail)[i] == rep || (([first] + tail)[i] in s && !inRun(([first] + tail)[i]))
    {
      if i > 0 {
        var c := tail[i - 1];
        if c != rep {
          var j :| 0 <= j < |rest| && rest[j] == c;
          assert s[|s| - |rest| + j] == c;
        }
      }
    }
  }

  /** A string in which runs of `inRun` characters are already single `rep`
      characters is left unchanged by `CollapseRuns`. */
  lemma {:induction false} CollapseRunsFixpoint(s: string, inRun: char -> bool, rep: char)
    requires inRun(rep)
    requires forall i :: 0 <= i < |s| && inRun(s[i]) ==> s[i] == rep
    requires NoAdjacent(s, inRun)
    ensures CollapseRuns(s, inRun, rep) == s
    decreases |s|
  {
    if |s| > 0 {
      var rest := s[1..];
      CollapsedTail(s, inRun, rep);
      CollapseRunsFixpoint(rest, inRun, rep);
      if inRun(s[0]) {
        DropNothing(rest, inRun);
        CollapseRunAtHead(s, inRun, rep);
      } else {
        CollapseKeepHead(s, inRun, rep);
      }
      assert s == [s[0]] + rest;
    }
  }

  /** The tail of a collapsed string is collapsed. */
  lemma CollapsedTail(s: string, inRun: char -> bool, rep: char)
    requires |s| > 0
    requires forall i :: 0 <= i < |s| && inRun(s[i]) ==> s[i] == rep
    requires NoAdjacent(s, inRun)
    ensures forall i :: 0 <= i < |s[1..]| && inRun(s[1..][i]) ==> s[1..][i] == rep
    ensures NoAdjacent(s[1..], inRun)
    ensures inRun(s[0]) && |s| > 1 ==> !inRun(s[1..][0])
  {
    assert forall i :: 0 <= i < |s[1..]| ==> s[1..][i] == s[i + 1];
  }

  lemma DropNothing(s: string, p: char -> bool)
    requires |s| > 0 ==> !p(s[0])
    ensures DropWhile(s, p) == s
  {
  }

  /** A leading run becomes one `rep`. */
  lemma CollapseRunAtHead(s: string, inRun: char -> bool, rep: char)
    requires |s| > 0 && inRun(s[0])
    ensures CollapseRuns(s, inRun, rep) == [rep] + CollapseRuns(DropWhile(s[1..], inRun), inRun, rep)
  {
  }

  /** The reference reading of `CollapseRuns`, one character at a time: a
      character in a run gives `rep` when it starts the run and nothing
      otherwise; every other character is kept. `afterRun` says whether the
      previous character was in a run. */
  function CollapseFrom(s: string, inRun: char -> bool, rep: char, afterRun: bool): string
    decreases |s|
  {
    if |s| == 0 then []
    else if inRun(s[0]) then (if afterRun then [] else [rep]) + CollapseFrom(s[1..], inRun, rep, true)
    else [s[0]] + CollapseFrom(s[1..], inRun, rep, false)
  }

  /** Collapsing maximal runs agrees with the character-by-character reading. */
  lemma {:induction false} CollapseRunsByCharacter(s: string, inRun: char -> bool, rep: char)
    ensures CollapseRuns(s, inRun, rep) == CollapseFrom(s, inRun, rep, false)
    decreases |s|
  {
    if |s| > 0 {
      if inRun(s[0]) {
        var rest := DropWhile(s[1..], inRun);
        CollapseRunAtHead(s, inRun, rep);
        SkipRun(s[1..], inRun, rep);
        CollapseRunsByCharacter(rest, inRun, rep);
      } else {
        CollapseKeepHead(s, inRun, rep);
        CollapseRunsByCharacter(s[1..], inRun, rep);
      }
    }
  }

  /** Inside a run, the reference reading skips to the run's end. */
  lemma {:induction false} SkipRun(s: string, inRun: char -> bool, rep: char)
    ensures CollapseFrom(s, inRun, rep, true) == CollapseFrom(DropWhile(s, inRun), inRun, rep, false)
    decreases |s|
  {
    if |s| > 0 && inRun(s[0]) {
      DropWhileStep(s, inRun);
      SkipRun(s[1..], inRun, rep);
    } else {
      DropNothing(s, inRun);
    }
  }

  lemma DropWhileStep(s: string, p: char -> bool)
    requires |s| > 0 && p(s[0])
    ensures DropWhile(s, p) == DropWhile(s[1..], p)
  {
    var n := PrefixLength(s[1..], p);
    assert PrefixLength(s, p) == n + 1;
    assert s[n + 1..] == s[1..][n..];
  }

  /** Characters outside runs pass through the reference reading unchanged. */
  lemma {:induction false} CollapseFromKeepsWord(w: string, t: string, inRun: char -> bool, rep: char)
    requires forall i :: 0 <= i < |w| ==> !inRun(w[i])
    ensures CollapseFrom(w + t, inRun, rep, false) == w + CollapseFrom(t, inRun, rep, false)
    decreases |w|
  {
    if |w| == 0 {
      assert w + t == t;
    } else {
      assert (w + t)[0] == w[0] && (w + t)[1..] == w[1..] + t;
      CollapseFromKeepsWord(w[1..], t, inRun, rep);
      assert w == [w[0]] + w[1..];
    }
  }

  /** A leading character outside runs is kept. */
  lemma CollapseKeepHead(s: string, inRun: char -> bool, rep: char)
    requires |s| > 0 && !inRun(s[0])
    ensures CollapseRuns(s, inRun, rep) == [s[0]] + CollapseRuns(s[1..], inRun, rep)
  {
  }

  /** `s.split(sep)` for a one-character separator: the pieces between
      occurrences of `sep`, empty pieces included. */
  function SplitOn(s: string, sep: char): (r: seq<string>)
    ensures |r| > 0
    ensures sep !in s ==> r == [s]
    ensures forall k :: 0 <= k < |r| ==> sep !in r[k]
    decreases |s|
  {
    var piece := TakeWhile(s, c => c != sep);
    if |piece| == |s| then [s]
    else [piece] + SplitOn(s[|piece| + 1..], sep)
  }

  /** `s.replace(/x/g, y)` for single characters. */
  function ReplaceChar(s: string, x: char, y: char): (r: string)
    ensures |r| == |s|
    ensures x !in s ==> r == s
    ensures forall i :: 0 <= i < |s| ==> r[i] == (if s[i] == x then y else s[i])
  {
    seq(|s|, i requires 0 <= i < |s| => if s[i] == x then y else s[i])
  }
}
