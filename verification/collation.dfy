/** The comparators the gallery sorts with. The source delegates to ICU's
    `localeCompare` and to PHP's `sort` and `natsort`; here each is a
    lexicographic order over a comparison key, which makes each a total
    preorder, as sorting requires. */
module Collation {
  import opened Text
  import opened Sequences

  /** A piece of a comparison key: a maximal run of decimal digits, compared
      by numeric value, or a single character. */
  datatype Chunk = Number(value: nat) | Letter(c: char)

  predicate CharLt(a: char, b: char) {
    a < b
  }

  /** Digit runs by value, characters by code point. A character meets a
      digit run as it would meet the run's first digit: space and the
      punctuation below `0` (such as `-` and `.`) come before it, letters
      after it. */
  predicate ChunkLt(x: Chunk, y: Chunk) {
    match (x, y)
    case (Number(m), Number(n)) => m < n
    case (Number(_), Letter(c)) => c >= '0'
    case (Letter(c), Number(_)) => c < '0'
    case (Letter(a), Letter(b)) => a < b
  }

  lemma CharLtIsStrictTotalOrder()
    ensures IsStrictTotalOrder(CharLt)
  {
  }

  lemma ChunkLtIsStrictTotalOrder()
    ensures IsStrictTotalOrder(ChunkLt)
  {
  }

  /** The decimal value of a string of ASCII digits. */
  function DigitsValue(ds: string): nat
    requires forall i :: 0 <= i < |ds| ==> IsAsciiDigit(ds[i])
    decreases |ds|
  {
    if |ds| == 0 then 0
    else
      var last := ds[|ds| - 1];
      assert IsAsciiDigit(last);
      DigitsValue(ds[..|ds| - 1]) * 10 + (last as int - '0' as int)
  }

  /** The key of the numeric comparison: each maximal digit run becomes one
      `Number`; each other character a `Letter`, taken after the base-letter
      fold when `fold` is set (ICU's `sensitivity: 'base'`) and as is otherwise
      (PHP's case-sensitive natural order). */
  function NumericKey(s: string, fold: bool): seq<Chunk>
    decreases |s|
  {
    if |s| == 0 then []
    else if IsAsciiDigit(s[0]) then
      var run := TakeWhile(s, IsAsciiDigit);
      [Number(DigitsValue(run))] + NumericKey(s[|run|..], fold)
    else
      var kept := if fold then FoldChar(s[0]) else [s[0]];
      (if |kept| == 0 then [] else [Letter(kept[0])]) + NumericKey(s[1..], fold)
  }

  /** `naturalSort` of the catalog builder: `localeCompare` with
      `numeric: true` and `sensitivity: 'base'`. */
  predicate NaturalLeq(a: string, b: string) {
    SeqLeq(NumericKey(a, true), NumericKey(b, true), ChunkLt)
  }

  /** PHP's `natsort`, approximated: digit runs by value, other characters
      by code point, case-sensitive. */
  predicate NatSortLeq(a: string, b: string) {
    SeqLeq(NumericKey(a, false), NumericKey(b, false), ChunkLt)
  }

  /** `localeCompare` with default options, as the catalog builder orders
      folder names: base letters by code point after the fold. Names that
      differ only in case or diacritics tie. */
  predicate LocaleLeq(a: string, b: string) {
    SeqLeq(Fold(a), Fold(b), CharLt)
  }

  /** PHP's `sort` with default flags on non-numeric strings: code-point order. */
  predicate CodePointLeq(a: string, b: string) {
    SeqLeq(a, b, CharLt)
  }

  lemma NaturalLeqIsTotalPreorder()
    ensures IsTotalPreorder(NaturalLeq)
  {
    ChunkLtIsStrictTotalOrder();
    KeyOrderIsTotalPreorder(NaturalLeq, s => NumericKey(s, true), ChunkLt);
  }

  lemma NatSortLeqIsTotalPreorder()
    ensures IsTotalPreorder(NatSortLeq)
  {
    ChunkLtIsStrictTotalOrder();
    KeyOrderIsTotalPreorder(NatSortLeq, s => NumericKey(s, false), ChunkLt);
  }

  lemma LocaleLeqIsTotalPreorder()
    ensures IsTotalPreorder(LocaleLeq)
  {
    CharLtIsStrictTotalOrder();
    KeyOrderIsTotalPreorder(LocaleLeq, Fold, CharLt);
  }

  lemma CodePointLeqIsTotalPreorder()
    ensures IsTotalPreorder(CodePointLeq)
  {
    CharLtIsStrictTotalOrder();
    KeyOrderIsTotalPreorder(CodePointLeq, s => s, CharLt);
  }

  /** A leading digit run becomes one `Number` chunk of its value. */
  lemma DigitRunKey(digits: string, rest: string, fold: bool)
    requires |digits| > 0 && forall i :: 0 <= i < |digits| ==> IsAsciiDigit(digits[i])
    requires |rest| > 0 && !IsAsciiDigit(rest[0])
    ensures NumericKey(digits + rest, fold) == [Number(DigitsValue(digits))] + NumericKey(rest, fold)
  {
    var s := digits + rest;
    var run := TakeWhile(s, IsAsciiDigit);
    assert s[|digits|] == rest[0];
    assert run == digits;
    assert s[|run|..] == rest;
  }

  /** A leading lower-case ASCII letter is its own chunk under the fold. */
  lemma LetterKey(c: char, rest: string)
    requires IsAsciiLowerLetter(c)
    ensures NumericKey([c] + rest, true) == [Letter(c)] + NumericKey(rest, true)
  {
    var s := [c] + rest;
    assert s[0] == c && s[1..] == rest;
  }

  /** The key of a name made of a letter, a page number and a suffix that
      starts with a dot: the letter, the number, then the suffix's key. */
  lemma PageKey(name: string, c: char, digits: string, suffix: string)
    requires IsAsciiLowerLetter(c)
    requires |digits| > 0 && forall i :: 0 <= i < |digits| ==> IsAsciiDigit(digits[i])
    requires |suffix| > 0 && suffix[0] == '.'
    requires name == [c] + (digits + suffix)
    ensures NumericKey(name, true) == [Letter(c), Number(DigitsValue(digits))] + NumericKey(suffix, true)
  {
    LetterKey(c, digits + suffix);
    DigitRunKey(digits, suffix, true);
    Regroup(Letter(c), [Number(DigitsValue(digits))], NumericKey(suffix, true));
  }

  lemma Regroup<T>(x: T, a: seq<T>, b: seq<T>)
    ensures [x] + (a + b) == [x] + a + b
  {
  }

  /** Two keys that differ only in one number compare as the numbers do. */
  lemma NumberKeyOrder(h: Chunk, n: nat, m: nat, t: seq<Chunk>)
    requires n != m
    ensures SeqLeq([h, Number(n)] + t, [h, Number(m)] + t, ChunkLt) <==> n < m
  {
    var a, b := [h, Number(n)] + t, [h, Number(m)] + t;
    assert a[0] == b[0] && a[1..][0] == Number(n) && b[1..][0] == Number(m);
  }

  /** Page names `p<digits><suffix>` compare as their page numbers do. */
  lemma PageNameOrder(d1: string, d2: string, suffix: string)
    requires |d1| > 0 && forall i :: 0 <= i < |d1| ==> IsAsciiDigit(d1[i])
    requires |d2| > 0 && forall i :: 0 <= i < |d2| ==> IsAsciiDigit(d2[i])
    requires |suffix| > 0 && suffix[0] == '.'
    requires DigitsValue(d1) != DigitsValue(d2)
    ensures NaturalLeq("p" + d1 + suffix, "p" + d2 + suffix) <==> DigitsValue(d1) < DigitsValue(d2)
  {
    var n1, n2 := "p" + d1 + suffix, "p" + d2 + suffix;
    PageNameSplit(n1, d1, suffix);
    PageNameSplit(n2, d2, suffix);
    PageKey(n1, 'p', d1, suffix);
    PageKey(n2, 'p', d2, suffix);
    NumberKeyOrder(Letter('p'), DigitsValue(d1), DigitsValue(d2), NumericKey(suffix, true));
  }

  lemma PageNameSplit(name: string, digits: string, suffix: string)
    requires name == "p" + digits + suffix
    ensures name == ['p'] + (digits + suffix)
  {
  }

  /** A dot is its own chunk under the fold. */
  lemma DotKey(suffix: string)
    requires |suffix| > 0 && suffix[0] == '.'
    ensures NumericKey(suffix, true) == [Letter('.')] + NumericKey(suffix[1..], true)
  {
    DotFolds();
    assert !IsAsciiDigit(suffix[0]);
  }

  lemma DotFolds()
    ensures FoldChar('.') == ['.']
  {
    assert LowerChar('.') == '.';
  }

  /** A name whose letter is followed at once by its suffix sorts before the
      same name with a page number: `p.png` before `p1.png`. */
  lemma UnnumberedFirst(c: char, digits: string, suffix: string)
    requires IsAsciiLowerLetter(c)
    requires |digits| > 0 && forall i :: 0 <= i < |digits| ==> IsAsciiDigit(digits[i])
    requires |suffix| > 0 && suffix[0] == '.'
    ensures NaturalLeq([c] + suffix, [c] + (digits + suffix))
    ensures !NaturalLeq([c] + (digits + suffix), [c] + suffix)
  {
    PageKey([c] + (digits + suffix), c, digits, suffix);
    LetterKey(c, suffix);
    DotKey(suffix);
    Pair(Letter(c), Letter('.'), NumericKey(suffix[1..], true));
    SecondChunkDecides(Letter(c), Letter('.'), Number(DigitsValue(digits)),
      NumericKey(suffix[1..], true), NumericKey(suffix, true));
  }

  lemma Pair<T>(x: T, y: T, t: seq<T>)
    ensures [x] + ([y] + t) == [x, y] + t
  {
  }

  /** Keys that agree on their first chunk are ordered by their second. */
  lemma SecondChunkDecides(h: Chunk, x: Chunk, y: Chunk, t1: seq<Chunk>, t2: seq<Chunk>)
    requires ChunkLt(x, y)
    ensures SeqLeq([h, x] + t1, [h, y] + t2, ChunkLt)
    ensures !SeqLeq([h, y] + t2, [h, x] + t1, ChunkLt)
  {
    var a, b := [h, x] + t1, [h, y] + t2;
    assert a[0] == b[0] && a[1..][0] == x && b[1..][0] == y;
    assert !ChunkLt(y, x) && x != y;
  }

  /** How the three sample page names compare. */
  lemma PageOrder()
    ensures NaturalLeq("p1.png", "p10.png") && !NaturalLeq("p10.png", "p1.png")
    ensures NaturalLeq("p2.png", "p10.png") && !NaturalLeq("p2.png", "p1.png")
  {
    DigitValues();
    PageNameOrder("1", "10", ".png");
    PageNameOrder("10", "1", ".png");
    PageNameOrder("2", "10", ".png");
    PageNameOrder("2", "1", ".png");
    assert "p" + "1" + ".png" == "p1.png";
    assert "p" + "2" + ".png" == "p2.png";
    assert "p" + "10" + ".png" == "p10.png";
  }

  lemma DigitValues()
    ensures DigitsValue("1") == 1 && DigitsValue("2") == 2 && DigitsValue("10") == 10
  {
    assert "10"[..1] == "1";
  }

  /** Sorting three values whose pairwise comparisons are known. */
  lemma SortThree<T(!new)>(a: T, b: T, c: T, leq: (T, T) -> bool)
    requires !leq(b, c) && !leq(a, c) && leq(a, b)
    ensures SortBy([a, b, c], leq) == [c, a, b]
  {
    assert SortBy([c], leq) == [c] by {
      assert [c][1..] == [];
    }
    assert Insert(b, [c], leq) == [c, b] by {
      assert [c][1..] == [];
    }
    assert SortBy([b, c], leq) == [c, b] by {
      assert [b, c][1..] == [c];
    }
    assert Insert(a, [c, b], leq) == [c, a, b] by {
      assert [c, b][1..] == [b];
      assert Insert(a, [b], leq) == [a, b];
    }
    assert [a, b, c][1..] == [b, c];
  }

  /** Page numbers compare by value: `p2.png` comes before `p10.png`. */
  lemma NaturalOrderExample()
    ensures SortBy(["p2.png", "p10.png", "p1.png"], NaturalLeq) == ["p1.png", "p2.png", "p10.png"]
  {
    PageOrder();
    SortThree("p2.png", "p10.png", "p1.png", NaturalLeq);
  }
}
