/** The part of URL handling the pages rely on: the `location.search` a link
    leads to, and `URLSearchParams.get` on it. */
module Query {
  import opened Wrappers
  import opened Text
  import opened Sequences

  /** The position of the first `c` in `s`. */
  function IndexOf(s: string, c: char): (r: Option<nat>)
    ensures r.None? <==> c !in s
    ensures r.Some? ==> r.value < |s| && s[r.value] == c && c !in s[..r.value]
  {
    var r := FirstIndex(s, x => x == c);
    if r.Some? then
      assert forall j :: 0 <= j < r.value ==> s[..r.value][j] == s[j];
      r
    else r
  }

  /** `location.search` after following `href`: from the first `?` up to a
      `#` or the end, and nothing when the query is absent or empty. */
  function SearchPart(href: string): string {
    match IndexOf(href, '?')
    case None => ""
    case Some(q) =>
      var rest := href[q..];
      var query := match IndexOf(rest, '#') case None => rest case Some(h) => rest[..h];
      if query == "?" then "" else query
  }

  /** The `+` of a form-encoded query stands for a space. */
  function Plus(s: string): string {
    ReplaceChar(s, '+', ' ')
  }

  /** One `name=value` piece: split at the first `=`; a piece without one is
      a name with an empty value. */
  function SplitPair(piece: string): (string, string) {
    match IndexOf(piece, '=')
    case None => (piece, "")
    case Some(k) => (piece[..k], piece[k + 1..])
  }

  /** A non-empty piece whose name, once decoded, is `name`. */
  predicate Named(piece: string, name: string) {
    |piece| > 0 && Plus(SplitPair(piece).0) == name
  }

  /** The value of the first piece named `name`; empty pieces are skipped. */
  function FirstParam(pieces: seq<string>, name: string): (r: Option<string>)
    ensures r.None? <==> forall k :: 0 <= k < |pieces| ==> !Named(pieces[k], name)
    ensures r.Some? ==> exists k :: (0 <= k < |pieces| && Named(pieces[k], name)
      && (forall j :: 0 <= j < k ==> !Named(pieces[j], name))
      && r.value == Plus(SplitPair(pieces[k]).1))
    decreases |pieces|
  {
    if |pieces| == 0 then None
    else if Named(pieces[0], name) then Some(Plus(SplitPair(pieces[0]).1))
    else
      var r := FirstParam(pieces[1..], name);
      assert forall k :: 1 <= k < |pieces| ==> pieces[k] == pieces[1..][k - 1];
      r
  }

  /** `new URLSearchParams(search).get(name)`: a leading `?` is dropped, the
      query is split at `&`, and the first piece with that name gives the
      value. */
  function ParamValue(search: string, name: string): Option<string> {
    var query := if |search| > 0 && search[0] == '?' then search[1..] else search;
    FirstParam(SplitOn(query, '&'), name)
  }

  /** A value with no `&`, `#` or `+` survives being put after `key=` in the
      query of a link and read back. */
  lemma ParamRoundTrip(page: string, key: string, value: string)
    requires '?' !in page
    requires |key| > 0 && '=' !in key && '&' !in key && '+' !in key && '#' !in key
    requires '&' !in value && '#' !in value && '+' !in value
    ensures ParamValue(SearchPart(page + "?" + key + "=" + value), key) == Some(value)
  {
    var pair := key + "=" + value;
    var href := page + ("?" + pair);
    assert page + "?" + key + "=" + value == href;
    assert IndexOf(href, '?') == Some(|page|) by {
      assert href[|page|] == '?';
      assert href[..|page|] == page;
    }
    assert href[|page|..] == "?" + pair;
    QueryOfPair(key, value);
  }

  /** The query `?key=value` has no fragment and yields `value` for `key`. */
  lemma QueryOfPair(key: string, value: string)
    requires |key| > 0 && '=' !in key && '&' !in key && '+' !in key && '#' !in key
    requires '&' !in value && '#' !in value && '+' !in value
    ensures '#' !in "?" + (key + "=" + value)
    ensures ParamValue("?" + (key + "=" + value), key) == Some(value)
  {
    var pair := key + "=" + value;
    var rest := "?" + pair;
    CharNotInPair(key, value, '#');
    CharNotInPair(key, value, '&');
    assert '#' !in rest by {
      assert rest == ['?'] + pair;
    }
    assert rest[1..] == pair;
    PairSplits(key, value);
  }

  /** A character absent from the name and the value, other than `=`, is
      absent from the pair. */
  lemma CharNotInPair(key: string, value: string, c: char)
    requires c != '=' && c !in key && c !in value
    ensures c !in key + "=" + value
  {
  }

  /** The pair `key=value` splits back into its name and value. */
  lemma PairSplits(key: string, value: string)
    requires |key| > 0 && '=' !in key && '+' !in key
    requires '+' !in value
    ensures SplitPair(key + "=" + value) == (key, value)
    ensures FirstParam([key + "=" + value], key) == Some(value)
  {
    var pair := key + "=" + value;
    assert pair[|key|] == '=';
    assert pair[..|key|] == key;
    assert IndexOf(pair, '=') == Some(|key|);
    assert pair[|key| + 1..] == value;
  }
}
