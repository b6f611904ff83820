/** Generic sequence operations: order-preserving filtering, mapping,
    first-match lookup, stable sorting under a total preorder, and the
    lexicographic order on sequences. */
module Sequences {
  import opened Wrappers

  /** `a` can be obtained from `b` by deleting elements, keeping the rest in order. */
  predicate IsSubsequence<T(==)>(a: seq<T>, b: seq<T>)
    decreases |b|
  {
    if |a| == 0 then true
    else if |b| == 0 then false
    else (a[0] == b[0] && IsSubsequence(a[1..], b[1..])) || IsSubsequence(a, b[1..])
  }

  lemma {:induction false} SubsequenceReflexive<T>(s: seq<T>)
    ensures IsSubsequence(s, s)
    decreases |s|
  {
    if |s| > 0 {
      SubsequenceReflexive(s[1..]);
    }
  }

  /** `Array.prototype.filter`: the elements of `s` satisfying `p`, in order. */
  function Filter<T(!new)>(s: seq<T>, p: T -> bool): (r: seq<T>)
    ensures |r| <= |s|
    ensures forall x :: x in r <==> x in s && p(x)
    ensures (forall i :: 0 <= i < |s| ==> p(s[i])) ==> r == s
    decreases |s|
  {
    if |s| == 0 then []
    else
      var rest := Filter(s[1..], p);
      assert s == [s[0]] + s[1..];
      if p(s[0]) then [s[0]] + rest else rest
  }

  /** The filtered sequence keeps the order of the original. */
  lemma {:induction false} FilterIsSubsequence<T(!new)>(s: seq<T>, p: T -> bool)
    ensures IsSubsequence(Filter(s, p), s)
    decreases |s|
  {
    if |s| > 0 {
      var rest := Filter(s[1..], p);
      FilterIsSubsequence(s[1..], p);
      if p(s[0]) {
        assert ([s[0]] + rest)[1..] == rest;
      } else {
        assert |rest| == 0 || IsSubsequence(rest, s[1..]);
      }
    }
  }

  /** Filtering distributes over concatenation. */
  lemma {:induction false} FilterConcat<T(!new)>(a: seq<T>, b: seq<T>, p: T -> bool)
    ensures Filter(a + b, p) == Filter(a, p) + Filter(b, p)
    decreases |a|
  {
    if |a| > 0 {
      assert (a + b)[0] == a[0] && (a + b)[1..] == a[1..] + b;
      FilterConcat(a[1..], b, p);
    } else {
      assert a + b == b;
    }
  }

  /** Filtering twice, the second time by a stronger condition, is filtering once. */
  lemma {:induction false} FilterFilter<T(!new)>(s: seq<T>, p: T -> bool, q: T -> bool)
    requires forall x :: q(x) ==> p(x)
    ensures Filter(Filter(s, p), q) == Filter(s, q)
    decreases |s|
  {
    if |s| > 0 {
      FilterFilter(s[1..], p, q);
      if p(s[0]) {
        var f := Filter(s, p);
        assert f == [s[0]] + Filter(s[1..], p);
        assert f[0] == s[0] && f[1..] == Filter(s[1..], p);
      }
    }
  }

  /** `Array.prototype.map`. */
  function MapSeq<A, B>(f: A -> B, s: seq<A>): (r: seq<B>)
    ensures |r| == |s|
    ensures forall i :: 0 <= i < |s| ==> r[i] == f(s[i])
  {
    seq(|s|, i requires 0 <= i < |s| => f(s[i]))
  }

  lemma MapConcat<A, B>(f: A -> B, x: seq<A>, y: seq<A>)
    ensures MapSeq(f, x + y) == MapSeq(f, x) + MapSeq(f, y)
  {
  }

  /** Removing the element at `i` removes one occurrence from the multiset. */
  lemma RemoveAt<T>(b: seq<T>, i: nat)
    requires i < |b|
    ensures multiset(b[..i] + b[i + 1..]) == multiset(b) - multiset{b[i]}
  {
    assert b == b[..i] + [b[i]] + b[i + 1..];
  }
  /** The first element of `a` occurs in its permutation `b`, and the rests
      are permutations of each other. */
  lemma MatchHead<T>(a: seq<T>, b: seq<T>) returns (i: nat)
    requires multiset(a) == multiset(b) && |a| > 0
    ensures i < |b| && b[i] == a[0]
    ensures multiset(a[1..]) == multiset(b[..i] + b[i + 1..])
  {
    assert a == [a[0]] + a[1..];
    assert multiset(a[1..]) == multiset(a) - multiset{a[0]};
    assert a[0] in multiset(b);
    i :| 0 <= i < |b| && b[i] == a[0];
    RemoveAt(b, i);
  }

  /** Mapping a permutation gives a permutation. */
  lemma {:induction false} MapPermutation<A, B>(f: A -> B, a: seq<A>, b: seq<A>)
    requires multiset(a) == multiset(b)
    ensures multiset(MapSeq(f, a)) == multiset(MapSeq(f, b))
    decreases |a|
  {
    if |a| == 0 {
      assert |b| == |multiset(b)| == 0;
    } else {
      var i := MatchHead(a, b);
      var pre, post := b[..i], b[i + 1..];
      MapPermutation(f, a[1..], pre + post);
      assert a == [a[0]] + a[1..];
      assert b == pre + [a[0]] + post;
      MapConcat(f, [a[0]], a[1..]);
      MapConcat(f, pre, post);
      MapConcat(f, pre + [a[0]], post);
      MapConcat(f, pre, [a[0]]);
    }
  }

  /** `Array.prototype.findIndex`: the position of the first element satisfying `p`. */
  function FirstIndex<T>(s: seq<T>, p: T -> bool): (r: Option<nat>)
    ensures r.None? <==> forall i :: 0 <= i < |s| ==> !p(s[i])
    ensures r.Some? ==> r.value < |s| && p(s[r.value])
                        && forall j :: 0 <= j < r.value ==> !p(s[j])
    decreases |s|
  {
    if |s| == 0 then None
    else if p(s[0]) then Some(0)
    else
      match FirstIndex(s[1..], p)
      case None => None
      case Some(k) => Some(k + 1)
  }

  /** `leq` is total and transitive: what `Array.prototype.sort` needs of a comparator. */
  ghost predicate IsTotalPreorder<T(!new)>(leq: (T, T) -> bool) {
    && (forall a, b :: leq(a, b) || leq(b, a))
    && (forall a, b, c :: leq(a, b) && leq(b, c) ==> leq(a, c))
  }

  /** `lt` is a strict total order. */
  ghost predicate IsStrictTotalOrder<T(!new)>(lt: (T, T) -> bool) {
    && (forall a :: !lt(a, a))
    && (forall a, b :: a == b || lt(a, b) || lt(b, a))
    && (forall a, b, c :: lt(a, b) && lt(b, c) ==> lt(a, c))
  }

  /** Every element of `s` is `leq` every later one. */
  ghost predicate Sorted<T>(s: seq<T>, leq: (T, T) -> bool) {
    forall i, j :: 0 <= i < j < |s| ==> leq(s[i], s[j])
  }

  /** Inserts `x` before the first element it is `leq` to, so that `x` lands
      ahead of elements it ties with. */
  function Insert<T(!new)>(x: T, s: seq<T>, leq: (T, T) -> bool): (r: seq<T>)
    ensures multiset(r) == multiset(s) + multiset{x}
    ensures IsTotalPreorder(leq) && Sorted(s, leq) ==> Sorted(r, leq)
    decreases |s|
  {
    if |s| == 0 then [x]
    else if leq(x, s[0]) then
      InsertFront(x, s, leq);
      [x] + s
    else
      var rest := Insert(x, s[1..], leq);
      assert s == [s[0]] + s[1..];
      InsertBehind(x, s, rest, leq);
      [s[0]] + rest
  }

  lemma InsertFront<T(!new)>(x: T, s: seq<T>, leq: (T, T) -> bool)
    requires |s| > 0 && leq(x, s[0])
    ensures IsTotalPreorder(leq) && Sorted(s, leq) ==> Sorted([x] + s, leq)
  {
    if IsTotalPreorder(leq) && Sorted(s, leq) {
      forall i, j | 0 <= i < j < |[x] + s| ensures leq(([x] + s)[i], ([x] + s)[j]) {
        if i == 0 && j > 1 {
          assert leq(s[0], s[j - 1]);
        }
      }
    }
  }

  lemma InsertBehind<T(!new)>(x: T, s: seq<T>, rest: seq<T>, leq: (T, T) -> bool)
    requires |s| > 0 && !leq(x, s[0])
    requires multiset(rest) == multiset(s[1..]) + multiset{x}
    requires IsTotalPreorder(leq) && Sorted(s[1..], leq) ==> Sorted(rest, leq)
    ensures IsTotalPreorder(leq) && Sorted(s, leq) ==> Sorted([s[0]] + rest, leq)
  {
    if IsTotalPreorder(leq) && Sorted(s, leq) {
      assert Sorted(s[1..], leq);
      forall k | 0 <= k < |rest| ensures leq(s[0], rest[k]) {
        assert rest[k] in multiset(rest);
        if rest[k] != x {
          assert rest[k] in multiset(s[1..]);
          var j :| 0 <= j < |s[1..]| && s[1..][j] == rest[k];
          assert s[j + 1] == rest[k];
        }
      }
      var r := [s[0]] + rest;
      forall i, j | 0 <= i < j < |r| ensures leq(r[i], r[j]) {
        if i == 0 {
          assert r[j] == rest[j - 1];
        } else {
          assert r[i] == rest[i - 1] && r[j] == rest[j - 1];
        }
      }
    }
  }

  /** A stable insertion sort: `Array.prototype.sort(compare)` with a
      comparator whose "less than or equal" is `leq`. */
  function SortBy<T(!new)>(s: seq<T>, leq: (T, T) -> bool): (r: seq<T>)
    ensures multiset(r) == multiset(s)
    ensures |r| == |s|
    ensures IsTotalPreorder(leq) ==> Sorted(r, leq)
    decreases |s|
  {
    if |s| == 0 then []
    else
      assert s == [s[0]] + s[1..];
      var r := Insert(s[0], SortBy(s[1..], leq), leq);
      assert |r| == |multiset(r)|;
      r
  }

  /** The elements satisfying `p`, sorted. */
  function SortedFilter<T(!new)>(s: seq<T>, p: T -> bool, leq: (T, T) -> bool): (r: seq<T>)
    ensures forall x :: x in r <==> x in s && p(x)
    ensures multiset(r) == multiset(Filter(s, p))
    ensures IsTotalPreorder(leq) ==> Sorted(r, leq)
  {
    var kept := Filter(s, p);
    SortByMembers(kept, leq);
    SortBy(kept, leq)
  }

  /** Sorting keeps the same elements. */
  lemma SortByMembers<T(!new)>(s: seq<T>, leq: (T, T) -> bool)
    ensures forall x :: x in SortBy(s, leq) <==> x in s
  {
    assert forall x :: x in SortBy(s, leq) <==> x in multiset(s);
  }

  /** Lexicographic order on sequences induced by the strict order `lt` on
      elements; a proper prefix comes first. */
  predicate SeqLeq<T(==)>(a: seq<T>, b: seq<T>, lt: (T, T) -> bool)
    decreases |a|
  {
    |a| == 0 || (|b| > 0 && (lt(a[0], b[0]) || (a[0] == b[0] && SeqLeq(a[1..], b[1..], lt))))
  }

  lemma {:induction false} SeqLeqTotal<T(!new)>(a: seq<T>, b: seq<T>, lt: (T, T) -> bool)
    requires IsStrictTotalOrder(lt)
    ensures SeqLeq(a, b, lt) || SeqLeq(b, a, lt)
    decreases |a|
  {
    if |a| > 0 && |b| > 0 && a[0] == b[0] {
      SeqLeqTotal(a[1..], b[1..], lt);
    }
  }

  lemma {:induction false} SeqLeqTransitive<T(!new)>(a: seq<T>, b: seq<T>, c: seq<T>, lt: (T, T) -> bool)
    requires IsStrictTotalOrder(lt)
    requires SeqLeq(a, b, lt) && SeqLeq(b, c, lt)
    ensures SeqLeq(a, c, lt)
    decreases |a|
  {
    if |a| > 0 && a[0] == b[0] && b[0] == c[0] {
      SeqLeqTransitive(a[1..], b[1..], c[1..], lt);
    }
  }

  /** An order that compares values by the lexicographic order of their keys
      is a total preorder on the values. */
  lemma KeyOrderIsTotalPreorder<A(!new), K(!new)>(leq: (A, A) -> bool, key: A -> seq<K>, lt: (K, K) -> bool)
    requires IsStrictTotalOrder(lt)
    requires forall x, y :: leq(x, y) == SeqLeq(key(x), key(y), lt)
    ensures IsTotalPreorder(leq)
  {
    forall x: A, y: A ensures leq(x, y) || leq(y, x) {
      SeqLeqTotal(key(x), key(y), lt);
    }
    forall x: A, y: A, z: A | leq(x, y) && leq(y, z) ensures leq(x, z) {
      SeqLeqTransitive(key(x), key(y), key(z), lt);
    }
  }
}
