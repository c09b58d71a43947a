/**
 * Python's `list.sort(key=key)` and `list.sort(key=key, reverse=True)`:
 * a stable sort by a key, compared with a strict total order on keys.
 * `reverse=True` keeps equal keys in their original order as well, so it
 * is the same sort with the comparison flipped.
 */
module StableSort {
  import opened Seqs

  /** What `<` is on the keys sorted here (`str` and `int`): irreflexive, transitive and total. */
  ghost predicate StrictTotalOrder<K(!new)>(less: (K, K) -> bool) {
    && (forall a :: !less(a, a))
    && (forall a, b, c :: less(a, b) && less(b, c) ==> less(a, c))
    && (forall a, b :: a == b || less(a, b) || less(b, a))
  }

  /** The comparison `reverse=True` sorts by. */
  function Flip<K>(less: (K, K) -> bool): (K, K) -> bool {
    (a, b) => less(b, a)
  }

  lemma FlipIsStrictTotalOrder<K(!new)>(less: (K, K) -> bool)
    requires StrictTotalOrder(less)
    ensures StrictTotalOrder(Flip(less))
  {
  }

  /** No element is followed by one whose key is strictly smaller. */
  ghost predicate SortedBy<T, K>(s: seq<T>, key: T -> K, less: (K, K) -> bool) {
    forall i, j :: 0 <= i < j < |s| ==> !less(key(s[j]), key(s[i]))
  }

  /** The elements whose key is `k`. */
  function KeyIs<T, K(==)>(key: T -> K, k: K): T -> bool {
    x => key(x) == k
  }

  /**
   * `r` is what a stable sort of `s` yields: sorted by key, a permutation
   * of `s`, and the elements of each key in the order they had in `s`.
   */
  ghost predicate IsStableSortOf<T, K(!new)>(r: seq<T>, s: seq<T>, key: T -> K, less: (K, K) -> bool) {
    && SortedBy(r, key, less)
    && multiset(r) == multiset(s)
    && forall k :: Filter(r, KeyIs(key, k)) == Filter(s, KeyIs(key, k))
  }

  /** Putting `x` after the elements not greater than it and before the greater ones keeps a sequence sorted. */
  lemma InsertKeepsSorted<T, K(!new)>(r: seq<T>, j: nat, x: T, key: T -> K, less: (K, K) -> bool)
    requires StrictTotalOrder(less)
    requires SortedBy(r, key, less)
    requires j <= |r|
    requires forall m :: j <= m < |r| ==> less(key(x), key(r[m]))
    requires j > 0 ==> !less(key(x), key(r[j - 1]))
    ensures SortedBy(r[..j] + [x] + r[j..], key, less)
  {
    var t := r[..j] + [x] + r[j..];
    forall p, q | 0 <= p < q < |t|
      ensures !less(key(t[q]), key(t[p]))
    {
      if q == j {
        if p < j - 1 {
          // key(r[p]) is not above key(r[j - 1]), which is not above key(x)
          assert !less(key(r[j - 1]), key(r[p]));
          assert key(r[j - 1]) == key(r[p]) || less(key(r[p]), key(r[j - 1]));
        }
      } else if p == j {
        assert less(key(x), key(r[q - 1]));
      } else {
        assert t[p] == r[if p < j then p else p - 1];
        assert t[q] == r[if q < j then q else q - 1];
      }
    }
  }

  /**
   * Inserting `x` in front of elements that `p` rejects, when `p` accepts
   * `x`, appends `x` to what `p` selects; when `p` rejects `x`, the
   * selection does not change.
   */
  lemma InsertKeepsSelection<T>(r: seq<T>, j: nat, x: T, done: seq<T>, p: T -> bool)
    requires j <= |r|
    requires p(x) ==> Filter(r[j..], p) == []
    requires Filter(r, p) == Filter(done, p)
    ensures Filter(r[..j] + [x] + r[j..], p) == Filter(done + [x], p)
  {
    var front, back := r[..j], r[j..];
    assert r == front + back;
    FilterConcat(front, back, p);
    FilterConcat3(front, [x], back, p);
    FilterConcat(done, [x], p);
    FilterSingleton(x, p);
    SkipEmptyPart(Filter(front, p), Filter([x], p), Filter(back, p), Filter(done, p));
  }

  /** The sequence algebra behind the insertion step. */
  lemma SkipEmptyPart<T>(a: seq<T>, m: seq<T>, b: seq<T>, d: seq<T>)
    requires d == a + b
    requires m == [] || b == []
    ensures a + m + b == d + m
  {
    if m == [] {
      assert a + m == a && d + m == d;
    } else {
      assert a + m + b == a + m && d == a;
    }
  }

  /** Elements with keys strictly above `key(x)` include none whose key is `key(x)`. */
  lemma GreaterHaveOtherKeys<T, K(!new)>(x: T, back: seq<T>, key: T -> K, less: (K, K) -> bool)
    requires StrictTotalOrder(less)
    requires forall m :: 0 <= m < |back| ==> less(key(x), key(back[m]))
    ensures Filter(back, KeyIs(key, key(x))) == []
  {
    forall y | y in back
      ensures !KeyIs(key, key(x))(y)
    {
      var m :| 0 <= m < |back| && back[m] == y;
      assert less(key(x), key(y));
    }
    FilterNoneAccepted(back, KeyIs(key, key(x)));
  }

  lemma InsertAddsToMultiset<T>(r: seq<T>, j: nat, x: T)
    requires j <= |r|
    ensures multiset(r[..j] + [x] + r[j..]) == multiset(r) + multiset{x}
  {
    var front, back := r[..j], r[j..];
    assert r == front + back;
    assert multiset(r) == multiset(front) + multiset(back);
    assert multiset(front + [x] + back) == multiset(front) + multiset([x]) + multiset(back);
  }

  /** Hence one insertion step extends a stable sort of `done` to one of `done + [x]`. */
  lemma InsertKeepsStable<T, K(!new)>(r: seq<T>, j: nat, x: T, done: seq<T>, key: T -> K, less: (K, K) -> bool)
    requires StrictTotalOrder(less)
    requires IsStableSortOf(r, done, key, less)
    requires j <= |r|
    requires forall m :: j <= m < |r| ==> less(key(x), key(r[m]))
    requires j > 0 ==> !less(key(x), key(r[j - 1]))
    ensures IsStableSortOf(r[..j] + [x] + r[j..], done + [x], key, less)
  {
    InsertKeepsSorted(r, j, x, key, less);
    InsertAddsToMultiset(r, j, x);
    assert forall m :: 0 <= m < |r[j..]| ==> r[j..][m] == r[j + m];
    GreaterHaveOtherKeys(x, r[j..], key, less);
    forall k
      ensures Filter(r[..j] + [x] + r[j..], KeyIs(key, k)) == Filter(done + [x], KeyIs(key, k))
    {
      InsertKeepsSelection(r, j, x, done, KeyIs(key, k));
    }
  }

  /**
   * `s.sort(key=key)` with `<` on keys given by `less`: an insertion sort
   * that places each element after every element whose key is not greater.
   */
  method SortByKey<T, K(!new)>(s: seq<T>, key: T -> K, less: (K, K) -> bool) returns (r: seq<T>)
    requires StrictTotalOrder(less)
    ensures IsStableSortOf(r, s, key, less)
  {
    r := [];
    var i := 0;
    while i < |s|
      invariant 0 <= i <= |s|
      invariant IsStableSortOf(r, s[..i], key, less)
    {
      var x := s[i];
      var j := |r|;
      while j > 0 && less(key(x), key(r[j - 1]))
        invariant 0 <= j <= |r|
        invariant forall m :: j <= m < |r| ==> less(key(x), key(r[m]))
      {
        j := j - 1;
      }
      InsertKeepsStable(r, j, x, s[..i], key, less);
      assert s[..i + 1] == s[..i] + [x];
      r := r[..j] + [x] + r[j..];
      i := i + 1;
    }
    assert s[..i] == s;
  }

  /**
   * Two sorted sequences whose elements of each key come in the same order
   * are equal: a stable sort has exactly one possible result.
   */
  lemma {:induction false} SortedWithSameTiesEqual<T, K(!new)>(a: seq<T>, b: seq<T>, key: T -> K, less: (K, K) -> bool)
    requires StrictTotalOrder(less)
    requires SortedBy(a, key, less) && SortedBy(b, key, less)
    requires forall k :: Filter(a, KeyIs(key, k)) == Filter(b, KeyIs(key, k))
    ensures a == b
    decreases |a|
  {
    if a == [] && b != [] {
      FilterHead(b, KeyIs(key, key(b[0])));
    } else if a != [] && b == [] {
      FilterHead(a, KeyIs(key, key(a[0])));
    } else if a != [] {
      var ka, kb := key(a[0]), key(b[0]);
      FilterHead(a, KeyIs(key, ka));
      FilterHead(b, KeyIs(key, kb));
      // b holds an element of key ka, which is not below kb = key(b[0]); and the other way round.
      var e := Filter(b, KeyIs(key, ka))[0];
      FilterMembers(b, KeyIs(key, ka), e);
      var m :| 0 <= m < |b| && b[m] == e;
      assert !less(ka, kb);
      var f := Filter(a, KeyIs(key, kb))[0];
      FilterMembers(a, KeyIs(key, kb), f);
      var n :| 0 <= n < |a| && a[n] == f;
      assert !less(kb, ka);
      assert ka == kb;
      // Both sequences start with the first element of key ka.
      var fa, fb := Filter(a[1..], KeyIs(key, ka)), Filter(b[1..], KeyIs(key, ka));
      assert [a[0]] + fa == [b[0]] + fb;
      assert a[0] == ([a[0]] + fa)[0] == ([b[0]] + fb)[0] == b[0];
      assert fa == ([a[0]] + fa)[1..] == ([b[0]] + fb)[1..] == fb;
      forall k
        ensures Filter(a[1..], KeyIs(key, k)) == Filter(b[1..], KeyIs(key, k))
      {
        if k != ka {
          FilterHead(a, KeyIs(key, k));
          FilterHead(b, KeyIs(key, k));
        }
      }
      SortedWithSameTiesEqual(a[1..], b[1..], key, less);
      assert a == [a[0]] + a[1..] && b == [b[0]] + b[1..];
    }
  }

  /** Sorting is deterministic: any two stable sorts of the same sequence by the same key agree. */
  lemma StableSortUnique<T, K(!new)>(r1: seq<T>, r2: seq<T>, s: seq<T>, key: T -> K, less: (K, K) -> bool)
    requires StrictTotalOrder(less)
    requires IsStableSortOf(r1, s, key, less) && IsStableSortOf(r2, s, key, less)
    ensures r1 == r2
  {
    SortedWithSameTiesEqual(r1, r2, key, less);
  }

  /** No two elements of `s` share a key. */
  ghost predicate DistinctKeys<T, K>(s: seq<T>, key: T -> K) {
    forall i, j :: 0 <= i < j < |s| ==> key(s[i]) != key(s[j])
  }

  lemma {:induction false} DistinctKeysSelectAtMostOne<T, K>(s: seq<T>, key: T -> K, k: K)
    requires DistinctKeys(s, key)
    ensures |Filter(s, KeyIs(key, k))| <= 1
    decreases |s|
  {
    if s != [] {
      assert DistinctKeys(s[1..], key) by {
        forall i, j | 0 <= i < j < |s| - 1
          ensures key(s[1..][i]) != key(s[1..][j])
        {
          assert s[1..][i] == s[i + 1] && s[1..][j] == s[j + 1];
        }
      }
      DistinctKeysSelectAtMostOne(s[1..], key, k);
      if key(s[0]) == k {
        forall y | y in s[1..]
          ensures !KeyIs(key, k)(y)
        {
          var m :| 0 <= m < |s| - 1 && s[1..][m] == y;
          assert y == s[m + 1];
        }
        FilterNoneAccepted(s[1..], KeyIs(key, k));
      }
    }
  }

  /**
   * When no two elements share a key, sorting with `reverse=True` gives the
   * exact reverse of sorting without it.
   */
  lemma ReverseSortIsReversed<T, K(!new)>(up: seq<T>, down: seq<T>, s: seq<T>, key: T -> K, less: (K, K) -> bool)
    requires StrictTotalOrder(less)
    requires DistinctKeys(s, key)
    requires IsStableSortOf(up, s, key, less)
    requires IsStableSortOf(down, s, key, Flip(less))
    ensures up == Reverse(down)
  {
    var rd := Reverse(down);
    forall k
      ensures Filter(up, KeyIs(key, k)) == Filter(rd, KeyIs(key, k))
    {
      FilterReverse(down, KeyIs(key, k));
      DistinctKeysSelectAtMostOne(s, key, k);
      var f := Filter(down, KeyIs(key, k));
      assert |f| <= 1;
      assert Reverse(f) == f;
    }
    assert SortedBy(rd, key, less) by {
      forall i, j | 0 <= i < j < |rd|
        ensures !less(key(rd[j]), key(rd[i]))
      {
        assert rd[i] == down[|down| - 1 - i] && rd[j] == down[|down| - 1 - j];
      }
    }
    SortedWithSameTiesEqual(up, rd, key, less);
  }
}
