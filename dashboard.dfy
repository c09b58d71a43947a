/**
 * The counting loops of the dashboard. Each builds a dict from a value to
 * the number of books with that value; a Python dict remembers the order in
 * which its keys were first inserted, which is the order the charts receive
 * them in, so a tally is that order together with the counts.
 */
module Dashboard {
  import opened Seqs
  import opened Books
  import opened Queries

  /** A dict of counts: its keys in insertion order, and the count of each. */
  datatype Tally<K> = Tally(order: seq<K>, count: map<K, nat>)

  /** No value occurs twice. */
  predicate NoDuplicates<K(==)>(s: seq<K>) {
    forall i, j :: 0 <= i < j < |s| ==> s[i] != s[j]
  }

  /** The distinct values of `s`, each where it first occurs. */
  function FirstOccurrences<K(==, !new)>(s: seq<K>): (r: seq<K>)
    ensures forall k :: k in r <==> k in s
    ensures NoDuplicates(r)
    decreases |s|
  {
    if s == [] then []
    else
      var front, last := s[..|s| - 1], s[|s| - 1];
      assert s == front + [last];
      var r := FirstOccurrences(front);
      if last in r then r else r + [last]
  }

  /**
   * The distinct values come in order of first occurrence: each listed
   * value occurs in `s` at a position before which no later-listed value
   * has occurred yet.
   */
  lemma {:induction false} FirstOccurrencesInOrder<K(!new)>(s: seq<K>)
    ensures forall i, j :: 0 <= i < j < |FirstOccurrences(s)| ==>
      exists m :: 0 <= m < |s| && s[m] == FirstOccurrences(s)[i] && FirstOccurrences(s)[j] !in s[..m]
    decreases |s|
  {
    if s != [] {
      var front, last := s[..|s| - 1], s[|s| - 1];
      assert s == front + [last];
      FirstOccurrencesInOrder(front);
      var r', r := FirstOccurrences(front), FirstOccurrences(s);
      assert r == if last in r' then r' else r' + [last];
      forall i, j | 0 <= i < j < |r|
        ensures exists m :: 0 <= m < |s| && s[m] == r[i] && r[j] !in s[..m]
      {
        if j < |r'| {
          assert r[i] == r'[i] && r[j] == r'[j];
          var m :| 0 <= m < |front| && front[m] == r'[i] && r'[j] !in front[..m];
          assert s[..m] == front[..m];
        } else {
          assert r[i] == r'[i] && r'[i] in r' && r'[i] in front;
          assert r[j] == last && last !in front;
          var m :| 0 <= m < |front| && front[m] == r'[i];
          assert s[..m] == front[..m];
          assert forall x :: x in front[..m] ==> x in front;
        }
      }
    } else {
      assert FirstOccurrences(s) == [];
    }
  }

  /** The sum of the counts, taken in key order. */
  function Total<K>(order: seq<K>, count: map<K, nat>): nat
    requires forall k :: k in order ==> k in count
    decreases |order|
  {
    if order == [] then 0
    else Total(order[..|order| - 1], count) + count[order[|order| - 1]]
  }

  /**
   * What the loop over `keys` builds: keys in first-occurrence order,
   * exactly the values that occur, each counted as often as it occurs.
   */
  ghost predicate Counts<K(!new)>(t: Tally<K>, keys: seq<K>) {
    && t.order == FirstOccurrences(keys)
    && (forall k :: k in t.count <==> k in keys)
    && (forall k :: k in t.count ==> t.count[k] == multiset(keys)[k])
  }

  /** Raising one listed count by one raises the total by one. */
  lemma {:induction false} TotalAfterIncrement<K(!new)>(order: seq<K>, count: map<K, nat>, k: K)
    requires forall x :: x in order ==> x in count
    requires NoDuplicates(order) && k in order
    ensures Total(order, count[k := count[k] + 1]) == Total(order, count) + 1
    decreases |order|
  {
    var front, last := order[..|order| - 1], order[|order| - 1];
    assert order == front + [last];
    if last == k {
      assert k !in front;
      TotalIgnoresUnlisted(front, count, k, count[k] + 1);
    } else {
      assert k in front;
      TotalAfterIncrement(front, count, k);
    }
  }

  /** The total does not depend on the count of a key that is not listed. */
  lemma {:induction false} TotalIgnoresUnlisted<K(!new)>(order: seq<K>, count: map<K, nat>, k: K, n: nat)
    requires forall x :: x in order ==> x in count
    requires k !in order
    ensures Total(order, count[k := n]) == Total(order, count)
    decreases |order|
  {
    if order != [] {
      var front, last := order[..|order| - 1], order[|order| - 1];
      assert order == front + [last];
      TotalIgnoresUnlisted(front, count, k, n);
    }
  }

  /** `counts[k] = counts.get(k, 0) + 1`: a new key goes last with count 1, a known one gains one. */
  function Bump<K(==)>(t: Tally<K>, k: K): Tally<K> {
    if k in t.count then Tally(t.order, t.count[k := t.count[k] + 1])
    else Tally(t.order + [k], t.count[k := 1])
  }

  /** Facts about one more key `k` after `seen`. */
  lemma AppendFacts<K(!new)>(seen: seq<K>, k: K)
    ensures (seen + [k])[..|seen|] == seen
    ensures multiset(seen + [k]) == multiset(seen) + multiset{k}
    ensures forall x :: x in seen + [k] <==> x in seen || x == k
  {
    assert (seen + [k])[..|seen|] == seen;
  }

  lemma CountKnownKey<K(!new)>(t: Tally<K>, seen: seq<K>, k: K)
    requires Counts(t, seen) && k in t.count
    ensures Counts(Tally(t.order, t.count[k := t.count[k] + 1]), seen + [k])
  {
    AppendFacts(seen, k);
  }

  lemma CountNewKey<K(!new)>(t: Tally<K>, seen: seq<K>, k: K)
    requires Counts(t, seen) && k !in t.count
    ensures Counts(Tally(t.order + [k], t.count[k := 1]), seen + [k])
  {
    AppendFacts(seen, k);
  }

  /** Counting one more key keeps the tally exact. */
  lemma BumpKeepsCounts<K(!new)>(t: Tally<K>, seen: seq<K>, k: K)
    requires Counts(t, seen)
    ensures Counts(Bump(t, k), seen + [k])
  {
    if k in t.count {
      CountKnownKey(t, seen, k);
    } else {
      CountNewKey(t, seen, k);
    }
  }

  /** A tally lists each of its keys once. */
  lemma CountsListKeys<K(!new)>(t: Tally<K>, seen: seq<K>)
    requires Counts(t, seen)
    ensures NoDuplicates(t.order)
    ensures forall x :: x in t.count <==> x in t.order
  {
  }

  /** ... and the counts still add up to the number of keys seen. */
  lemma BumpKeepsTotal<K(!new)>(t: Tally<K>, k: K)
    requires forall x :: x in t.order ==> x in t.count
    requires NoDuplicates(t.order) && forall x :: x in t.count ==> x in t.order
    ensures forall x :: x in Bump(t, k).order ==> x in Bump(t, k).count
    ensures Total(Bump(t, k).order, Bump(t, k).count) == Total(t.order, t.count) + 1
  {
    if k in t.count {
      TotalAfterIncrement(t.order, t.count, k);
    } else {
      TotalIgnoresUnlisted(t.order, t.count, k, 1);
    }
  }

  /** The dict the loop below holds after counting `keys`, one `Bump` per key. */
  function TallyOf<K(==)>(keys: seq<K>): Tally<K>
    decreases |keys|
  {
    if keys == [] then Tally([], map[])
    else Bump(TallyOf(keys[..|keys| - 1]), keys[|keys| - 1])
  }

  /** The tally of `keys` counts them exactly, and its counts add up to their number. */
  lemma {:induction false} TallyOfCounts<K(!new)>(keys: seq<K>)
    ensures Counts(TallyOf(keys), keys)
    ensures forall k :: k in TallyOf(keys).order ==> k in TallyOf(keys).count
    ensures Total(TallyOf(keys).order, TallyOf(keys).count) == |keys|
    decreases |keys|
  {
    if keys != [] {
      var seen, k := keys[..|keys| - 1], keys[|keys| - 1];
      assert keys == seen + [k];
      TallyOfCounts(seen);
      CountsListKeys(TallyOf(seen), seen);
      BumpKeepsCounts(TallyOf(seen), seen, k);
      BumpKeepsTotal(TallyOf(seen), k);
    }
  }

  /**
   * `counts = {}; for k in keys: counts[k] = counts.get(k, 0) + 1`: the
   * counts describe `keys` and add up to the number of keys.
   */
  method CountValues<K(==, !new)>(keys: seq<K>) returns (t: Tally<K>)
    ensures t == TallyOf(keys)
    ensures Counts(t, keys)
    ensures forall k :: k in t.order ==> k in t.count
    ensures Total(t.order, t.count) == |keys|
  {
    t := Tally([], map[]);
    var i := 0;
    while i < |keys|
      invariant 0 <= i <= |keys|
      invariant t == TallyOf(keys[..i])
    {
      assert keys[..i + 1][..i] == keys[..i];
      t := Bump(t, keys[i]);
      i := i + 1;
    }
    assert keys[..i] == keys;
    TallyOfCounts(keys);
  }

  /** The three tallies the charts are drawn from. */
  datatype Stats = Stats(byGenre: Tally<string>, byYear: Tally<int>, byRating: Tally<int>)

  /**
   * `display_dashboard`: nothing is counted for an empty catalogue;
   * otherwise books are counted by genre, by year and by rating, a missing
   * rating counting as 0.
   */
  method Summarize(lib: seq<Book>) returns (stats: Option<Stats>)
    ensures stats.None? <==> lib == []
    ensures stats.Some? ==> Counts(stats.value.byGenre, Genres(lib))
    ensures stats.Some? ==> Counts(stats.value.byYear, Years(lib))
    ensures stats.Some? ==> Counts(stats.value.byRating, Ratings(lib))
    ensures stats.Some? ==> Total(stats.value.byGenre.order, stats.value.byGenre.count) == |lib|
    ensures stats.Some? ==> Total(stats.value.byYear.order, stats.value.byYear.count) == |lib|
    ensures stats.Some? ==> Total(stats.value.byRating.order, stats.value.byRating.count) == |lib|
  {
    if |lib| > 0 {
      var byGenre := CountValues(Genres(lib));
      var byYear := CountValues(Years(lib));
      var byRating := CountValues(Ratings(lib));
      stats := Some(Stats(byGenre, byYear, byRating));
    } else {
      stats := None;
    }
  }

  /** A tally that describes `keys` is unique. */
  lemma TallyDeterminedByKeys<K(!new)>(t: Tally<K>, u: Tally<K>, keys: seq<K>)
    requires Counts(t, keys) && Counts(u, keys)
    ensures t == u
  {
    assert t.count == u.count;
  }

  /** The genre bar for `g` counts exactly the books the genre filter shows for `g`. */
  lemma {:induction false} GenreCountIsFilterSize(lib: seq<Book>, g: string)
    requires g != AllGenres
    ensures multiset(Genres(lib))[g] == |FilterGenre(lib, g)|
    decreases |lib|
  {
    if lib != [] {
      GenreCountIsFilterSize(lib[1..], g);
      assert Genres(lib) == [lib[0].genre] + Genres(lib[1..]);
      FilterHead(lib, HasGenre(g));
    }
  }

  /** Genres A, A, B, B, B (A and B distinct) are counted as {A: 2, B: 3}, in that order. */
  lemma FiveBookExample(a: string, b: string)
    requires a != b
    ensures TallyOf([a, a, b, b, b]) == Tally([a, b], map[a := 2, b := 3])
  {
    assert [a, a, b, b, b][..4] == [a, a, b, b];
    assert [a, a, b, b][..3] == [a, a, b];
    assert [a, a, b][..2] == [a, a];
    assert [a, a][..1] == [a];
    assert TallyOf([a]) == Tally([a], map[a := 1]);
    assert TallyOf([a, a]) == Tally([a], map[a := 2]);
    assert TallyOf([a, a, b]) == Tally([a, b], map[a := 2, b := 1]);
    assert TallyOf([a, a, b, b]) == Tally([a, b], map[a := 2, b := 2]);
  }
}
