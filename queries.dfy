/**
 * The read-only views of the catalogue: search by title or author, the
 * genre options of the display, and the genre filter.
 */
module Queries {
  import opened Text
  import opened Seqs
  import opened Books

  /** The condition of the search comprehension: the lower-cased query occurs in the lower-cased title or author. */
  function Mentions(query: string): Book -> bool {
    (b: Book) => Contains(Lower(b.title), Lower(query)) || Contains(Lower(b.author), Lower(query))
  }

  /**
   * `search_books`: exactly the books that mention the query, every copy
   * of each, in catalogue order.
   */
  function Search(lib: seq<Book>, query: string): (r: seq<Book>)
    ensures forall b :: b in r <==>
      b in lib && (Contains(Lower(b.title), Lower(query)) || Contains(Lower(b.author), Lower(query)))
    ensures forall b :: multiset(r)[b] == if Mentions(query)(b) then multiset(lib)[b] else 0
    ensures IsSubsequence(r, lib)
  {
    FilterAllMembers(lib, Mentions(query));
    FilterAllMultiplicities(lib, Mentions(query));
    FilterIsSubsequence(lib, Mentions(query));
    Filter(lib, Mentions(query))
  }

  /** The empty query occurs in every title, so it returns the whole catalogue. */
  lemma SearchEmptyQueryReturnsAll(lib: seq<Book>)
    ensures Search(lib, "") == lib
  {
    forall b | b in lib
      ensures Mentions("")(b)
    {
      assert Contains(Lower(b.title), "");
    }
    FilterKeepsLength(lib, Mentions(""));
  }

  /** The search ignores the case of the query. */
  lemma SearchIgnoresQueryCase(lib: seq<Book>, query: string)
    ensures Search(lib, Lower(query)) == Search(lib, query)
  {
    LowerIdempotent(query);
    FilterSameSelection(lib, Mentions(Lower(query)), Mentions(query));
  }

  /** The option that disables the genre filter. */
  const AllGenres := "All"

  /** The condition of the genre comprehension. */
  function HasGenre(genre: string): Book -> bool {
    (b: Book) => b.genre == genre
  }

  /**
   * The genre filter of the display: "All" passes the catalogue itself on,
   * any other option keeps the books of exactly that genre, in catalogue
   * order.
   */
  function FilterGenre(lib: seq<Book>, genre: string): (r: seq<Book>)
    ensures genre == AllGenres ==> r == lib
    ensures genre != AllGenres ==> forall b :: b in r <==> b in lib && b.genre == genre
    ensures genre != AllGenres ==> forall b :: multiset(r)[b] == if b.genre == genre then multiset(lib)[b] else 0
    ensures IsSubsequence(r, lib)
  {
    if genre == AllGenres then
      SubsequenceOfItself(lib);
      lib
    else
      FilterAllMembers(lib, HasGenre(genre));
      FilterAllMultiplicities(lib, HasGenre(genre));
      FilterIsSubsequence(lib, HasGenre(genre));
      Filter(lib, HasGenre(genre))
  }

  /** Each string comes strictly before the next: sorted and free of duplicates. */
  predicate StrictlySorted(s: seq<string>) {
    forall i, j :: 0 <= i < j < |s| ==> StrLess(s[i], s[j])
  }

  /** Inserts `x` at its place in a strictly sorted sequence, unless it is already there. */
  function InsertDistinct(x: string, s: seq<string>): (r: seq<string>)
    requires StrictlySorted(s)
    ensures StrictlySorted(r)
    ensures forall y :: y in r <==> y == x || y in s
    decreases |s|
  {
    if s == [] then [x]
    else if x == s[0] then s
    else if StrLess(x, s[0]) then
      assert forall k :: 0 < k < |s| ==> StrLess(x, s[k]) by {
        forall k | 0 < k < |s| {
          StrLessTransitive(x, s[0], s[k]);
        }
      }
      [x] + s
    else
      StrLessTotal(x, s[0]);
      var rest := InsertDistinct(x, s[1..]);
      assert forall k :: 0 <= k < |rest| ==> StrLess(s[0], rest[k]) by {
        forall k | 0 <= k < |rest|
          ensures StrLess(s[0], rest[k])
        {
          assert rest[k] in rest;
          if rest[k] != x {
            var m :| 0 <= m < |s| - 1 && s[1..][m] == rest[k];
            assert s[m + 1] == rest[k];
          }
        }
      }
      [s[0]] + rest
  }

  /** `sorted(set(xs))`: the distinct strings of `xs`, in increasing order. */
  function SortedDistinct(xs: seq<string>): (r: seq<string>)
    ensures StrictlySorted(r)
    ensures forall y :: y in r <==> y in xs
    decreases |xs|
  {
    if xs == [] then []
    else
      var r := InsertDistinct(xs[|xs| - 1], SortedDistinct(xs[..|xs| - 1]));
      assert forall y :: y in xs <==> y == xs[|xs| - 1] || y in xs[..|xs| - 1] by {
        assert xs == xs[..|xs| - 1] + [xs[|xs| - 1]];
      }
      r
  }

  /**
   * A strictly sorted sequence is determined by its elements, so
   * `SortedDistinct` is the one sequence `sorted(set(xs))` can produce.
   */
  lemma {:induction false} StrictlySortedUnique(a: seq<string>, b: seq<string>)
    requires StrictlySorted(a) && StrictlySorted(b)
    requires forall y :: y in a <==> y in b
    ensures a == b
    decreases |a|
  {
    assert a != [] ==> a[0] in a;
    assert b != [] ==> b[0] in b;
    if a != [] && b != [] {
      if a[0] != b[0] {
        var i :| 0 <= i < |b| && b[i] == a[0];
        var j :| 0 <= j < |a| && a[j] == b[0];
        StrLessAsymmetric(a[0], b[0]);
      }
      forall y
        ensures y in a[1..] <==> y in b[1..]
      {
        if y in a[1..] {
          var k :| 0 <= k < |a| - 1 && a[1..][k] == y;
          assert StrLess(a[0], a[k + 1]);
          StrLessIrreflexive(y);
          assert y in b;
          var m :| 0 <= m < |b| && b[m] == y;
          assert m != 0;
          assert b[1..][m - 1] == y;
        }
        if y in b[1..] {
          var k :| 0 <= k < |b| - 1 && b[1..][k] == y;
          assert StrLess(b[0], b[k + 1]);
          StrLessIrreflexive(y);
          assert y in a;
          var m :| 0 <= m < |a| && a[m] == y;
          assert m != 0;
          assert a[1..][m - 1] == y;
        }
      }
      StrictlySortedUnique(a[1..], b[1..]);
      assert a == [a[0]] + a[1..] && b == [b[0]] + b[1..];
    }
  }

  /** The genre options: "All", then the distinct genres of the catalogue in increasing order. */
  function GenreOptions(lib: seq<Book>): (r: seq<string>)
    ensures |r| >= 1 && r[0] == AllGenres
    ensures StrictlySorted(r[1..])
    ensures forall g :: g in r[1..] <==> exists b :: b in lib && b.genre == g
  {
    var gs := SortedDistinct(Genres(lib));
    assert forall g :: g in Genres(lib) <==> exists b :: b in lib && b.genre == g by {
      forall g | g in Genres(lib)
        ensures exists b :: b in lib && b.genre == g
      {
        var i :| 0 <= i < |lib| && Genres(lib)[i] == g;
        assert lib[i] in lib;
      }
      forall g | exists b :: b in lib && b.genre == g
        ensures g in Genres(lib)
      {
        var b :| b in lib && b.genre == g;
        var i :| 0 <= i < |lib| && lib[i] == b;
        assert Genres(lib)[i] == g;
      }
    }
    [AllGenres] + gs
  }
}
