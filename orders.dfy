/**
 * The five orders of the catalogue display, each a call of `list.sort`
 * with a `key=` lambda and possibly `reverse=True`.
 */
module Orders {
  import opened Text
  import opened Seqs
  import opened StableSort
  import opened Books

  /** The choices of the "Sort by" box, in the order it lists them. */
  datatype SortOrder = TitleAZ | YearNewestFirst | YearOldestFirst | RatingHighToLow | RatingLowToHigh

  /** `key=lambda b: b["title"].lower()` */
  function TitleKey(b: Book): string {
    Lower(b.title)
  }

  /** `key=lambda b: b["year"]` */
  function YearKey(b: Book): int {
    b.year
  }

  /** `key=lambda b: b.get("rating", 0)` */
  function RatingKey(b: Book): int {
    RatingOrZero(b)
  }

  /** Python's `<` on `int`. */
  predicate IntLess(a: int, b: int) {
    a < b
  }

  lemma StrLessIsStrictTotalOrder()
    ensures StrictTotalOrder(StrLess)
  {
    forall a
      ensures !StrLess(a, a)
    {
      StrLessIrreflexive(a);
    }
    forall a, b, c | StrLess(a, b) && StrLess(b, c)
      ensures StrLess(a, c)
    {
      StrLessTransitive(a, b, c);
    }
    forall a, b
      ensures a == b || StrLess(a, b) || StrLess(b, a)
    {
      StrLessTotal(a, b);
    }
  }

  /** `r` is what sorting `s` in order `o` leaves in the list. */
  ghost predicate SortedAs(o: SortOrder, r: seq<Book>, s: seq<Book>) {
    match o
    case TitleAZ => IsStableSortOf(r, s, TitleKey, StrLess)
    case YearNewestFirst => IsStableSortOf(r, s, YearKey, Flip(IntLess))
    case YearOldestFirst => IsStableSortOf(r, s, YearKey, IntLess)
    case RatingHighToLow => IsStableSortOf(r, s, RatingKey, Flip(IntLess))
    case RatingLowToHigh => IsStableSortOf(r, s, RatingKey, IntLess)
  }

  /** `a` may come before `b` in order `o`. */
  predicate InOrder(o: SortOrder, a: Book, b: Book) {
    match o
    case TitleAZ => !StrLess(Lower(b.title), Lower(a.title))
    case YearNewestFirst => a.year >= b.year
    case YearOldestFirst => a.year <= b.year
    case RatingHighToLow => RatingOrZero(a) >= RatingOrZero(b)
    case RatingLowToHigh => RatingOrZero(a) <= RatingOrZero(b)
  }

  /**
   * In plain terms: the result is a permutation of the input, and every
   * book may come before all the books after it.
   */
  lemma SortedAsMeans(o: SortOrder, r: seq<Book>, s: seq<Book>)
    requires SortedAs(o, r, s)
    ensures multiset(r) == multiset(s)
    ensures forall i, j :: 0 <= i < j < |r| ==> InOrder(o, r[i], r[j])
  {
    forall i, j | 0 <= i < j < |r|
      ensures InOrder(o, r[i], r[j])
    {
      match o
      case TitleAZ =>
        assert !StrLess(TitleKey(r[j]), TitleKey(r[i]));
      case YearNewestFirst =>
        assert !Flip(IntLess)(YearKey(r[j]), YearKey(r[i]));
        assert Flip(IntLess)(YearKey(r[j]), YearKey(r[i])) == IntLess(YearKey(r[i]), YearKey(r[j]));
      case YearOldestFirst =>
        assert !IntLess(YearKey(r[j]), YearKey(r[i]));
      case RatingHighToLow =>
        assert !Flip(IntLess)(RatingKey(r[j]), RatingKey(r[i]));
        assert Flip(IntLess)(RatingKey(r[j]), RatingKey(r[i])) == IntLess(RatingKey(r[i]), RatingKey(r[j]));
      case RatingLowToHigh =>
        assert !IntLess(RatingKey(r[j]), RatingKey(r[i]));
    }
  }

  /** The `if`/`elif` chain of the display: `books.sort(key=..., reverse=...)` for the chosen order. */
  method SortBooks(o: SortOrder, s: seq<Book>) returns (r: seq<Book>)
    ensures SortedAs(o, r, s)
  {
    match o
    case TitleAZ =>
      StrLessIsStrictTotalOrder();
      r := SortByKey(s, TitleKey, StrLess);
    case YearNewestFirst =>
      FlipIsStrictTotalOrder(IntLess);
      r := SortByKey(s, YearKey, Flip(IntLess));
    case YearOldestFirst =>
      r := SortByKey(s, YearKey, IntLess);
    case RatingHighToLow =>
      FlipIsStrictTotalOrder(IntLess);
      r := SortByKey(s, RatingKey, Flip(IntLess));
    case RatingLowToHigh =>
      r := SortByKey(s, RatingKey, IntLess);
  }

  /** Each order allows exactly one result, so the display is deterministic. */
  lemma SortedAsUnique(o: SortOrder, r1: seq<Book>, r2: seq<Book>, s: seq<Book>)
    requires SortedAs(o, r1, s) && SortedAs(o, r2, s)
    ensures r1 == r2
  {
    match o
    case TitleAZ =>
      StrLessIsStrictTotalOrder();
      StableSortUnique(r1, r2, s, TitleKey, StrLess);
    case YearNewestFirst =>
      FlipIsStrictTotalOrder(IntLess);
      StableSortUnique(r1, r2, s, YearKey, Flip(IntLess));
    case YearOldestFirst =>
      StableSortUnique(r1, r2, s, YearKey, IntLess);
    case RatingHighToLow =>
      FlipIsStrictTotalOrder(IntLess);
      StableSortUnique(r1, r2, s, RatingKey, Flip(IntLess));
    case RatingLowToHigh =>
      StableSortUnique(r1, r2, s, RatingKey, IntLess);
  }

  /** When no two books share a rating, "High to Low" is exactly "Low to High" reversed. */
  lemma RatingOrdersAreReverses(s: seq<Book>, high: seq<Book>, low: seq<Book>)
    requires forall i, j :: 0 <= i < j < |s| ==> RatingOrZero(s[i]) != RatingOrZero(s[j])
    requires SortedAs(RatingHighToLow, high, s) && SortedAs(RatingLowToHigh, low, s)
    ensures high == Reverse(low)
  {
    ReverseSortIsReversed(low, high, s, RatingKey, IntLess);
    ReverseTwice(high);
  }

  /** When no two books share a year, "Newest First" is exactly "Oldest First" reversed. */
  lemma YearOrdersAreReverses(s: seq<Book>, newest: seq<Book>, oldest: seq<Book>)
    requires forall i, j :: 0 <= i < j < |s| ==> s[i].year != s[j].year
    requires SortedAs(YearNewestFirst, newest, s) && SortedAs(YearOldestFirst, oldest, s)
    ensures newest == Reverse(oldest)
  {
    ReverseSortIsReversed(oldest, newest, s, YearKey, IntLess);
    ReverseTwice(newest);
  }
}
