/**
 * Book records as the catalogue stores them, the form both editing screens
 * submit, and the seed catalogue.
 */
module Books {
  import opened Text

  datatype Option<T> = None | Some(value: T) {
    /** Python's `d.get(key, default)` once the key's presence is known. */
    function GetOr(default: T): T {
      match this
      case Some(v) => v
      case None => default
    }
  }

  /**
   * One catalogue entry. `rating` is `None` for a stored record that has no
   * "rating" key, which the rating sorts and the dashboard then read as 0.
   */
  datatype Book = Book(
    title: string,
    author: string,
    year: int,
    genre: string,
    read: bool,
    coverUrl: string,
    rating: Option<int>)

  /** What the add and update forms hand over once submitted. */
  datatype BookForm = BookForm(
    title: string,
    author: string,
    year: int,
    genre: string,
    read: bool,
    coverUrl: string,
    rating: int)

  /**
   * The record both forms store: the fields as entered, except that the
   * cover address loses its surrounding white space.
   */
  function FromForm(f: BookForm): (b: Book)
    ensures b.title == f.title && b.author == f.author && b.year == f.year
    ensures b.genre == f.genre && b.read == f.read && b.rating == Some(f.rating)
    ensures b.coverUrl == Strip(f.coverUrl)
  {
    Book(f.title, f.author, f.year, f.genre, f.read, Strip(f.coverUrl), Some(f.rating))
  }

  /** The rating as the rating sorts and the dashboard read it: `book.get("rating", 0)`. */
  function RatingOrZero(b: Book): int {
    b.rating.GetOr(0)
  }

  /** `[book["genre"] for book in s]`. */
  function Genres(s: seq<Book>): (r: seq<string>)
    ensures |r| == |s| && forall i :: 0 <= i < |s| ==> r[i] == s[i].genre
  {
    seq(|s|, i requires 0 <= i < |s| => s[i].genre)
  }

  /** `[book["year"] for book in s]`. */
  function Years(s: seq<Book>): (r: seq<int>)
    ensures |r| == |s| && forall i :: 0 <= i < |s| ==> r[i] == s[i].year
  {
    seq(|s|, i requires 0 <= i < |s| => s[i].year)
  }

  /** `[book.get("rating", 0) for book in s]`. */
  function Ratings(s: seq<Book>): (r: seq<int>)
    ensures |r| == |s| && forall i :: 0 <= i < |s| ==> r[i] == RatingOrZero(s[i])
  {
    seq(|s|, i requires 0 <= i < |s| => RatingOrZero(s[i]))
  }
}
