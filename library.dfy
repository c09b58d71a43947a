/**
 * The catalogue of one run of the application and the operations that
 * change it: add, remove, update, the display's in-place sort, and reset.
 * Every interaction re-runs the script, which first reloads the list from
 * library.json; every change the application writes there is mirrored in
 * `file`.
 */
module Catalogue {
  import opened Text
  import opened Seqs
  import opened Books
  import opened Storage
  import opened Queries
  import opened Orders

  /** The condition of remove's comprehension: the books whose title differs from `title` ignoring case. */
  function TitleDiffers(title: string): Book -> bool {
    (b: Book) => Lower(b.title) != Lower(title)
  }

  /**
   * Remove's report: the comprehension shrinks the catalogue exactly when
   * some title matches ignoring case; otherwise it rebuilds the same list.
   */
  lemma RemoveShrinksIffMatch(lib: seq<Book>, title: string)
    ensures |Filter(lib, TitleDiffers(title))| < |lib| <==>
      exists b :: b in lib && Lower(b.title) == Lower(title)
    ensures |Filter(lib, TitleDiffers(title))| == |lib| ==> Filter(lib, TitleDiffers(title)) == lib
  {
    FilterKeepsLength(lib, TitleDiffers(title));
    if exists b :: b in lib && Lower(b.title) == Lower(title) {
      var b :| b in lib && Lower(b.title) == Lower(title);
      assert !TitleDiffers(title)(b);
    }
  }

  /**
   * `next((book for book in s if book["title"] == title), None)`, as the
   * position of that book: the first exact (case-sensitive) match, if any.
   */
  method FirstWithTitle(s: seq<Book>, title: string) returns (found: Option<nat>)
    ensures found.None? <==> forall i :: 0 <= i < |s| ==> s[i].title != title
    ensures found.Some? ==> found.value < |s| && s[found.value].title == title
    ensures found.Some? ==> forall i :: 0 <= i < found.value ==> s[i].title != title
  {
    var i := 0;
    while i < |s|
      invariant 0 <= i <= |s|
      invariant forall j :: 0 <= j < i ==> s[j].title != title
    {
      if s[i].title == title {
        return Some(i);
      }
      i := i + 1;
    }
    return None;
  }

  /** What update reports. */
  datatype UpdateOutcome =
    | NoBooks          // the catalogue is empty: "No books available to update."
    | NotFound         // `next(...)` found no book with the selected title
    | Updated(index: nat)

  /** The current run's list (`library`) and the contents of library.json. */
  class Library {
    var books: seq<Book>
    var file: FileState

    /** The run's list is the one the file holds: true after a load and after every saving operation. */
    predicate Valid()
      reads this
    {
      file == Holds(books)
    }

    /** `library = load_library()` at start-up. */
    constructor Open(f: FileState)
      ensures books == Load(f).library && file == Load(f).file
      ensures Valid()
    {
      books := Load(f).library;
      file := Load(f).file;
    }

    /**
     * `library = load_library()` at the head of each re-run: the list is
     * read back from the file, so whatever the previous run changed without
     * saving is gone.
     */
    method Reload() returns (reportedError: bool)
      modifies this
      ensures books == Load(old(file)).library && file == Load(old(file)).file
      ensures reportedError == Load(old(file)).reportedError
      ensures Valid()
    {
      var loaded := Load(file);
      books := loaded.library;
      file := loaded.file;
      reportedError := loaded.reportedError;
    }

    /**
     * `add_book` once its form is submitted: with a title and an author the
     * record is appended and saved, so that a reload finds it; otherwise
     * nothing changes.
     */
    method Add(form: BookForm) returns (added: bool)
      requires Valid()
      modifies this
      ensures Valid()
      ensures added <==> form.title != [] && form.author != []
      ensures added ==> books == old(books) + [FromForm(form)] && file == Holds(books)
      ensures added ==> FromForm(form) in Load(file).library
      ensures !added ==> books == old(books) && file == old(file)
    {
      if form.title != [] && form.author != [] {
        books := books + [FromForm(form)];
        file := Holds(books);
        added := true;
      } else {
        added := false;
      }
    }

    /**
     * `remove_book` once its button is pressed: every book whose title
     * matches ignoring case goes, the rest keep their order; the catalogue
     * is saved and success reported exactly when it shrank.
     */
    method Remove(title: string) returns (removed: bool)
      requires Valid()
      modifies this
      ensures Valid()
      ensures books == Filter(old(books), TitleDiffers(title))
      ensures forall b :: b in books <==> b in old(books) && Lower(b.title) != Lower(title)
      ensures IsSubsequence(books, old(books))
      ensures removed <==> |books| < |old(books)|
      ensures removed <==> exists b :: b in old(books) && Lower(b.title) == Lower(title)
      ensures removed ==> file == Holds(books)
      ensures !removed ==> books == old(books) && file == old(file)
    {
      var initialLength := |books|;
      RemoveShrinksIffMatch(books, title);
      FilterAllMembers(books, TitleDiffers(title));
      FilterIsSubsequence(books, TitleDiffers(title));
      books := Filter(books, TitleDiffers(title));
      if |books| < initialLength {
        file := Holds(books);
        removed := true;
      } else {
        removed := false;
      }
    }

    /**
     * `update_book` once its form is submitted for `selected`: on an empty
     * catalogue nothing happens; otherwise the first book titled exactly
     * `selected` gets all seven fields from the form and the catalogue is
     * saved. Every other record stays as it was.
     */
    method Update(selected: string, form: BookForm) returns (outcome: UpdateOutcome)
      requires Valid()
      modifies this
      ensures Valid()
      ensures old(books) == [] <==> outcome == NoBooks
      ensures outcome.NotFound? <==> old(books) != [] && forall b :: b in old(books) ==> b.title != selected
      ensures !outcome.Updated? ==> books == old(books) && file == old(file)
      ensures outcome.Updated? ==>
        && outcome.index < |old(books)|
        && old(books)[outcome.index].title == selected
        && (forall j :: 0 <= j < outcome.index ==> old(books)[j].title != selected)
        && books == old(books)[outcome.index := FromForm(form)]
        && file == Holds(books)
    {
      if books == [] {
        return NoBooks;
      }
      var found := FirstWithTitle(books, selected);
      match found
      case None =>
        outcome := NotFound;
      case Some(i) =>
        books := books[i := FromForm(form)];
        file := Holds(books);
        outcome := Updated(i);
    }

    /**
     * The list logic of `display_all_books`: the books of the chosen genre,
     * sorted in the chosen order. Under "All" the sorted list is the run's
     * list itself, so it is reordered for the rest of the run; nothing is
     * saved, and the next `Reload` brings back the file's order.
     */
    method Display(order: SortOrder, genre: string) returns (shown: seq<Book>)
      requires Valid()
      modifies this
      ensures SortedAs(order, shown, FilterGenre(old(books), genre))
      ensures genre == AllGenres ==> books == shown
      ensures genre != AllGenres ==> books == old(books)
      ensures file == old(file) && file == Holds(old(books))
    {
      shown := SortBooks(order, FilterGenre(books, genre));
      if genre == AllGenres {
        books := shown;
      }
    }

    /** The reset button of the data-management screen: the demo catalogue, saved. */
    method ResetToDemo()
      modifies this
      ensures books == DemoLibrary() && Valid()
    {
      books := Reset().library;
      file := Reset().file;
    }
  }
}
