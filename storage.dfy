/**
 * The seed catalogue, and loading the catalogue from library.json over an
 * abstract view of the file: absent, present but not decodable, or holding
 * a list of records.
 */
module Storage {
  import opened Books

  /** Where the demo covers are hosted. */
  const CoverHost := "https://images-na.ssl-images-amazon.com/images/I/"

  /** The three records used when no usable file exists and on reset. */
  function DemoLibrary(): (lib: seq<Book>)
    ensures |lib| == 3
    ensures forall b :: b in lib ==> b.title != [] && b.author != []
    ensures forall b :: b in lib ==> b.rating.Some? && 1 <= b.rating.value <= 5 && b.year >= 0
  {
    [ Book("1984", "George Orwell", 1949, "Dystopian", true,
           CoverHost + "71kxa1-0mfL.jpg", Some(5)),
      Book("The Great Gatsby", "F. Scott Fitzgerald", 1925, "Classic", false,
           CoverHost + "71FTb9X6wsL.jpg", Some(4)),
      Book("Pride and Prejudice", "Jane Austen", 1813, "Romance", true,
           CoverHost + "71xBLRBYOiL.jpg", Some(5)) ]
  }

  datatype FileState = Missing | Undecodable | Holds(books: seq<Book>)

  /** What a load hands back: the run's catalogue, the file afterwards, and whether it reported a decoding error. */
  datatype Loaded = Loaded(library: seq<Book>, file: FileState, reportedError: bool)

  /**
   * `load_library()`: a readable file is taken as it is and left alone; a
   * missing or undecodable one is replaced by the demo catalogue, which is
   * also written back, and only the undecodable case reports an error.
   */
  function Load(f: FileState): (r: Loaded)
    ensures f.Holds? ==> r.library == f.books && r.file == f && !r.reportedError
    ensures !f.Holds? ==> r.library == DemoLibrary() && r.file == Holds(DemoLibrary())
    ensures r.reportedError <==> f.Undecodable?
    ensures r.file == Holds(r.library)
  {
    match f
    case Holds(books) => Loaded(books, f, false)
    case Missing => Loaded(DemoLibrary(), Holds(DemoLibrary()), false)
    case Undecodable => Loaded(DemoLibrary(), Holds(DemoLibrary()), true)
  }

  /**
   * The file heals itself: loading again what the first load left behind
   * yields the same catalogue, writes nothing new and reports nothing.
   */
  lemma LoadIsStable(f: FileState)
    ensures Load(Load(f).file) == Loaded(Load(f).library, Load(f).file, false)
  {
  }

  /** `reset_library()` once its button is pressed: the demo catalogue, also written to the file. */
  function Reset(): (r: Loaded)
    ensures r.library == DemoLibrary() && r.file == Holds(r.library) && !r.reportedError
  {
    Loaded(DemoLibrary(), Holds(DemoLibrary()), false)
  }

  /** After a reset, or after a load that fell back to the seed, the next load yields the three demo records. */
  lemma LoadAfterResetIsDemo(f: FileState)
    ensures Load(Reset().file).library == DemoLibrary()
    ensures !f.Holds? ==> Load(Load(f).file).library == DemoLibrary()
  {
  }
}
