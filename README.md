# Personal Library Manager — catalogue model

This project models the catalogue logic of the Personal Library Manager: a
Streamlit application (`app.py`) that keeps a list of book records, each with
a title, an author, a publication year, a genre, a read flag, a cover URL and
a rating. Each run of the script loads the list from `library.json`, and the operations that change it save it back. The
model covers:

- loading the catalogue with its fallback to three demo records;
- adding a book;
- removing every book whose title matches, ignoring case;
- updating the first book whose title matches exactly;
- searching by title or author, ignoring case;
- the display: the genre options, the genre filter and five stable sorts;
- the dashboard's three tallies;
- resetting to the demo data.

Layout, one module per file:

- `text.dfy` (`Text`): the string operations Python provides — `lower()`
  on ASCII, `strip()`, the substring test `in`, and string `<`. The module
  also proves that `<` is a strict total order.
- `seqs.dfy` (`Seqs`): list comprehensions as a generic `Filter`, with
  membership, length, concatenation and subsequence lemmas, and `Reverse`.
- `books.dfy` (`Books`): the book record, the form contents it is built
  from, and the per-book values the dashboard counts.
- `storage.dfy` (`Storage`): the demo catalogue and `load_library` over an
  abstract file state that is missing, undecodable or holds a list.
- `sorting.dfy` (`StableSort`): `list.sort(key=…)` as a stable sort. An
  insertion sort is proved against a specification that says the output is
  ordered, is a permutation of the input, and keeps the input's order among
  equal keys. That specification has exactly one solution, so Python's own
  algorithm produces the same list. `reverse=True` is a sort with the flipped
  comparison, which Python also keeps stable.
- `orders.dfy` (`Orders`): the five "Sort by" choices, their keys, and what
  each order means in plain terms.
- `queries.dfy` (`Queries`): search, the genre filter and the genre options
  `["All"] + sorted(set(genres))`.
- `dashboard.dfy` (`Dashboard`): the counting loops. A Python dict is
  modelled as its insertion order together with a map of counts.
- `library.dfy` (`Catalogue`): a class `Library` holding the current run's
  list (`books`) and the file's contents (`file`). Streamlit re-runs the
  whole script on every interaction, and each run starts with
  `library = load_library()`. So an interaction is modelled as `Reload`
  followed by one of the methods that add, remove, update, display or
  reset. `Valid()` says that the run's list is the one the file holds.

Behaviours of the code that the model keeps as written:

- Update does not validate the new title or author; add does.
- Under "All", the display sorts the run's list itself. The new order is
  not saved, so the next run's `Reload` brings back the file's order, and a
  later add, remove or update works on that order.
- Under any other genre, only a filtered copy is sorted.
- A book whose genre is literally "All" adds a second "All" option.
  Selecting "All" still shows every book.

## Model

| member | source | states |
|---|---|---|
| Text.Lower | app.py:149 | `lower()` keeps the length, turns each upper-case ASCII letter into its lower-case letter, and changes nothing else |
| Text.LowerIdempotent | app.py:193-194 | lowering twice is lowering once, so a lowered query searches the same |
| Text.Strip | app.py:133 | `strip()` yields the slice of its argument left after cutting white space at both ends, and that slice neither starts nor ends with white space |
| Text.StripIdempotent | app.py:179 | a stripped cover URL has nothing more to strip |
| Text.Contains | app.py:194 | `query in text`; by `Text.ContainsIffOccurs`, it holds exactly when the query occurs at some position of the text |
| Text.ContainsIffOccurs | app.py:194 | `query in text` holds exactly when the query occurs at some position of the text |
| Text.StrLess | app.py:222 | string `<`: lexicographic by code point, a proper prefix first; the next three lemmas and `Orders.StrLessIsStrictTotalOrder` make it a strict total order |
| Text.StrLessTransitive | app.py:222 | string `<` is transitive |
| Text.StrLessTotal | app.py:222 | of two different strings, one is smaller |
| Text.StrLessAsymmetric | app.py:222 | string `<` never holds in both directions |
| Seqs.Filter | app.py:149 | a comprehension never lengthens the list; the lemmas below say what it keeps |
| Seqs.FilterMembers | app.py:149 | an element is kept by a comprehension exactly when it is in the list and passes the condition |
| Seqs.FilterMultiplicity | app.py:193-194 | a comprehension keeps every copy of each element that passes and no copy of one that fails |
| Seqs.FilterKeepsLength | app.py:148-150 | a comprehension keeps the length exactly when every element passes, and then it rebuilds the same list |
| Seqs.FilterIsSubsequence | app.py:149 | a comprehension keeps its survivors in their original order |
| Books.FromForm | app.py:127-135 | the new record takes each form field as it is, except the cover URL, which is stripped; the rating is present |
| Books.RatingOrZero | app.py:274 | `book.get("rating", 0)`; `Orders.SortedAsMeans` and `Dashboard.Summarize` state the sorts and tallies in terms of it |
| Storage.DemoLibrary | app.py:66-95 | three records, each with a title, an author, a year of at least 0 and a rating from 1 to 5 |
| Storage.Load | app.py:97-107 | a readable file is taken as it is; a missing or undecodable file gives the demo records, which are written back; only the undecodable file reports an error |
| Storage.LoadIsStable | app.py:97-107 | loading what a load left behind gives the same catalogue with no error |
| Storage.Reset | app.py:314-320 | reset gives the demo records and writes them to the file |
| Storage.LoadAfterResetIsDemo | app.py:314-320 | after a reset, or after a fallback load, the next load gives the demo records |
| StableSort.FlipIsStrictTotalOrder | app.py:230 | the comparison `reverse=True` sorts by is again a strict total order |
| StableSort.SortByKey | app.py:227-236 | the result is ordered by the key, is a permutation of the input, and keeps the input's order among equal keys |
| StableSort.StableSortUnique | app.py:227-236 | a stable sort by a strict total order has exactly one result |
| StableSort.ReverseSortIsReversed | app.py:229-236 | when keys are distinct, sorting with the flipped order gives the reverse of sorting with the order |
| Orders.StrLessIsStrictTotalOrder | app.py:228 | the order the title sort uses is irreflexive, transitive and total |
| Orders.TitleKey | app.py:228 | `key=lambda b: b["title"].lower()`; `Orders.SortedAsMeans` states the title order through it |
| Orders.YearKey | app.py:230 | `key=lambda b: b["year"]`, used by both year orders |
| Orders.RatingKey | app.py:234 | `key=lambda b: b.get("rating", 0)`, used by both rating orders |
| Orders.SortBooks | app.py:227-236 | the chosen "Sort by" option sorts the list stably by its key and direction |
| Orders.SortedAsMeans | app.py:227-236 | a sorted list is a permutation of the input, and each book may come before every later one: titles by lowered title, years and ratings up or down, a missing rating as 0 |
| Orders.SortedAsUnique | app.py:227-236 | each option allows exactly one result, so the display is deterministic |
| Orders.RatingOrdersAreReverses | app.py:233-236 | when ratings are distinct, "High to Low" is "Low to High" reversed |
| Orders.YearOrdersAreReverses | app.py:229-232 | when years are distinct, "Newest First" is "Oldest First" reversed |
| Queries.Search | app.py:193-194 | a book is a result exactly when the lowered query occurs in its lowered title or lowered author; every copy of a matching record is kept, and results keep the catalogue's order |
| Queries.SearchEmptyQueryReturnsAll | app.py:193-194 | the empty query finds every book |
| Queries.SearchIgnoresQueryCase | app.py:193-194 | the case of the query does not change the results |
| Queries.FilterGenre | app.py:226 | "All" gives the catalogue itself; any other genre gives exactly that genre's books, every copy of each, in catalogue order |
| Queries.InsertDistinct | app.py:222 | adding a genre to a strictly sorted list keeps it strictly sorted, and only that genre is added |
| Queries.SortedDistinct | app.py:222 | `sorted(set(xs))` is strictly sorted and holds exactly the values of `xs` |
| Queries.StrictlySortedUnique | app.py:222 | two strictly sorted lists with the same values are equal, so the option list is determined |
| Queries.GenreOptions | app.py:222-223 | the options start with "All"; after it come exactly the catalogue's genres, strictly sorted |
| Dashboard.FirstOccurrences | app.py:252 | the dict's keys are the values that occur, each once |
| Dashboard.FirstOccurrencesInOrder | app.py:249-252 | the dict's keys come in order of first occurrence: each key occurs before any later key has occurred |
| Dashboard.Bump | app.py:251 | `counts[k] = counts.get(k, 0) + 1`; `Dashboard.BumpKeepsCounts` and `Dashboard.BumpKeepsTotal` show that one step keeps the tally exact and its total one higher |
| Dashboard.TallyOf | app.py:248-251 | the dict after the loop, one `Bump` per book; `Dashboard.TallyOfCounts` characterises it |
| Dashboard.TallyOfCounts | app.py:248-251 | counting `keys` lists each value in order of first occurrence with its number of occurrences; the counts add up to the number of keys |
| Dashboard.CountValues | app.py:248-251 | the counting loop builds exactly that tally, and its counts sum to the number of books |
| Dashboard.Summarize | app.py:246-275 | an empty catalogue gives no statistics; otherwise the books are counted by genre, by year and by rating, a missing rating counting as 0, and each tally's counts add up to the number of books |
| Dashboard.TallyDeterminedByKeys | app.py:248-251 | only one tally describes a list of keys |
| Dashboard.GenreCountIsFilterSize | app.py:248-251 | a genre's bar counts exactly the books the genre filter shows for it |
| Dashboard.FiveBookExample | app.py:248-252 | genres A, A, B, B, B give the dict {A: 2, B: 3} in that order |
| Catalogue.RemoveShrinksIffMatch | app.py:148-150 | the comprehension shrinks the list exactly when some title matches ignoring case; otherwise it rebuilds the same list |
| Catalogue.FirstWithTitle | app.py:163 | `next(...)` finds the first book titled exactly as selected, or none when no title matches |
| Catalogue.Library.Open | app.py:347 | the first run starts with what the load gives, and the file then holds it |
| Catalogue.Library.Reload | app.py:347 | each re-run reads the list back from the file, with the load's fallback and error report, dropping unsaved changes |
| Catalogue.Library.Add | app.py:125-142 | starting from the file's list: with a title and an author, the record is appended and saved, and the next load finds it; otherwise nothing changes |
| Catalogue.Library.Remove | app.py:147-156 | every case-insensitive title match goes and the rest keep their order; success and a save happen exactly when the list shrank, which is exactly when some title matched |
| Catalogue.Library.Update | app.py:160-187 | an empty catalogue reports no books; an unmatched title changes nothing; otherwise only the first exact match is replaced by the form's record, and the catalogue is saved |
| Catalogue.Library.Display | app.py:222-236 | the books shown are the chosen genre's books sorted as chosen; under "All" the run's list takes that order; the file keeps the order it had |
| Catalogue.Library.ResetToDemo | app.py:314-320 | the catalogue and the file become the demo records |

## Left out

- The Streamlit interface is not modelled: widgets, headers, messages, the CSS and the menu. Each operation models only what happens once its form is submitted or its button is pressed.
- The widget bounds are not modelled. The year input's minimum of 0 and the 1-to-5 rating slider are not enforced, because they belong to the widgets, not the catalogue logic; the form's values are taken as given.
- The Lottie animations are left out, because they need HTTP, which has no counterpart in the model.
- The Altair charts and pandas data frames are left out. The model stops at the tallies the charts are drawn from.
- JSON encoding and decoding and the file I/O are abstracted. The file is a value that is missing, undecodable or holds a list of records.
- Exceptions other than a decoding error are not modelled: a failing open, or a record without `title`, `author`, `year`, `genre` or `read` (a `KeyError`). Every record has those keys and `cover_url`; a missing `rating` is `None`. A record without `cover_url`, which the update form and `display_book` read with a default of `""`, is not modelled.
- `export_library` and `import_library` (CSV) are left out, because they need CSV encoding and pandas. Importing overwrites the file, which the model's `file` does not reflect.
- `display_book`'s rendering, including its default of 3 stars for a missing rating, is left out. The dashboard's default of 0 is modelled.
- Text.Lower: lowers ASCII letters only. Python's `lower()` also folds other Unicode letters.
- Text.Strip: removes ASCII white space and the separators 0x1c-0x1f. Python's `strip()` also removes Unicode white space such as U+00A0 and U+2028.
- Orders.SortBooks: works on a value rather than sorting in place. Aliasing is captured only where it matters: under "All", `Catalogue.Library.Display` gives the sorted list to the run's list.
- main's menu and the rerun loop are not modelled as a method. A caller calls `Catalogue.Library.Reload` before each operation, as each rerun does.
- Catalogue.Library.Update: models how the source behaves, so it does not check that the new title and author are non-empty.
