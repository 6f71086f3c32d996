# Library inventory tracker in Dafny

This project models the core of a single-user book inventory tracker (`app.py`). A `Book` holds
six attributes: id, title, author, year, copies, and a `borrowed` counter. Its `borrow` and
`return_book` steps increment and decrement the counter, each behind a guard. A `Library` is an
insertion-ordered dictionary from id to `Book`. It can add a book without overwriting, search by a
case-insensitive substring of the title or author, lend and return a copy by id, summarise the
counts, and convert itself to and from the dictionary-of-dictionaries that is saved to disk.

Layout:

- `wrappers.dfy`: `Option` and `Result`.
- `text.dfy` (module `Text`): ASCII lower-casing and Python's substring test `pattern in text`. The
  substring test is proved equal to "the pattern occurs at some position".
- `ordered_maps.dfy` (module `OrderedMaps`): a Python `dict`, written as its keys in insertion
  order plus a map.
- `records.dfy` (module `Records`): the value of one book (`Record`) and its loan steps. It also
  holds the dictionary form `BookDict` (an absent key is `None`) with `to_dict`/`from_dict`.
- `catalogs.dfy` (module `Catalogs`): the value of a library (`Catalog`), with every library
  operation as a function. Lemmas state search, statistics and the save/load round trip.
- `app.dfy` (module `App`): the classes. `Book` updates `borrowed` in place. `Library` owns the
  field `order` (ids in insertion order) and the field `books` (id to `Book` object). Each method's
  `ensures` ties the new state to the matching `Records`/`Catalogs` function, through
  `Book.Value()` and `Library.Model()`. `ScenarioDune` walks through the lending example:
  two copies, two loans, one refusal, one return.

Printed messages become results. `Catalogs.Outcome` is `Ok | NotFound | NoCopies | NothingToReturn |
AlreadyExists`, and `Catalogs.Report` holds the figures `stats` prints.

Three behaviours of the code are kept as written, although the loan counter invariant is meant to hold at all times:

- `from_dict` does not check `borrowed` against `copies`, so a loaded record can break
  `0 <= borrowed <= copies`. The invariant is therefore a predicate (`Records.Valid`,
  `Catalogs.AllValid`) that lemmas assume, not something the loader establishes.
  `Records.FromDictMayBreakInvariant` exhibits such a record.
- `load_data` keys each record by the file's dictionary key, not by the record's `book_id`.
  `Catalogs.LoadKeysByFileKey` exhibits a library where the two differ.
- The constructor accepts any integer for `copies`. The invariant holds for a new book only when
  `copies >= 0`.

## Model

| member | source | states |
|---|---|---|
| `Records.New` | app.py:7-13 | a new record carries the five given fields, has `borrowed` 0, and satisfies the invariant when `copies >= 0` |
| `Records.Available` | app.py:27-28 | under the invariant, the available count lies between 0 and `copies`, and it is 0 exactly when every copy is lent |
| `Records.Borrow` | app.py:15-19 | succeeds exactly when a copy is available; on success `borrowed` rises by one and availability falls by one; on failure the record is unchanged; no other field ever changes |
| `Records.ReturnBook` | app.py:21-25 | succeeds exactly when `borrowed > 0`; on success `borrowed` falls by one; on failure the record is unchanged; no other field ever changes |
| `Records.StepsPreserveValid` | app.py:15-25 | both loan steps keep `0 <= borrowed <= copies` |
| `Records.ReturnUndoesBorrow` | app.py:15-25 | under the invariant, a successful return restores the record a successful borrow started from, and the other way round |
| `Records.Run` | app.py:15-25 | any sequence of borrow/return requests changes only `borrowed` |
| `Records.RunPreservesValid` | app.py:13-25 | a valid record stays valid after every sequence of borrow/return requests |
| `Records.ToDict` | app.py:30-38 | the dictionary has all six keys, `borrowed` included |
| `Records.FromDict` | app.py:40-44 | succeeds exactly when the five constructor keys are present; copies them over; `borrowed` is the stored value or 0 when absent |
| `Records.FromDictFirstMissing` | app.py:42 | the error names the first absent key in the order `book_id`, `title`, `author`, `year`, `copies` |
| `Records.RoundTrip` | app.py:30-44 | `from_dict(to_dict(r))` gives back `r` with all six fields |
| `Records.FromDictMayBreakInvariant` | app.py:43 | some dictionary loads into a record with `borrowed > copies` |
| `Text.Lower` | app.py:63 | lower-casing keeps the length and lower-cases each character |
| `Text.LowerIdempotent` | app.py:63 | lower-casing twice equals lower-casing once |
| `Text.ContainsIffOccurs` | app.py:63 | `pattern in text` holds exactly when the pattern occurs at some position of the text |
| `Text.Contains` | app.py:63 | a contained pattern is no longer than the text, and the empty pattern is contained in every text |
| `OrderedMaps.Empty` | app.py:50 | the empty dictionary is well formed and has no keys |
| `OrderedMaps.KeyCount` | app.py:111 | a well-formed dictionary has as many entries as listed keys, so `len(self.books)` is the length of the order |
| `Catalogs.Add` | app.py:53-58 | succeeds exactly when the id is absent; then appends the id to the order and maps it to the record; otherwise nothing changes and the result is `AlreadyExists`; existing entries are never overwritten |
| `Catalogs.BorrowBook` | app.py:67-74 | an absent id gives `NotFound` and no change; a present id gives exactly what the record's `borrow` gives (`Ok` or `NoCopies`); keys, order and every other entry stay the same |
| `Catalogs.ReturnBook` | app.py:76-83 | an absent id gives `NotFound` and no change; a present id gives exactly what the record's `return_book` gives (`Ok` or `NothingToReturn`); keys, order and every other entry stay the same |
| `Catalogs.OperationsPreserveAllValid` | app.py:53-83 | adding a valid record, borrowing and returning keep every record valid |
| `Catalogs.Matches` | app.py:63 | the empty keyword matches every record |
| `Catalogs.MatchesIffOccurs` | app.py:63 | a record matches exactly when the lower-cased keyword occurs at some position of the lower-cased title or of the lower-cased author |
| `Catalogs.MatchesCaseInsensitive` | app.py:63 | matching is unchanged by lower-casing the keyword, the title or the author |
| `Catalogs.Matching` | app.py:63 | an id is in the set exactly when it is stored and its record matches; for the empty keyword the set is every stored id |
| `Catalogs.Kept` | app.py:61-64 | after `n` rounds of the loop the list has at most `n` entries |
| `Catalogs.KeptMembers` | app.py:61-64 | an id is in the list exactly when it is among the ids visited and is kept |
| `Catalogs.KeptAll` | app.py:61-64 | when every id is kept, the list is the visited ids in order |
| `Catalogs.KeptPositions` | app.py:61-64 | the list sits at strictly increasing positions among the visited ids, so it is a subsequence in insertion order |
| `Catalogs.Search` | app.py:60-65 | the result holds exactly the ids whose book matches, and equals the whole order for the empty keyword |
| `Catalogs.SearchInOrder` | app.py:60-65 | the result is a subsequence of the insertion order: each hit sits at a position of the order, the positions strictly increase, and no id appears twice |
| `Catalogs.Rows` | app.py:108-109 | one record per listed id, in insertion order: row `i` is the record under the `i`-th key |
| `Catalogs.SumCopies` | app.py:108 | the sum of copies is never negative when no record has negative copies |
| `Catalogs.SumBorrowed` | app.py:109 | the sum of borrowed counters is never negative when no counter is negative |
| `Catalogs.Stats` | app.py:107-114 | the book count is the number of ids, available is copies minus borrowed, and under the invariant 0 <= borrowed <= copies in total |
| `Catalogs.SumsBounded` | app.py:108-109 | if every record is valid, 0 <= sum of borrowed <= sum of copies |
| `Catalogs.StatsBounded` | app.py:107-114 | under the invariant, 0 <= borrowed total <= copy total and 0 <= available <= copy total |
| `Catalogs.CopiesUpdate` | app.py:108 | replacing one record changes the copies total by exactly that record's difference |
| `Catalogs.BorrowedUpdate` | app.py:109 | replacing one record changes the borrowed total by exactly that record's difference |
| `Catalogs.RowsUpdate` | app.py:108-109 | changing the record under one listed id changes the rows at that id's position only |
| `Catalogs.StatsAfterBorrow` | app.py:67-74 | a successful borrow raises the borrowed total by one; book count and copy total stay the same |
| `Catalogs.StatsAfterReturn` | app.py:76-83 | a successful return lowers the borrowed total by one; book count and copy total stay the same |
| `Catalogs.StatsExample` | app.py:107-114 | books with (2 copies, 1 lent) and (3 copies, 0 lent) report 2 books, 5 copies, 1 borrowed, 4 available |
| `Catalogs.Save` | app.py:95 | the saved dictionary is well formed and keeps the library's key order |
| `Catalogs.LoadFrom` | app.py:103 | succeeds exactly when every entry decodes; then maps each file key to the decoded entry; otherwise fails with the error of the first entry in file order that does not decode |
| `Catalogs.Load` | app.py:99-105 | an absent file gives the empty library; a loaded library is well formed and keeps the file's key order |
| `Catalogs.LoadDecoded` | app.py:103 | when every entry decodes, loading gives exactly the decoded records under the file's keys |
| `Catalogs.LoadFirstFailure` | app.py:103 | when the entry at position `i` is the first that fails to decode, loading fails with its error |
| `Catalogs.LoadSave` | app.py:94-105 | loading what was saved gives back the same library: same ids, same order, same six fields for every book |
| `Catalogs.LoadKeysByFileKey` | app.py:103 | a file can load a record under a key that differs from its `book_id` |
| `App.Book.constructor` | app.py:7-13 | the new book's record is `Records.New` of the arguments |
| `App.Book.AvailableCopies` | app.py:27-28 | equals `Records.Available` of the book's record |
| `App.Book.Borrow` | app.py:15-19 | the returned flag and the new record are exactly `Records.Borrow` of the old record; only `borrowed` may change |
| `App.Book.ReturnBook` | app.py:21-25 | the returned flag and the new record are exactly `Records.ReturnBook` of the old record; only `borrowed` may change |
| `App.Book.FromDict` | app.py:40-44 | fails with `Records.FromDict`'s error, or yields a fresh book whose record is `Records.FromDict`'s result |
| `App.Library.constructor` | app.py:50 | a new library is well formed and empty |
| `App.Library.Open` | app.py:48-51 | fails exactly as `Catalogs.Load` does, or yields a fresh, well-formed library whose content is what `Catalogs.Load` gives and whose `Book` objects are all fresh |
| `App.Library.AddBook` | app.py:53-58 | the new content and the outcome are `Catalogs.Add` of the old content; the given object is stored only when its id was absent |
| `App.Library.SearchBook` | app.py:60-65 | returns the stored `Book` objects under the ids of `Catalogs.Search`, one for one and in the same order |
| `App.Library.BorrowBook` | app.py:67-74 | the new content and the outcome are `Catalogs.BorrowBook` of the old content; ids, order and objects stay the same |
| `App.Library.ReturnBook` | app.py:76-83 | the new content and the outcome are `Catalogs.ReturnBook` of the old content; ids, order and objects stay the same |
| `App.Library.Stats` | app.py:107-114 | the figures summed over the books' records in insertion order equal `Catalogs.Stats` of the content |
| `App.Library.SaveData` | app.py:94-97 | the written dictionary is `Catalogs.Save` of the content, and loading it gives the content back |
| `App.Library.LoadBooks` | app.py:103 | fails with `Catalogs.Load`'s error, or gives distinct fresh books under exactly the file's keys whose records are what `Catalogs.Load` gives |
| `App.Library.LoadData` | app.py:99-105 | on success the content becomes `Catalogs.Load` of the file, with fresh books; on failure the error is returned and the library is left as it was |

## Left out

- File I/O (`open`, `json.dump`, `json.load`, `os.path.exists`, UTF-8, indentation) and the
  `db_file` path. These are library calls and filesystem state. The file is a parameter and a
  result: `None` is an absent file, and `Some(doc)` is the parsed dictionary.
- JSON text and parse errors. A malformed file is a library exception that ends the session.
  Only a missing required key in a record (`KeyError` in `from_dict`) is modelled, as
  `MissingField`.
- Dynamic typing: `BookDict` has typed fields. A JSON value of another type is not modelled, and
  extra keys (which `from_dict` ignores) are not represented.
- All `print` output, including `list_books` (app.py:85-92), which only prints. The order it
  prints in is `Model().keys` (the field `Library.order`), and `Catalogs.Rows(Model())` are the records it
  prints, in that order.
- `menu()` and `main()` (app.py:118-176): the `input()` loop, `int()` parsing of user input and
  the process exit.
- Unicode lower-casing: `Text.Lower` changes only ASCII `A`-`Z`.
- The default `copies=1` of the `Book` constructor: Dafny has no default arguments, so callers pass
  `copies` explicitly.
- The unused `datetime` import.
- App.Library.AddBook: requires that the given `Book` object is not already stored. The source's
  caller always builds a new `Book`. Without this requirement, two ids could share one object, and
  a loan on one would change the other.
- App.Library.LoadData: where Python raises and abandons the session, the model returns the error
  and leaves the library as it was. This matches the source's state at the point of the raise,
  because `self.books` is assigned only after the whole comprehension succeeds.
