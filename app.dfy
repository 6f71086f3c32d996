/**
 * The classes of app.py. A `Book` is updated in place by its loan methods; a `Library` owns an
 * insertion-ordered dictionary of books. Every method is specified by the value-level functions
 * of Records and Catalogs, through `Book.Value()` and `Library.Model()`.
 */
module App {
  import opened Wrappers
  import opened OrderedMaps
  import Records
  import Catalogs

  class Book {
    const bookId: string
    const title: string
    const author: string
    const year: int
    const copies: int
    var borrowed: int

    /** The record this book currently holds. */
    function Value(): Records.Record
      reads this
    {
      Records.Record(bookId, title, author, year, copies, borrowed)
    }

    /** `Book(book_id, title, author, year, copies)`: a new book with nothing borrowed. */
    constructor (bookId: string, title: string, author: string, year: int, copies: int)
      ensures Value() == Records.New(bookId, title, author, year, copies)
    {
      this.bookId := bookId;
      this.title := title;
      this.author := author;
      this.year := year;
      this.copies := copies;
      this.borrowed := 0;
    }

    /** `available_copies`. */
    function AvailableCopies(): (n: int)
      reads this
      ensures n == Records.Available(Value())
    {
      copies - borrowed
    }

    /** `borrow`: one more copy lent when one is available. */
    method Borrow() returns (ok: bool)
      modifies this`borrowed
      ensures Records.Step(Value(), ok) == Records.Borrow(old(Value()))
    {
      if AvailableCopies() > 0 {
        borrowed := borrowed + 1;
        return true;
      }
      return false;
    }

    /** `return_book`: one copy fewer lent when any is lent. */
    method ReturnBook() returns (ok: bool)
      modifies this`borrowed
      ensures Records.Step(Value(), ok) == Records.ReturnBook(old(Value()))
    {
      if borrowed > 0 {
        borrowed := borrowed - 1;
        return true;
      }
      return false;
    }

    /** `from_dict`: a new book from a record dictionary, or the missing field. */
    static method FromDict(d: Records.BookDict) returns (r: Result<Book, Records.DecodeError>)
      ensures r.Failure? ==> Records.FromDict(d) == Failure(r.error)
      ensures r.Success? ==> fresh(r.value) && Records.FromDict(d) == Success(r.value.Value())
    {
      if d.bookId.None? { return Failure(Records.MissingField("book_id")); }
      if d.title.None? { return Failure(Records.MissingField("title")); }
      if d.author.None? { return Failure(Records.MissingField("author")); }
      if d.year.None? { return Failure(Records.MissingField("year")); }
      if d.copies.None? { return Failure(Records.MissingField("copies")); }
      var book := new Book(d.bookId.value, d.title.value, d.author.value, d.year.value, d.copies.value);
      book.borrowed := d.borrowed.GetOr(0);
      return Success(book);
    }
  }

  class Library {
    /** The ids in insertion order, the order in which `books.values()` yields the books. */
    var order: seq<string>
    var books: map<string, Book>

    /** `order` lists each id of `books` once, and no two ids share a `Book` object. */
    ghost predicate Valid()
      reads this
    {
      && (forall i, j :: 0 <= i < j < |order| ==> order[i] != order[j])
      && (forall k :: k in books <==> k in order)
      && (forall k, k' :: k in books && k' in books && k != k' ==> books[k] != books[k'])
    }

    /** The library's current content as a value. */
    function Model(): (c: Catalogs.Catalog)
      reads this, books.Values
      requires Valid()
      ensures OrderedMaps.Valid(c) && c.keys == order && c.values.Keys == books.Keys
    {
      OrderedMap(order, map k | k in books :: books[k].Value())
    }

    /** An empty library (`self.books = {}`). */
    constructor ()
      ensures Valid() && Model() == Empty()
    {
      order := [];
      books := map[];
    }

    /** `Library(db_file)`: an empty library that then loads the saved file, if there is one. */
    static method Open(file: Option<Catalogs.Document>) returns (r: Result<Library, Records.DecodeError>)
      requires file.Some? ==> OrderedMaps.Valid(file.value)
      ensures r.Failure? ==> Catalogs.Load(file) == Failure(r.error)
      ensures r.Success? ==> fresh(r.value) && r.value.Valid() && Catalogs.Load(file) == Success(r.value.Model())
      ensures r.Success? ==> forall k :: k in r.value.books ==> fresh(r.value.books[k])
    {
      var library := new Library();
      var err := library.LoadData(file);
      if err.Some? {
        return Failure(err.value);
      }
      return Success(library);
    }

    /** `add_book`: store the book under its id unless that id is taken. */
    method AddBook(book: Book) returns (outcome: Catalogs.Outcome)
      requires Valid() && book !in books.Values
      modifies this
      ensures Valid()
      ensures Catalogs.Change(Model(), outcome) == Catalogs.Add(old(Model()), book.Value())
      ensures books == if old(book.bookId in books) then old(books) else old(books)[book.bookId := book]
    {
      if book.bookId in books {
        return Catalogs.AlreadyExists;
      }
      ghost var before := Model().values;
      books := books[book.bookId := book];
      order := order + [book.bookId];
      assert Model().values == before[book.bookId := book.Value()];
      return Catalogs.Ok;
    }

    /** `search_book`: the stored books that match, in insertion order. */
    method SearchBook(keyword: string) returns (results: seq<Book>)
      requires Valid()
      ensures var hits := Catalogs.Search(Model(), keyword);
        |results| == |hits| && forall j :: 0 <= j < |results| ==> hits[j] in books && results[j] == books[hits[j]]
    {
      ghost var keep := set k | k in books && Catalogs.Matches(books[k].Value(), keyword);
      ghost var hits: seq<string> := [];
      results := [];
      for i := 0 to |order|
        invariant hits == Catalogs.Kept(order, i, keep)
        invariant |results| == |hits|
        invariant forall j :: 0 <= j < |results| ==> hits[j] in books && results[j] == books[hits[j]]
      {
        var book := books[order[i]];
        if Catalogs.Matches(book.Value(), keyword) {
          results := results + [book];
          hits := hits + [order[i]];
        }
      }
      assert keep == Catalogs.Matching(Model().values, keyword);
      assert hits == Catalogs.Search(Model(), keyword);
    }

    /** `borrow_book`: look the id up and borrow from that book. */
    method BorrowBook(id: string) returns (outcome: Catalogs.Outcome)
      requires Valid()
      modifies books.Values
      ensures Valid() && order == old(order) && books == old(books)
      ensures Catalogs.Change(Model(), outcome) == Catalogs.BorrowBook(old(Model()), id)
    {
      if id in books {
        var ok := books[id].Borrow();
        outcome := if ok then Catalogs.Ok else Catalogs.NoCopies;
      } else {
        outcome := Catalogs.NotFound;
      }
    }

    /** `return_book`: look the id up and return a copy of that book. */
    method ReturnBook(id: string) returns (outcome: Catalogs.Outcome)
      requires Valid()
      modifies books.Values
      ensures Valid() && order == old(order) && books == old(books)
      ensures Catalogs.Change(Model(), outcome) == Catalogs.ReturnBook(old(Model()), id)
    {
      if id in books {
        var ok := books[id].ReturnBook();
        outcome := if ok then Catalogs.Ok else Catalogs.NothingToReturn;
      } else {
        outcome := Catalogs.NotFound;
      }
    }

    /** `stats`: the number of books and the sums of copies and of borrowed copies. */
    method Stats() returns (report: Catalogs.Report)
      requires Valid()
      ensures report == Catalogs.Stats(Model())
    {
      var rows := Catalogs.Rows(Model());
      var total := Catalogs.SumCopies(rows);
      var lent := Catalogs.SumBorrowed(rows);
      report := Catalogs.Report(|books|, total, lent, total - lent);
    }

    /** `save_data` without the file: the dictionary that is written, which loads back to this library. */
    method SaveData() returns (doc: Catalogs.Document)
      requires Valid()
      ensures doc == Catalogs.Save(Model())
      ensures Catalogs.Load(Some(doc)) == Success(Model())
    {
      doc := OrderedMap(order, map k | k in books :: Records.ToDict(books[k].Value()));
      Catalogs.LoadSave(Model());
    }

    /**
     * The comprehension of `load_data`: a new book from each entry's dictionary, under the
     * entry's key. Fails with the error of the first entry that cannot be read.
     */
    static method LoadBooks(doc: Catalogs.Document) returns (r: Result<map<string, Book>, Records.DecodeError>)
      requires OrderedMaps.Valid(doc)
      ensures r.Failure? ==> Catalogs.Load(Some(doc)) == Failure(r.error)
      ensures r.Success? ==> forall k :: k in r.value <==> k in doc.keys
      ensures r.Success? ==> forall k :: k in r.value ==> fresh(r.value[k])
      ensures r.Success? ==> forall k, k' :: k in r.value && k' in r.value && k != k' ==> r.value[k] != r.value[k']
      ensures r.Success? ==>
                Catalogs.Load(Some(doc)) == Success(OrderedMap(doc.keys, map k | k in r.value :: r.value[k].Value()))
    {
      var loaded: map<string, Book> := map[];
      for i := 0 to |doc.keys|
        invariant forall k :: k in loaded <==> k in doc.keys[..i]
        invariant forall j :: 0 <= j < i ==> Records.FromDict(doc.values[doc.keys[j]]).Success?
        invariant forall k :: k in loaded ==> fresh(loaded[k])
        invariant forall k :: k in loaded ==> Records.FromDict(doc.values[k]) == Success(loaded[k].Value())
        invariant forall k, k' :: k in loaded && k' in loaded && k != k' ==> loaded[k] != loaded[k']
      {
        var key := doc.keys[i];
        var book := Book.FromDict(doc.values[key]);
        if book.Failure? {
          Catalogs.LoadFirstFailure(doc, i);
          return Failure(book.error);
        }
        loaded := loaded[key := book.value];
      }
      assert doc.keys[..|doc.keys|] == doc.keys;
      Catalogs.LoadDecoded(doc, map k | k in loaded :: loaded[k].Value());
      return Success(loaded);
    }

    /**
     * `load_data` without the file: `None` is an absent file. All entries are read before the
     * library is replaced, so a failure leaves it as it was.
     */
    method LoadData(file: Option<Catalogs.Document>) returns (err: Option<Records.DecodeError>)
      requires Valid()
      requires file.Some? ==> OrderedMaps.Valid(file.value)
      modifies this
      ensures Valid()
      ensures Catalogs.Load(file).Failure? ==>
                err == Some(Catalogs.Load(file).error) && order == old(order) && books == old(books)
      ensures Catalogs.Load(file).Success? ==> err == None && Model() == Catalogs.Load(file).value
      ensures Catalogs.Load(file).Success? ==> forall k :: k in books ==> fresh(books[k])
    {
      if file.None? {
        order, books := [], map[];
        return None;
      }
      var r := LoadBooks(file.value);
      if r.Failure? {
        return Some(r.error);
      }
      order, books := file.value.keys, r.value;
      return None;
    }
  }

  /** The lending example: one book with two copies, lent twice, refused once, returned once. */
  method ScenarioDune() {
    var library := new Library();
    var dune := new Book("b1", "Dune", "Herbert", 1965, 2);
    var outcome := library.AddBook(dune);
    assert outcome == Catalogs.Ok && library.books == map["b1" := dune];
    assert library.Model().values["b1"] == dune.Value() == Records.Record("b1", "Dune", "Herbert", 1965, 2, 0);
    outcome := library.BorrowBook("b1");
    assert library.Model().values["b1"] == dune.Value();
    assert outcome == Catalogs.Ok && dune.AvailableCopies() == 1;
    outcome := library.BorrowBook("b1");
    assert library.Model().values["b1"] == dune.Value();
    assert outcome == Catalogs.Ok && dune.AvailableCopies() == 0;
    outcome := library.BorrowBook("b1");
    assert library.Model().values["b1"] == dune.Value();
    assert outcome == Catalogs.NoCopies && dune.AvailableCopies() == 0;
    outcome := library.ReturnBook("b1");
    assert library.Model().values["b1"] == dune.Value();
    assert outcome == Catalogs.Ok && dune.AvailableCopies() == 1;
  }
}
