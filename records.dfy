/** The value of one book record of app.py (class `Book`), its loan steps and its dictionary form. */
module Records {
  import opened Wrappers

  /** The six attributes of a `Book`. */
  datatype Record = Record(bookId: string, title: string, author: string, year: int, copies: int, borrowed: int)

  /** The dictionary `to_dict` produces and `from_dict` reads; a key that is absent is `None`. */
  datatype BookDict = BookDict(
    bookId: Option<string>, title: Option<string>, author: Option<string>,
    year: Option<int>, copies: Option<int>, borrowed: Option<int>)

  /** Reading a dictionary that lacks a required key fails (Python raises `KeyError`). */
  datatype DecodeError = MissingField(name: string)

  /** The outcome of a loan step: the record afterwards and whether the step succeeded. */
  datatype Step = Step(after: Record, ok: bool)

  /** The loan counter invariant: 0 <= borrowed <= copies. */
  predicate Valid(r: Record) {
    0 <= r.borrowed <= r.copies
  }

  /** A freshly constructed book: nothing is borrowed yet. */
  function New(bookId: string, title: string, author: string, year: int, copies: int): (r: Record)
    ensures r.bookId == bookId && r.title == title && r.author == author && r.year == year
    ensures r.copies == copies && r.borrowed == 0
    ensures copies >= 0 ==> Valid(r)
  {
    Record(bookId, title, author, year, copies, 0)
  }

  /** `available_copies`: under the invariant, between none and all of the copies. */
  function Available(r: Record): (n: int)
    ensures Valid(r) ==> 0 <= n <= r.copies
    ensures Valid(r) ==> (n == 0 <==> r.borrowed == r.copies)
  {
    r.copies - r.borrowed
  }

  /** `borrow`: lend one copy if one is available; otherwise leave the record as it is. */
  function Borrow(r: Record): (s: Step)
    ensures s.ok <==> Available(r) > 0
    ensures s.ok ==> s.after.borrowed == r.borrowed + 1 && Available(s.after) == Available(r) - 1
    ensures !s.ok ==> s.after == r
    ensures s.after.(borrowed := r.borrowed) == r
  {
    if Available(r) > 0 then Step(r.(borrowed := r.borrowed + 1), true) else Step(r, false)
  }

  /** `return_book`: take back one copy if any is lent; otherwise leave the record as it is. */
  function ReturnBook(r: Record): (s: Step)
    ensures s.ok <==> r.borrowed > 0
    ensures s.ok ==> s.after.borrowed == r.borrowed - 1 && Available(s.after) == Available(r) + 1
    ensures !s.ok ==> s.after == r
    ensures s.after.(borrowed := r.borrowed) == r
  {
    if r.borrowed > 0 then Step(r.(borrowed := r.borrowed - 1), true) else Step(r, false)
  }

  /** Both loan steps keep the counter invariant. */
  lemma StepsPreserveValid(r: Record)
    requires Valid(r)
    ensures Valid(Borrow(r).after) && Valid(ReturnBook(r).after)
  {
  }

  /** Under the invariant, a successful return undoes a successful borrow, and the other way round. */
  lemma ReturnUndoesBorrow(r: Record)
    requires Valid(r)
    ensures Borrow(r).ok ==> ReturnBook(Borrow(r).after) == Step(r, true)
    ensures ReturnBook(r).ok ==> Borrow(ReturnBook(r).after) == Step(r, true)
  {
  }

  /** A request a borrower can make of a book. */
  datatype Request = BorrowRequest | ReturnRequest

  /** The record after a sequence of requests, each applied with its guard. */
  function Run(r: Record, requests: seq<Request>): (after: Record)
    ensures after.(borrowed := r.borrowed) == r
    decreases |requests|
  {
    if requests == [] then r
    else
      var s := if requests[0] == BorrowRequest then Borrow(r) else ReturnBook(r);
      Run(s.after, requests[1..])
  }

  /** A record that satisfies the invariant keeps it after any sequence of requests. */
  lemma {:induction false} RunPreservesValid(r: Record, requests: seq<Request>)
    requires Valid(r)
    ensures Valid(Run(r, requests))
    decreases |requests|
  {
    if requests != [] {
      StepsPreserveValid(r);
      var s := if requests[0] == BorrowRequest then Borrow(r) else ReturnBook(r);
      RunPreservesValid(s.after, requests[1..]);
    }
  }

  /** `to_dict`: all six fields, `borrowed` included. */
  function ToDict(r: Record): (d: BookDict)
    ensures d.bookId.Some? && d.title.Some? && d.author.Some?
    ensures d.year.Some? && d.copies.Some? && d.borrowed.Some?
  {
    BookDict(Some(r.bookId), Some(r.title), Some(r.author), Some(r.year), Some(r.copies), Some(r.borrowed))
  }

  /**
   * `from_dict`: the five constructor fields are required and read in argument order, so the
   * first absent one is the error; `borrowed` defaults to 0. The counter is not checked.
   */
  function FromDict(d: BookDict): (r: Result<Record, DecodeError>)
    ensures r.Success? <==> d.bookId.Some? && d.title.Some? && d.author.Some? && d.year.Some? && d.copies.Some?
    ensures r.Success? ==>
              && r.value.bookId == d.bookId.value && r.value.title == d.title.value
              && r.value.author == d.author.value && r.value.year == d.year.value
              && r.value.copies == d.copies.value
    ensures r.Success? ==> r.value.borrowed == (if d.borrowed.Some? then d.borrowed.value else 0)
  {
    if d.bookId.None? then Failure(MissingField("book_id"))
    else if d.title.None? then Failure(MissingField("title"))
    else if d.author.None? then Failure(MissingField("author"))
    else if d.year.None? then Failure(MissingField("year"))
    else if d.copies.None? then Failure(MissingField("copies"))
    else Success(Record(d.bookId.value, d.title.value, d.author.value, d.year.value, d.copies.value,
                        d.borrowed.GetOr(0)))
  }

  /** The error names the first required key that is absent, in the order book_id, title, author, year, copies. */
  lemma FromDictFirstMissing(d: BookDict)
    ensures d.bookId.None? ==> FromDict(d) == Failure(MissingField("book_id"))
    ensures d.bookId.Some? && d.title.None? ==> FromDict(d) == Failure(MissingField("title"))
    ensures d.bookId.Some? && d.title.Some? && d.author.None? ==> FromDict(d) == Failure(MissingField("author"))
    ensures (d.bookId.Some? && d.title.Some? && d.author.Some? && d.year.None?) ==>
              FromDict(d) == Failure(MissingField("year"))
    ensures (d.bookId.Some? && d.title.Some? && d.author.Some? && d.year.Some? && d.copies.None?) ==>
              FromDict(d) == Failure(MissingField("copies"))
  {
  }

  /** Writing a record out and reading it back loses nothing. */
  lemma RoundTrip(r: Record)
    ensures FromDict(ToDict(r)) == Success(r)
  {
  }

  /** `from_dict` accepts a dictionary whose `borrowed` exceeds `copies`: loading can break the invariant. */
  lemma FromDictMayBreakInvariant()
    ensures exists d :: FromDict(d).Success? && !Valid(FromDict(d).value)
  {
    var d := BookDict(Some("b1"), Some("Dune"), Some("Herbert"), Some(1965), Some(1), Some(2));
    assert FromDict(d).Success? && !Valid(FromDict(d).value);
  }
}
