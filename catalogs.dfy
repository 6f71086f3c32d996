/**
 * The value of a `Library` of app.py: an insertion-ordered dictionary from id to book record, with
 * the library's operations as functions and the properties they promise as lemmas.
 */
module Catalogs {
  import opened Wrappers
  import opened Text
  import opened OrderedMaps
  import Records

  type Record = Records.Record
  type BookDict = Records.BookDict
  type DecodeError = Records.DecodeError

  /** The books of a library, keyed by id in insertion order. */
  type Catalog = OrderedMap<Record>

  /** The saved form: a dictionary from id to record dictionary, in the same order. */
  type Document = OrderedMap<BookDict>

  /** What an operation reports (the source prints these as messages). */
  datatype Outcome = Ok | NotFound | NoCopies | NothingToReturn | AlreadyExists

  /** The library after an operation, and what the operation reported. */
  datatype Change = Change(after: Catalog, outcome: Outcome)

  /** Every record of the library satisfies the loan counter invariant. */
  ghost predicate AllValid(c: Catalog) {
    forall k :: k in c.values ==> Records.Valid(c.values[k])
  }

  // ---------------------------------------------------------------- add_book

  /** `add_book`: insert under the record's own id, unless that id is already present. */
  function Add(c: Catalog, r: Record): (ch: Change)
    requires Valid(c)
    ensures Valid(ch.after)
    ensures ch.outcome == Ok <==> r.bookId !in c.values
    ensures ch.outcome != Ok ==> ch == Change(c, AlreadyExists)
    ensures ch.outcome == Ok ==> ch.after.keys == c.keys + [r.bookId]
    ensures ch.outcome == Ok ==> ch.after.values.Keys == c.values.Keys + {r.bookId} && ch.after.values[r.bookId] == r
    ensures forall k :: k in c.values ==> k in ch.after.values && ch.after.values[k] == c.values[k]
  {
    if r.bookId in c.values then Change(c, AlreadyExists)
    else Change(OrderedMap(c.keys + [r.bookId], c.values[r.bookId := r]), Ok)
  }

  // ------------------------------------------------- borrow_book, return_book

  /** `borrow_book`: look the id up and let that record's `borrow` decide. */
  function BorrowBook(c: Catalog, id: string): (ch: Change)
    requires Valid(c)
    ensures Valid(ch.after) && ch.after.keys == c.keys && ch.after.values.Keys == c.values.Keys
    ensures forall k :: k in c.values && k != id ==> ch.after.values[k] == c.values[k]
    ensures id !in c.values ==> ch == Change(c, NotFound)
    ensures id in c.values ==> ch.outcome in {Ok, NoCopies}
    ensures id in c.values ==> Records.Borrow(c.values[id]) == Records.Step(ch.after.values[id], ch.outcome == Ok)
  {
    if id !in c.values then Change(c, NotFound)
    else
      var s := Records.Borrow(c.values[id]);
      Change(c.(values := c.values[id := s.after]), if s.ok then Ok else NoCopies)
  }

  /** `return_book`: look the id up and let that record's `return_book` decide. */
  function ReturnBook(c: Catalog, id: string): (ch: Change)
    requires Valid(c)
    ensures Valid(ch.after) && ch.after.keys == c.keys && ch.after.values.Keys == c.values.Keys
    ensures forall k :: k in c.values && k != id ==> ch.after.values[k] == c.values[k]
    ensures id !in c.values ==> ch == Change(c, NotFound)
    ensures id in c.values ==> ch.outcome in {Ok, NothingToReturn}
    ensures id in c.values ==> Records.ReturnBook(c.values[id]) == Records.Step(ch.after.values[id], ch.outcome == Ok)
  {
    if id !in c.values then Change(c, NotFound)
    else
      var s := Records.ReturnBook(c.values[id]);
      Change(c.(values := c.values[id := s.after]), if s.ok then Ok else NothingToReturn)
  }

  /** Adding a record that satisfies the invariant, and every loan step, keep all records valid. */
  lemma OperationsPreserveAllValid(c: Catalog, r: Record, id: string)
    requires Valid(c) && AllValid(c)
    ensures Records.Valid(r) ==> AllValid(Add(c, r).after)
    ensures AllValid(BorrowBook(c, id).after) && AllValid(ReturnBook(c, id).after)
  {
  }

  // ------------------------------------------------------------- search_book

  /** The search condition: the lower-cased keyword occurs in the lower-cased title or author. */
  predicate Matches(r: Record, keyword: string)
    ensures keyword == "" ==> Matches(r, keyword)
  {
    Contains(Lower(r.title), Lower(keyword)) || Contains(Lower(r.author), Lower(keyword))
  }

  /** A record matches exactly when the lower-cased keyword occurs in its lower-cased title or author. */
  lemma MatchesIffOccurs(r: Record, keyword: string)
    ensures Matches(r, keyword) <==> Occurs(Lower(r.title), Lower(keyword)) || Occurs(Lower(r.author), Lower(keyword))
  {
    ContainsIffOccurs(Lower(r.title), Lower(keyword));
    ContainsIffOccurs(Lower(r.author), Lower(keyword));
  }

  /** Matching ignores the case of the keyword, of the title and of the author. */
  lemma MatchesCaseInsensitive(r: Record, keyword: string)
    ensures Matches(r, Lower(keyword)) == Matches(r, keyword)
    ensures Matches(r.(title := Lower(r.title), author := Lower(r.author)), keyword) == Matches(r, keyword)
  {
    LowerIdempotent(keyword);
    LowerIdempotent(r.title);
    LowerIdempotent(r.author);
  }

  /** The ids whose records match the keyword. */
  function Matching(values: map<string, Record>, keyword: string): (keep: set<string>)
    ensures forall id :: id in keep <==> id in values && Matches(values[id], keyword)
    ensures keyword == "" ==> keep == values.Keys
  {
    set id | id in values && Matches(values[id], keyword)
  }

  /**
   * The ids among the first `n` of `ids` that are in `keep`, in the order of `ids`: the list
   * that the loop of `search_book` has built after its first `n` rounds.
   */
  function Kept(ids: seq<string>, n: nat, keep: set<string>): (r: seq<string>)
    requires n <= |ids|
    ensures |r| <= n
  {
    if n == 0 then []
    else Kept(ids, n - 1, keep) + if ids[n - 1] in keep then [ids[n - 1]] else []
  }

  /** An id is kept exactly when it is among the first `n` ids and in `keep`. */
  lemma {:induction false} KeptMembers(ids: seq<string>, n: nat, keep: set<string>)
    requires n <= |ids|
    ensures forall id :: id in Kept(ids, n, keep) <==> id in ids[..n] && id in keep
  {
    if n > 0 {
      KeptMembers(ids, n - 1, keep);
      assert ids[..n] == ids[..n - 1] + [ids[n - 1]];
    }
  }

  /** When every id is in `keep`, nothing is left out. */
  lemma {:induction false} KeptAll(ids: seq<string>, n: nat, keep: set<string>)
    requires n <= |ids|
    requires forall id :: id in ids ==> id in keep
    ensures Kept(ids, n, keep) == ids[..n]
  {
    if n > 0 {
      KeptAll(ids, n - 1, keep);
      assert ids[..n] == ids[..n - 1] + [ids[n - 1]];
    }
  }

  /** A strictly increasing sequence of positions. */
  ghost predicate Increasing(pos: seq<nat>) {
    forall i, j :: 0 <= i < j < |pos| ==> pos[i] < pos[j]
  }

  /** The kept ids sit at strictly increasing positions below `n`: they are a subsequence of `ids`. */
  lemma {:induction false} KeptPositions(ids: seq<string>, n: nat, keep: set<string>) returns (pos: seq<nat>)
    requires n <= |ids|
    ensures |pos| == |Kept(ids, n, keep)|
    ensures forall i :: 0 <= i < |pos| ==> pos[i] < n && Kept(ids, n, keep)[i] == ids[pos[i]]
    ensures Increasing(pos)
  {
    if n == 0 {
      return [];
    }
    var rest := KeptPositions(ids, n - 1, keep);
    var prev := Kept(ids, n - 1, keep);
    if ids[n - 1] in keep {
      pos := rest + [n - 1];
      assert Kept(ids, n, keep) == prev + [ids[n - 1]];
    } else {
      pos := rest;
      assert Kept(ids, n, keep) == prev;
    }
  }

  /** `search_book`: the ids of the matching books, in insertion order. */
  function Search(c: Catalog, keyword: string): (r: seq<string>)
    requires Valid(c)
    ensures forall id :: id in r <==> id in c.values && Matches(c.values[id], keyword)
    ensures keyword == "" ==> r == c.keys
  {
    var keep := Matching(c.values, keyword);
    KeptMembers(c.keys, |c.keys|, keep);
    assert c.keys[..|c.keys|] == c.keys;
    if keyword == "" then
      KeptAll(c.keys, |c.keys|, keep);
      Kept(c.keys, |c.keys|, keep)
    else
      Kept(c.keys, |c.keys|, keep)
  }

  /**
   * The search result is the subsequence of the insertion order that matches: each hit sits at a
   * position of `c.keys`, the positions strictly increase, so no id is reported twice.
   */
  lemma SearchInOrder(c: Catalog, keyword: string) returns (pos: seq<nat>)
    requires Valid(c)
    ensures |pos| == |Search(c, keyword)|
    ensures forall i :: 0 <= i < |pos| ==> pos[i] < |c.keys| && Search(c, keyword)[i] == c.keys[pos[i]]
    ensures forall i, j :: 0 <= i < j < |pos| ==> pos[i] < pos[j]
    ensures forall i, j :: 0 <= i < j < |pos| ==> Search(c, keyword)[i] != Search(c, keyword)[j]
  {
    pos := KeptPositions(c.keys, |c.keys|, Matching(c.values, keyword));
  }

  // ------------------------------------------------------------------- stats

  /** The records in insertion order (the order `books.values()` yields them). */
  function Rows(c: Catalog): (rs: seq<Record>)
    requires Valid(c)
    ensures |rs| == |c.keys| == |c.values|
    ensures forall i :: 0 <= i < |rs| ==> rs[i] == c.values[c.keys[i]]
  {
    KeyCount(c);
    seq(|c.keys|, i requires 0 <= i < |c.keys| => c.values[c.keys[i]])
  }

  /** `sum(book.copies for ...)`: never negative when no record has negative copies. */
  function SumCopies(rs: seq<Record>): (s: int)
    ensures (forall i :: 0 <= i < |rs| ==> rs[i].copies >= 0) ==> s >= 0
  {
    if rs == [] then 0 else SumCopies(rs[..|rs| - 1]) + rs[|rs| - 1].copies
  }

  /** `sum(book.borrowed for ...)`: never negative when no record has a negative counter. */
  function SumBorrowed(rs: seq<Record>): (s: int)
    ensures (forall i :: 0 <= i < |rs| ==> rs[i].borrowed >= 0) ==> s >= 0
  {
    if rs == [] then 0 else SumBorrowed(rs[..|rs| - 1]) + rs[|rs| - 1].borrowed
  }

  /** The figures `stats` shows. */
  datatype Report = Report(distinct: nat, totalCopies: int, borrowedCopies: int, availableCopies: int)

  /** `stats`: number of ids, sum of copies, sum of borrowed, and their difference. */
  function Stats(c: Catalog): (rep: Report)
    requires Valid(c)
    ensures rep.distinct == |c.keys|
    ensures rep.availableCopies == rep.totalCopies - rep.borrowedCopies
    ensures AllValid(c) ==> 0 <= rep.borrowedCopies <= rep.totalCopies
  {
    SumsBounded(Rows(c));
    var total := SumCopies(Rows(c));
    var lent := SumBorrowed(Rows(c));
    Report(|c.values|, total, lent, total - lent)
  }

  /** Sums over records that all satisfy the invariant satisfy it too. */
  lemma {:induction false} SumsBounded(rs: seq<Record>)
    ensures (forall i :: 0 <= i < |rs| ==> Records.Valid(rs[i])) ==> 0 <= SumBorrowed(rs) <= SumCopies(rs)
    decreases |rs|
  {
    if rs != [] {
      SumsBounded(rs[..|rs| - 1]);
      assert forall i :: 0 <= i < |rs| - 1 ==> rs[..|rs| - 1][i] == rs[i];
    }
  }

  /** When every record satisfies the invariant, so do the totals. */
  lemma StatsBounded(c: Catalog)
    requires Valid(c) && AllValid(c)
    ensures 0 <= Stats(c).borrowedCopies <= Stats(c).totalCopies
    ensures 0 <= Stats(c).availableCopies <= Stats(c).totalCopies
  {
    SumsBounded(Rows(c));
  }

  /** Replacing one record changes the copies total by exactly the difference at that place. */
  lemma {:induction false} CopiesUpdate(rs: seq<Record>, j: nat, x: Record)
    requires j < |rs|
    ensures SumCopies(rs[j := x]) == SumCopies(rs) - rs[j].copies + x.copies
    decreases |rs|
  {
    var n := |rs|;
    if j == n - 1 {
      assert rs[j := x][..n - 1] == rs[..n - 1];
    } else {
      assert rs[j := x][..n - 1] == rs[..n - 1][j := x];
      CopiesUpdate(rs[..n - 1], j, x);
    }
  }

  /** Replacing one record changes the borrowed total by exactly the difference at that place. */
  lemma {:induction false} BorrowedUpdate(rs: seq<Record>, j: nat, x: Record)
    requires j < |rs|
    ensures SumBorrowed(rs[j := x]) == SumBorrowed(rs) - rs[j].borrowed + x.borrowed
    decreases |rs|
  {
    var n := |rs|;
    if j == n - 1 {
      assert rs[j := x][..n - 1] == rs[..n - 1];
    } else {
      assert rs[j := x][..n - 1] == rs[..n - 1][j := x];
      BorrowedUpdate(rs[..n - 1], j, x);
    }
  }

  /** Changing the record under a listed key changes the rows at that key's position only. */
  lemma RowsUpdate(c: Catalog, d: Catalog, id: string) returns (j: nat)
    requires Valid(c) && Valid(d) && d.keys == c.keys && id in c.values
    requires forall k :: k in c.values && k != id ==> d.values[k] == c.values[k]
    ensures j < |c.keys| && c.keys[j] == id
    ensures Rows(d) == Rows(c)[j := d.values[id]]
  {
    j :| 0 <= j < |c.keys| && c.keys[j] == id;
    assert forall i :: 0 <= i < |c.keys| && i != j ==> c.keys[i] != id;
  }

  /** A successful borrow raises the borrowed total by one; the number of books and of copies stays the same. */
  lemma StatsAfterBorrow(c: Catalog, id: string)
    requires Valid(c)
    ensures var s := Stats(BorrowBook(c, id).after);
      && s.distinct == Stats(c).distinct && s.totalCopies == Stats(c).totalCopies
      && s.borrowedCopies == Stats(c).borrowedCopies + (if BorrowBook(c, id).outcome == Ok then 1 else 0)
  {
    if id in c.values {
      var b := BorrowBook(c, id).after;
      var j := RowsUpdate(c, b, id);
      CopiesUpdate(Rows(c), j, b.values[id]);
      BorrowedUpdate(Rows(c), j, b.values[id]);
    }
  }

  /** A successful return lowers the borrowed total by one; the number of books and of copies stays the same. */
  lemma StatsAfterReturn(c: Catalog, id: string)
    requires Valid(c)
    ensures var s := Stats(ReturnBook(c, id).after);
      && s.distinct == Stats(c).distinct && s.totalCopies == Stats(c).totalCopies
      && s.borrowedCopies == Stats(c).borrowedCopies - (if ReturnBook(c, id).outcome == Ok then 1 else 0)
  {
    if id in c.values {
      var r := ReturnBook(c, id).after;
      var j := RowsUpdate(c, r, id);
      CopiesUpdate(Rows(c), j, r.values[id]);
      BorrowedUpdate(Rows(c), j, r.values[id]);
    }
  }

  /** Two books, with 2 copies (1 lent) and 3 copies (none lent): 5 copies, 1 borrowed, 4 available. */
  lemma StatsExample()
    ensures var c := OrderedMap(["b1", "b2"], map["b1" := Records.Record("b1", "Dune", "Herbert", 1965, 2, 1),
                                                  "b2" := Records.Record("b2", "Emma", "Austen", 1815, 3, 0)]);
            Valid(c) && Stats(c) == Report(2, 5, 1, 4)
  {
    var c := OrderedMap(["b1", "b2"], map["b1" := Records.Record("b1", "Dune", "Herbert", 1965, 2, 1),
                                          "b2" := Records.Record("b2", "Emma", "Austen", 1815, 3, 0)]);
    var rows := Rows(c);
    assert rows == [c.values["b1"], c.values["b2"]];
    var first := rows[..1];
    assert first[..0] == [];
    assert first[0] == c.values["b1"];
    assert SumCopies(first) == 2;
    assert SumBorrowed(first) == 1;
    assert rows[..|rows| - 1] == first;
    assert SumCopies(rows) == 5 && SumBorrowed(rows) == 1;
    assert c.values.Keys == {"b1", "b2"};
    assert |c.values| == 2;
  }

  // -------------------------------------------------- save_data, load_data

  /** The dictionary `save_data` writes: each record's `to_dict` under its key, in the same order. */
  function Save(c: Catalog): (d: Document)
    requires Valid(c)
    ensures Valid(d) && d.keys == c.keys
  {
    OrderedMap(c.keys, map k | k in c.values :: Records.ToDict(c.values[k]))
  }

  /**
   * `from_dict` applied to the dictionary under each key, keyed by that dictionary key (not by
   * the record's own `book_id`). The first key whose dictionary cannot be read decides the error.
   */
  function LoadFrom(keys: seq<string>, docs: map<string, BookDict>): (r: Result<map<string, Record>, DecodeError>)
    requires forall k :: k in keys ==> k in docs
    ensures r.Success? <==> forall k :: k in keys ==> Records.FromDict(docs[k]).Success?
    ensures r.Success? ==> forall k :: k in r.value <==> k in keys
    ensures r.Success? ==> forall k :: k in keys ==> Records.FromDict(docs[k]) == Success(r.value[k])
    ensures r.Failure? ==>
              exists i :: (&& 0 <= i < |keys|
                           && Records.FromDict(docs[keys[i]]) == Failure(r.error)
                           && forall j :: 0 <= j < i ==> Records.FromDict(docs[keys[j]]).Success?)
    decreases |keys|
  {
    if keys == [] then Success(map[])
    else
      var n := |keys| - 1;
      var front := LoadFrom(keys[..n], docs);
      assert forall k :: k in keys <==> k in keys[..n] || k == keys[n];
      if front.Failure? then front
      else match Records.FromDict(docs[keys[n]])
        case Failure(e) => Failure(e)
        case Success(r) => Success(front.value[keys[n] := r])
  }

  /** `load_data`: an absent file gives the empty library; otherwise every entry is read or the load fails. */
  function Load(file: Option<Document>): (r: Result<Catalog, DecodeError>)
    requires file.Some? ==> Valid(file.value)
    ensures file.None? ==> r == Success(Empty())
    ensures r.Success? ==> Valid(r.value)
    ensures r.Success? && file.Some? ==> r.value.keys == file.value.keys
  {
    match file
    case None => Success(Empty())
    case Some(doc) =>
      match LoadFrom(doc.keys, doc.values)
      case Failure(e) => Failure(e)
      case Success(m) => Success(OrderedMap(doc.keys, m))
  }

  /** When every entry decodes, loading gives exactly the decoded records under the file's keys. */
  lemma LoadDecoded(doc: Document, m: map<string, Record>)
    requires Valid(doc)
    requires forall k :: k in m <==> k in doc.keys
    requires forall k :: k in doc.keys ==> Records.FromDict(doc.values[k]) == Success(m[k])
    ensures Load(Some(doc)) == Success(OrderedMap(doc.keys, m))
  {
    var r := LoadFrom(doc.keys, doc.values);
    assert r.value == m;
  }

  /** When the entry at position `i` is the first that cannot be read, loading fails with its error. */
  lemma LoadFirstFailure(doc: Document, i: nat)
    requires Valid(doc) && i < |doc.keys|
    requires forall j :: 0 <= j < i ==> Records.FromDict(doc.values[doc.keys[j]]).Success?
    requires Records.FromDict(doc.values[doc.keys[i]]).Failure?
    ensures Load(Some(doc)) == Failure(Records.FromDict(doc.values[doc.keys[i]]).error)
  {
  }

  /** Saving and loading back gives the same library: same ids, same order, same six fields. */
  lemma LoadSave(c: Catalog)
    requires Valid(c)
    ensures Load(Some(Save(c))) == Success(c)
  {
    var d := Save(c);
    forall k | k in c.keys ensures Records.FromDict(d.values[k]) == Success(c.values[k]) {
      Records.RoundTrip(c.values[k]);
    }
    LoadDecoded(d, c.values);
  }

  /** The key a record is loaded under is the file's key, which need not be the record's `book_id`. */
  lemma LoadKeysByFileKey()
    ensures exists doc: Document ::
              (&& Valid(doc) && Load(Some(doc)).Success?
               && "a" in Load(Some(doc)).value.values && Load(Some(doc)).value.values["a"].bookId != "a")
  {
    var entry := Records.BookDict(Some("b"), Some("Dune"), Some("Herbert"), Some(1965), Some(2), None);
    var doc: Document := OrderedMap(["a"], map["a" := entry]);
    assert Records.FromDict(entry).Success?;
    assert Load(Some(doc)).Success?;
  }
}
