/**
 * The five request handlers over the shared, ordered book list. The list is
 * the `books` field of a `Catalog`; each handler returns the outcome its
 * HTTP response would report.
 */
module Handler {
  import opened Wrappers
  import opened Books
  import opened Search
  import opened Listing

  /** What a handler answers, in place of the HTTP response object. */
  datatype Response =
    | Created(bookId: string)
    | Listed(books: seq<Summary>)
    | Found(book: Book)
    | Ok
    | BadRequest(error: ValidationError)
    | NotFound
    | InternalError

  /** The HTTP status code each handler sets for the outcome. */
  function Code(r: Response): int
  {
    match r
    case Created(_) => 201
    case Listed(_) => 200
    case Found(_) => 200
    case Ok => 200
    case BadRequest(_) => 400
    case NotFound => 404
    case InternalError => 500
  }

  /** The `status` field of the response body: "success" exactly for the 2xx codes. */
  function Status(r: Response): (s: string)
    ensures s == "success" <==> 200 <= Code(r) < 300
    ensures s == "fail" <==> 400 <= Code(r)
  {
    match r
    case Created(_) => "success"
    case Listed(_) => "success"
    case Found(_) => "success"
    case Ok => "success"
    case _ => "fail"
  }

  class Catalog {
    /** The shared list of book records, in insertion order. */
    var books: seq<Book>

    /** Ids are unique and every stored record is well formed. */
    ghost predicate Valid()
      reads this
    {
      UniqueIds(books) && forall b :: b in books ==> WellFormed(b)
    }

    constructor ()
      ensures Valid() && books == []
    {
      books := [];
    }

    /**
     * `addBookHandler`. The fresh id and the current time are given; the id
     * must not be in use yet. A rejected request leaves the list unchanged;
     * an accepted one appends exactly one record, and the post-insert check
     * always finds it, so the internal error is never reported.
     */
    method Add(id: string, p: Payload, now: Timestamp) returns (r: Response)
      requires Valid()
      requires !HasId(books, id)
      modifies this
      ensures Valid()
      ensures r != InternalError
      ensures Validate(p).Some? ==> r == BadRequest(Validate(p).value) && books == old(books)
      ensures Validate(p) == None ==>
        r == Created(id) && books == old(books) + [NewBook(id, p, now)]
    {
      if !HasName(p) {
        return BadRequest(MissingName);
      }
      if p.readPage > p.pageCount {
        return BadRequest(ReadPageExceedsPageCount);
      }
      var book := NewBook(id, p, now);
      AppendKeepsUnique(books, book);
      books := books + [book];
      assert book in books && Matches(IdIs(id), book);
      var isSuccess := |Select(books, IdIs(id))| > 0;
      if isSuccess {
        r := Created(id);
      } else {
        r := InternalError;
      }
    }

    /** `getAllBooksHandler`: the filtered projections, in catalog order; nothing changes. */
    method GetAll(q: Query) returns (r: Response)
      ensures r.Listed? && r.books == ListBooks(books, q)
      ensures |r.books| <= |books|
    {
      r := Listed(ListBooks(books, q));
    }

    /** `getBooksByIdHandler`: the first record with the id, or NotFound; nothing changes. */
    method GetById(id: string) returns (r: Response)
      ensures r.Found? || r == NotFound
      ensures r.Found? <==> HasId(books, id)
      ensures r.Found? ==> r.book.id == id && r.book == books[FindIndex(books, id)]
    {
      var book := FindById(books, id);
      if book.Some? {
        r := Found(book.value);
      } else {
        r := NotFound;
      }
    }

    /**
     * `editBooksByIdHandler`. Validation comes before the lookup; an
     * unknown id leaves the list unchanged; otherwise only the matching
     * position changes.
     */
    method Edit(id: string, p: Payload, now: Timestamp) returns (r: Response)
      requires Valid()
      modifies this
      ensures Valid()
      ensures Validate(p).Some? ==> r == BadRequest(Validate(p).value) && books == old(books)
      ensures Validate(p) == None && !HasId(old(books), id) ==> r == NotFound && books == old(books)
      ensures Validate(p) == None && HasId(old(books), id) ==>
        var k := FindIndex(old(books), id);
        && r == Ok
        && books == old(books)[k := Revise(old(books)[k], p, now)]
        && |books| == |old(books)|
        && (forall j :: 0 <= j < |books| && j != k ==> books[j] == old(books)[j])
        && books[k].id == id && books[k].insertedAt == old(books)[k].insertedAt
        && books[k].updatedAt == now
    {
      if !HasName(p) {
        return BadRequest(MissingName);
      }
      if p.readPage > p.pageCount {
        return BadRequest(ReadPageExceedsPageCount);
      }
      var index := FindIndex(books, id);
      if index != -1 {
        var revised := Revise(books[index], p, now);
        ReplaceKeepsUnique(books, index, revised);
        books := books[index := revised];
        r := Ok;
      } else {
        r := NotFound;
      }
    }

    /**
     * `deleteBooksByIdHandler`: splices out the first record with the id,
     * keeping the order of the rest, or answers NotFound with the list
     * unchanged. Afterwards no record has the id, so repeating the delete
     * answers NotFound.
     */
    method Delete(id: string) returns (r: Response)
      requires Valid()
      modifies this
      ensures Valid()
      ensures !HasId(old(books), id) ==> r == NotFound && books == old(books)
      ensures HasId(old(books), id) ==>
        && r == Ok
        && books == RemoveAt(old(books), FindIndex(old(books), id))
        && |books| == |old(books)| - 1
        && IsSubsequence(books, old(books))
        && multiset(books) == multiset(old(books)) - multiset{old(books)[FindIndex(old(books), id)]}
      ensures !HasId(books, id)
    {
      var index := FindIndex(books, id);
      if index != -1 {
        RemoveAtKeepsUnique(books, index);
        RemoveAtKeepsOrder(books, index);
        RemoveFoundLeavesNone(books, id);
        RemoveAtMultiset(books, index);
        books := RemoveAt(books, index);
        r := Ok;
      } else {
        r := NotFound;
      }
    }
  }

  /**
   * A client of the handlers: create a fully read book, fetch it back,
   * delete it twice.
   */
  method Walkthrough(id: string, now: Timestamp)
  {
    var catalog := new Catalog();
    var laut := Payload(Some("Laut"), 2021, "Author", "Summary", "Publisher", 100, 100, false);
    var created := catalog.Add(id, laut, now);
    assert created == Created(id) && Code(created) == 201;
    assert catalog.books[0].id == id;
    var fetched := catalog.GetById(id);
    assert fetched.Found? && fetched.book.finished && fetched.book.insertedAt == fetched.book.updatedAt;
    var deleted := catalog.Delete(id);
    assert deleted == Ok;
    deleted := catalog.Delete(id);
    assert deleted == NotFound && Code(deleted) == 404;
  }
}
