/**
 * Book records, the request payload that create and update accept, the
 * field validation both apply, and the `{id, name, publisher}` projection
 * the list handler returns.
 */
module Books {
  import opened Wrappers

  /** An ISO-8601 time stamp; the model never looks inside it. */
  type Timestamp = string

  /** One catalog record. `finished` is derived; `id` and `insertedAt` never change. */
  datatype Book = Book(
    id: string,
    name: string,
    year: int,
    author: string,
    summary: string,
    publisher: string,
    pageCount: int,
    readPage: int,
    finished: bool,
    reading: bool,
    insertedAt: Timestamp,
    updatedAt: Timestamp)

  /** The fields a create or update request carries; `name` may be absent. */
  datatype Payload = Payload(
    name: Option<string>,
    year: int,
    author: string,
    summary: string,
    publisher: string,
    pageCount: int,
    readPage: int,
    reading: bool)

  /** Why a create or update request is refused with a client error. */
  datatype ValidationError = MissingName | ReadPageExceedsPageCount

  /** The reduced view the list handler returns for each book. */
  datatype Summary = Summary(id: string, name: string, publisher: string)

  /** The name is present and not the empty string (the handlers' `!name` test fails). */
  predicate HasName(p: Payload)
  {
    p.name.Some? && p.name.value != ""
  }

  /**
   * The two checks of both handlers, in their order: a missing name is
   * reported even when the page counts are also wrong.
   */
  function Validate(p: Payload): (r: Option<ValidationError>)
    ensures r == Some(MissingName) <==> !HasName(p)
    ensures r == Some(ReadPageExceedsPageCount) <==> HasName(p) && p.readPage > p.pageCount
    ensures r == None <==> HasName(p) && p.readPage <= p.pageCount
  {
    if !HasName(p) then Some(MissingName)
    else if p.readPage > p.pageCount then Some(ReadPageExceedsPageCount)
    else None
  }

  /** The record invariant every stored book keeps. */
  ghost predicate WellFormed(b: Book)
  {
    b.name != "" && b.readPage <= b.pageCount && b.finished == (b.pageCount == b.readPage)
  }

  /** `b` holds exactly the user-supplied fields of `p`. */
  ghost predicate Carries(b: Book, p: Payload)
    requires HasName(p)
  {
    b.name == p.name.value && b.year == p.year && b.author == p.author &&
    b.summary == p.summary && b.publisher == p.publisher &&
    b.pageCount == p.pageCount && b.readPage == p.readPage && b.reading == p.reading
  }

  /** The record the create handler builds from a payload, a fresh id and the current time. */
  function NewBook(id: string, p: Payload, now: Timestamp): (b: Book)
    requires HasName(p)
    ensures b.id == id && Carries(b, p)
    ensures b.finished <==> p.pageCount == p.readPage
    ensures b.insertedAt == now && b.updatedAt == b.insertedAt
    ensures Validate(p) == None ==> WellFormed(b)
  {
    Book(id, p.name.value, p.year, p.author, p.summary, p.publisher,
         p.pageCount, p.readPage, p.pageCount == p.readPage, p.reading, now, now)
  }

  /**
   * The record the update handler stores in place of `b`: every
   * user-supplied field replaced, `finished` recomputed, `updatedAt` refreshed,
   * `id` and `insertedAt` kept.
   */
  function Revise(b: Book, p: Payload, now: Timestamp): (r: Book)
    requires HasName(p)
    ensures r.id == b.id && r.insertedAt == b.insertedAt
    ensures Carries(r, p)
    ensures r.finished <==> p.pageCount == p.readPage
    ensures r.updatedAt == now
    ensures Validate(p) == None ==> WellFormed(r)
  {
    b.(name := p.name.value, year := p.year, author := p.author, summary := p.summary,
       publisher := p.publisher, pageCount := p.pageCount, readPage := p.readPage,
       reading := p.reading, finished := p.pageCount == p.readPage, updatedAt := now)
  }

  /** The projection of one book. */
  function Project(b: Book): Summary
  {
    Summary(b.id, b.name, b.publisher)
  }

  /** One projection per book, in catalog order. */
  function Summaries(bs: seq<Book>): (r: seq<Summary>)
    ensures |r| == |bs|
    ensures forall i :: 0 <= i < |bs| ==> r[i] == Project(bs[i])
  {
    if bs == [] then [] else [Project(bs[0])] + Summaries(bs[1..])
  }

  /** `Number(flag)` for a boolean: 1 for true, 0 for false. */
  function Flag(x: bool): int
  {
    if x then 1 else 0
  }
}
