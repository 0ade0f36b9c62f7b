/**
 * The read-only handlers as functions over the book list: the list handler
 * with its exclusive, ordered filters, and get-by-id.
 */
module Listing {
  import opened Wrappers
  import opened Text
  import opened Books
  import opened Search

  /** The test one `books.filter(...)` call applies to each book. */
  datatype Criterion =
    | NameContains(needle: string)
    | ReadingIs(reading: int)
    | FinishedIs(finished: int)
    | IdIs(id: string)

  predicate Matches(c: Criterion, b: Book)
  {
    match c
    case NameContains(needle) => ContainsIgnoringCase(b.name, needle)
    case ReadingIs(v) => Flag(b.reading) == v
    case FinishedIs(v) => Flag(b.finished) == v
    case IdIs(id) => b.id == id
  }

  /** `books.filter(...)`: the books that match, in catalog order. */
  function Select(bs: seq<Book>, c: Criterion): (r: seq<Book>)
    ensures IsSubsequence(r, bs)
    ensures forall b :: b in r ==> Matches(c, b)
    ensures forall b :: b in bs && Matches(c, b) ==> b in r
    ensures forall b :: multiset(r)[b] == if Matches(c, b) then multiset(bs)[b] else 0
    decreases |bs|
  {
    if bs == [] then []
    else
      var rest := Select(bs[1..], c);
      assert bs == [bs[0]] + bs[1..];
      if Matches(c, bs[0]) then
        assert ([bs[0]] + rest)[1..] == rest;
        [bs[0]] + rest
      else rest
  }

  /**
   * The query string of the list handler. A parameter is None when absent
   * or empty; `reading` and `finished` hold the number the handler compares
   * against after `Number(...)`.
   */
  datatype Query = Query(name: Option<string>, reading: Option<int>, finished: Option<int>)

  predicate NameGiven(q: Query)
  {
    q.name.Some? && q.name.value != ""
  }

  predicate Unfiltered(q: Query)
  {
    !NameGiven(q) && q.reading.None? && q.finished.None?
  }

  /**
   * The list handler's result: no filter gives every book; otherwise the
   * name filter wins over the reading filter, which wins over the finished filter.
   */
  function ListBooks(bs: seq<Book>, q: Query): (r: seq<Summary>)
    ensures |r| <= |bs|
    ensures exists s :: IsSubsequence(s, bs) && r == Summaries(s)
  {
    var s :=
      if Unfiltered(q) then bs
      else if NameGiven(q) then Select(bs, NameContains(q.name.value))
      else if q.reading.Some? then Select(bs, ReadingIs(q.reading.value))
      else Select(bs, FinishedIs(q.finished.value));
    SubsequenceRefl(bs);
    SubsequenceFacts(s, bs);
    Summaries(s)
  }

  /**
   * `r` projects exactly the books of `bs` that satisfy `c`, each as many
   * times as it occurs in `bs`, kept in catalog order.
   */
  ghost predicate Selects(r: seq<Summary>, bs: seq<Book>, c: Criterion)
  {
    exists s :: IsSubsequence(s, bs) && r == Summaries(s) &&
      (forall b :: b in s ==> Matches(c, b)) &&
      (forall b :: b in bs && Matches(c, b) ==> b in s) &&
      (forall b :: multiset(s)[b] == if Matches(c, b) then multiset(bs)[b] else 0)
  }

  /** With no filter the list projects every book, one per book, in catalog order. */
  lemma ListUnfiltered(bs: seq<Book>, q: Query)
    requires Unfiltered(q)
    ensures |ListBooks(bs, q)| == |bs|
    ensures forall i :: 0 <= i < |bs| ==> ListBooks(bs, q)[i] == Project(bs[i])
  {
  }

  /** A non-empty name filter decides alone; the reading and finished filters are ignored. */
  lemma ListByName(bs: seq<Book>, q: Query)
    requires NameGiven(q)
    ensures Selects(ListBooks(bs, q), bs, NameContains(q.name.value))
    ensures ListBooks(bs, q) == ListBooks(bs, Query(q.name, None, None))
  {
  }

  /** Without a name, the reading filter decides and the finished filter is ignored. */
  lemma ListByReading(bs: seq<Book>, q: Query)
    requires !NameGiven(q) && q.reading.Some?
    ensures Selects(ListBooks(bs, q), bs, ReadingIs(q.reading.value))
    ensures ListBooks(bs, q) == ListBooks(bs, Query(None, q.reading, None))
  {
  }

  /** Without a name or a reading filter, the finished filter decides. */
  lemma ListByFinished(bs: seq<Book>, q: Query)
    requires !NameGiven(q) && q.reading.None? && q.finished.Some?
    ensures Selects(ListBooks(bs, q), bs, FinishedIs(q.finished.value))
  {
  }

  /** The filter's first match is the book `findIndex` finds. */
  lemma {:induction false} SelectFirstIsFound(bs: seq<Book>, id: string)
    ensures HasId(bs, id) ==>
      Select(bs, IdIs(id)) != [] && Select(bs, IdIs(id))[0] == bs[FindIndex(bs, id)]
    decreases |bs|
  {
    if HasId(bs, id) && bs[0].id != id {
      assert HasId(bs[1..], id) by {
        var i :| 0 <= i < |bs| && bs[i].id == id;
        assert bs[1..][i - 1].id == id;
      }
      SelectFirstIsFound(bs[1..], id);
    }
  }

  /**
   * Get-by-id, `books.filter(n => n.id === bookId)[0]`: the first book with
   * that id, or None when no book has it.
   */
  function FindById(bs: seq<Book>, id: string): (r: Option<Book>)
    ensures r.None? <==> !HasId(bs, id)
    ensures r.Some? ==> r.value.id == id && r.value == bs[FindIndex(bs, id)]
  {
    var found := Select(bs, IdIs(id));
    SelectFirstIsFound(bs, id);
    SubsequenceFacts(found, bs);
    if |found| > 0 then
      assert found[0] in found;
      Some(found[0])
    else None
  }

  /** After a create with a fresh id, get-by-id returns exactly the created record. */
  lemma FindAfterAppend(bs: seq<Book>, b: Book)
    requires !HasId(bs, b.id)
    ensures FindById(bs + [b], b.id) == Some(b)
  {
    var r := bs + [b];
    assert r[|bs|].id == b.id;
    assert forall j :: 0 <= j < |bs| ==> r[j] == bs[j];
  }

  /**
   * With unique ids, after the record at `k` is replaced by one with the
   * same id, get-by-id of that id returns the replacement.
   */
  lemma FindAfterReplace(bs: seq<Book>, k: int, b: Book)
    requires 0 <= k < |bs| && UniqueIds(bs) && b.id == bs[k].id
    ensures FindById(bs[k := b], b.id) == Some(b)
  {
    var r := bs[k := b];
    assert r[k].id == b.id;
    assert forall j :: 0 <= j < |r| && j != k ==> r[j] == bs[j];
  }
}
