/**
 * Lookups and removals on the ordered book list: `findIndex` by id, id
 * uniqueness, order-preserving subsequences, and the one-element `splice`.
 */
module Search {
  import opened Books

  /** Some book in `bs` has id `id`. */
  ghost predicate HasId(bs: seq<Book>, id: string)
  {
    exists i :: 0 <= i < |bs| && bs[i].id == id
  }

  /** No two books in `bs` share an id. */
  ghost predicate UniqueIds(bs: seq<Book>)
  {
    forall i, j :: 0 <= i < j < |bs| ==> bs[i].id != bs[j].id
  }

  /** `findIndex` by id: the first position holding `id`, or -1 when there is none. */
  function FindIndex(bs: seq<Book>, id: string): (k: int)
    ensures -1 <= k < |bs|
    ensures k == -1 <==> !HasId(bs, id)
    ensures 0 <= k ==> bs[k].id == id && forall j :: 0 <= j < k ==> bs[j].id != id
  {
    if bs == [] then -1
    else if bs[0].id == id then 0
    else
      var k := FindIndex(bs[1..], id);
      if k == -1 then -1 else k + 1
  }

  /** `a` is `b` with some elements dropped and the rest kept in order. */
  ghost predicate IsSubsequence(a: seq<Book>, b: seq<Book>)
    decreases |b|
  {
    if a == [] then true
    else if b == [] then false
    else (a[0] == b[0] && IsSubsequence(a[1..], b[1..])) || IsSubsequence(a, b[1..])
  }

  /** A subsequence is no longer than the sequence, and everything in it comes from there. */
  lemma {:induction false} SubsequenceFacts(a: seq<Book>, b: seq<Book>)
    requires IsSubsequence(a, b)
    ensures |a| <= |b|
    ensures forall x :: x in a ==> x in b
    decreases |b|
  {
    if a != [] {
      if a[0] == b[0] && IsSubsequence(a[1..], b[1..]) {
        SubsequenceFacts(a[1..], b[1..]);
        assert a == [a[0]] + a[1..];
        assert b == [b[0]] + b[1..];
      } else {
        SubsequenceFacts(a, b[1..]);
      }
    }
  }

  /** Every sequence is a subsequence of itself. */
  lemma {:induction false} SubsequenceRefl(a: seq<Book>)
    ensures IsSubsequence(a, a)
    decreases |a|
  {
    if a != [] {
      SubsequenceRefl(a[1..]);
    }
  }

  /** `splice(k, 1)`: the list without its element at `k`, the rest shifted down by one. */
  function RemoveAt(bs: seq<Book>, k: int): (r: seq<Book>)
    requires 0 <= k < |bs|
    ensures |r| == |bs| - 1
    ensures forall j :: 0 <= j < k ==> r[j] == bs[j]
    ensures forall j :: k <= j < |r| ==> r[j] == bs[j + 1]
  {
    bs[..k] + bs[k + 1..]
  }

  /** Removing one element keeps the relative order of all the others. */
  lemma {:induction false} RemoveAtKeepsOrder(bs: seq<Book>, k: int)
    requires 0 <= k < |bs|
    ensures IsSubsequence(RemoveAt(bs, k), bs)
    decreases k
  {
    if k == 0 {
      assert RemoveAt(bs, 0) == bs[1..];
      SubsequenceRefl(bs[1..]);
      if bs[1..] != [] {
        assert IsSubsequence(bs[1..], bs);
      }
    } else {
      RemoveAtKeepsOrder(bs[1..], k - 1);
      assert RemoveAt(bs, k) == [bs[0]] + RemoveAt(bs[1..], k - 1);
      assert RemoveAt(bs, k)[1..] == RemoveAt(bs[1..], k - 1);
    }
  }

  /** Removing one element takes exactly one copy of it out of the multiset of books. */
  lemma RemoveAtMultiset(bs: seq<Book>, k: int)
    requires 0 <= k < |bs|
    ensures multiset(RemoveAt(bs, k)) == multiset(bs) - multiset{bs[k]}
  {
    assert bs == bs[..k] + [bs[k]] + bs[k + 1..];
  }

  /** Ids stay unique when a book is removed. */
  lemma RemoveAtKeepsUnique(bs: seq<Book>, k: int)
    requires 0 <= k < |bs| && UniqueIds(bs)
    ensures UniqueIds(RemoveAt(bs, k))
  {
  }

  /**
   * With unique ids, removing the book found for `id` leaves no book with
   * that id, so a second lookup of the same id finds nothing.
   */
  lemma RemoveFoundLeavesNone(bs: seq<Book>, id: string)
    requires UniqueIds(bs) && HasId(bs, id)
    ensures FindIndex(RemoveAt(bs, FindIndex(bs, id)), id) == -1
  {
  }

  /** Replacing a book by one with the same id keeps ids unique. */
  lemma ReplaceKeepsUnique(bs: seq<Book>, k: int, b: Book)
    requires 0 <= k < |bs| && UniqueIds(bs) && b.id == bs[k].id
    ensures UniqueIds(bs[k := b])
  {
  }

  /** Appending a book with an id not yet present keeps ids unique. */
  lemma AppendKeepsUnique(bs: seq<Book>, b: Book)
    requires UniqueIds(bs) && !HasId(bs, b.id)
    ensures UniqueIds(bs + [b])
  {
  }
}
