/**
 * Case-insensitive substring search over text. It stands for the
 * `new RegExp(name, 'gi').test(book.name)` test of the list handler when
 * `name` holds no pattern metacharacters: a literal search for the needle
 * in the book name, ignoring ASCII letter case.
 */
module Text {

  /** The lower-case form of an ASCII capital letter; every other character is kept. */
  function LowerChar(c: char): char
  {
    if 'A' <= c <= 'Z' then (c as int + 32) as char else c
  }

  /** `s` with every ASCII capital replaced by its lower-case letter. */
  function Lower(s: string): (r: string)
    ensures |r| == |s|
    ensures forall i :: 0 <= i < |s| ==> r[i] == LowerChar(s[i])
  {
    if s == [] then [] else [LowerChar(s[0])] + Lower(s[1..])
  }

  /** `a` and `b` spell the same text once letter case is ignored. */
  ghost predicate EqualIgnoringCase(a: string, b: string)
  {
    |a| == |b| && forall k :: 0 <= k < |a| ==> LowerChar(a[k]) == LowerChar(b[k])
  }

  /** `p` occurs in `s` starting at position `i`. */
  ghost predicate OccursAt(s: string, p: string, i: int)
  {
    0 <= i && i + |p| <= |s| && s[i..i + |p|] == p
  }

  /** `p` occurs in `s` at position `i` when letter case is ignored. */
  ghost predicate OccursAtIgnoringCase(s: string, p: string, i: int)
  {
    0 <= i && i + |p| <= |s| && EqualIgnoringCase(s[i..i + |p|], p)
  }

  /** Linear search: `p` is a prefix of `s` or of one of its suffixes. */
  function Contains(s: string, p: string): bool
    decreases |s|
  {
    (|p| <= |s| && s[..|p|] == p) || (|s| > 0 && Contains(s[1..], p))
  }

  /** The name filter's test: `needle` occurs in `hay`, ignoring ASCII case. */
  function ContainsIgnoringCase(hay: string, needle: string): bool
  {
    Contains(Lower(hay), Lower(needle))
  }

  /** The search finds `p` exactly when `p` occurs somewhere in `s`. */
  lemma {:induction false} ContainsIff(s: string, p: string)
    ensures Contains(s, p) <==> exists i :: OccursAt(s, p, i)
    decreases |s|
  {
    if |p| <= |s| && s[..|p|] == p {
      assert OccursAt(s, p, 0);
    } else if |s| > 0 {
      ContainsIff(s[1..], p);
      if Contains(s[1..], p) {
        var i :| OccursAt(s[1..], p, i);
        assert s[1..][i..i + |p|] == s[i + 1..i + 1 + |p|];
        assert OccursAt(s, p, i + 1);
      } else if exists i :: OccursAt(s, p, i) {
        var i :| OccursAt(s, p, i);
        assert i != 0;
        assert s[1..][i - 1..i - 1 + |p|] == s[i..i + |p|];
        assert OccursAt(s[1..], p, i - 1);
        assert false;
      }
    } else {
      assert forall i :: !OccursAt(s, p, i);
    }
  }

  /** Lower-casing a slice is slicing the lower-cased text. */
  lemma LowerSlice(s: string, i: int, j: int)
    requires 0 <= i <= j <= |s|
    ensures Lower(s)[i..j] == Lower(s[i..j])
  {
  }

  /** Two texts of one length are equal ignoring case exactly when their lower-case forms agree. */
  lemma EqualIgnoringCaseIff(a: string, b: string)
    ensures EqualIgnoringCase(a, b) <==> Lower(a) == Lower(b)
  {
  }

  /**
   * The name filter's meaning: some window of `hay` spells `needle` when
   * letter case is ignored.
   */
  lemma ContainsIgnoringCaseIff(hay: string, needle: string)
    ensures ContainsIgnoringCase(hay, needle) <==> exists i :: OccursAtIgnoringCase(hay, needle, i)
  {
    var h, n := Lower(hay), Lower(needle);
    ContainsIff(h, n);
    forall i | 0 <= i && i + |needle| <= |hay|
      ensures OccursAt(h, n, i) <==> OccursAtIgnoringCase(hay, needle, i)
    {
      LowerSlice(hay, i, i + |needle|);
      EqualIgnoringCaseIff(hay[i..i + |needle|], needle);
    }
    if exists i :: OccursAt(h, n, i) {
      var i :| OccursAt(h, n, i);
      assert OccursAtIgnoringCase(hay, needle, i);
    }
    if exists i :: OccursAtIgnoringCase(hay, needle, i) {
      var i :| OccursAtIgnoringCase(hay, needle, i);
      assert OccursAt(h, n, i);
    }
  }
}
