/**
 * Text matching used by the plant search: Python's `needle in hay` on two
 * strings (literal, case-sensitive substring containment) and the
 * case-insensitive variant used by the query filters.
 */
module Strings {

  /** `needle` occurs in `hay` starting at position `i`. */
  predicate OccursAt(hay: string, needle: string, i: nat)
  {
    i + |needle| <= |hay| && hay[i..i + |needle|] == needle
  }

  /**
   * Python's `needle in hay`: true when `needle` is a substring of `hay`.
   * Scans `hay` from the left, comparing a window of `needle`'s length.
   */
  function Contains(hay: string, needle: string): (b: bool)
    ensures b ==> |needle| <= |hay|
    ensures needle == [] ==> b
    decreases |hay|
  {
    if |hay| < |needle| then false
    else hay[..|needle|] == needle || (hay != [] && Contains(hay[1..], needle))
  }

  /** The scan agrees with the definition of a substring: some position where `needle` occurs. */
  lemma {:induction false} ContainsIff(hay: string, needle: string)
    ensures Contains(hay, needle) <==> exists i: nat :: OccursAt(hay, needle, i)
  {
    if |hay| < |needle| {
    } else if hay[..|needle|] == needle {
      assert OccursAt(hay, needle, 0);
    } else {
      ContainsIff(hay[1..], needle);
      if Contains(hay[1..], needle) {
        var i: nat :| OccursAt(hay[1..], needle, i);
        assert hay[i + 1..i + 1 + |needle|] == hay[1..][i..i + |needle|];
        assert OccursAt(hay, needle, i + 1);
      } else {
        forall i: nat | 0 < i && OccursAt(hay, needle, i)
          ensures OccursAt(hay[1..], needle, i - 1)
        {
          var j := i - 1;
          assert hay[1..][j..j + |needle|] == hay[j + 1..j + 1 + |needle|];
        }
      }
    }
  }

  /** An occurrence at any position, however it is surrounded, makes `Contains` true. */
  lemma OccursAtContains(hay: string, needle: string, i: nat)
    requires OccursAt(hay, needle, i)
    ensures Contains(hay, needle)
  {
    ContainsIff(hay, needle);
  }

  /** The empty string is contained in every string. */
  lemma EmptyIsContained(hay: string)
    ensures Contains(hay, "")
  {
    assert OccursAt(hay, "", 0);
    OccursAtContains(hay, "", 0);
  }

  /** Applies the per-character case mapping `lower` to every character of `s`. */
  function Fold(lower: char -> char, s: string): (r: string)
    ensures |r| == |s|
    ensures forall i :: 0 <= i < |s| ==> r[i] == lower(s[i])
  {
    seq(|s|, i requires 0 <= i < |s| => lower(s[i]))
  }

  /**
   * `str.contains(query, case=False)` on one cell, with the query read as a
   * literal: both sides are case-folded, then compared by substring containment.
   */
  predicate ContainsIgnoringCase(lower: char -> char, field: string, query: string)
    ensures ContainsIgnoringCase(lower, field, query) ==> |query| <= |field|
    ensures query == [] ==> ContainsIgnoringCase(lower, field, query)
  {
    Contains(Fold(lower, field), Fold(lower, query))
  }

  /** Folding commutes with taking a slice. */
  lemma FoldSlice(lower: char -> char, s: string, i: nat, j: nat)
    requires i <= j <= |s|
    ensures Fold(lower, s)[i..j] == Fold(lower, s[i..j])
  {
  }

  /**
   * Whatever the case mapping, a case-sensitive match is also a
   * case-insensitive match.
   */
  lemma ContainsIgnoringCaseOfContains(lower: char -> char, hay: string, needle: string)
    requires Contains(hay, needle)
    ensures ContainsIgnoringCase(lower, hay, needle)
  {
    ContainsIff(hay, needle);
    var i: nat :| OccursAt(hay, needle, i);
    FoldSlice(lower, hay, i, i + |needle|);
    assert OccursAt(Fold(lower, hay), Fold(lower, needle), i);
    OccursAtContains(Fold(lower, hay), Fold(lower, needle), i);
  }

  /** The empty query matches every field, whatever the case mapping. */
  lemma EmptyQueryMatches(lower: char -> char, field: string)
    ensures ContainsIgnoringCase(lower, field, "")
  {
    assert Fold(lower, "") == "";
    EmptyIsContained(Fold(lower, field));
  }
}
