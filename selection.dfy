/**
 * Picking rows of the plant table and listing their scientific names in
 * row order: both the index builder's province test and the three query
 * filters are row criteria of this kind.
 */
module Selection {
  import opened Strings
  import opened Tables

  /** The three search modes offered to the user. */
  datatype Mode = Disease | PlantName | Family

  /** A test on one plant row. */
  datatype Criterion =
    | Located(province: string)                                    // the index builder's test
    | Matching(lower: char -> char, mode: Mode, query: string)     // a query filter's mask

  /** Whether row `r` passes criterion `c`. */
  predicate Holds(c: Criterion, r: Plant)
    ensures c.Located? && Holds(c, r) ==> |c.province| <= |r.distribution|
    ensures c.Located? && c.province == [] ==> Holds(c, r)
    ensures c.Matching? && c.query == [] ==> Holds(c, r)
  {
    match c
    case Located(p) => Contains(r.distribution, p)
    case Matching(lower, mode, q) =>
      match mode
      case Disease => ContainsIgnoringCase(lower, r.use, q)
      case Family => ContainsIgnoringCase(lower, r.family, q)
      case PlantName =>
        || ContainsIgnoringCase(lower, r.vietnameseName, q)
        || ContainsIgnoringCase(lower, r.scientificName, q)
        || ContainsIgnoringCase(lower, r.synonym, q)
  }

  /** The scientific names of all rows, in row order. */
  function Names(rows: seq<Plant>): (names: seq<string>)
    ensures |names| == |rows|
    ensures forall k :: 0 <= k < |rows| ==> names[k] == rows[k].scientificName
  {
    seq(|rows|, k requires 0 <= k < |rows| => rows[k].scientificName)
  }

  /**
   * The scientific names of the rows passing `c`, in row order, one entry
   * per passing row (a boolean mask followed by `.tolist()`, or a loop that
   * appends).
   */
  function NamesWhere(rows: seq<Plant>, c: Criterion): (names: seq<string>)
    ensures |names| <= |rows|
    decreases |rows|
  {
    if rows == [] then []
    else
      var last := rows[|rows| - 1];
      NamesWhere(rows[..|rows| - 1], c) + (if Holds(c, last) then [last.scientificName] else [])
  }

  /** A name is listed exactly when some row passing `c` carries it. */
  lemma {:induction false} NamesWhereMembership(rows: seq<Plant>, c: Criterion, x: string)
    ensures x in NamesWhere(rows, c) <==>
            exists i :: 0 <= i < |rows| && Holds(c, rows[i]) && rows[i].scientificName == x
    decreases |rows|
  {
    if rows != [] {
      var front := rows[..|rows| - 1];
      NamesWhereMembership(front, c, x);
      if x in NamesWhere(front, c) {
        var i :| 0 <= i < |front| && Holds(c, front[i]) && front[i].scientificName == x;
        assert rows[i] == front[i];
      }
      forall i | 0 <= i < |front|
        ensures rows[i] == front[i]
      {
      }
    }
  }

  /** Names follow row order: the names of a concatenation are the concatenated names. */
  lemma {:induction false} NamesWhereAppend(a: seq<Plant>, b: seq<Plant>, c: Criterion)
    ensures NamesWhere(a + b, c) == NamesWhere(a, c) + NamesWhere(b, c)
    decreases |b|
  {
    if b == [] {
      assert a + b == a;
    } else {
      var front := b[..|b| - 1];
      NamesWhereAppend(a, front, c);
      assert (a + b)[..|a + b| - 1] == a + front;
    }
  }

  /** One more row adds its name at the end when it passes, and nothing otherwise (no de-duplication). */
  lemma NamesWhereSnoc(rows: seq<Plant>, r: Plant, c: Criterion)
    ensures NamesWhere(rows + [r], c) ==
            NamesWhere(rows, c) + (if Holds(c, r) then [r.scientificName] else [])
  {
    NamesWhereAppend(rows, [r], c);
    assert [r][..0] == [];
  }

  /** When every row passes, every row's name is listed, in row order. */
  lemma {:induction false} NamesWhereAll(rows: seq<Plant>, c: Criterion)
    requires forall k :: 0 <= k < |rows| ==> Holds(c, rows[k])
    ensures NamesWhere(rows, c) == Names(rows)
    decreases |rows|
  {
    if rows != [] {
      NamesWhereAll(rows[..|rows| - 1], c);
    }
  }
}
