/**
 * The two loaded tables: the plant records (one row per plant, every
 * missing cell already filled with the empty string) and the province
 * coordinates, kept as an insertion-ordered dictionary keyed by province
 * name. Also the row filter applied when the plant table is loaded.
 */
module Tables {

  /** One row of the plant table; every cell is text. */
  datatype Plant = Plant(
    scientificName: string,  // the join key between the tables and the index
    vietnameseName: string,
    synonym: string,
    family: string,
    use: string,             // free-text medicinal use
    distribution: string     // free-text list of provinces where the plant grows
  )

  /** A latitude/longitude pair; carried through, never computed on. */
  datatype Coord = Coord(lat: real, lon: real)

  /**
   * An insertion-ordered dictionary with string keys, as a Python dict is:
   * `keys` gives the iteration order and `values` the lookup.
   */
  datatype OrderedMap<V> = OrderedMap(keys: seq<string>, values: map<string, V>) {

    /** Keys are unique and are exactly the keys of the lookup map. */
    predicate Valid()
    {
      && (forall i, j :: 0 <= i < j < |keys| ==> keys[i] != keys[j])
      && (forall k :: k in values ==> k in keys)
      && (forall i :: 0 <= i < |keys| ==> keys[i] in values)
    }

    /** `dict.values()`: the values in key order. */
    function Values(): (vs: seq<V>)
      requires Valid()
      ensures |vs| == |keys|
      ensures forall i :: 0 <= i < |keys| ==> vs[i] == values[keys[i]]
    {
      seq(|keys|, i requires 0 <= i < |keys| => values[keys[i]])
    }
  }

  /** The distribution value that means "no distribution data". */
  const NO_DISTRIBUTION: string := "0"

  /**
   * `df[df['Phân bố'] != 0]`: keeps, in order, the rows whose distribution
   * is not the sentinel.
   */
  function KeepDistributed(rows: seq<Plant>): (kept: seq<Plant>)
    ensures |kept| <= |rows|
    ensures forall k :: 0 <= k < |kept| ==> kept[k].distribution != NO_DISTRIBUTION
    decreases |rows|
  {
    if rows == [] then []
    else
      var last := rows[|rows| - 1];
      KeepDistributed(rows[..|rows| - 1]) + (if last.distribution != NO_DISTRIBUTION then [last] else [])
  }

  /** A row survives the filter exactly when it is in the table and its distribution is not the sentinel. */
  lemma {:induction false} KeepDistributedMembership(rows: seq<Plant>, r: Plant)
    ensures r in KeepDistributed(rows) <==> r in rows && r.distribution != NO_DISTRIBUTION
    decreases |rows|
  {
    if rows != [] {
      var front := rows[..|rows| - 1];
      KeepDistributedMembership(front, r);
      assert rows == front + [rows[|rows| - 1]];
    }
  }

  /** The filter keeps row order: filtering a concatenation concatenates the filtered parts. */
  lemma {:induction false} KeepDistributedAppend(a: seq<Plant>, b: seq<Plant>)
    ensures KeepDistributed(a + b) == KeepDistributed(a) + KeepDistributed(b)
    decreases |b|
  {
    if b == [] {
      assert a + b == a;
    } else {
      var front := b[..|b| - 1];
      KeepDistributedAppend(a, front);
      assert (a + b)[..|a + b| - 1] == a + front;
    }
  }

  /** A table with no sentinel rows passes through unchanged. */
  lemma {:induction false} KeepDistributedNoSentinel(rows: seq<Plant>)
    requires forall k :: 0 <= k < |rows| ==> rows[k].distribution != NO_DISTRIBUTION
    ensures KeepDistributed(rows) == rows
    decreases |rows|
  {
    if rows != [] {
      KeepDistributedNoSentinel(rows[..|rows| - 1]);
    }
  }

  /** Filtering twice is filtering once. */
  lemma KeepDistributedIdempotent(rows: seq<Plant>)
    ensures KeepDistributed(KeepDistributed(rows)) == KeepDistributed(rows)
  {
    KeepDistributedNoSentinel(KeepDistributed(rows));
  }
}
