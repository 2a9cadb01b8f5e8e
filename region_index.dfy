/**
 * The region index: for every province of the coordinate table, its
 * coordinates and the scientific names of the plants whose distribution
 * text mentions the province (case-sensitive substring test).
 */
module RegionIndex {
  import opened Strings
  import opened Tables
  import opened Selection

  /** One province's record: `{'lat', 'lon', 'medicinal plant'}`. */
  datatype Entry = Entry(lat: real, lon: real, plants: seq<string>)

  /** The index before any row is scanned: every province with its coordinates and an empty list. */
  function EmptyIndex(coords: OrderedMap<Coord>): (idx: OrderedMap<Entry>)
    requires coords.Valid()
    ensures idx.Valid() && idx.keys == coords.keys
    ensures forall p :: p in idx.values ==>
              idx.values[p] == Entry(coords.values[p].lat, coords.values[p].lon, [])
  {
    OrderedMap(coords.keys, map p | p in coords.values :: Entry(coords.values[p].lat, coords.values[p].lon, []))
  }

  /**
   * The finished index, stated directly: each province keeps its
   * coordinates and lists the names of the rows located in it, in row order.
   */
  function Index(rows: seq<Plant>, coords: OrderedMap<Coord>): (idx: OrderedMap<Entry>)
    requires coords.Valid()
    ensures idx.Valid() && idx.keys == coords.keys
    ensures forall p :: p in idx.values ==>
              && idx.values[p].lat == coords.values[p].lat
              && idx.values[p].lon == coords.values[p].lon
              && |idx.values[p].plants| <= |rows|
  {
    OrderedMap(coords.keys,
               map p | p in coords.values ::
                 Entry(coords.values[p].lat, coords.values[p].lon, NamesWhere(rows, Located(p))))
  }

  /** Province `p`'s record in `idx` is the one the finished index would hold for table `rows`. */
  ghost predicate EntryFor(idx: OrderedMap<Entry>, coords: OrderedMap<Coord>, rows: seq<Plant>, p: string)
  {
    && p in idx.values && p in coords.values
    && idx.values[p] == Entry(coords.values[p].lat, coords.values[p].lon, NamesWhere(rows, Located(p)))
  }

  /** An index whose every record is the finished one is the finished index. */
  lemma IndexFromEntries(idx: OrderedMap<Entry>, coords: OrderedMap<Coord>, rows: seq<Plant>)
    requires coords.Valid()
    requires idx.keys == coords.keys && idx.values.Keys == coords.values.Keys
    requires forall k :: 0 <= k < |coords.keys| ==> EntryFor(idx, coords, rows, coords.keys[k])
    ensures idx == Index(rows, coords)
  {
    forall p | p in idx.values
      ensures idx.values[p] == Index(rows, coords).values[p]
    {
      assert p in coords.keys;
      var k :| 0 <= k < |coords.keys| && coords.keys[k] == p;
      assert EntryFor(idx, coords, rows, coords.keys[k]);
    }
  }

  /**
   * One step of the inner loop: after province `keys[j]` has been offered
   * `row`, provinces `keys[..j + 1]` hold their lists for `done + [row]`
   * and the rest still hold their lists for `done`.
   */
  lemma StepPreservesEntries(idx: OrderedMap<Entry>, idx': OrderedMap<Entry>, coords: OrderedMap<Coord>,
                             done: seq<Plant>, row: Plant, j: nat)
    requires coords.Valid() && j < |coords.keys|
    requires idx.keys == coords.keys && idx.values.Keys == coords.values.Keys
    requires forall k :: 0 <= k < j ==> EntryFor(idx, coords, done + [row], coords.keys[k])
    requires forall k :: j <= k < |coords.keys| ==> EntryFor(idx, coords, done, coords.keys[k])
    requires var p := coords.keys[j];
             idx' == if Contains(row.distribution, p)
                     then idx.(values := idx.values[p := idx.values[p].(plants := idx.values[p].plants + [row.scientificName])])
                     else idx
    ensures idx'.keys == coords.keys && idx'.values.Keys == coords.values.Keys
    ensures forall k :: 0 <= k <= j ==> EntryFor(idx', coords, done + [row], coords.keys[k])
    ensures forall k :: j < k < |coords.keys| ==> EntryFor(idx', coords, done, coords.keys[k])
  {
    var p := coords.keys[j];
    NamesWhereSnoc(done, row, Located(p));
    assert EntryFor(idx, coords, done, p);
    forall k | 0 <= k < |coords.keys| && k != j
      ensures idx'.values[coords.keys[k]] == idx.values[coords.keys[k]]
    {
      assert coords.keys[k] != p;
    }
  }

  /**
   * `preprocess_plants`: start from the empty index, then for every row and
   * every province (in key order), append the row's scientific name to the
   * province's list when the province name occurs in the row's distribution.
   */
  method PreprocessPlants(rows: seq<Plant>, coords: OrderedMap<Coord>) returns (idx: OrderedMap<Entry>)
    requires coords.Valid()
    ensures idx == Index(rows, coords)
  {
    idx := EmptyIndex(coords);
    var provinces := idx.keys;
    for i := 0 to |rows|
      invariant idx.keys == provinces == coords.keys
      invariant idx.values.Keys == coords.values.Keys
      invariant forall k :: 0 <= k < |provinces| ==> EntryFor(idx, coords, rows[..i], provinces[k])
    {
      var row := rows[i];
      ghost var done := rows[..i];
      for j := 0 to |provinces|
        invariant idx.keys == provinces == coords.keys
        invariant idx.values.Keys == coords.values.Keys
        invariant forall k :: 0 <= k < j ==> EntryFor(idx, coords, done + [row], provinces[k])
        invariant forall k :: j <= k < |provinces| ==> EntryFor(idx, coords, done, provinces[k])
      {
        var province := provinces[j];
        ghost var before := idx;
        if Contains(row.distribution, province) {
          var e := idx.values[province];
          idx := idx.(values := idx.values[province := e.(plants := e.plants + [row.scientificName])]);
        }
        StepPreservesEntries(before, idx, coords, done, row, j);
      }
      assert done + [row] == rows[..i + 1];
    }
    assert rows[..|rows|] == rows;
    IndexFromEntries(idx, coords, rows);
  }

  /**
   * The index has exactly the provinces of the coordinate table, in the
   * same order, and each carries that province's coordinates unchanged.
   */
  lemma IndexKeys(rows: seq<Plant>, coords: OrderedMap<Coord>)
    requires coords.Valid()
    ensures Index(rows, coords).Valid()
    ensures Index(rows, coords).keys == coords.keys
    ensures forall p :: p in Index(rows, coords).values ==>
              && Index(rows, coords).values[p].lat == coords.values[p].lat
              && Index(rows, coords).values[p].lon == coords.values[p].lon
  {
  }

  /**
   * A name is in province `p`'s list exactly when some row carrying it has
   * `p` as a case-sensitive substring of its distribution text.
   */
  lemma IndexMembership(rows: seq<Plant>, coords: OrderedMap<Coord>, p: string, x: string)
    requires coords.Valid() && p in coords.values
    ensures x in Index(rows, coords).values[p].plants <==>
            exists i :: 0 <= i < |rows| && rows[i].scientificName == x && Contains(rows[i].distribution, p)
  {
    NamesWhereMembership(rows, Located(p), x);
  }

  /**
   * Entries follow row order, one per matching row, without de-duplication:
   * a further row appends its name to the list of each province it mentions
   * and leaves every other list as it was.
   */
  lemma IndexSnoc(rows: seq<Plant>, r: Plant, coords: OrderedMap<Coord>, p: string)
    requires coords.Valid() && p in coords.values
    ensures Index(rows + [r], coords).values[p].plants ==
            Index(rows, coords).values[p].plants + (if Contains(r.distribution, p) then [r.scientificName] else [])
  {
    NamesWhereSnoc(rows, r, Located(p));
  }

  /** Building the index over two tables in turn concatenates their lists, province by province. */
  lemma IndexAppend(a: seq<Plant>, b: seq<Plant>, coords: OrderedMap<Coord>, p: string)
    requires coords.Valid() && p in coords.values
    ensures Index(a + b, coords).values[p].plants ==
            Index(a, coords).values[p].plants + Index(b, coords).values[p].plants
  {
    NamesWhereAppend(a, b, Located(p));
  }

  /** An empty plant table gives the empty index. */
  lemma IndexOfNoRows(coords: OrderedMap<Coord>)
    requires coords.Valid()
    ensures Index([], coords) == EmptyIndex(coords)
  {
  }
}
