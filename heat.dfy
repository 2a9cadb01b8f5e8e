/**
 * The aggregator shared by the three search functions: one weighted point
 * per province of the index whose list holds a matched plant, in index
 * order, weighted by how many list entries were matched.
 */
module Heat {
  import opened Strings
  import opened Tables
  import opened Selection
  import opened Query
  import opened RegionIndex

  /** A heatmap input `[lat, lon, weight]`. */
  datatype Point = Point(lat: real, lon: real, weight: nat)

  /** `any(p in related for p in plants)`. */
  predicate AnyRelated(plants: seq<string>, related: seq<string>)
    ensures AnyRelated(plants, related) ==> plants != [] && related != []
  {
    exists k :: 0 <= k < |plants| && plants[k] in related
  }

  /** `sum(p in related for p in plants)`: the number of list entries that are in `related`. */
  function Weight(plants: seq<string>, related: seq<string>): (w: nat)
    ensures w <= |plants|
  {
    if plants == [] then 0
    else (if plants[0] in related then 1 else 0) + Weight(plants[1..], related)
  }

  /** The two comprehension tests agree: some entry is matched exactly when the count is positive. */
  lemma {:induction false} AnyRelatedIffWeight(plants: seq<string>, related: seq<string>)
    ensures AnyRelated(plants, related) <==> Weight(plants, related) > 0
  {
    if plants != [] {
      AnyRelatedIffWeight(plants[1..], related);
      if AnyRelated(plants[1..], related) {
        var k :| 0 <= k < |plants[1..]| && plants[1..][k] in related;
        assert plants[k + 1] in related;
      }
      if AnyRelated(plants, related) && plants[0] !in related {
        var k :| 0 <= k < |plants| && plants[k] in related;
        assert plants[1..][k - 1] in related;
      }
    }
  }

  /** The point a province's record contributes. */
  function PointOf(e: Entry, related: seq<string>): (pt: Point)
    ensures pt.lat == e.lat && pt.lon == e.lon
    ensures pt.weight <= |e.plants|
  {
    Point(e.lat, e.lon, Weight(e.plants, related))
  }

  /**
   * `heat_data`: for each record in order, its point when its list holds a
   * related plant; records with no related plant are skipped.
   */
  function HeatData(entries: seq<Entry>, related: seq<string>): (points: seq<Point>)
    ensures |points| <= |entries|
    ensures forall k :: 0 <= k < |points| ==> points[k].weight >= 1
  {
    if entries == [] then []
    else
      var e := entries[0];
      AnyRelatedIffWeight(e.plants, related);
      (if AnyRelated(e.plants, related) then [PointOf(e, related)] else []) + HeatData(entries[1..], related)
  }

  /** Every point comes from a record whose list holds a related plant, with that record's coordinates and count. */
  lemma {:induction false} HeatDataSound(entries: seq<Entry>, related: seq<string>, k: nat)
    requires k < |HeatData(entries, related)|
    ensures exists j :: 0 <= j < |entries| && AnyRelated(entries[j].plants, related) &&
                        HeatData(entries, related)[k] == PointOf(entries[j], related)
  {
    var e := entries[0];
    if AnyRelated(e.plants, related) && k == 0 {
      assert HeatData(entries, related)[0] == PointOf(entries[0], related);
    } else {
      var k' := if AnyRelated(e.plants, related) then k - 1 else k;
      HeatDataSound(entries[1..], related, k');
      var j :| 0 <= j < |entries[1..]| && AnyRelated(entries[1..][j].plants, related) &&
               HeatData(entries[1..], related)[k'] == PointOf(entries[1..][j], related);
      assert entries[j + 1] == entries[1..][j];
    }
  }

  /** Every record whose list holds a related plant contributes its point. */
  lemma {:induction false} HeatDataComplete(entries: seq<Entry>, related: seq<string>, j: nat)
    requires j < |entries| && AnyRelated(entries[j].plants, related)
    ensures PointOf(entries[j], related) in HeatData(entries, related)
  {
    if j > 0 {
      HeatDataComplete(entries[1..], related, j - 1);
      assert entries[1..][j - 1] == entries[j];
    }
  }

  /** Points follow the order of the records: the points of a concatenation are the concatenated points. */
  lemma {:induction false} HeatDataAppend(a: seq<Entry>, b: seq<Entry>, related: seq<string>)
    ensures HeatData(a + b, related) == HeatData(a, related) + HeatData(b, related)
  {
    if a == [] {
      assert a + b == b;
    } else {
      var e := a[0];
      var head := if AnyRelated(e.plants, related) then [PointOf(e, related)] else [];
      HeatDataAppend(a[1..], b, related);
      assert (a + b)[1..] == a[1..] + b;
      assert HeatData(a + b, related) == head + HeatData(a[1..] + b, related);
      assert HeatData(a, related) == head + HeatData(a[1..], related);
    }
  }

  /** The number of records whose list holds a related plant. */
  function MatchedRecords(entries: seq<Entry>, related: seq<string>): (n: nat)
  {
    if entries == [] then 0
    else (if AnyRelated(entries[0].plants, related) then 1 else 0) + MatchedRecords(entries[1..], related)
  }

  /** The number of points is the number of records whose list holds a related plant. */
  lemma {:induction false} HeatDataLength(entries: seq<Entry>, related: seq<string>)
    ensures |HeatData(entries, related)| == MatchedRecords(entries, related)
  {
    if entries != [] {
      HeatDataLength(entries[1..], related);
    }
  }

  /** Nothing matched, nothing emitted. */
  lemma {:induction false} HeatDataOfNoMatches(entries: seq<Entry>)
    ensures HeatData(entries, []) == []
  {
    if entries != [] {
      HeatDataOfNoMatches(entries[1..]);
    }
  }

  /** The sum of the points' weights. */
  function TotalWeight(points: seq<Point>): (n: nat)
  {
    if points == [] then 0 else points[0].weight + TotalWeight(points[1..])
  }

  /** The number of (record, list entry) pairs whose entry is in `related`. */
  function MatchedPairs(entries: seq<Entry>, related: seq<string>): (n: nat)
  {
    if entries == [] then 0 else Weight(entries[0].plants, related) + MatchedPairs(entries[1..], related)
  }

  /** Skipping records loses no weight: the weights add up to the number of matched pairs. */
  lemma {:induction false} HeatDataTotal(entries: seq<Entry>, related: seq<string>)
    ensures TotalWeight(HeatData(entries, related)) == MatchedPairs(entries, related)
  {
    if entries != [] {
      var e := entries[0];
      HeatDataTotal(entries[1..], related);
      AnyRelatedIffWeight(e.plants, related);
      var head := if AnyRelated(e.plants, related) then [PointOf(e, related)] else [];
      TotalWeightAppend(head, HeatData(entries[1..], related));
    }
  }

  /** Total weight is additive over concatenation. */
  lemma {:induction false} TotalWeightAppend(a: seq<Point>, b: seq<Point>)
    ensures TotalWeight(a + b) == TotalWeight(a) + TotalWeight(b)
  {
    if a == [] {
      assert a + b == b;
    } else {
      TotalWeightAppend(a[1..], b);
      assert (a + b)[1..] == a[1..] + b;
    }
  }

  /**
   * `find_by_disease`, `find_by_plant` and `find_by_ho` without the map:
   * filter the plant table for the mode, then aggregate over the index.
   */
  function FindBy(lower: char -> char, mode: Mode, query: string, rows: seq<Plant>, index: OrderedMap<Entry>): (points: seq<Point>)
    requires index.Valid()
    ensures |points| == MatchedRecords(index.Values(), RelatedPlants(lower, mode, query, rows)) <= |index.keys|
    ensures forall k :: 0 <= k < |points| ==> points[k].weight >= 1
  {
    HeatDataLength(index.Values(), RelatedPlants(lower, mode, query, rows));
    HeatData(index.Values(), RelatedPlants(lower, mode, query, rows))
  }

  /**
   * From table to heatmap: province `p` of the built index has a related
   * plant exactly when some row located in `p` shares its scientific name
   * with some row matching the query.
   */
  lemma ProvinceIsHot(lower: char -> char, mode: Mode, query: string, rows: seq<Plant>,
                      coords: OrderedMap<Coord>, p: string)
    requires coords.Valid() && p in coords.values
    ensures AnyRelated(Index(rows, coords).values[p].plants, RelatedPlants(lower, mode, query, rows)) <==>
            exists i, j :: 0 <= i < |rows| && 0 <= j < |rows| &&
                           Contains(rows[i].distribution, p) &&
                           Holds(Matching(lower, mode, query), rows[j]) &&
                           rows[i].scientificName == rows[j].scientificName
  {
    var plants := Index(rows, coords).values[p].plants;
    var related := RelatedPlants(lower, mode, query, rows);
    if AnyRelated(plants, related) {
      var k :| 0 <= k < |plants| && plants[k] in related;
      IndexMembership(rows, coords, p, plants[k]);
      NamesWhereMembership(rows, Matching(lower, mode, query), plants[k]);
    }
    if exists i, j :: 0 <= i < |rows| && 0 <= j < |rows| &&
                      Contains(rows[i].distribution, p) &&
                      Holds(Matching(lower, mode, query), rows[j]) &&
                      rows[i].scientificName == rows[j].scientificName {
      var i, j :| 0 <= i < |rows| && 0 <= j < |rows| &&
                  Contains(rows[i].distribution, p) &&
                  Holds(Matching(lower, mode, query), rows[j]) &&
                  rows[i].scientificName == rows[j].scientificName;
      var x := rows[i].scientificName;
      IndexMembership(rows, coords, p, x);
      NamesWhereMembership(rows, Matching(lower, mode, query), x);
      var k :| 0 <= k < |plants| && plants[k] == x;
    }
  }
}
