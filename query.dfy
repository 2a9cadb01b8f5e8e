/**
 * The query filters of the three search functions: the list of scientific
 * names whose chosen field (or fields) contains the query, ignoring case.
 */
module Query {
  import opened Strings
  import opened Tables
  import opened Selection

  /**
   * `related_plants` for one search mode: the scientific names of the rows
   * passing the mode's mask, in row order.
   */
  function RelatedPlants(lower: char -> char, mode: Mode, query: string, rows: seq<Plant>): (related: seq<string>)
    ensures |related| <= |rows|
  {
    NamesWhere(rows, Matching(lower, mode, query))
  }

  /**
   * What each mode's filter lists: the disease search tests the use field,
   * the family search the family field, and the plant search ORs the
   * Vietnamese name, the scientific name and the synonym.
   */
  lemma RelatedPlantsMembership(lower: char -> char, mode: Mode, query: string, rows: seq<Plant>, x: string)
    ensures mode == Disease ==>
              (x in RelatedPlants(lower, mode, query, rows) <==>
               exists i :: 0 <= i < |rows| && rows[i].scientificName == x &&
                           ContainsIgnoringCase(lower, rows[i].use, query))
    ensures mode == Family ==>
              (x in RelatedPlants(lower, mode, query, rows) <==>
               exists i :: 0 <= i < |rows| && rows[i].scientificName == x &&
                           ContainsIgnoringCase(lower, rows[i].family, query))
    ensures mode == PlantName ==>
              (x in RelatedPlants(lower, mode, query, rows) <==>
               exists i :: 0 <= i < |rows| && rows[i].scientificName == x &&
                           (|| ContainsIgnoringCase(lower, rows[i].vietnameseName, query)
                            || ContainsIgnoringCase(lower, rows[i].scientificName, query)
                            || ContainsIgnoringCase(lower, rows[i].synonym, query)))
  {
    NamesWhereMembership(rows, Matching(lower, mode, query), x);
  }

  /** The filters keep row order: results for earlier rows come first. */
  lemma RelatedPlantsAppend(lower: char -> char, mode: Mode, query: string, a: seq<Plant>, b: seq<Plant>)
    ensures RelatedPlants(lower, mode, query, a + b) ==
            RelatedPlants(lower, mode, query, a) + RelatedPlants(lower, mode, query, b)
  {
    NamesWhereAppend(a, b, Matching(lower, mode, query));
  }

  /** The empty query matches every row, so every scientific name is listed, in row order. */
  lemma EmptyQueryListsEverything(lower: char -> char, mode: Mode, rows: seq<Plant>)
    ensures RelatedPlants(lower, mode, "", rows) == Names(rows)
  {
    forall k | 0 <= k < |rows|
      ensures Holds(Matching(lower, mode, ""), rows[k])
    {
      EmptyQueryMatches(lower, rows[k].use);
      EmptyQueryMatches(lower, rows[k].family);
      EmptyQueryMatches(lower, rows[k].vietnameseName);
    }
    NamesWhereAll(rows, Matching(lower, mode, ""));
  }

  /**
   * A row whose searched field literally contains the query is listed
   * whatever the case mapping; in plant mode any of the three name fields will do.
   */
  lemma ExactMatchIsListed(lower: char -> char, mode: Mode, query: string, rows: seq<Plant>, i: nat)
    requires i < |rows|
    requires mode == Disease ==> Contains(rows[i].use, query)
    requires mode == Family ==> Contains(rows[i].family, query)
    requires mode == PlantName ==>
               || Contains(rows[i].vietnameseName, query)
               || Contains(rows[i].scientificName, query)
               || Contains(rows[i].synonym, query)
    ensures rows[i].scientificName in RelatedPlants(lower, mode, query, rows)
  {
    var r := rows[i];
    match mode {
      case Disease => ContainsIgnoringCaseOfContains(lower, r.use, query);
      case Family => ContainsIgnoringCaseOfContains(lower, r.family, query);
      case PlantName =>
        if Contains(r.vietnameseName, query) {
          ContainsIgnoringCaseOfContains(lower, r.vietnameseName, query);
        } else if Contains(r.scientificName, query) {
          ContainsIgnoringCaseOfContains(lower, r.scientificName, query);
        } else {
          ContainsIgnoringCaseOfContains(lower, r.synonym, query);
        }
    }
    NamesWhereMembership(rows, Matching(lower, mode, query), r.scientificName);
  }
}
