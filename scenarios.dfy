/**
 * Worked examples of the search pipeline on small tables: a disease
 * search that lights up two provinces, and the literal substring test
 * that lets a province name match inside a longer word.
 */
module Scenarios {
  import opened Strings
  import opened Tables
  import opened Selection
  import opened Query
  import opened RegionIndex
  import opened Heat

  /** A plant used for wound healing, found in Hanoi and Hue. */
  function Aloe(): (r: Plant)
  {
    Plant("Aloe vera", "Lo hoi", "", "Asphodelaceae", "wound healing", "Hanoi, Hue")
  }

  function TwoProvinces(): (coords: OrderedMap<Coord>)
    ensures coords.Valid()
  {
    OrderedMap(["Hanoi", "Hue"], map["Hanoi" := Coord(21.0, 105.8), "Hue" := Coord(16.4, 107.6)])
  }

  /**
   * One plant used for wound healing and found in Hanoi and Hue: searching
   * "wound" lists it, and the heatmap has one point per province, in table
   * order, each of weight 1 -- whatever the case mapping.
   */
  lemma DiseaseSearchScenario(lower: char -> char)
    ensures RelatedPlants(lower, Disease, "wound", [Aloe()]) == ["Aloe vera"]
    ensures FindBy(lower, Disease, "wound", [Aloe()], Index([Aloe()], TwoProvinces())) ==
            [Point(21.0, 105.8, 1), Point(16.4, 107.6, 1)]
  {
    var rows := [Aloe()];
    assert OccursAt("wound healing", "wound", 0);
    OccursAtContains("wound healing", "wound", 0);
    ContainsIgnoringCaseOfContains(lower, "wound healing", "wound");
    assert Holds(Matching(lower, Disease, "wound"), Aloe());
    assert rows[..0] == [];
    assert RelatedPlants(lower, Disease, "wound", rows) == ["Aloe vera"];
    AloeIndex();
    var entries := Index(rows, TwoProvinces()).Values();
    var related := ["Aloe vera"];
    assert entries[0].plants[0] in related;
    assert entries[1].plants[0] in related;
    assert Weight(["Aloe vera"], related) == 1;
    assert entries[1..][1..] == [];
  }

  /** The index of the one-plant table lists the plant under both provinces, in table order. */
  lemma AloeIndex()
    ensures Index([Aloe()], TwoProvinces()).Values() ==
            [Entry(21.0, 105.8, ["Aloe vera"]), Entry(16.4, 107.6, ["Aloe vera"])]
  {
    var rows := [Aloe()];
    assert rows[..0] == [];
    assert OccursAt("Hanoi, Hue", "Hanoi", 0);
    OccursAtContains("Hanoi, Hue", "Hanoi", 0);
    assert OccursAt("Hanoi, Hue", "Hue", 7);
    OccursAtContains("Hanoi, Hue", "Hue", 7);
    var idx := Index(rows, TwoProvinces());
    assert idx.values["Hanoi"] == Entry(21.0, 105.8, ["Aloe vera"]);
    assert idx.values["Hue"] == Entry(16.4, 107.6, ["Aloe vera"]);
  }

  /**
   * The province test is a literal substring test: a row whose distribution
   * reads "Hanoian province" is listed under Hanoi.
   */
  lemma SubstringOverMatchScenario()
    ensures var r := Plant("Aloe vera", "", "", "", "", "Hanoian province");
            Index([r], TwoProvinces()).values["Hanoi"].plants == ["Aloe vera"]
  {
    var r := Plant("Aloe vera", "", "", "", "", "Hanoian province");
    assert OccursAt("Hanoian province", "Hanoi", 0);
    OccursAtContains("Hanoian province", "Hanoi", 0);
    assert [r][..0] == [];
  }
}
