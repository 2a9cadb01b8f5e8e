# Vietnamese medicinal-plant map: search and aggregation core

A Dafny model of the data logic behind the medicinal-plant heatmap in
`create_app.py`. Three parts are modelled.

- The **region index** (`preprocess_plants`). For each province of the
  coordinate table, it keeps the coordinates and lists the scientific names
  of the plants whose distribution text contains the province name. The test
  is a case-sensitive literal substring test.
- The **query filters** of `find_by_disease`, `find_by_ho` and
  `find_by_plant`. Each one lists, in row order, the scientific names of the
  rows whose searched field or fields contain the query, ignoring case.
- The **aggregator** shared by those three functions. It gives one
  `[lat, lon, weight]` point per province whose list holds a matched plant,
  in index order. The weight is the number of matched list entries.

The row filter applied when the plant table is loaded is modelled too.

Files, one module each:

- `strings.dfy` (`Strings`): Python's `needle in hay` on strings as `Contains`.
  It is proved equal to "some position where the needle occurs". The
  case-insensitive test folds both sides with a case mapping
  `lower: char -> char`. That mapping is a parameter, so no property depends
  on what it does.
- `tables.dfy` (`Tables`): the plant row, coordinates, an insertion-ordered
  dictionary (`OrderedMap`: a key sequence plus a lookup map, with unique
  keys), and the load-time row filter.
- `selection.dfy` (`Selection`): a row criterion (province test or query
  mask) and `NamesWhere`, the names of the passing rows in row order.
- `query.dfy` (`Query`): `RelatedPlants`, the `related_plants` list of each
  search mode.
- `region_index.dfy` (`RegionIndex`): `PreprocessPlants` updates a local
  index value inside the source's nested loops. It is proved equal to the
  functional definition `Index`.
- `heat.dfy` (`Heat`): `HeatData` (the `heat_data` comprehension) and
  `FindBy` (filter, then aggregate).
- `scenarios.dfy` (`Scenarios`): two worked examples.

- The search result is a list in row order that keeps duplicates.
- Province names in the coordinate table are unique: `to_dict('index')`
  raises on a non-unique index, so `OrderedMap.Valid()` requires unique keys.

## Model

| member | source | states |
|---|---|---|
| Strings.Contains | create_app.py:36 | Python's `needle in hay`: true only when the needle fits in the hay, and always true for the empty needle |
| Strings.ContainsIff | create_app.py:36 | `Contains(hay, needle)` holds exactly when `needle` occurs at some position of `hay` |
| Strings.OccursAtContains | create_app.py:36 | an occurrence anywhere, inside a longer word too, makes the substring test true |
| Strings.ContainsIgnoringCaseOfContains | create_app.py:76 | for every case mapping, a case-sensitive match is also a case-insensitive match |
| Strings.ContainsIgnoringCase | create_app.py:76 | `str.contains(query, case=False)` on one cell, read literally: a match needs a query no longer than the field, and the empty query always matches |
| Strings.EmptyQueryMatches | create_app.py:76 | the empty query matches every field under every case mapping |
| Tables.OrderedMap.Values | create_app.py:79 | `dict.values()`: one value per key, in key order, each the value looked up for that key |
| Tables.KeepDistributed | create_app.py:16 | no kept row has the sentinel distribution, and the table never grows |
| Tables.KeepDistributedMembership | create_app.py:16 | a row is kept if and only if it is in the table and its distribution is not the sentinel |
| Tables.KeepDistributedAppend | create_app.py:16 | row order is kept: filtering a concatenation concatenates the filtered parts |
| Tables.KeepDistributedNoSentinel | create_app.py:16 | a table with no sentinel rows passes through unchanged |
| Tables.KeepDistributedIdempotent | create_app.py:16 | filtering twice gives the same table as filtering once |
| Selection.Holds | create_app.py:36 | the row test of each criterion: a province name must fit in the distribution text; the empty province name and the empty query pass every row |
| Selection.NamesWhere | create_app.py:76 | the mask followed by `['Tên khoa học'].tolist()`: never more names than rows |
| Selection.NamesWhereMembership | create_app.py:34-37 | a name is listed if and only if some row carrying it passes the criterion |
| Selection.NamesWhereAppend | create_app.py:76 | the names follow row order: the names of a concatenation are the concatenated names |
| Selection.NamesWhereSnoc | create_app.py:34-37 | one more row appends its name if it passes and adds nothing otherwise, so there is no de-duplication |
| Selection.NamesWhereAll | create_app.py:76 | when every row passes, every row's name is listed, in row order |
| Query.RelatedPlants | create_app.py:76 | the list of matched names is no longer than the table |
| Query.RelatedPlantsMembership | create_app.py:75-98 | disease mode lists exactly the names of rows whose use field contains the query ignoring case; family mode does the same with the family field; plant mode ORs the Vietnamese name, the scientific name and the synonym |
| Query.RelatedPlantsAppend | create_app.py:85 | the filters keep row order |
| Query.EmptyQueryListsEverything | create_app.py:76 | the empty query lists every row's scientific name, in row order, in every mode |
| Query.ExactMatchIsListed | create_app.py:94-98 | a row whose searched field literally contains the query is listed under every case mapping; in plant mode that field is the Vietnamese name, the scientific name or the synonym |
| RegionIndex.EmptyIndex | create_app.py:31-32 | the starting index has the coordinate table's keys, in order, with its coordinates and empty lists |
| RegionIndex.StepPreservesEntries | create_app.py:35-37 | one inner-loop step brings one more province's list up to date and leaves the other provinces' lists unchanged |
| RegionIndex.IndexFromEntries | create_app.py:31-38 | an index whose every record is the finished one equals the functional index |
| RegionIndex.Index | create_app.py:31-37 | the finished index is valid, has the coordinate table's keys in order, carries each province's latitude and longitude unchanged, and no list is longer than the table |
| RegionIndex.PreprocessPlants | create_app.py:30-38 | the nested loops over rows and provinces build exactly the functional index `Index(rows, coords)` |
| RegionIndex.IndexKeys | create_app.py:31-32 | the index has exactly the coordinate table's province keys, in the same order, and each keeps its latitude and longitude unchanged |
| RegionIndex.IndexMembership | create_app.py:34-37 | a name is in province P's list if and only if some row carrying it has P as a case-sensitive substring of its distribution |
| RegionIndex.IndexSnoc | create_app.py:34-37 | each further row appends its name to the list of every province it mentions, in row order, without de-duplication |
| RegionIndex.IndexAppend | create_app.py:34-37 | indexing two tables in turn concatenates their lists, province by province |
| RegionIndex.IndexOfNoRows | create_app.py:31-37 | an empty plant table gives every province an empty list |
| Heat.Weight | create_app.py:78 | a weight never exceeds the length of the province's list |
| Heat.AnyRelated | create_app.py:80 | `any(p in related ...)`: never true for an empty list or an empty match list |
| Heat.PointOf | create_app.py:78 | `[info['lat'], info['lon'], sum(...)]`: the record's coordinates unchanged, the weight at most the list's length |
| Heat.AnyRelatedIffWeight | create_app.py:78-80 | the `any` test and the `sum` count agree: some entry is matched if and only if the weight is positive |
| Heat.HeatData | create_app.py:77-81 | no more points than records, and every emitted weight is at least 1 |
| Heat.HeatDataLength | create_app.py:77-81 | there is exactly one point per record whose list holds a matched name |
| Heat.HeatDataSound | create_app.py:77-81 | every point is the point of a province whose list holds a matched name, with that province's coordinates and count |
| Heat.HeatDataComplete | create_app.py:77-81 | every province whose list holds a matched name contributes its point |
| Heat.HeatDataAppend | create_app.py:100-104 | points follow index order: the points of a concatenation are the concatenated points |
| Heat.HeatDataOfNoMatches | create_app.py:86-90 | an empty match list gives no points |
| Heat.TotalWeightAppend | create_app.py:78 | the total weight of a concatenation is the sum of the two totals |
| Heat.HeatDataTotal | create_app.py:77-81 | the weights add up to the number of (province, list entry) pairs whose entry was matched |
| Heat.FindBy | create_app.py:75-105 | each search gives exactly one point per province of the index whose list holds a matched name, so no more points than provinces, each of weight at least 1 |
| Heat.ProvinceIsHot | create_app.py:75-81 | in the built index, province P has a matched plant if and only if some row located in P shares its scientific name with some row that matches the query |
| Scenarios.DiseaseSearchScenario | create_app.py:75-81 | one wound-healing plant found in Hanoi and Hue: searching "wound" lists it, and the points are Hanoi's then Hue's, each of weight 1, under every case mapping |
| Scenarios.AloeIndex | create_app.py:31-37 | the one-plant table gives an index listing the plant under Hanoi and then Hue, each with its own coordinates |
| Scenarios.SubstringOverMatchScenario | create_app.py:36 | a distribution reading "Hanoian province" is listed under Hanoi |

## Left out

- KeepDistributed: the sentinel is modelled as the text `"0"`. The source compares each cell with the integer 0. A distribution cell that pandas reads as the string `"0"` is therefore kept by the source. The model does not track the type pandas gives a cell.
- Case folding: `case=False` sets `re.IGNORECASE`, which treats characters as equal when they are case variants of each other. The model stands for that by an arbitrary per-character mapping `lower` and proves nothing that depends on which characters are equivalent.
- Regular expressions: `str.contains` reads the query as a regular expression by default. The model matches the query as literal text. Queries with metacharacters match differently in the source or raise an error there.
- Missing values: `fillna('')` runs before any test, so `na=False` never applies. Every cell is modelled as text.
- Loading and caching: reading the CSV and JSON files and `@st.cache_data` memoisation are I/O and framework code. The tables are taken as given values.
- Coordinates are floats in the source. They are modelled as `real` and are only carried through, never computed on.
- Map rendering: the base map, the country outline and the heatmap layer (`draw_vietnam_map`, `create_heatmap`) are drawn by a mapping library. In the source, the heatmap layer is added only when the point list is non-empty.
- The Streamlit page, the sidebar mode selector, the text input and the guard that skips an empty input are user-interface code.
