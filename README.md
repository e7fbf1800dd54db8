# ceautil table pipeline — a Dafny model

`utils.py` post-processes the outputs of a City Energy Analyst simulation run. A run
directory holds one sub-directory per scenario. Each scenario has per-building geometry
files (`outputs/data/solar-radiation/*_geometry.csv`) and an annual demand table
(`outputs/data/demand/Total_demand.csv`). The pipeline:

- finds the scenarios (`get_scenario_subdirs`);
- pivots the first scenario's geometry files into one row of surface areas per building,
  keyed by the building ID (`get_hull_df_for_simulation`);
- sums the oriented wall and window columns into `walls`, `windows`, `roofs` and `hull_ag`
  (`aggregate_orientations`);
- stacks the demand tables of all scenarios, each tagged with a `scenario` column
  (`get_annual_demand_for_scenario`, `get_annual_demands_for_simulation`);
- turns absolute demands into area-specific ones, rewriting units in the column names
  (`as_area_specific`);
- divides hull areas by each building's mean gross floor area (`get_compactness`);
- lays all of these side by side on the demand table's building index (`combine_results`);
- bins a compactness column into labelled categories (`add_compactness_category_col`).

## How tables are modelled

- A pandas frame is a `Frames.Table`: a row index (`seq<Label>`) and named columns in
  order. A cell is `Missing` (pandas' NaN), `Num(x)` with an exact `real`, or `Text(s)`.
- A range index is `Num(0), Num(1), …`; building IDs are `Text` labels.
- A column lookup `df[name]` takes the first column with that name.
- `df[name] = cells` and the dictionaries that the loops fill (`data`, `d`) are
  `Frames.Assign`: the column is replaced where it stands or appended at the end.
- A frame that the source updates in place (`aggregate_orientations(..., inplace=True)` and
  `add_compactness_category_col`) is the class `Frames.DataFrame`, with a `SetColumn` method.
- Exceptions are the values of `Frames.Error`. Each operation that can raise returns a
  `Result`.
- Logged warnings are returned as flags: the empty-scenario warning of
  `ScenarioSubdirs` and the two compactness warnings of `Compactness.Compactness`.
- Directory listings, geometry files and demand CSVs are parameters of the model:
  - a `DirEntry` list for the run directory;
  - a map from scenario name to its geometry listing (`GeometryFile`s holding parsed rows);
  - a map from scenario name to its parsed demand table.
- Each loop of the source is a method with a loop. Each such method is proved equal to a
  recursive function, and the properties are lemmas about that function.

The docstring of `aggregate_orientations` (utils.py:80-87) speaks of roof areas, but
line 98 sums the window columns into `roofs`. So `north_walls=10, south_walls=5,
east_windows=2` gives `roofs=2, hull_ag=19`, not `roofs=0, hull_ag=17`. The model follows the code:
`Orientation.AggregateExample` shows that outcome, and `Orientation.RoofsIgnoreRoofColumns`
shows that a `_roofs` column contributes nothing.

## Model

| member | source | states |
|---|---|---|
| Discovery.ScenarioSubdirs | utils.py:17-26 | returns the non-file children in enumeration order; the warning flag is set exactly when nothing was found; a name is returned iff some non-file child has it |
| Discovery.SubdirsMembers | utils.py:19-23 | a name is a scenario iff a non-file child carries it |
| Discovery.SubdirsAppend | utils.py:19-23 | discovery over two listings is the concatenation of the two discoveries (order kept) |
| Discovery.SubdirsEmpty | utils.py:24-25 | no scenario is found iff every child is a file |
| Discovery.SubdirsBound | utils.py:17-26 | never more scenarios than children |
| Frames.AssignEffect | utils.py:186 | `df[name] = cells` keeps the index; it replaces an existing column in place or appends a new one at the end; the column then holds `cells`; every other column is unchanged; unique names stay unique |
| Frames.AssignHas | utils.py:221 | after assignment the columns present are the old ones plus `name` |
| Frames.UnionNamesProps | utils.py:74 | the concatenated columns are the union of the parts' columns, without repeats |
| Frames.UnionNamesOrder | utils.py:74 | the columns of the first `k` parts are a prefix of the concatenated columns, so columns keep their order of first appearance |
| Frames.StackedAt | utils.py:122 | row `j` of part `k` lands at offset (rows of parts before `k`) + `j`; a column the part lacks gives a missing value there |
| Frames.RowConcatEffect | utils.py:122 | concatenation fails iff there is nothing to concatenate; otherwise it has the total row count, the union of the columns, and each column is the parts' columns stacked (missing where absent, not zero) |
| Frames.RowConcatCell | utils.py:74 | each cell of the concatenation is the corresponding cell of its part, or missing if the part lacks the column |
| Frames.SetIndexEffect | utils.py:242 | `set_index(name)` fails iff the column is absent; otherwise the index is that column, which is removed, and every other column is kept with its values |
| Frames.ReindexEffect | utils.py:247-249 | reindex fails iff the table's index repeats a label and differs from a non-empty target; otherwise the index is the target, the names are kept, and each cell is the value at the label's row, or missing for an absent label |
| Frames.DataFrame.SetColumn | utils.py:102 | an in-place `df[name] = cells` leaves the frame equal to `Assign` of its old value |
| Demand.InsertScenarioEffect | utils.py:140-144 | `insert(1, "scenario", name)` fails iff `scenario` already exists or the frame has no column; otherwise rows and columns are kept, `scenario` becomes the second column and holds the name on every row |
| Demand.TaggedAll | utils.py:118-121 | when all scenarios load, there is one tagged table per scenario, in order, each the result of `get_annual_demand_for_scenario` |
| Demand.TaggedAllOk | utils.py:119-121 | the loop succeeds iff every scenario's demand table loads and can be tagged |
| Demand.TaggedAllPrefixErr | utils.py:119-121 | the first scenario that fails decides the error |
| Demand.TaggedPrefix | utils.py:118-121 | the tables of the first `k` scenarios are the first `k` tables of the whole loop |
| Demand.AnnualDemandsForSimulation | utils.py:118-122 | the loop-and-concatenate method computes `DemandsTable` |
| Demand.TotalRowsTagged | utils.py:122 | the stacked row count is the sum of the scenarios' row counts |
| Demand.DemandsShape | utils.py:118-122 | the stacked demands succeed iff there is a scenario and every scenario loads; the result is well formed, has unique names and has the summed row count |
| Demand.TaggedCell | utils.py:139-145 | row `j` of scenario `k`'s tagged table carries the scenario's name under `scenario` and the file's own cell (or missing) under any other name |
| Demand.DemandsRowOrigin | utils.py:118-145 | row `j` of scenario `k` sits at offset (rows of earlier scenarios) + `j` of the stacked table, tagged with the scenario name, with every other cell from that scenario's file, or missing |
| Demand.DemandsHasScenario | utils.py:115-122 | the stacked demand table always has the `scenario` column |
| Hull.GroupSumsCorrect | utils.py:60 | the groupby yields each (orientation, TYPE) pair present exactly once, and its sum is the total `AREA_m2` of that pair's rows |
| Hull.ColumnNameNotId | utils.py:66-70 | a flattened `<o>_<t>` name is never `ID` |
| Hull.PivotFileEffect | utils.py:58-70 | one pivoted file is one row with its ID (the file name's first `_` token); each group's total sits under its flattened lower-case name; nothing else but `ID`; all numeric |
| Hull.Pivots | utils.py:49-72 | `all_data` holds one pivot per qualifying file, in listing order |
| Hull.QualifyingMembers | utils.py:51-55 | a file is kept iff it is listed and its name ends in `_geometry.csv` |
| Hull.OneRowPivots | utils.py:62-64 | every pivot has exactly one row |
| Hull.HullOfRow | utils.py:49-74 | after concat and `set_index("ID")`, row `k` is the `k`-th qualifying file: labelled with its ID, with that file's values, and missing where the file lacks a column |
| Hull.HullOfShape | utils.py:74 | the hull table exists iff some file qualifies (an empty concat raises); all its columns are numeric |
| Hull.HullShape | utils.py:41-75 | the result fails iff there is no scenario, the first scenario has no geometry listing, or no file qualifies; otherwise it has one row per qualifying file of the first scenario, each indexed by its file's ID, with numeric columns and no `ID` column |
| Hull.HullCell | utils.py:58-74 | the cell of building `k` in a flattened column is the sum of `AREA_m2` over that file's rows of the group; it is missing if the file lacks the group |
| Hull.HullDfForSimulation | utils.py:41-75 | the loop method computes `HullTable` |
| Orientation.Matching | utils.py:90-92 | the selected columns are exactly those whose name contains the tag |
| Orientation.TagSumAt | utils.py:96-97 | `df[cols].sum(axis=1)` at a row is the sum over the columns containing the tag (missing counted as 0) |
| Orientation.SumIfNone | utils.py:96-97 | an empty selection sums to 0 |
| Orientation.ThreeTotal | utils.py:99 | a row total over three columns is the sum of the three cells |
| Orientation.HullAgAt | utils.py:99 | `hull_ag` is `walls + windows + roofs` on every row |
| Orientation.AggregatedShape | utils.py:94-99 | the aggregate has the input's index and exactly the columns `walls`, `windows`, `roofs`, `hull_ag` |
| Orientation.AggregatedValues | utils.py:89-99 | on every row, `walls` is the `_walls` sum; `windows` and `roofs` are both the `_windows` sum; `hull_ag` = walls + 2 × windows |
| Orientation.RoofsIgnoreRoofColumns | utils.py:98 | a building with only a `north_roofs` column of 5 gets `roofs` = 0 |
| Orientation.AggregateExample | utils.py:96-99 | walls 10+5 and windows 2 give walls 15, windows 2, roofs 2, hull_ag 19 |
| Orientation.AssignAllShape | utils.py:101-102 | writing the columns back keeps the index, well-formedness and unique names |
| Orientation.AssignAllKeeps | utils.py:101-102 | a column not written back is unchanged, and none is added |
| Orientation.AssignAllSets | utils.py:101-102 | each written column holds its aggregate values |
| Orientation.InplaceEffect | utils.py:100-103 | in place, exactly the four aggregate columns are set, with the aggregate values; every other column is kept as it was |
| Orientation.AggregateOrientations | utils.py:89-104 | with `inplace`, the same frame is returned with the four columns written into it; without, a fresh frame holds the aggregate and the input is unchanged |
| AreaSpecific.NumericNames | utils.py:163 | `select_dtypes(include="number")` keeps exactly the numeric columns |
| AreaSpecific.NumericListed | utils.py:166-168 | the explicit list fails iff a listed column is absent; otherwise it keeps exactly the listed numeric columns |
| AreaSpecific.ValueColsSelected | utils.py:162-168 | the selected value columns are the numeric columns of the frame, restricted to the list when one is given; the list errors iff it names an absent column |
| AreaSpecific.Convert | utils.py:174-184 | the factor is 1 or 1000, never compounded; it is 1 iff the unit (plus area suffix) contains neither `kW` nor `MWh` |
| AreaSpecific.PlainUnitName | utils.py:174-178 | without a unit to rewrite, the new name is `col + "_" + area_col` (with a leading `_` when the name has no `_`) and the factor is 1 |
| Strings.SplitPrefix | utils.py:174 | splitting `a + "_" + b` where `a` has no `_` gives `a` and then the split of `b` |
| Strings.SplitNone | utils.py:174 | a name without `_` splits into itself |
| Strings.SplitFieldsFree | utils.py:174 | no field of a split holds the separator |
| Strings.JoinSplit | utils.py:174-175 | joining the fields of a split gives the name back, so name + `_` + unit is the original column name |
| Strings.SplitSingle | utils.py:174-176 | a split has one field iff the separator is absent |
| Strings.JoinLast | utils.py:175-176 | the join of all fields but the last, then `_`, then the last, is the join of all fields |
| Strings.ReplaceAbsent | utils.py:180-183 | `replace` leaves a string without the pattern unchanged |
| Strings.FirstTokenPrefix | utils.py:70 | the building ID is the longest `_`-free prefix of the file name |
| AreaSpecific.SplitExample | utils.py:174 | `"Qhs_MWh".split("_")` is `["Qhs", "MWh"]` |
| AreaSpecific.ReplaceExample | utils.py:183 | `"MWh_Af_m2".replace("MWh", "kWh")` is `"kWh_Af_m2"` |
| AreaSpecific.NameExample | utils.py:174-178 | for `Qhs_MWh` the name is `Qhs` and the unit `MWh_Af_m2` |
| AreaSpecific.UnitExample | utils.py:179-184 | `MWh_Af_m2` has no `kW`, and then becomes `kWh_Af_m2` with factor 1000 |
| AreaSpecific.ConvertMWhExample | utils.py:174-186 | `Qhs_MWh` becomes `Qhs_kWh_Af_m2` with factor 1000, and 5 over an area of 100 gives 50 |
| AreaSpecific.KWhNameExample | utils.py:174-178 | for `Qhs_kWh` the name is `Qhs` and the unit `kWh_Af_m2` |
| AreaSpecific.KWReplaceExample | utils.py:180 | `"kWh_Af_m2".replace("kW", "W")` is `"Wh_Af_m2"` |
| AreaSpecific.KWhUnitExample | utils.py:179-184 | `kWh_Af_m2` becomes `Wh_Af_m2` with factor 1000, and the `MWh` step leaves it alone |
| AreaSpecific.ConvertKWhExample | utils.py:174-186 | `Qhs_kWh` becomes `Qhs_Wh_Af_m2` with factor 1000 |
| AreaSpecific.GJNameExample | utils.py:174-178 | for `Qhs_GJ` the name is `Qhs` and the unit `GJ_Af_m2` |
| AreaSpecific.ConvertPlainExample | utils.py:174-186 | `Qhs_GJ` has neither `kW` nor `MWh`, so it becomes `Qhs_GJ_Af_m2` with factor 1 |
| AreaSpecific.ScaledAt | utils.py:186 | each converted cell is `value * factor / area` of its row, missing when either is missing |
| AreaSpecific.Converted | utils.py:170-186 | the converted columns form a well-formed table on the source index with unique names |
| AreaSpecific.ConvertedOk | utils.py:171-186 | the loop fails iff some column is rewritten and the area column is absent or not numeric |
| AreaSpecific.ConvertedPrefixErr | utils.py:171-186 | the first failing column decides the error |
| AreaSpecific.ConvertedNames | utils.py:171-186 | the loop produces exactly the rewritten names of the value columns without `m2` |
| AreaSpecific.ConvertedValue | utils.py:186 | a rewritten column holds its scaled values (when no later column overwrites the same name) |
| AreaSpecific.Others | utils.py:187 | `columns.difference(value_cols)` holds exactly the columns not selected |
| AreaSpecific.PassedThroughEffect | utils.py:187-189 | each column not selected is copied unchanged (overwriting a converted column of the same name); no other column is touched |
| AreaSpecific.AreaSpecificOk | utils.py:161-190 | `as_area_specific` fails iff the selection fails or some column must be rewritten while the area column is unusable |
| AreaSpecific.AreaSpecificColumns | utils.py:161-190 | the output's columns are the unselected columns plus the rewritten names; the unselected ones keep their values; the index is kept |
| AreaSpecific.AreaColumnsDropped | utils.py:172-173 | a selected column containing `m2` is dropped, neither rewritten nor passed through |
| AreaSpecific.AreaSpecificValue | utils.py:170-190 | in the output, each rewritten column holds `value * factor / area` row by row |
| AreaSpecific.ConvertValues | utils.py:170-186 | the conversion loop computes `Converted` |
| AreaSpecific.PassThrough | utils.py:187-189 | the pass-through loop computes `PassedThrough` |
| AreaSpecific.AsAreaSpecific | utils.py:161-190 | the method computes `AreaSpecificTable` |
| Compactness.Labels | utils.py:209 | the group keys are the index's labels, each once; a missing label is dropped by `groupby` |
| Compactness.ConstantMean | utils.py:209 | a building whose rows all carry the same area has that area as its mean |
| Compactness.SingleMean | utils.py:209 | a building with one row has that row's area as its mean |
| Compactness.MeanExample | utils.py:209 | areas 100 and 105 for one building give the mean 102.5 |
| Compactness.LabelsOfDistinct | utils.py:210 | an index without repeats keeps every label as first occurrence |
| Compactness.FirstsAreMeans | utils.py:210-214 | with one row per building, the first-occurrence areas equal the means |
| Compactness.FirstsEqualMeans | utils.py:209-211 | the first-occurrence areas equal the means iff no building ID is missing and each building's first area is its mean |
| Compactness.CompactnessWarnings | utils.py:210-218 | the first warning is on iff some building ID is missing or some building's first area differs from its mean (so it is off when every row has its own, non-missing ID); the second is on iff the number of building IDs differs from the hull row count |
| Compactness.FirstMismatchExample | utils.py:208-218 | one building with areas 100 and 105 and one hull row raises the first warning but not the second |
| Compactness.Union | utils.py:221 | the aligned index holds the labels of either side; it starts with the hull index, repeats included, and then adds each label only the means have; without repeats on either side it has none |
| Compactness.Divide | utils.py:221 | the quotient is indexed by the union of both sides' labels |
| Compactness.RepeatedIdDivide | utils.py:221 | a hull series that lists `B1` twice (40, 60), divided by `B1`'s mean 100, keeps both rows: 0.4 and 0.6 |
| Compactness.Ratios | utils.py:219-221 | the ratio table is well formed, indexed by the union of IDs, with unique names |
| Compactness.RatioNameInjective | utils.py:221 | different hull columns get different `<col>_to_<ref>` names |
| Compactness.RatiosOk | utils.py:219-221 | the loop fails iff some hull column is missing or not numeric |
| Compactness.RatiosNames | utils.py:219-221 | the columns are exactly the `<col>_to_<ref>` names of the hull columns |
| Compactness.RatiosGet | utils.py:221 | each ratio column is the aligned quotient of its hull column by the means |
| Compactness.RatiosPrefixErr | utils.py:219-221 | the first unreadable hull column decides the error |
| Compactness.MeansLookup | utils.py:208-209 | looking up an ID in the grouped means gives that ID's mean area, missing for an absent ID |
| Compactness.CompactnessOk | utils.py:193-222 | `get_compactness` fails iff the reference or a hull column is missing or not numeric; the warnings never make it fail |
| Compactness.CompactnessValues | utils.py:208-222 | the ratio table keeps every hull row, in order and with repeated IDs, then the IDs only the reference table has; a hull row's cell is its own hull value over its ID's mean reference area (missing when the ID has none), and the added rows are missing; without repeated hull IDs the index has no repeats |
| Compactness.RepeatedIdExample | utils.py:208-222 | a hull with `B1` twice against one reference row gives both ratios (0.4, 0.6), no first warning, and the row-count warning |
| Compactness.GetCompactness | utils.py:193-222 | the method computes `CompactnessOf`: ratio table and both warning flags |
| Category.BinFrom | utils.py:272 | a found bin contains the value |
| Category.Cut | utils.py:272 | one category per value |
| Category.CountCheck | utils.py:268-271 | the error is raised iff `len(bins) != len(labels) + 1` |
| Category.InBinUnique | utils.py:272 | with increasing edges a value lies in at most one bin |
| Category.CutCellSpec | utils.py:272 | a value gets label `i` iff it lies in (bins[i], bins[i+1]] (bins[0] included for the first bin); it is missing iff it lies in no bin |
| Category.OutOfRange | utils.py:272 | a value below the first edge or above the last is missing |
| Category.CutExample | utils.py:272 | with bins [0,1,2,3] and labels low/mid/high: 1.5 → mid, 0 → low, 3 → high, 3.5 → missing |
| Category.CategorizedEffect | utils.py:268-273 | the new column holds the category of each row's value; the index and every other column are kept |
| Category.AddCompactnessCategoryCol | utils.py:265-273 | on error the frame is untouched; otherwise the same frame is mutated to hold the category column and is returned |
| Combine.StagesOf | utils.py:240-247 | the stages succeed iff the hull succeeds without repeated IDs (else the reindex of line 247 fails), the demands load and have `Name`, `as_area_specific` succeeds and `GFA_m2` is present and numeric; each stage is the pipeline's own frame |
| Combine.DemandsM2Index | utils.py:243 | the area-specific demands keep the demand index |
| Combine.AggregatedReadable | utils.py:244 | `walls`, `windows` and `hull_ag` of the aggregate are present and numeric |
| Combine.ReindexLookup | utils.py:247-249 | reindexing onto the demand index copies each ID's values onto every row with that ID, missing for an absent ID |
| Combine.AssembleOk | utils.py:247-262 | assembly fails only when a raw area column is missing from the demands |
| Combine.AssembleShape | utils.py:251-262 | the result has the demands' rows and index; its column groups are, in order: oriented hull, aggregate, compactness, the four area columns, area-specific demands |
| Combine.AssembleCells | utils.py:247-262 | hull, aggregate and compactness cells are looked up by the row's ID; area columns and area-specific demands are copied |
| Combine.CombineOk | utils.py:225-262 | `combine_results` succeeds iff the stages succeed and the demands carry all four area columns |
| Combine.CombineShape | utils.py:225-262 | the combined table has one row per demand row of all scenarios, indexed by `Name`; its columns are the hull columns, the four aggregates, one ratio per hull column, the area columns and the area-specific demands |

## Left out

- `nextcloud.py` is not part of this model. It is network and credential plumbing with no
  table logic.
- Reading the filesystem and parsing CSV files (`Path.iterdir`, `is_file`, `pd.read_csv`)
  are replaced by parameters. The path joins that locate the files become map lookups by
  scenario name. A missing entry is the `MissingPath` error.
- Hull.HullTable: the geometry directory is looked up by the first scenario's name. This
  matches the source only when the simulation path is absolute. `get_scenario_subdirs`
  returns paths that already start with the simulation path (utils.py:18-23), and
  utils.py:42-48 joins the simulation path with such a path again. For an absolute path
  pathlib keeps the right operand, so the join reaches the scenario directory. For a
  relative path such as `runs/sim`, it gives `runs/sim/runs/sim/<scenario>/...`, and listing
  that directory raises `FileNotFoundError`. The model does not capture this error. The
  demand side (utils.py:135-136) joins onto the scenario path itself and is not affected.
- Log messages are left out. The empty-scenario warning and the two compactness warnings
  are returned as flags.
- IEEE floating point is not modelled. Areas are exact reals:
  - `as_area_specific` requires that no area cell is 0 (`AreasNonZero`);
  - `get_compactness` requires that no mean reference area is 0 (`CompactnessInputs`);
  - so the model has no infinities or NaN from a division by zero.
- Pandas' sort orders are not modelled: the groupby key sort, the sorted order of
  `columns.difference` and the sorted union of a misaligned division. The model keeps
  order of first appearance. Membership and values are the same either way.
- The dtype and order sensitivity of `Series.equals` is not modelled. The first-occurrence
  warning compares labels and values.
- `select_dtypes` and `is_numeric_dtype` are modelled as "the column holds no text"
  (`NumericCells`).
- `str.lower()` is modelled on ASCII letters only.
- Geometry listings are assumed well formed (`ListingOk`):
  - every geometry file has at least one row;
  - no two (orientation, TYPE) pairs flatten to the same column name.

  Pandas' behaviour on those inputs is not modelled.
- `pd.cut`'s own checks (strictly increasing edges, distinct labels) are a precondition
  (`CutInputs`).
- Combine.StagesOf: when the hull index repeats a building ID, the model raises the reindex
  error of line 247 (`DuplicateLabels`) after `get_compactness` has run. Pandas 1.x does not
  raise there when the area-specific demands' index is empty or equal to the hull index;
  the model raises in those two cases too.
- Combine.AssembleCells: the per-row statement is made on the stages. For the whole
  `combine_results`, `Combine.CombineShape` gives the index and column names.
- `pd.concat(..., axis=1)` in `combine_results` is modelled as putting the parts side by
  side. This is exact because all five parts carry the same index (Combine.AssembleShape).
- AreaSpecific.Converted: its own ensures gives only the shape of the result. The names and
  values are in AreaSpecific.ConvertedNames and AreaSpecific.ConvertedValue.
- Frames.ReindexEffect: follows pandas 1.x. There, a table whose index repeats a label can
  still be reindexed onto an empty target or onto its own index. Pandas 2.x raises for a
  repeated index whenever the target differs from it, even an empty target.
- The `__main__` blocks, which use hard-coded local paths, are left out.
