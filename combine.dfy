/**
 * combine_results: the hull table, its orientation sums, the compactness ratios, the
 * four area columns and the area-specific demands of every building scenario, side by side
 * on the demand table's building index.
 */
module Combine {
  import opened Wrappers
  import opened Strings
  import opened Frames
  import opened Discovery
  import opened Demand
  import opened Hull
  import opened Orientation
  import opened AreaSpecific
  import C = Compactness

  const NAME_COL: string := "Name"
  const AREA_COLS: seq<string> := ["Af_m2", "Aroof_m2", "GFA_m2", "Aocc_m2"]
  const HULL_COLS: seq<string> := ["walls", "windows", "hull_ag"]

  /**
   * The intermediate frames of combine_results: the oriented hull table, its aggregate,
   * the demand table indexed by building name, its area-specific version and the
   * compactness ratios.
   */
  datatype Stages = Stages(hullOriented: Table, hullAggregated: Table, demands: Table, demandsM2: Table, compact: Table)

  /** Every stage is a well-formed table, and the tables that are reindexed carry no repeated label. */
  predicate StagesValid(st: Stages) {
    && st.hullOriented.Valid() && UniqueNames(st.hullOriented) && Distinct(st.hullOriented.index)
    && st.hullAggregated.Valid() && st.hullAggregated.index == st.hullOriented.index
    && st.hullAggregated.Names() == AGGREGATED
    && st.demands.Valid() && UniqueNames(st.demands)
    && st.demandsM2.Valid() && st.demandsM2.index == st.demands.index
    && st.compact.Valid() && Distinct(st.compact.index)
  }

  /** What the demand table indexed by name must satisfy: nonzero floor areas and nonzero mean reference areas. */
  predicate DemandInputs(demands: Table) {
    && demands.Valid() && AreasNonZero(demands, DEFAULT_AREA_COL)
    && (C.RefMeans(demands, C.DEFAULT_REF_COL).Ok? ==> C.NonZero(C.RefMeans(demands, C.DEFAULT_REF_COL).value))
  }

  /** What the lemmas assume about the directory listing, the geometry files and the demand files. */
  predicate CombineInputs(children: seq<DirEntry>, geometry: map<string, seq<GeometryFile>>, files: map<string, Table>) {
    && HullInputsOk(children, geometry)
    && CsvTables(files)
    && (DemandsTable(children, files).Ok? && SetIndex(DemandsTable(children, files).value, NAME_COL).Ok? ==>
          DemandInputs(SetIndex(DemandsTable(children, files).value, NAME_COL).value))
  }

  /** A table whose every column holds numbers has numbers in the columns that are summed. */
  lemma NumericSummed(t: Table)
    requires UniqueNames(t) && forall n | t.Has(n) :: NumericCells(t.Get(n))
    ensures SummedNumeric(t)
  {
    forall c | c in t.cols ensures NumericCells(c.cells) {
      GetByMember(t, c);
    }
  }

  /** The aggregated columns hold numbers only. */
  lemma AggregatedNumeric(t: Table)
    requires t.Valid() && SummedNumeric(t)
    ensures forall c | c in Aggregated(t).cols :: NumericCells(c.cells)
  {
  }

  /**
   * The `scenario` column survives as_area_specific, converted or passed through, so the
   * area-specific table keeps the demand table's index.
   */
  lemma DemandsM2Index(demands: Table)
    requires demands.Valid() && UniqueNames(demands) && AreasNonZero(demands, DEFAULT_AREA_COL)
    requires demands.Has(SCENARIO_COL) && AreaSpecificTable(demands, None, DEFAULT_AREA_COL).Ok?
    ensures var r := AreaSpecificTable(demands, None, DEFAULT_AREA_COL).value;
      r.Valid() && r.cols != [] && r.index == demands.index
  {
    var r := AreaSpecificTable(demands, None, DEFAULT_AREA_COL).value;
    var vcols := ValueCols(demands, None).value;
    AreaSpecificColumns(demands, None, DEFAULT_AREA_COL);
    if SCENARIO_COL in vcols {
      MissingChar(SCENARIO_COL, AREA_TAG, 0);
      assert ConvertsTo(vcols, DEFAULT_AREA_COL, Convert(SCENARIO_COL, DEFAULT_AREA_COL).target);
      assert r.Has(Convert(SCENARIO_COL, DEFAULT_AREA_COL).target);
    } else {
      assert r.Has(SCENARIO_COL);
    }
  }

  /**
   * Lines 240-244 of combine_results, up to the compactness ratios. A hull index with a
   * repeated building ID then stops the pipeline with the reindex error of line 247.
   */
  function StagesOf(children: seq<DirEntry>, geometry: map<string, seq<GeometryFile>>, files: map<string, Table>)
    : (r: Result<Stages, Error>)
    requires CombineInputs(children, geometry, files)
    ensures r.Ok? <==> StagesSucceed(children, geometry, files)
    ensures r.Ok? ==> StagesValid(r.value) && StagesFrom(children, geometry, files, r.value)
  {
    var hull :- HullTable(children, geometry);
    HullShape(children, geometry);
    NumericSummed(hull);
    AggregatedValues(hull, 0);
    var agg := Aggregated(hull);
    DemandsShape(children, files);
    var raw :- DemandsTable(children, files);
    DemandsHasScenario(children, files);
    SetIndexEffect(raw, NAME_COL);
    var demands :- SetIndex(raw, NAME_COL);
    var demandsM2 :- AreaSpecificTable(demands, None, DEFAULT_AREA_COL);
    DemandsM2Index(demands);
    AggregatedReadable(hull);
    C.CompactnessOk(agg, demands, HULL_COLS, C.DEFAULT_REF_COL);
    var compact :- C.CompactnessOf(agg, demands, HULL_COLS, C.DEFAULT_REF_COL);
    if !Distinct(hull.index) then Err(DuplicateLabels)
    else
      C.CompactnessValues(agg, demands, HULL_COLS, C.DEFAULT_REF_COL, "walls", 0);
      Ok(Stages(hull, agg, demands, demandsM2, compact.table))
  }

  /**
   * Lines 247-262: the hull, aggregate and compactness tables reindexed on the area-specific
   * demands' index, then the four area columns and the area-specific demands beside them.
   * All five parts share that index, so `pd.concat(..., axis=1)` lines them up side by side.
   */
  function Assemble(st: Stages): Result<Table, Error>
    requires StagesValid(st)
  {
    var target := st.demandsM2.index;
    var hullExp :- Reindex(st.hullOriented, target);
    var aggExp :- Reindex(st.hullAggregated, target);
    var compactExp :- Reindex(st.compact, target);
    var areas :- Select(st.demands, AREA_COLS);
    Ok(Table(target, hullExp.cols + aggExp.cols + compactExp.cols + areas.cols + st.demandsM2.cols))
  }

  /**
   * The stages fail exactly when the hull table fails or repeats a building ID, the demand
   * table fails or has no `Name` column, as_area_specific fails, or the reference area
   * `GFA_m2` is missing or holds text.
   */
  predicate StagesSucceed(children: seq<DirEntry>, geometry: map<string, seq<GeometryFile>>, files: map<string, Table>)
    requires CombineInputs(children, geometry, files)
  {
    && HullTable(children, geometry).Ok? && Distinct(HullTable(children, geometry).value.index)
    && DemandsTable(children, files).Ok? && DemandsTable(children, files).value.Has(NAME_COL)
    && var demands := SetIndex(DemandsTable(children, files).value, NAME_COL).value;
       && AreaSpecificTable(demands, None, DEFAULT_AREA_COL).Ok?
       && demands.Has(C.DEFAULT_REF_COL) && NumericCells(demands.Get(C.DEFAULT_REF_COL))
  }

  /** Which frame of the pipeline each stage is. */
  predicate StagesFrom(children: seq<DirEntry>, geometry: map<string, seq<GeometryFile>>, files: map<string, Table>, st: Stages)
    requires CombineInputs(children, geometry, files)
  {
    && HullTable(children, geometry) == Ok(st.hullOriented)
    && st.hullOriented.Valid() && UniqueNames(st.hullOriented) && SummedNumeric(st.hullOriented)
    && |st.hullOriented.index| > 0
    && st.hullAggregated == Aggregated(st.hullOriented)
    && DemandsTable(children, files).Ok?
    && SetIndex(DemandsTable(children, files).value, NAME_COL) == Ok(st.demands)
    && DemandInputs(st.demands)
    && AreaSpecificTable(st.demands, None, DEFAULT_AREA_COL) == Ok(st.demandsM2)
    && C.CompactnessInputs(st.hullAggregated, st.demands, C.DEFAULT_REF_COL)
    && C.CompactnessOf(st.hullAggregated, st.demands, HULL_COLS, C.DEFAULT_REF_COL).Ok?
    && C.CompactnessOf(st.hullAggregated, st.demands, HULL_COLS, C.DEFAULT_REF_COL).value.table == st.compact
  }

  /** combine_results as a value. */
  function CombineResults(children: seq<DirEntry>, geometry: map<string, seq<GeometryFile>>, files: map<string, Table>)
    : Result<Table, Error>
    requires CombineInputs(children, geometry, files)
  {
    var st :- StagesOf(children, geometry, files);
    Assemble(st)
  }

  // ----- what the assembly promises -----

  /** Reindexing never fails here: every reindexed table has distinct labels. Only the area columns can be missing. */
  lemma AssembleOk(st: Stages)
    requires StagesValid(st)
    ensures Assemble(st).Ok? <==> forall n | n in AREA_COLS :: st.demands.Has(n)
  {
    var target := st.demandsM2.index;
    ReindexEffect(st.hullOriented, target);
    ReindexEffect(st.hullAggregated, target);
    ReindexEffect(st.compact, target);
  }

  /**
   * The combined table is indexed by the demand table's building names; its columns are the
   * hull columns, the aggregates, the ratios, the four area columns and the area-specific
   * demands, in that order.
   */
  lemma AssembleShape(st: Stages)
    requires StagesValid(st) && Assemble(st).Ok?
    ensures var r := Assemble(st).value;
      && r.Valid() && r.index == st.demands.index
      && r.Names() == st.hullOriented.Names() + AGGREGATED + st.compact.Names() + AREA_COLS + st.demandsM2.Names()
  {
    var target := st.demandsM2.index;
    ReindexEffect(st.hullOriented, target);
    ReindexEffect(st.hullAggregated, target);
    ReindexEffect(st.compact, target);
    var hullExp := Reindex(st.hullOriented, target).value;
    var aggExp := Reindex(st.hullAggregated, target).value;
    var compactExp := Reindex(st.compact, target).value;
    var areas := Select(st.demands, AREA_COLS).value;
    forall n | n in AREA_COLS ensures |st.demands.Get(n)| == |st.demands.index| {
      GetLength(st.demands, n);
    }
    assert areas.Names() == AREA_COLS;
    NamesConcat(hullExp.cols, aggExp.cols);
    NamesConcat(hullExp.cols + aggExp.cols, compactExp.cols);
    NamesConcat(hullExp.cols + aggExp.cols + compactExp.cols, areas.cols);
    NamesConcat(hullExp.cols + aggExp.cols + compactExp.cols + areas.cols, st.demandsM2.cols);
  }

  lemma NamesConcat(a: seq<Column>, b: seq<Column>)
    ensures NamesOf(a + b) == NamesOf(a) + NamesOf(b)
  {
  }

  /**
   * Row `i` of the combined table: every hull, aggregate and ratio cell is the value of the
   * row's building ID in its own table, missing for an ID that table lacks; the area
   * columns are the demand table's; the area-specific columns are copied whole.
   */
  lemma AssembleCells(st: Stages, i: nat)
    requires StagesValid(st) && Assemble(st).Ok?
    requires i < |st.demands.index|
    ensures var r := Assemble(st).value;
      var h := |st.hullOriented.cols|;
      var a := h + |st.hullAggregated.cols|;
      var c := a + |st.compact.cols|;
      var e := c + |AREA_COLS|;
      && |r.cols| == e + |st.demandsM2.cols| && i < |r.index|
      && (forall j | 0 <= j < h ::
            |st.hullOriented.cols[j].cells| == |st.hullOriented.index| &&
            r.cols[j].cells[i] == Lookup(st.hullOriented.index, st.hullOriented.cols[j].cells, r.index[i]))
      && (forall j | 0 <= j < |st.hullAggregated.cols| ::
            |st.hullAggregated.cols[j].cells| == |st.hullAggregated.index| &&
            r.cols[h + j].cells[i] == Lookup(st.hullAggregated.index, st.hullAggregated.cols[j].cells, r.index[i]))
      && (forall j | 0 <= j < |st.compact.cols| ::
            |st.compact.cols[j].cells| == |st.compact.index| &&
            r.cols[a + j].cells[i] == Lookup(st.compact.index, st.compact.cols[j].cells, r.index[i]))
      && (forall j | 0 <= j < |AREA_COLS| ::
            st.demands.Has(AREA_COLS[j]) && r.cols[c + j].cells == st.demands.Get(AREA_COLS[j]))
      && (forall j | 0 <= j < |st.demandsM2.cols| :: r.cols[e + j] == st.demandsM2.cols[j])
  {
    var target := st.demandsM2.index;
    ReindexLookup(st.hullOriented, target, i);
    ReindexLookup(st.hullAggregated, target, i);
    ReindexLookup(st.compact, target, i);
    forall j | 0 <= j < |AREA_COLS| ensures |st.demands.Get(AREA_COLS[j])| == |st.demands.index| {
      GetLength(st.demands, AREA_COLS[j]);
    }
  }

  /** Reindexing a table without repeated labels puts in each row the value of that row's label. */
  lemma ReindexLookup(t: Table, target: seq<Label>, i: nat)
    requires t.Valid() && Distinct(t.index) && i < |target|
    ensures Reindex(t, target).Ok?
    ensures var r := Reindex(t, target).value;
      && |r.cols| == |t.cols|
      && forall j | 0 <= j < |t.cols| ::
           |t.cols[j].cells| == |t.index| && |r.cols[j].cells| == |target| &&
           r.cols[j].cells[i] == Lookup(t.index, t.cols[j].cells, target[i])
  {
    ReindexEffect(t, target);
    var r := Reindex(t, target).value;
    forall j | 0 <= j < |t.cols|
      ensures |t.cols[j].cells| == |t.index| && |r.cols[j].cells| == |target|
      ensures r.cols[j].cells[i] == Lookup(t.index, t.cols[j].cells, target[i])
    {
      assert t.cols[j] in t.cols;
      assert r.cols[j] in r.cols;
      if t.index == target {
        LookupOwnRow(t.index, t.cols[j].cells, i);
      }
    }
  }

  /** The aggregate of a hull table has readable `walls`, `windows` and `hull_ag` columns. */
  lemma AggregatedReadable(t: Table)
    requires t.Valid() && UniqueNames(t) && SummedNumeric(t) && |t.index| > 0
    ensures forall col | col in HULL_COLS :: C.Readable(Aggregated(t), col)
  {
    var a := Aggregated(t);
    AggregatedValues(t, 0);
    AggregatedNumeric(t);
    forall col | col in HULL_COLS ensures C.Readable(a, col) {
      assert col in a.Names();
      var k := FirstPos(a.cols, col);
      assert a.cols[k] in a.cols;
    }
  }

  // ----- what combine_results promises -----

  /**
   * combine_results fails exactly when one of its stages fails or one of the four area
   * columns is missing from the demand table.
   */
  lemma CombineOk(children: seq<DirEntry>, geometry: map<string, seq<GeometryFile>>, files: map<string, Table>)
    requires CombineInputs(children, geometry, files)
    ensures CombineResults(children, geometry, files).Ok? <==>
      && StagesSucceed(children, geometry, files)
      && var demands := SetIndex(DemandsTable(children, files).value, NAME_COL).value;
         forall n | n in AREA_COLS :: demands.Has(n)
  {
    var stages := StagesOf(children, geometry, files);
    if stages.Ok? {
      AssembleOk(stages.value);
    }
  }

  /**
   * The combined table has one row per row of the stacked demand tables, labelled with
   * that row's building `Name`; its columns are the hull columns, `walls`, `windows`,
   * `roofs`, `hull_ag`, the ratio columns, the four area columns and the area-specific
   * demand columns, in that order.
   */
  lemma CombineShape(children: seq<DirEntry>, geometry: map<string, seq<GeometryFile>>, files: map<string, Table>)
    requires CombineInputs(children, geometry, files)
    ensures CombineResults(children, geometry, files).Ok? ==> StagesOf(children, geometry, files).Ok?
    ensures CombineResults(children, geometry, files).Ok? ==>
      var r := CombineResults(children, geometry, files).value;
      var st := StagesOf(children, geometry, files).value;
      && HullTable(children, geometry).Ok? && DemandsTable(children, files).Ok?
      && var raw := DemandsTable(children, files).value;
      && r.Valid() && raw.Has(NAME_COL) && r.index == raw.Get(NAME_COL)
      && |r.index| == SumRows(Subdirs(children), files)
      && r.Names() == HullTable(children, geometry).value.Names() + AGGREGATED + st.compact.Names() + AREA_COLS
           + st.demandsM2.Names()
      && (forall n :: st.compact.Has(n) <==> C.RatioOf(HULL_COLS, C.DEFAULT_REF_COL, n))
  {
    if CombineResults(children, geometry, files).Ok? {
      var st := StagesOf(children, geometry, files).value;
      AssembleShape(st);
      DemandsShape(children, files);
      var raw := DemandsTable(children, files).value;
      SetIndexEffect(raw, NAME_COL);
      GetLength(raw, NAME_COL);
      C.CompactnessValues(st.hullAggregated, st.demands, HULL_COLS, C.DEFAULT_REF_COL, "walls", 0);
    }
  }
}
