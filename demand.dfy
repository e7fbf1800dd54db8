/** Demand loading: each scenario's Total_demand.csv, tagged with the scenario's name, all stacked. */
module Demand {
  import opened Wrappers
  import opened Frames
  import opened Discovery

  const SCENARIO_COL: string := "scenario"
  const DEMAND_FILE: string := "/outputs/data/demand/Total_demand.csv"

  /** What `pd.read_csv` hands back: equally long columns under distinct headers. */
  predicate CsvTables(files: map<string, Table>) {
    forall s | s in files :: files[s].Valid() && UniqueNames(files[s])
  }

  /** `df.insert(1, "scenario", scenario)`: a repeated column or a table without columns raises. */
  function InsertScenario(df: Table, scenario: string): Result<Table, Error> {
    if df.Has(SCENARIO_COL) then Err(ColumnExists(SCENARIO_COL))
    else if |df.cols| < 1 then Err(InsertOutOfRange(1, |df.cols|))
    else Ok(Inserted(df, Column(SCENARIO_COL, Fill(|df.index|, Text(scenario)))))
  }

  /**
   * Tagging keeps every row and every column; `scenario` becomes the second column and
   * holds the scenario's name on every row.
   */
  lemma InsertScenarioEffect(df: Table, scenario: string)
    requires df.Valid() && UniqueNames(df)
    ensures InsertScenario(df, scenario).Ok? <==> !df.Has(SCENARIO_COL) && |df.cols| >= 1
    ensures InsertScenario(df, scenario).Ok? ==>
      var r := InsertScenario(df, scenario).value;
      && r.Valid() && UniqueNames(r) && r.index == df.index
      && r.Names() == df.Names()[..1] + [SCENARIO_COL] + df.Names()[1..]
      && r.Has(SCENARIO_COL) && r.Get(SCENARIO_COL) == Fill(|df.index|, Text(scenario))
      && (forall n | n != SCENARIO_COL :: r.Has(n) <==> df.Has(n))
      && (forall n | df.Has(n) :: r.Get(n) == df.Get(n))
  {
    if InsertScenario(df, scenario).Ok? {
      var r := InsertScenario(df, scenario).value;
      var tag := Column(SCENARIO_COL, Fill(|df.index|, Text(scenario)));
      InsertedNames(df, tag);
      InsertedUnique(df, tag);
      assert forall c | c in r.cols :: c == tag || c in df.cols;
      assert tag in r.cols;
      GetByMember(r, tag);
      InsertedKeeps(df, tag);
    }
  }

  function Inserted(df: Table, tag: Column): Table
    requires |df.cols| >= 1
  {
    Table(df.index, [df.cols[0], tag] + df.cols[1..])
  }

  lemma InsertedNames(df: Table, tag: Column)
    requires |df.cols| >= 1
    ensures Inserted(df, tag).Names() == df.Names()[..1] + [tag.name] + df.Names()[1..]
    ensures forall n :: Inserted(df, tag).Has(n) <==> n == tag.name || df.Has(n)
  {
    var r := Inserted(df, tag);
    assert r.Names() == df.Names()[..1] + [tag.name] + df.Names()[1..];
    assert df.Names() == df.Names()[..1] + df.Names()[1..];
  }

  lemma InsertedUnique(df: Table, tag: Column)
    requires |df.cols| >= 1 && UniqueNames(df) && !df.Has(tag.name)
    ensures UniqueNames(Inserted(df, tag))
  {
    var r := Inserted(df, tag);
    InsertedNames(df, tag);
    forall i, j | 0 <= i < j < |r.cols| ensures r.Names()[i] != r.Names()[j] {
      if i == 1 {
        assert df.Names()[j - 1] != tag.name;
      } else if j == 1 {
        assert df.Names()[i] != tag.name;
      } else {
        var i' := if i == 0 then 0 else i - 1;
        assert df.Names()[i'] != df.Names()[j - 1];
      }
    }
  }

  lemma InsertedKeeps(df: Table, tag: Column)
    requires |df.cols| >= 1 && UniqueNames(df) && !df.Has(tag.name)
    ensures forall n | df.Has(n) :: Inserted(df, tag).Has(n) && Inserted(df, tag).Get(n) == df.Get(n)
  {
    var r := Inserted(df, tag);
    InsertedNames(df, tag);
    InsertedUnique(df, tag);
    forall n | df.Has(n) ensures r.Has(n) && r.Get(n) == df.Get(n) {
      var i :| 0 <= i < |df.cols| && df.Names()[i] == n;
      assert r.cols[if i == 0 then 0 else i + 1] == df.cols[i];
      assert df.cols[i] in df.cols;
      GetByMember(r, df.cols[i]);
      GetByMember(df, df.cols[i]);
    }
  }

  /** get_annual_demand_for_scenario: read the scenario's demand table (a missing file raises) and tag it. */
  function DemandForScenario(scenario: string, files: map<string, Table>): Result<Table, Error> {
    if scenario !in files then Err(MissingPath(scenario + DEMAND_FILE))
    else InsertScenario(files[scenario], scenario)
  }

  /** The tagged table of every scenario in order, or the first scenario's exception. */
  function TaggedAll(scenarios: seq<string>, files: map<string, Table>): (r: Result<seq<Table>, Error>)
    ensures r.Ok? ==> |r.value| == |scenarios|
    ensures r.Ok? ==> forall k | 0 <= k < |scenarios| :: DemandForScenario(scenarios[k], files) == Ok(r.value[k])
  {
    if scenarios == [] then Ok([])
    else
      var init :- TaggedAll(scenarios[..|scenarios| - 1], files);
      var last :- DemandForScenario(scenarios[|scenarios| - 1], files);
      Ok(init + [last])
  }

  lemma TaggedAllValid(scenarios: seq<string>, files: map<string, Table>)
    requires CsvTables(files) && TaggedAll(scenarios, files).Ok?
    ensures AllValid(TaggedAll(scenarios, files).value)
  {
    var dfs := TaggedAll(scenarios, files).value;
    forall t | t in dfs ensures t.Valid() {
      var k :| 0 <= k < |dfs| && dfs[k] == t;
      InsertScenarioEffect(files[scenarios[k]], scenarios[k]);
    }
  }

  /** A failure in the first `i` scenarios is the failure of the whole loop. */
  lemma {:induction false} TaggedAllPrefixErr(scenarios: seq<string>, files: map<string, Table>, i: nat)
    requires i <= |scenarios| && TaggedAll(scenarios[..i], files).Err?
    ensures TaggedAll(scenarios, files) == TaggedAll(scenarios[..i], files)
  {
    if i < |scenarios| {
      var init := scenarios[..|scenarios| - 1];
      assert init[..i] == scenarios[..i];
      TaggedAllPrefixErr(init, files, i);
    } else {
      assert scenarios[..i] == scenarios;
    }
  }

  /** get_annual_demands_for_simulation as a value: every scenario's tagged table, stacked. */
  function DemandsTable(children: seq<DirEntry>, files: map<string, Table>): Result<Table, Error>
    requires CsvTables(files)
  {
    var dfs :- TaggedAll(Subdirs(children), files);
    TaggedAllValid(Subdirs(children), files);
    RowConcat(dfs)
  }

  /** get_annual_demands_for_simulation: one tagged table per discovered scenario, then one concat. */
  method AnnualDemandsForSimulation(children: seq<DirEntry>, files: map<string, Table>)
    returns (r: Result<Table, Error>)
    requires CsvTables(files)
    ensures r == DemandsTable(children, files)
  {
    var scenarios, _ := ScenarioSubdirs(children);
    var dfs: seq<Table> := [];
    for i := 0 to |scenarios|
      invariant TaggedAll(scenarios[..i], files) == Ok(dfs)
    {
      assert scenarios[..i + 1][..i] == scenarios[..i];
      var df := DemandForScenario(scenarios[i], files);
      if df.Err? {
        TaggedAllPrefixErr(scenarios, files, i + 1);
        return Err(df.error);
      }
      dfs := dfs + [df.value];
    }
    assert scenarios[..|scenarios|] == scenarios;
    TaggedAllValid(scenarios, files);
    r := RowConcat(dfs);
  }

  /** Rows contributed by the scenarios in order (a scenario without a file contributes none). */
  function SumRows(scenarios: seq<string>, files: map<string, Table>): nat {
    if scenarios == [] then 0
    else
      var s := scenarios[|scenarios| - 1];
      SumRows(scenarios[..|scenarios| - 1], files) + (if s in files then |files[s].index| else 0)
  }

  lemma {:induction false} TotalRowsTagged(scenarios: seq<string>, files: map<string, Table>)
    requires TaggedAll(scenarios, files).Ok?
    ensures TotalRows(TaggedAll(scenarios, files).value) == SumRows(scenarios, files)
  {
    if scenarios != [] {
      var dfs := TaggedAll(scenarios, files).value;
      var init := scenarios[..|scenarios| - 1];
      TotalRowsTagged(init, files);
      assert dfs[..|dfs| - 1] == TaggedAll(init, files).value;
    }
  }

  /**
   * The all-scenario demand table fails exactly when no scenario exists or some scenario's
   * table cannot be read or tagged; otherwise its row count is the sum over scenarios.
   */
  lemma DemandsShape(children: seq<DirEntry>, files: map<string, Table>)
    requires CsvTables(files)
    ensures var scenarios := Subdirs(children);
      DemandsTable(children, files).Ok? <==>
        scenarios != [] &&
        forall k | 0 <= k < |scenarios| :: DemandForScenario(scenarios[k], files).Ok?
    ensures DemandsTable(children, files).Ok? ==>
      var t := DemandsTable(children, files).value;
      t.Valid() && UniqueNames(t) && |t.index| == SumRows(Subdirs(children), files)
  {
    var scenarios := Subdirs(children);
    TaggedAllOk(scenarios, files);
    if TaggedAll(scenarios, files).Ok? {
      TaggedAllValid(scenarios, files);
      RowConcatEffect(TaggedAll(scenarios, files).value);
      TotalRowsTagged(scenarios, files);
    }
  }

  lemma {:induction false} TaggedAllOk(scenarios: seq<string>, files: map<string, Table>)
    ensures TaggedAll(scenarios, files).Ok? <==>
      forall k | 0 <= k < |scenarios| :: DemandForScenario(scenarios[k], files).Ok?
  {
    if scenarios != [] {
      var init := scenarios[..|scenarios| - 1];
      TaggedAllOk(init, files);
      if forall k | 0 <= k < |scenarios| :: DemandForScenario(scenarios[k], files).Ok? {
        assert forall k | 0 <= k < |init| :: DemandForScenario(init[k], files).Ok? by {
          forall k | 0 <= k < |init| ensures DemandForScenario(init[k], files).Ok? {
            assert init[k] == scenarios[k];
          }
        }
      }
    }
  }

  /**
   * Row `j` of scenario `k` sits after the rows of the scenarios before it; its `scenario`
   * cell is that scenario's name, and every other column holds the scenario's own value,
   * or a missing value when that scenario's table lacks the column.
   */
  lemma DemandsRowOrigin(children: seq<DirEntry>, files: map<string, Table>, k: nat, j: nat, n: string)
    requires CsvTables(files) && DemandsTable(children, files).Ok?
    requires k < |Subdirs(children)|
    requires var s := Subdirs(children)[k]; s in files && j < |files[s].index|
    ensures var scenarios := Subdirs(children);
      var s := scenarios[k];
      var t := DemandsTable(children, files).value;
      var row := SumRows(scenarios[..k], files) + j;
      && row < |t.index|
      && t.Has(SCENARIO_COL) && |t.Get(SCENARIO_COL)| == |t.index|
      && t.Get(SCENARIO_COL)[row] == Text(s)
      && (n != SCENARIO_COL && t.Has(n) ==>
            |t.Get(n)| == |t.index| &&
            t.Get(n)[row] == if files[s].Has(n) then files[s].Get(n)[j] else Missing)
  {
    var scenarios := Subdirs(children);
    var dfs := TaggedAll(scenarios, files).value;
    TaggedAllValid(scenarios, files);
    assert DemandsTable(children, files) == RowConcat(dfs);
    TaggedCell(scenarios, files, k, j, SCENARIO_COL);
    RowConcatCell(dfs, k, j, SCENARIO_COL);
    TaggedCell(scenarios, files, k, j, n);
    RowConcatCell(dfs, k, j, n);
  }

  /** The cell a scenario's tagged table contributes, and where its block starts. */
  lemma TaggedCell(scenarios: seq<string>, files: map<string, Table>, k: nat, j: nat, n: string)
    requires CsvTables(files) && TaggedAll(scenarios, files).Ok?
    requires k < |scenarios| && scenarios[k] in files && j < |files[scenarios[k]].index|
    ensures var dfs := TaggedAll(scenarios, files).value;
      var s := scenarios[k];
      && TotalRows(dfs[..k]) == SumRows(scenarios[..k], files)
      && j < |dfs[k].index|
      && dfs[k].Has(SCENARIO_COL)
      && |CellsOrFill(dfs[k], n)| == |dfs[k].index|
      && CellsOrFill(dfs[k], n)[j] ==
           if n == SCENARIO_COL then Text(s)
           else if files[s].Has(n) then files[s].Get(n)[j] else Missing
  {
    var dfs := TaggedAll(scenarios, files).value;
    var s := scenarios[k];
    InsertScenarioEffect(files[s], s);
    TaggedPrefix(scenarios, files, k);
    TotalRowsTagged(scenarios[..k], files);
    assert DemandForScenario(s, files) == Ok(dfs[k]);
    if dfs[k].Has(n) {
      GetLength(dfs[k], n);
    }
  }

  lemma {:induction false} TaggedPrefix(scenarios: seq<string>, files: map<string, Table>, k: nat)
    requires k <= |scenarios| && TaggedAll(scenarios, files).Ok?
    ensures TaggedAll(scenarios[..k], files).Ok?
    ensures TaggedAll(scenarios[..k], files).value == TaggedAll(scenarios, files).value[..k]
  {
    if k < |scenarios| {
      var init := scenarios[..|scenarios| - 1];
      assert init[..k] == scenarios[..k];
      TaggedPrefix(init, files, k);
    } else {
      assert scenarios[..k] == scenarios;
    }
  }

  /** The stacked demand table always carries the `scenario` column. */
  lemma DemandsHasScenario(children: seq<DirEntry>, files: map<string, Table>)
    requires CsvTables(files) && DemandsTable(children, files).Ok?
    ensures DemandsTable(children, files).value.Has(SCENARIO_COL)
  {
    var scenarios := Subdirs(children);
    var dfs := TaggedAll(scenarios, files).value;
    TaggedAllValid(scenarios, files);
    RowConcatEffect(dfs);
    DemandsShape(children, files);
    assert DemandForScenario(scenarios[0], files) == Ok(dfs[0]);
    InsertScenarioEffect(files[scenarios[0]], scenarios[0]);
  }
}
