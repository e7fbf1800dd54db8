/**
 * Hull pivot: the per-building geometry files of the first scenario, summed per
 * (orientation, TYPE) group and pivoted into one row per building.
 */
module Hull {
  import opened Wrappers
  import opened Strings
  import opened Frames
  import opened Discovery

  /** One row of a `<ID>_geometry.csv` file: its `orientation`, `TYPE` and `AREA_m2`. */
  datatype GeometryRow = GeometryRow(orientation: string, surface: string, area: real)

  /** One child of the solar-radiation directory, with the rows it parses to. */
  datatype GeometryFile = GeometryFile(name: string, isFile: bool, rows: seq<GeometryRow>)

  const GEOMETRY_SUFFIX: string := "_geometry.csv"
  const GEOMETRY_DIR: string := "/outputs/data/solar-radiation"
  const ID_COL: string := "ID"

  /** The files the loop does not skip. */
  predicate Qualifies(f: GeometryFile) {
    f.isFile && EndsWith(f.name, GEOMETRY_SUFFIX)
  }

  /** An (orientation, TYPE) pair. */
  type Group = (string, string)

  function GroupOf(r: GeometryRow): Group {
    (r.orientation, r.surface)
  }

  /** Total `AREA_m2` of the rows in group `g`. */
  function AreaOf(rows: seq<GeometryRow>, g: Group): real {
    if rows == [] then 0.0
    else
      var last := rows[|rows| - 1];
      AreaOf(rows[..|rows| - 1], g) + (if GroupOf(last) == g then last.area else 0.0)
  }

  function Groups(sums: seq<(Group, real)>): seq<Group> {
    seq(|sums|, k requires 0 <= k < |sums| => sums[k].0)
  }

  function GroupPos(sums: seq<(Group, real)>, g: Group): (k: nat)
    requires g in Groups(sums)
    ensures k < |sums| && sums[k].0 == g
  {
    if sums[0].0 == g then 0
    else
      assert g in Groups(sums[1..]) by {
        var i :| 0 <= i < |sums| && Groups(sums)[i] == g;
        assert Groups(sums[1..])[i - 1] == g;
      }
      1 + GroupPos(sums[1..], g)
  }

  /** Add one row to the running totals: to its group's total, or as a new group at the end. */
  function Accumulate(sums: seq<(Group, real)>, r: GeometryRow): seq<(Group, real)> {
    var g := GroupOf(r);
    if g in Groups(sums) then
      var k := GroupPos(sums, g);
      sums[k := (g, sums[k].1 + r.area)]
    else sums + [(g, r.area)]
  }

  /** `df.groupby(["orientation", "TYPE"])["AREA_m2"].sum()`, groups in order of first appearance. */
  function GroupSums(rows: seq<GeometryRow>): seq<(Group, real)> {
    if rows == [] then [] else Accumulate(GroupSums(rows[..|rows| - 1]), rows[|rows| - 1])
  }

  lemma {:induction false} AreaOfAbsent(rows: seq<GeometryRow>, g: Group)
    requires forall i | 0 <= i < |rows| :: GroupOf(rows[i]) != g
    ensures AreaOf(rows, g) == 0.0
  {
    if rows != [] {
      AreaOfAbsent(rows[..|rows| - 1], g);
    }
  }

  /**
   * The grouped sum has one entry per (orientation, TYPE) pair present in the file, no pair
   * twice, and each entry's total is the sum of `AREA_m2` over that pair's rows.
   */
  lemma {:induction false} GroupSumsCorrect(rows: seq<GeometryRow>)
    ensures Distinct(Groups(GroupSums(rows)))
    ensures forall g :: g in Groups(GroupSums(rows)) <==> exists i | 0 <= i < |rows| :: GroupOf(rows[i]) == g
    ensures forall k | 0 <= k < |GroupSums(rows)| :: GroupSums(rows)[k].1 == AreaOf(rows, GroupSums(rows)[k].0)
  {
    if rows != [] {
      var init := rows[..|rows| - 1];
      var r := rows[|rows| - 1];
      var g := GroupOf(r);
      var before := GroupSums(init);
      var after := GroupSums(rows);
      GroupSumsCorrect(init);
      if g in Groups(before) {
        var p := GroupPos(before, g);
        assert Groups(after) == Groups(before);
        forall k | 0 <= k < |after| ensures after[k].1 == AreaOf(rows, after[k].0) {
          if k == p {
            assert after[k] == (g, before[p].1 + r.area);
          } else {
            assert Groups(before)[k] != Groups(before)[p];
            assert after[k] == before[k];
            assert before[k].0 != g;
          }
        }
      } else {
        assert Groups(after) == Groups(before) + [g];
        AreaOfAbsent(init, g);
        forall k | 0 <= k < |after| ensures after[k].1 == AreaOf(rows, after[k].0) {
          if k < |before| {
            assert Groups(before)[k] != g;
            assert after[k] == before[k];
          } else {
            assert after[k] == (g, r.area);
          }
        }
      }
      forall h ensures h in Groups(after) <==> exists i | 0 <= i < |rows| :: GroupOf(rows[i]) == h {
        if exists i | 0 <= i < |init| :: GroupOf(init[i]) == h {
          var i :| 0 <= i < |init| && GroupOf(init[i]) == h;
          assert GroupOf(rows[i]) == h;
        }
        if exists i | 0 <= i < |rows| :: GroupOf(rows[i]) == h {
          var i :| 0 <= i < |rows| && GroupOf(rows[i]) == h;
          if i < |init| { assert GroupOf(init[i]) == h; }
        }
      }
    }
  }
  /** The pivot column of a group: `f"{orientation.lower()}_{type.lower()}"`. */
  function ColumnName(g: Group): string {
    Lower(g.0) + "_" + Lower(g.1)
  }

  /** Pivot column names always hold an underscore, so none of them is `ID`. */
  lemma ColumnNameNotId(g: Group)
    ensures ColumnName(g) != ID_COL
  {
    var n := ColumnName(g);
    assert n[|Lower(g.0)|] == '_';
  }

  /** No two groups of the file flatten to the same column name. */
  predicate FlatNamesDistinct(rows: seq<GeometryRow>) {
    var gs := Groups(GroupSums(rows));
    forall i, j | 0 <= i < j < |gs| :: ColumnName(gs[i]) != ColumnName(gs[j])
  }

  /** The one-row frame built from one geometry file: a column per group, then `ID`. */
  function PivotFile(f: GeometryFile): Table {
    var sums := GroupSums(f.rows);
    Table([Text("AREA_m2")],
          seq(|sums|, k requires 0 <= k < |sums| => Column(ColumnName(sums[k].0), [Num(sums[k].1)]))
          + [Column(ID_COL, [Text(FirstToken(f.name, '_'))])])
  }

  /** A pivoted file: one row, its ID, and each of its groups' total under the flattened name. */
  lemma PivotFileEffect(f: GeometryFile)
    requires FlatNamesDistinct(f.rows)
    ensures var t := PivotFile(f);
      var gs := Groups(GroupSums(f.rows));
      && t.Valid() && UniqueNames(t) && |t.index| == 1
      && t.Has(ID_COL) && t.Get(ID_COL) == [Text(FirstToken(f.name, '_'))]
      && (forall g | g in gs :: t.Has(ColumnName(g)) && t.Get(ColumnName(g)) == [Num(AreaOf(f.rows, g))])
      && (forall n | n != ID_COL :: t.Has(n) <==> exists g | g in gs :: ColumnName(g) == n)
      && (forall n | t.Has(n) && n != ID_COL :: NumericCells(t.Get(n)))
  {
    var t := PivotFile(f);
    var sums := GroupSums(f.rows);
    var gs := Groups(sums);
    GroupSumsCorrect(f.rows);
    assert |t.cols| == |sums| + 1;
    forall k | 0 <= k < |sums| ensures t.Names()[k] == ColumnName(gs[k]) {
    }
    assert t.Names()[|sums|] == ID_COL;
    forall i, j | 0 <= i < j < |t.cols| ensures t.Names()[i] != t.Names()[j] {
      if j == |sums| {
        ColumnNameNotId(gs[i]);
      }
    }
    GetUnique(t, |sums|);
    forall g | g in gs ensures t.Has(ColumnName(g)) && t.Get(ColumnName(g)) == [Num(AreaOf(f.rows, g))] {
      var k :| 0 <= k < |gs| && gs[k] == g;
      GetUnique(t, k);
    }
    forall n | n != ID_COL ensures t.Has(n) <==> exists g | g in gs :: ColumnName(g) == n {
      if t.Has(n) {
        var i :| 0 <= i < |t.cols| && t.Names()[i] == n;
        assert gs[i] in gs;
      }
    }
    forall n | t.Has(n) && n != ID_COL ensures NumericCells(t.Get(n)) {
      var i :| 0 <= i < |t.cols| && t.Names()[i] == n;
      GetUnique(t, i);
    }
  }

  /** The qualifying files, in enumeration order. */
  function Qualifying(files: seq<GeometryFile>): seq<GeometryFile> {
    if files == [] then []
    else
      var last := files[|files| - 1];
      Qualifying(files[..|files| - 1]) + (if Qualifies(last) then [last] else [])
  }

  /** `all_data`: one pivoted frame per qualifying file, in enumeration order. */
  function Pivots(files: seq<GeometryFile>): (r: seq<Table>)
    ensures |r| == |Qualifying(files)|
    ensures forall k | 0 <= k < |r| :: r[k] == PivotFile(Qualifying(files)[k])
  {
    if files == [] then []
    else
      var last := files[|files| - 1];
      Pivots(files[..|files| - 1]) + (if Qualifies(last) then [PivotFile(last)] else [])
  }

  lemma PivotsValid(files: seq<GeometryFile>)
    ensures AllValid(Pivots(files))
  {
  }

  /** Every frame has one row, so frame `k` becomes row `k`. */
  lemma {:induction false} OneRowEach(ts: seq<Table>, k: nat)
    requires forall t | t in ts :: |t.index| == 1
    requires k <= |ts|
    ensures TotalRows(ts[..k]) == k
  {
    if k > 0 {
      assert ts[..k][..k - 1] == ts[..k - 1];
      assert ts[k - 1] in ts;
      OneRowEach(ts, k - 1);
    }
  }

  /** The files a listing offers the pivot in a well-formed state: each has rows and no flattened name twice. */
  predicate ListingOk(files: seq<GeometryFile>) {
    forall f | f in files && Qualifies(f) :: |f.rows| > 0 && FlatNamesDistinct(f.rows)
  }

  /** What the lemmas assume about the first scenario's geometry listing. */
  predicate HullInputsOk(children: seq<DirEntry>, geometry: map<string, seq<GeometryFile>>) {
    var scenarios := Subdirs(children);
    scenarios != [] && scenarios[0] in geometry ==> ListingOk(geometry[scenarios[0]])
  }

  /** `pd.concat(all_data, ignore_index=True).set_index("ID")` over one geometry listing. */
  function HullOf(files: seq<GeometryFile>): Result<Table, Error> {
    PivotsValid(files);
    var all :- RowConcat(Pivots(files));
    SetIndex(all, ID_COL)
  }

  /** get_hull_df_for_simulation as a value. */
  function HullTable(children: seq<DirEntry>, geometry: map<string, seq<GeometryFile>>): Result<Table, Error> {
    var scenarios := Subdirs(children);
    if scenarios == [] then Err(NoScenarios)
    else if scenarios[0] !in geometry then Err(MissingPath(scenarios[0] + GEOMETRY_DIR))
    else HullOf(geometry[scenarios[0]])
  }

  /**
   * get_hull_df_for_simulation: in the first scenario's geometry directory, pivot each
   * `*_geometry.csv` file, then concatenate and index by `ID`.
   */
  method HullDfForSimulation(children: seq<DirEntry>, geometry: map<string, seq<GeometryFile>>)
    returns (r: Result<Table, Error>)
    ensures r == HullTable(children, geometry)
  {
    var scenarios, _ := ScenarioSubdirs(children);
    if |scenarios| == 0 {
      return Err(NoScenarios);
    }
    if scenarios[0] !in geometry {
      return Err(MissingPath(scenarios[0] + GEOMETRY_DIR));
    }
    var listing := geometry[scenarios[0]];
    var allData: seq<Table> := [];
    for i := 0 to |listing|
      invariant allData == Pivots(listing[..i])
    {
      assert listing[..i + 1][..i] == listing[..i];
      var f := listing[i];
      if !f.isFile {
        continue;
      }
      if !EndsWith(f.name, GEOMETRY_SUFFIX) {
        continue;
      }
      allData := allData + [PivotFile(f)];
    }
    assert listing[..|listing|] == listing;
    PivotsValid(listing);
    var all :- RowConcat(allData);
    r := SetIndex(all, ID_COL);
  }

  /** The kept files are exactly the listed files that qualify: none is lost, none is invented. */
  lemma {:induction false} QualifyingMembers(files: seq<GeometryFile>)
    ensures forall f :: f in Qualifying(files) <==> f in files && Qualifies(f)
  {
    if files != [] {
      var init := files[..|files| - 1];
      QualifyingMembers(init);
      assert files == init + [files[|files| - 1]];
    }
  }

  /** The `k`-th pivoted frame of a well-formed listing: one row and an `ID` column. */
  lemma PivotAt(files: seq<GeometryFile>, k: nat)
    requires ListingOk(files) && k < |Qualifying(files)|
    ensures FlatNamesDistinct(Qualifying(files)[k].rows)
    ensures |Pivots(files)[k].index| == 1 && Pivots(files)[k].Has(ID_COL)
  {
    QualifyingMembers(files);
    assert Qualifying(files)[k] in Qualifying(files);
    PivotFileEffect(Qualifying(files)[k]);
  }

  lemma OneRowPivots(files: seq<GeometryFile>)
    requires ListingOk(files)
    ensures forall t | t in Pivots(files) :: |t.index| == 1
  {
    forall t | t in Pivots(files) ensures |t.index| == 1 {
      var k :| 0 <= k < |Pivots(files)| && Pivots(files)[k] == t;
      PivotAt(files, k);
    }
  }

  /** Row `k` of the hull table comes from the `k`-th qualifying file's pivoted frame. */
  lemma HullOfRow(files: seq<GeometryFile>, k: nat)
    requires ListingOk(files) && k < |Qualifying(files)|
    ensures HullOf(files).Ok?
    ensures var t := HullOf(files).value;
      var p := PivotFile(Qualifying(files)[k]);
      && t.Valid() && UniqueNames(t) && !t.Has(ID_COL)
      && |t.index| == |Qualifying(files)| && k < |t.index|
      && t.index[k] == Text(FirstToken(Qualifying(files)[k].name, '_'))
      && (forall n | n != ID_COL && p.Has(n) :: t.Has(n))
      && (forall n | t.Has(n) :: |t.Get(n)| == |t.index| && |CellsOrFill(p, n)| == 1 && t.Get(n)[k] == CellsOrFill(p, n)[0])
  {
    HullOfRowIndex(files, k);
    HullOfRowNames(files, k);
    HullOfRowCells(files, k);
  }

  /** The shape of the hull table and the ID of its `k`-th row. */
  lemma HullOfRowIndex(files: seq<GeometryFile>, k: nat)
    requires ListingOk(files) && k < |Qualifying(files)|
    ensures HullOf(files).Ok?
    ensures var t := HullOf(files).value;
      && t.Valid() && UniqueNames(t) && !t.Has(ID_COL)
      && |t.index| == |Qualifying(files)| && k < |t.index|
      && t.index[k] == Text(FirstToken(Qualifying(files)[k].name, '_'))
  {
    var frames := Pivots(files);
    var f := Qualifying(files)[k];
    PivotsValid(files);
    PivotAt(files, k);
    PivotFileEffect(f);
    OneRowPivots(files);
    OneRowEach(frames, k);
    OneRowEach(frames, |frames|);
    assert frames[..|frames|] == frames;
    RowConcatEffect(frames);
    RowConcatCell(frames, k, 0, ID_COL);
    SetIndexEffect(RowConcat(frames).value, ID_COL);
  }

  /** Every column of the `k`-th file's pivot, but `ID`, is a column of the hull table. */
  lemma HullOfRowNames(files: seq<GeometryFile>, k: nat)
    requires ListingOk(files) && k < |Qualifying(files)|
    ensures HullOf(files).Ok?
    ensures forall n | n != ID_COL && PivotFile(Qualifying(files)[k]).Has(n) :: HullOf(files).value.Has(n)
  {
    var frames := Pivots(files);
    PivotsValid(files);
    PivotAt(files, k);
    OneRowPivots(files);
    OneRowEach(frames, k);
    RowConcatEffect(frames);
    SetIndexEffect(RowConcat(frames).value, ID_COL);
    forall n | n != ID_COL && PivotFile(Qualifying(files)[k]).Has(n) ensures HullOf(files).value.Has(n) {
      RowConcatCell(frames, k, 0, n);
    }
  }

  /** The cells of the hull table's `k`-th row. */
  lemma HullOfRowCells(files: seq<GeometryFile>, k: nat)
    requires ListingOk(files) && k < |Qualifying(files)|
    ensures HullOf(files).Ok?
    ensures var t := HullOf(files).value;
      var p := PivotFile(Qualifying(files)[k]);
      && k < |t.index|
      && (forall n | t.Has(n) :: |t.Get(n)| == |t.index| && |CellsOrFill(p, n)| == 1 && t.Get(n)[k] == CellsOrFill(p, n)[0])
  {
    var frames := Pivots(files);
    var f := Qualifying(files)[k];
    PivotsValid(files);
    PivotAt(files, k);
    OneRowPivots(files);
    OneRowEach(frames, k);
    OneRowEach(frames, |frames|);
    assert frames[..|frames|] == frames;
    RowConcatEffect(frames);
    var all := RowConcat(frames).value;
    SetIndexEffect(all, ID_COL);
    var t := HullOf(files).value;
    forall n | t.Has(n)
      ensures |t.Get(n)| == |t.index| && |CellsOrFill(PivotFile(f), n)| == 1 && t.Get(n)[k] == CellsOrFill(PivotFile(f), n)[0]
    {
      RowConcatCell(frames, k, 0, n);
    }
  }

  /** The hull table of a listing exists exactly when some file qualifies, and holds no text. */
  lemma HullOfShape(files: seq<GeometryFile>)
    requires ListingOk(files)
    ensures HullOf(files).Ok? <==> Qualifying(files) != []
    ensures HullOf(files).Ok? ==> forall n | HullOf(files).value.Has(n) :: NumericCells(HullOf(files).value.Get(n))
  {
    PivotsValid(files);
    RowConcatEffect(Pivots(files));
    if Qualifying(files) != [] {
      HullOfRow(files, 0);
      var t := HullOf(files).value;
      forall n | t.Has(n) ensures NumericCells(t.Get(n)) {
        forall x | x in t.Get(n) ensures !x.Text? {
          var row :| 0 <= row < |t.Get(n)| && t.Get(n)[row] == x;
          HullOfRow(files, row);
          PivotAt(files, row);
          PivotFileEffect(Qualifying(files)[row]);
        }
      }
    }
  }

  /** The files of the first scenario that contribute. */
  function FirstScenarioFiles(children: seq<DirEntry>, geometry: map<string, seq<GeometryFile>>): seq<GeometryFile>
    requires Subdirs(children) != [] && Subdirs(children)[0] in geometry
  {
    Qualifying(geometry[Subdirs(children)[0]])
  }

  /**
   * The hull table fails exactly when there is no scenario, no geometry directory, or no
   * qualifying file (pd.concat of nothing); otherwise it has one row per qualifying file,
   * labelled with the file name's first `_` token, and numbers or missing values only.
   */
  lemma HullShape(children: seq<DirEntry>, geometry: map<string, seq<GeometryFile>>)
    requires HullInputsOk(children, geometry)
    ensures HullTable(children, geometry).Ok? <==>
      Subdirs(children) != [] && Subdirs(children)[0] in geometry &&
      FirstScenarioFiles(children, geometry) != []
    ensures HullTable(children, geometry).Ok? ==>
      var t := HullTable(children, geometry).value;
      var q := FirstScenarioFiles(children, geometry);
      && t.Valid() && UniqueNames(t) && !t.Has(ID_COL)
      && |t.index| == |q|
      && (forall k | 0 <= k < |q| :: t.index[k] == Text(FirstToken(q[k].name, '_')))
      && (forall n | t.Has(n) :: NumericCells(t.Get(n)))
  {
    var scenarios := Subdirs(children);
    if scenarios != [] && scenarios[0] in geometry {
      var files := geometry[scenarios[0]];
      HullOfShape(files);
      if Qualifying(files) != [] {
        HullOfRow(files, 0);
        forall k | 0 <= k < |Qualifying(files)|
          ensures HullOf(files).value.index[k] == Text(FirstToken(Qualifying(files)[k].name, '_'))
        {
          HullOfRow(files, k);
        }
      }
    }
  }

  /**
   * Row `k` of the hull table holds, under `<orientation>_<type>` in lower case, the total
   * `AREA_m2` of that (orientation, TYPE) group in the `k`-th qualifying file, and a missing
   * value (not zero) under every column that file has no group for.
   */
  lemma HullCell(children: seq<DirEntry>, geometry: map<string, seq<GeometryFile>>, k: nat, n: string)
    requires HullInputsOk(children, geometry) && HullTable(children, geometry).Ok?
    requires k < |FirstScenarioFiles(children, geometry)|
    ensures var t := HullTable(children, geometry).value;
      var f := FirstScenarioFiles(children, geometry)[k];
      var gs := Groups(GroupSums(f.rows));
      && (forall g | g in gs :: t.Has(ColumnName(g)))
      && (t.Has(n) ==> |t.Get(n)| == |t.index| && k < |t.index|)
      && (t.Has(n) ==>
            t.Get(n)[k] ==
              if exists g | g in gs :: ColumnName(g) == n
              then Num(AreaOf(f.rows, FlatGroup(gs, n)))
              else Missing)
  {
    var files := geometry[Subdirs(children)[0]];
    var f := Qualifying(files)[k];
    var gs := Groups(GroupSums(f.rows));
    HullOfRow(files, k);
    PivotAt(files, k);
    PivotFileEffect(f);
    forall g | g in gs ensures HullOf(files).value.Has(ColumnName(g)) {
      ColumnNameNotId(g);
    }
    if exists g | g in gs :: ColumnName(g) == n {
      ColumnNameNotId(FlatGroup(gs, n));
    }
  }

  /** The group whose flattened name is `n`. */
  function FlatGroup(gs: seq<Group>, n: string): (g: Group)
    requires exists g | g in gs :: ColumnName(g) == n
    ensures g in gs && ColumnName(g) == n
  {
    if ColumnName(gs[0]) == n then gs[0] else FlatGroup(gs[1..], n)
  }
}
