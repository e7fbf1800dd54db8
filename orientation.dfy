/**
 * Orientation aggregation: row sums over the oriented wall and window columns of the
 * hull table, their total `hull_ag`, and the optional write-back into the hull table.
 */
module Orientation {
  import opened Strings
  import opened Frames

  const WALLS_TAG: string := "_walls"
  const WINDOWS_TAG: string := "_windows"
  const ROOFS_TAG: string := "_roofs"

  /** The names containing `tag`, in column order: `[col for col in cols if tag in col]`. */
  function Matching(names: seq<string>, tag: string): (r: seq<string>)
    ensures forall n :: n in r <==> n in names && Contains(n, tag)
  {
    if names == [] then []
    else
      var last := names[|names| - 1];
      Matching(names[..|names| - 1], tag) + (if Contains(last, tag) then [last] else [])
  }

  /** A cell as `sum(skipna=True)` counts it: a missing value adds nothing. */
  function Addend(c: Cell): real {
    if c.Num? then c.x else 0.0
  }

  /** The cell of column `n` at `row`, missing when there is none. */
  function CellAt(t: Table, n: string, row: nat): Cell {
    if t.Has(n) && row < |t.Get(n)| then t.Get(n)[row] else Missing
  }

  /** `df[names].sum(axis=1)` at one row. */
  function RowSum(t: Table, names: seq<string>, row: nat): real {
    if names == [] then 0.0
    else RowSum(t, names[..|names| - 1], row) + Addend(CellAt(t, names[|names| - 1], row))
  }

  /** Reference sum: over the columns themselves, those whose name contains `tag`. */
  function SumIf(cols: seq<Column>, tag: string, row: nat): real {
    if cols == [] then 0.0
    else
      var last := cols[|cols| - 1];
      SumIf(cols[..|cols| - 1], tag, row) +
        (if Contains(last.name, tag) && row < |last.cells| then Addend(last.cells[row]) else 0.0)
  }

  /** The row sum of the columns selected by `tag`, one number per row. */
  function TagSum(t: Table, tag: string): (r: seq<Cell>)
    ensures |r| == |t.index|
  {
    var names := Matching(t.Names(), tag);
    seq(|t.index|, i requires 0 <= i < |t.index| => Num(RowSum(t, names, i)))
  }

  /** Columns that take part in a sum hold no text. */
  predicate SummedNumeric(t: Table) {
    forall c | c in t.cols && (Contains(c.name, WALLS_TAG) || Contains(c.name, WINDOWS_TAG)) :: NumericCells(c.cells)
  }

  const AGGREGATED: seq<string> := ["walls", "windows", "roofs", "hull_ag"]

  /** `df.sum(axis=1)`: the row sums over every column. */
  function RowTotals(p: Table): (r: seq<Cell>)
    ensures |r| == |p.index|
  {
    seq(|p.index|, i requires 0 <= i < |p.index| => Num(RowSum(p, p.Names(), i)))
  }

  /** The three sums, before `hull_ag` is added. */
  function Sums(t: Table): Table {
    Table(t.index, [Column("walls", TagSum(t, WALLS_TAG)),
                    Column("windows", TagSum(t, WINDOWS_TAG)),
                    Column("roofs", TagSum(t, WINDOWS_TAG))])
  }

  /**
   * The frame built by aggregate_orientations: `walls`, `windows`, `roofs`, then `hull_ag`,
   * the row sum of the first three.
   *
   * NOTE: as in the source, `roofs` is summed over the WINDOW columns (utils.py line 98);
   * the `_roofs` columns are selected but never used.
   */
  function Aggregated(t: Table): Table
    requires t.Valid() && SummedNumeric(t)
  {
    var p := Sums(t);
    Table(t.index, p.cols + [Column("hull_ag", RowTotals(p))])
  }

  lemma MatchingPrefix(names: seq<string>, tag: string, m: nat)
    requires 0 < m <= |names|
    ensures Matching(names[..m], tag) ==
      Matching(names[..m - 1], tag) + (if Contains(names[m - 1], tag) then [names[m - 1]] else [])
  {
    assert names[..m][..m - 1] == names[..m - 1];
  }

  lemma RowSumSnoc(t: Table, names: seq<string>, n: string, row: nat)
    ensures RowSum(t, names + [n], row) == RowSum(t, names, row) + Addend(CellAt(t, n, row))
  {
    assert (names + [n])[..|names|] == names;
  }

  /** The contribution of one column to `SumIf`. */
  function Term(c: Column, tag: string, row: nat): real {
    if Contains(c.name, tag) && row < |c.cells| then Addend(c.cells[row]) else 0.0
  }

  lemma SumIfPrefix(cols: seq<Column>, tag: string, row: nat, m: nat)
    requires 0 < m <= |cols|
    ensures SumIf(cols[..m], tag, row) == SumIf(cols[..m - 1], tag, row) + Term(cols[m - 1], tag, row)
  {
    assert cols[..m][..m - 1] == cols[..m - 1];
  }

  /** A column of a table with unique names contributes its own cell to the selected-names sum. */
  lemma CellAtMember(t: Table, c: Column, row: nat)
    requires t.Valid() && UniqueNames(t) && c in t.cols
    ensures CellAt(t, c.name, row) == if row < |c.cells| then c.cells[row] else Missing
  {
    GetByMember(t, c);
  }

  /** With unique column names, summing the selected names equals summing the matching columns. */
  lemma {:induction false} RowSumMatches(t: Table, tag: string, row: nat, m: nat)
    requires t.Valid() && UniqueNames(t) && m <= |t.cols|
    ensures RowSum(t, Matching(t.Names()[..m], tag), row) == SumIf(t.cols[..m], tag, row)
  {
    if m > 0 {
      RowSumMatches(t, tag, row, m - 1);
      var c := t.cols[m - 1];
      assert t.Names()[m - 1] == c.name;
      SumIfPrefix(t.cols, tag, row, m);
      MatchingPrefix(t.Names(), tag, m);
      if Contains(c.name, tag) {
        assert c in t.cols;
        CellAtMember(t, c, row);
        var prev := Matching(t.Names()[..m - 1], tag);
        assert Matching(t.Names()[..m], tag) == prev + [c.name];
        RowSumSnoc(t, prev, c.name, row);
        assert Addend(CellAt(t, c.name, row)) == Term(c, tag, row);
        assert RowSum(t, prev, row) == SumIf(t.cols[..m - 1], tag, row);
        assert SumIf(t.cols[..m], tag, row) == SumIf(t.cols[..m - 1], tag, row) + Term(c, tag, row);
      } else {
        assert Matching(t.Names()[..m], tag) == Matching(t.Names()[..m - 1], tag);
        assert Term(c, tag, row) == 0.0;
      }
    }
  }

  /** Each tag column holds, per row, the sum over the columns whose name contains the tag. */
  lemma TagSumAt(t: Table, tag: string, row: nat)
    requires t.Valid() && UniqueNames(t) && row < |t.index|
    ensures TagSum(t, tag)[row] == Num(SumIf(t.cols, tag, row))
  {
    assert t.cols[..|t.cols|] == t.cols && t.Names()[..|t.cols|] == t.Names();
    RowSumMatches(t, tag, row, |t.cols|);
  }

  /** The row total of a three-column frame is the sum of its three cells. */
  lemma ThreeTotal(p: Table, row: nat)
    requires p.Valid() && |p.cols| == 3 && UniqueNames(p) && row < |p.index|
    ensures RowTotals(p)[row] ==
      Num(Addend(p.cols[0].cells[row]) + Addend(p.cols[1].cells[row]) + Addend(p.cols[2].cells[row]))
  {
    var ns := p.Names();
    assert ns == [ns[0], ns[1]] + [ns[2]];
    assert [ns[0], ns[1]] == [ns[0]] + [ns[1]];
    assert [ns[0]] == [] + [ns[0]];
    GetUnique(p, 0);
    GetUnique(p, 1);
    GetUnique(p, 2);
    assert p.cols[0] in p.cols && p.cols[1] in p.cols && p.cols[2] in p.cols;
    RowSumSnoc(p, [ns[0], ns[1]], ns[2], row);
    RowSumSnoc(p, [ns[0]], ns[1], row);
    RowSumSnoc(p, [], ns[0], row);
  }

  /** `hull_ag` is the row sum of the three columns before it. */
  lemma HullAgAt(t: Table, row: nat)
    requires t.Valid() && SummedNumeric(t) && row < |t.index|
    ensures var a := Aggregated(t);
      a.cols[3].cells[row] == Num(Addend(a.cols[0].cells[row]) + Addend(a.cols[1].cells[row]) + Addend(a.cols[2].cells[row]))
  {
    var p := Sums(t);
    assert p.Names() == ["walls", "windows", "roofs"];
    ThreeTotal(p, row);
  }

  /**
   * `walls` and `windows` at each row are the sums over the columns whose names contain
   * `_walls` and `_windows` (missing cells counting as zero); `roofs` repeats `windows`;
   * `hull_ag` is walls + windows + roofs. The index is the input's.
   */
  lemma AggregatedValues(t: Table, row: nat)
    requires t.Valid() && UniqueNames(t) && SummedNumeric(t) && row < |t.index|
    ensures var a := Aggregated(t);
      && a.Valid() && UniqueNames(a) && a.index == t.index && a.Names() == AGGREGATED
      && a.cols[0].cells[row] == Num(SumIf(t.cols, WALLS_TAG, row))
      && a.cols[1].cells[row] == Num(SumIf(t.cols, WINDOWS_TAG, row))
      && a.cols[2].cells[row] == Num(SumIf(t.cols, WINDOWS_TAG, row))
      && a.cols[3].cells[row] ==
           Num(SumIf(t.cols, WALLS_TAG, row) + 2.0 * SumIf(t.cols, WINDOWS_TAG, row))
  {
    TagSumAt(t, WALLS_TAG, row);
    TagSumAt(t, WINDOWS_TAG, row);
    HullAgAt(t, row);
    var a := Aggregated(t);
    assert a.Names() == AGGREGATED;
  }

  /** An empty selection gives zero in every row. */
  lemma {:induction false} SumIfNone(cols: seq<Column>, tag: string, row: nat)
    requires forall c | c in cols :: !Contains(c.name, tag)
    ensures SumIf(cols, tag, row) == 0.0
  {
    if cols != [] {
      assert forall c | c in cols[..|cols| - 1] :: c in cols;
      SumIfNone(cols[..|cols| - 1], tag, row);
    }
  }

  /**
   * Line 98 as written: a building with only a roof column gets `roofs` = 0, while the sum
   * of its `_roofs` columns is 5.
   */
  lemma RoofsIgnoreRoofColumns()
    ensures var t := Table([Text("B1")], [Column("north_roofs", [Num(5.0)])]);
      t.Valid() && SummedNumeric(t) &&
      Aggregated(t).cols[2].cells[0] == Num(0.0) && SumIf(t.cols, ROOFS_TAG, 0) == 5.0
  {
    var name := "north_roofs";
    var c := Column(name, [Num(5.0)]);
    var t := Table([Text("B1")], [c]);
    assert name[5..11] == ROOFS_TAG;
    assert OccursAt(name, ROOFS_TAG, 5);
    assert 'w' !in name;
    MissingChar(name, WALLS_TAG, 1);
    MissingChar(name, WINDOWS_TAG, 4);
    assert SummedNumeric(t);
    assert [c][..0] == [];
    assert SumIf(t.cols, ROOFS_TAG, 0) == Term(c, ROOFS_TAG, 0);
    assert SumIf(t.cols, WINDOWS_TAG, 0) == 0.0;
    TagSumAt(t, WINDOWS_TAG, 0);
  }

  /** The selected sum over three columns, one term each. */
  lemma SumIfThree(c1: Column, c2: Column, c3: Column, tag: string, row: nat)
    ensures SumIf([c1, c2, c3], tag, row) == Term(c1, tag, row) + Term(c2, tag, row) + Term(c3, tag, row)
  {
    var cols := [c1, c2, c3];
    SumIfPrefix(cols, tag, row, 3);
    SumIfPrefix(cols, tag, row, 2);
    SumIfPrefix(cols, tag, row, 1);
    assert cols[..3] == cols && cols[..0] == [];
  }

  /** Which tags the three example column names carry. */
  lemma ExampleTags()
    ensures Contains("north_walls", WALLS_TAG) && !Contains("north_walls", WINDOWS_TAG)
    ensures Contains("south_walls", WALLS_TAG) && !Contains("south_walls", WINDOWS_TAG)
    ensures Contains("east_windows", WINDOWS_TAG) && !Contains("east_windows", WALLS_TAG)
  {
    var n1, n2, n3 := "north_walls", "south_walls", "east_windows";
    assert n1[5..11] == WALLS_TAG && OccursAt(n1, WALLS_TAG, 5);
    assert n2[5..11] == WALLS_TAG && OccursAt(n2, WALLS_TAG, 5);
    assert n3[4..12] == WINDOWS_TAG && OccursAt(n3, WINDOWS_TAG, 4);
    assert WINDOWS_TAG[2] == 'i' && 'i' !in n1 && 'i' !in n2;
    assert WALLS_TAG[3] == 'l' && 'l' !in n3;
    MissingChar(n1, WINDOWS_TAG, 2);
    MissingChar(n2, WINDOWS_TAG, 2);
    MissingChar(n3, WALLS_TAG, 3);
  }

  /**
   * A building with `north_walls` = 10, `south_walls` = 5 and `east_windows` = 2: walls 15,
   * windows 2, and, by line 98, roofs 2 and hull_ag 19.
   */
  lemma AggregateExample()
    ensures var t := Table([Text("B1")], [Column("north_walls", [Num(10.0)]), Column("south_walls", [Num(5.0)]),
                                          Column("east_windows", [Num(2.0)])]);
      && t.Valid() && SummedNumeric(t)
      && Aggregated(t).cols[0].cells[0] == Num(15.0)
      && Aggregated(t).cols[1].cells[0] == Num(2.0)
      && Aggregated(t).cols[2].cells[0] == Num(2.0)
      && Aggregated(t).cols[3].cells[0] == Num(19.0)
  {
    var c1, c2, c3 := Column("north_walls", [Num(10.0)]), Column("south_walls", [Num(5.0)]), Column("east_windows", [Num(2.0)]);
    var t := Table([Text("B1")], [c1, c2, c3]);
    ExampleTags();
    assert UniqueNames(t) by { assert t.Names() == ["north_walls", "south_walls", "east_windows"]; }
    SumIfThree(c1, c2, c3, WALLS_TAG, 0);
    SumIfThree(c1, c2, c3, WINDOWS_TAG, 0);
    AggregatedValues(t, 0);
  }

  /** `for col in df.columns: cea_hull_df[col] = df[col]`, as a value. */
  function AssignAll(t: Table, cols: seq<Column>): Table
    decreases |cols|
  {
    if cols == [] then t
    else
      var last := cols[|cols| - 1];
      Assign(AssignAll(t, cols[..|cols| - 1]), last.name, last.cells)
  }

  /** The write-back keeps the index and the validity of the frame. */
  lemma {:induction false} AssignAllShape(t: Table, cols: seq<Column>)
    requires t.Valid() && forall c | c in cols :: |c.cells| == |t.index|
    ensures var r := AssignAll(t, cols);
      r.Valid() && r.index == t.index && (UniqueNames(t) ==> UniqueNames(r))
  {
    if cols != [] {
      assert forall c | c in cols[..|cols| - 1] :: c in cols;
      AssignAllShape(t, cols[..|cols| - 1]);
      AssignEffect(AssignAll(t, cols[..|cols| - 1]), cols[|cols| - 1].name, cols[|cols| - 1].cells);
    }
  }

  /** A column not written back keeps its presence and, if present, its cells. */
  lemma {:induction false} AssignAllKeeps(t: Table, cols: seq<Column>, n: string)
    requires t.Valid() && forall c | c in cols :: |c.cells| == |t.index|
    requires forall c | c in cols :: c.name != n
    ensures var r := AssignAll(t, cols);
      (r.Has(n) <==> t.Has(n)) && (t.Has(n) ==> r.Get(n) == t.Get(n))
  {
    if cols != [] {
      var init := cols[..|cols| - 1];
      assert forall c | c in init :: c in cols;
      AssignAllKeeps(t, init, n);
      AssignAllShape(t, init);
      var mid := AssignAll(t, init);
      var last := cols[|cols| - 1];
      AssignEffect(mid, last.name, last.cells);
      assert last in cols;
      if AssignAll(t, cols).Has(n) {
        assert n in Assign(mid, last.name, last.cells).Names();
      }
    }
  }

  /** A column written back holds the written cells, when no later column shares its name. */
  lemma {:induction false} AssignAllSets(t: Table, cols: seq<Column>, k: nat)
    requires t.Valid() && forall c | c in cols :: |c.cells| == |t.index|
    requires k < |cols| && forall j | k < j < |cols| :: cols[j].name != cols[k].name
    ensures var r := AssignAll(t, cols);
      r.Has(cols[k].name) && r.Get(cols[k].name) == cols[k].cells
  {
    var init := cols[..|cols| - 1];
    var last := cols[|cols| - 1];
    assert forall c | c in init :: c in cols;
    AssignAllShape(t, init);
    var mid := AssignAll(t, init);
    assert last in cols;
    AssignEffect(mid, last.name, last.cells);
    if k < |cols| - 1 {
      AssignAllSets(t, init, k);
    }
  }

  /** The aggregate has the input's rows and the four named columns, in order. */
  lemma AggregatedShape(t: Table)
    requires t.Valid() && SummedNumeric(t)
    ensures var a := Aggregated(t);
      && a.Valid() && a.index == t.index && |a.cols| == 4
      && forall k | 0 <= k < 4 :: a.cols[k].name == AGGREGATED[k]
  {
  }

  /**
   * Writing the aggregated columns back keeps the index and every other column, and leaves
   * `walls`, `windows`, `roofs` and `hull_ag` holding the aggregated values.
   */
  lemma InplaceEffect(t: Table)
    requires t.Valid() && UniqueNames(t) && SummedNumeric(t)
    ensures var a := Aggregated(t);
      var r := AssignAll(t, a.cols);
      && r.Valid() && UniqueNames(r) && r.index == t.index
      && (forall k | 0 <= k < 4 :: r.Has(AGGREGATED[k]) && r.Get(AGGREGATED[k]) == a.cols[k].cells)
      && (forall n | n !in AGGREGATED :: (r.Has(n) <==> t.Has(n)) && (t.Has(n) ==> r.Get(n) == t.Get(n)))
  {
    var a := Aggregated(t);
    AggregatedShape(t);
    AssignAllShape(t, a.cols);
    forall k | 0 <= k < 4 ensures AssignAll(t, a.cols).Has(AGGREGATED[k]) && AssignAll(t, a.cols).Get(AGGREGATED[k]) == a.cols[k].cells {
      AssignAllSets(t, a.cols, k);
    }
    forall n | n !in AGGREGATED
      ensures (AssignAll(t, a.cols).Has(n) <==> t.Has(n)) && (t.Has(n) ==> AssignAll(t, a.cols).Get(n) == t.Get(n))
    {
      AssignAllKeeps(t, a.cols, n);
    }
  }

  /**
   * aggregate_orientations. With `inplace` the four aggregated columns are written into the
   * given frame, which is returned; otherwise a new frame holds them and the input is untouched.
   */
  method AggregateOrientations(df: DataFrame, inplace: bool) returns (r: DataFrame)
    requires df.Value().Valid() && SummedNumeric(df.Value())
    modifies df
    ensures inplace ==> r == df && r.Value() == AssignAll(old(df.Value()), Aggregated(old(df.Value())).cols)
    ensures !inplace ==> fresh(r) && r.Value() == Aggregated(old(df.Value())) && unchanged(df)
  {
    var agg := Aggregated(df.Value());
    if !inplace {
      r := new DataFrame(agg);
      return;
    }
    ghost var start := df.Value();
    for i := 0 to |agg.cols|
      invariant df.Value() == AssignAll(start, agg.cols[..i])
    {
      assert agg.cols[..i + 1][..i] == agg.cols[..i];
      df.SetColumn(agg.cols[i].name, agg.cols[i].cells);
    }
    assert agg.cols[..|agg.cols|] == agg.cols;
    r := df;
  }
}
