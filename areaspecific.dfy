/**
 * Area normalisation (as_area_specific): every selected numeric column whose name has no
 * `m2` is renamed to `<name>_<unit>_<area column>` with `kW`/`MWh` converted, multiplied by
 * the unit factor and divided by the area column; the unselected columns pass through.
 */
module AreaSpecific {
  import opened Wrappers
  import opened Strings
  import opened Frames

  const DEFAULT_AREA_COL: string := "Af_m2"
  const AREA_TAG: string := "m2"

  // ----- which columns are converted -----

  /** The names of `t`'s numeric columns, in column order: `select_dtypes(include="number").columns`. */
  function NumericNames(cols: seq<Column>): (r: seq<string>)
    ensures forall n :: n in r <==> exists c | c in cols :: c.name == n && NumericCells(c.cells)
  {
    if cols == [] then []
    else
      var last := cols[|cols| - 1];
      assert forall c | c in cols[..|cols| - 1] :: c in cols;
      NumericNames(cols[..|cols| - 1]) + (if NumericCells(last.cells) then [last.name] else [])
  }

  /** The listed names whose column is numeric, in list order; the first unknown name is a KeyError. */
  function NumericListed(t: Table, names: seq<string>): (r: Result<seq<string>, Error>)
    ensures r.Ok? <==> forall n | n in names :: t.Has(n)
    ensures r.Ok? ==> forall n :: n in r.value <==> n in names && NumericCells(t.Get(n))
  {
    if names == [] then Ok([])
    else
      var last := names[|names| - 1];
      var init :- NumericListed(t, names[..|names| - 1]);
      if !t.Has(last) then Err(MissingColumn(last))
      else Ok(init + (if NumericCells(t.Get(last)) then [last] else []))
  }

  /** `value_cols` after its normalisation: all numeric columns, or the numeric ones of the list. */
  function ValueCols(t: Table, valueCols: Option<seq<string>>): Result<seq<string>, Error> {
    match valueCols
    case None => Ok(NumericNames(t.cols))
    case Some(names) => NumericListed(t, names)
  }

  /** With unique column names, "numeric" in either branch means the same columns. */
  lemma ValueColsSelected(t: Table, valueCols: Option<seq<string>>)
    requires UniqueNames(t)
    ensures ValueCols(t, valueCols).Err? <==> valueCols.Some? && exists n | n in valueCols.value :: !t.Has(n)
    ensures ValueCols(t, valueCols).Ok? ==> forall n :: n in ValueCols(t, valueCols).value <==>
      t.Has(n) && NumericCells(t.Get(n)) && (valueCols.Some? ==> n in valueCols.value)
  {
    if valueCols.None? {
      forall n ensures n in NumericNames(t.cols) <==> t.Has(n) && NumericCells(t.Get(n)) {
        if n in NumericNames(t.cols) {
          var c :| c in t.cols && c.name == n && NumericCells(c.cells);
          GetByMember(t, c);
        }
        if t.Has(n) {
          var p := FirstPos(t.cols, n);
          assert t.cols[p] in t.cols;
        }
      }
    }
  }

  // ----- the name and unit rewrite -----

  /** The new name of a converted column and the factor its values are multiplied by. */
  datatype Conversion = Conversion(target: string, factor: real)

  /** The unit as first formed: the last `_` field of the name, then `_`, then the area column. */
  function RawUnit(col: string, areaCol: string): string {
    var parts := Split(col, '_');
    parts[|parts| - 1] + "_" + areaCol
  }

  /** The name without its unit: all `_` fields but the last, joined again by `_`. */
  function Stem(col: string): string {
    var parts := Split(col, '_');
    Join(parts[..|parts| - 1], '_')
  }

  /**
   * The unit rewrite: `kW` becomes `W`, then `MWh` becomes `kWh`, each setting (not
   * multiplying) the factor to 1000.
   */
  function Convert(col: string, areaCol: string): (r: Conversion)
    ensures r.factor == 1.0 || r.factor == 1000.0
    ensures r.factor == 1.0 <==> !Contains(RawUnit(col, areaCol), "kW") && !Contains(RawUnit(col, areaCol), "MWh")
  {
    var kw := KwStep(RawUnit(col, areaCol));
    var mwh := MWhStep(kw.0, kw.1);
    Conversion(Stem(col) + "_" + mwh.0, mwh.1)
  }

  /** `if "kW" in unit: unit = unit.replace("kW", "W"); factor = 1000` */
  function KwStep(u: string): (string, real) {
    if Contains(u, "kW") then (Replace(u, "kW", "W"), 1000.0) else (u, 1.0)
  }

  /** `if "MWh" in unit: unit = unit.replace("MWh", "kWh"); factor = 1000` */
  function MWhStep(u: string, factor: real): (string, real) {
    if Contains(u, "MWh") then (Replace(u, "MWh", "kWh"), 1000.0) else (u, factor)
  }

  /**
   * A name with a unit field that needs no conversion keeps its name and gains the area
   * column as suffix; a name without `_` gets an empty stem, so it is prefixed with `_` too.
   */
  lemma PlainUnitName(col: string, areaCol: string)
    requires !Contains(RawUnit(col, areaCol), "kW") && !Contains(RawUnit(col, areaCol), "MWh")
    ensures Convert(col, areaCol).factor == 1.0
    ensures '_' in col ==> Convert(col, areaCol).target == col + "_" + areaCol
    ensures '_' !in col ==> Convert(col, areaCol).target == "_" + col + "_" + areaCol
  {
    var parts := Split(col, '_');
    JoinSplit(col, '_');
    SplitSingle(col, '_');
    if '_' in col {
      JoinLast(parts, '_');
    } else {
      assert parts[..0] == [];
    }
  }

  lemma SplitExample()
    ensures Split("Qhs_MWh", '_') == ["Qhs", "MWh"]
  {
    assert "Qhs_MWh" == "Qhs" + ['_'] + "MWh";
    SplitPrefix("Qhs", "MWh", '_');
    SplitNone("MWh", '_');
  }

  lemma ReplaceExample()
    ensures Replace("MWh_Af_m2", "MWh", "kWh") == "kWh_Af_m2"
  {
    var u0 := "MWh_Af_m2";
    assert u0[..3] == "MWh";
    assert u0[3..] == "_Af_m2";
    MissingChar("_Af_m2", "MWh", 0);
    ReplaceAbsent("_Af_m2", "MWh", "kWh");
  }

  lemma NameExample()
    ensures Stem("Qhs_MWh") == "Qhs" && RawUnit("Qhs_MWh", DEFAULT_AREA_COL) == "MWh_Af_m2"
  {
    SplitExample();
    assert ["Qhs", "MWh"][..1] == ["Qhs"];
  }

  lemma UnitExample()
    ensures KwStep("MWh_Af_m2") == ("MWh_Af_m2", 1.0)
    ensures MWhStep("MWh_Af_m2", 1.0) == ("kWh_Af_m2", 1000.0)
  {
    MissingChar("MWh_Af_m2", "kW", 0);
    assert OccursAt("MWh_Af_m2", "MWh", 0);
    ReplaceExample();
  }

  /** Worked example: `Qhs_MWh` over `Af_m2` becomes `Qhs_kWh_Af_m2`, scaled by 1000. */
  lemma ConvertMWhExample()
    ensures Convert("Qhs_MWh", DEFAULT_AREA_COL) == Conversion("Qhs_kWh_Af_m2", 1000.0)
    ensures ScaleCell(Num(5.0), Convert("Qhs_MWh", DEFAULT_AREA_COL).factor, Num(100.0)) == Num(50.0)
  {
    NameExample();
    UnitExample();
    assert "Qhs" + "_" + "kWh_Af_m2" == "Qhs_kWh_Af_m2";
  }

  lemma KWhNameExample()
    ensures Stem("Qhs_kWh") == "Qhs" && RawUnit("Qhs_kWh", DEFAULT_AREA_COL) == "kWh_Af_m2"
  {
    assert "Qhs_kWh" == "Qhs" + ['_'] + "kWh";
    SplitPrefix("Qhs", "kWh", '_');
    SplitNone("kWh", '_');
    assert ["Qhs", "kWh"][..1] == ["Qhs"];
  }

  lemma KWReplaceExample()
    ensures Replace("kWh_Af_m2", "kW", "W") == "Wh_Af_m2"
  {
    assert "kWh_Af_m2" == "kW" + "h_Af_m2";
    MissingChar("h_Af_m2", "kW", 0);
    ReplaceAtStart("kW", "h_Af_m2", "W");
    assert "W" + "h_Af_m2" == "Wh_Af_m2";
  }

  lemma KWhUnitExample()
    ensures KwStep("kWh_Af_m2") == ("Wh_Af_m2", 1000.0)
    ensures MWhStep("Wh_Af_m2", 1000.0) == ("Wh_Af_m2", 1000.0)
  {
    assert OccursAt("kWh_Af_m2", "kW", 0);
    KWReplaceExample();
    MissingChar("Wh_Af_m2", "MWh", 0);
  }

  /** Worked example of the `kW` branch: `Qhs_kWh` becomes `Qhs_Wh_Af_m2`, scaled by 1000. */
  lemma ConvertKWhExample()
    ensures Convert("Qhs_kWh", DEFAULT_AREA_COL) == Conversion("Qhs_Wh_Af_m2", 1000.0)
  {
    KWhNameExample();
    KWhUnitExample();
    assert "Qhs" + "_" + "Wh_Af_m2" == "Qhs_Wh_Af_m2";
  }

  lemma GJNameExample()
    ensures Stem("Qhs_GJ") == "Qhs" && RawUnit("Qhs_GJ", DEFAULT_AREA_COL) == "GJ_Af_m2"
  {
    assert "Qhs_GJ" == "Qhs" + ['_'] + "GJ";
    SplitPrefix("Qhs", "GJ", '_');
    SplitNone("GJ", '_');
    assert ["Qhs", "GJ"][..1] == ["Qhs"];
  }

  /** Worked example of a unit with neither `kW` nor `MWh`: `Qhs_GJ` becomes `Qhs_GJ_Af_m2`, factor 1. */
  lemma ConvertPlainExample()
    ensures Convert("Qhs_GJ", DEFAULT_AREA_COL) == Conversion("Qhs_GJ_Af_m2", 1.0)
  {
    GJNameExample();
    MissingChar("GJ_Af_m2", "kW", 0);
    MissingChar("GJ_Af_m2", "MWh", 0);
    assert "Qhs" + "_" + "GJ_Af_m2" == "Qhs_GJ_Af_m2";
  }

  // ----- the values -----

  /** Areas that can be divided by: no zero area in the area column. */
  predicate AreasNonZero(t: Table, areaCol: string) {
    t.Has(areaCol) ==> forall i | 0 <= i < |t.Get(areaCol)| :: t.Get(areaCol)[i] != Num(0.0)
  }

  /** `value * factor / area` for one row; a missing value or area gives a missing result. */
  function ScaleCell(v: Cell, factor: real, area: Cell): Cell
    requires area != Num(0.0)
  {
    if v.Num? && area.Num? then Num(v.x * factor / area.x) else Missing
  }

  /** `source_df[col] * factor / source_df[area_col]`. */
  function Scaled(t: Table, col: string, factor: real, areaCol: string): (r: Result<seq<Cell>, Error>)
    requires t.Valid() && AreasNonZero(t, areaCol)
    ensures r.Ok? ==> |r.value| == |t.index|
  {
    if !t.Has(areaCol) then Err(MissingColumn(areaCol))
    else
      var area := t.Get(areaCol);
      if !NumericCells(area) then Err(NonNumeric(areaCol))
      else
        GetLength(t, areaCol);
        var values := CellsOrFill(t, col);
        assert |values| == |t.index| by {
          if t.Has(col) { GetLength(t, col); }
        }
        Ok(seq(|t.index|, i requires 0 <= i < |t.index| => ScaleCell(values[i], factor, area[i])))
  }

  /** The table under construction, holding no column yet: `data = {}`. */
  function NoData(t: Table): Table {
    Table(t.index, [])
  }

  /** `data` after the conversion loop over the given value columns. */
  function Converted(t: Table, vcols: seq<string>, areaCol: string): (r: Result<Table, Error>)
    requires t.Valid() && AreasNonZero(t, areaCol)
    ensures r.Ok? ==> r.value.Valid() && r.value.index == t.index && UniqueNames(r.value)
  {
    if vcols == [] then Ok(NoData(t))
    else
      var data :- Converted(t, vcols[..|vcols| - 1], areaCol);
      var col := vcols[|vcols| - 1];
      if Contains(col, AREA_TAG) then Ok(data)
      else
        var conv := Convert(col, areaCol);
        var cells :- Scaled(t, col, conv.factor, areaCol);
        AssignEffect(data, conv.target, cells);
        Ok(Assign(data, conv.target, cells))
  }

  /** The columns not among the value columns, in column order. */
  function Others(names: seq<string>, vcols: seq<string>): (r: seq<string>)
    ensures forall n :: n in r <==> n in names && n !in vcols
  {
    if names == [] then []
    else
      var last := names[|names| - 1];
      Others(names[..|names| - 1], vcols) + (if last !in vcols then [last] else [])
  }

  /** `data[nc] = source_df[nc]` for each of the given names. */
  function PassedThrough(t: Table, data: Table, names: seq<string>): (r: Table)
    requires data.Valid() && data.index == t.index && t.Valid()
    ensures r.Valid() && r.index == t.index
  {
    if names == [] then data
    else
      var prev := PassedThrough(t, data, names[..|names| - 1]);
      var n := names[|names| - 1];
      var cells := CellsOrFill(t, n);
      assert |cells| == |t.index| by {
        if t.Has(n) { GetLength(t, n); }
      }
      AssignEffect(prev, n, cells);
      Assign(prev, n, cells)
  }

  /** `pd.DataFrame(data)`: a dict with no entry gives the empty frame. */
  function Framed(data: Table): Table {
    if data.cols == [] then EMPTY else data
  }

  /** as_area_specific as a value. */
  function AreaSpecificTable(t: Table, valueCols: Option<seq<string>>, areaCol: string): Result<Table, Error>
    requires t.Valid() && AreasNonZero(t, areaCol)
  {
    var vcols :- ValueCols(t, valueCols);
    var data :- Converted(t, vcols, areaCol);
    Ok(Framed(PassedThrough(t, data, Others(t.Names(), vcols))))
  }

  /** An error part-way through the conversion loop is the loop's error. */
  lemma {:induction false} ConvertedPrefixErr(t: Table, vcols: seq<string>, areaCol: string, i: nat)
    requires t.Valid() && AreasNonZero(t, areaCol)
    requires i <= |vcols| && Converted(t, vcols[..i], areaCol).Err?
    ensures Converted(t, vcols, areaCol) == Converted(t, vcols[..i], areaCol)
    decreases |vcols| - i
  {
    if i < |vcols| {
      assert vcols[..i + 1][..i] == vcols[..i];
      ConvertedPrefixErr(t, vcols, areaCol, i + 1);
    } else {
      assert vcols[..i] == vcols;
    }
  }

  // ----- what the conversion loop produces -----

  /** A selected column is converted when its name has no `m2`. */
  predicate ConvertedCol(col: string) {
    !Contains(col, AREA_TAG)
  }

  /** The conversion fails exactly when some column is converted and the area column is absent or not numeric. */
  lemma {:induction false} ConvertedOk(t: Table, vcols: seq<string>, areaCol: string)
    requires t.Valid() && AreasNonZero(t, areaCol)
    ensures Converted(t, vcols, areaCol).Ok? <==>
      (forall col | col in vcols :: !ConvertedCol(col)) || (t.Has(areaCol) && NumericCells(t.Get(areaCol)))
  {
    if vcols != [] {
      var init := vcols[..|vcols| - 1];
      ConvertedOk(t, init, areaCol);
      assert forall col | col in init :: col in vcols;
      if forall col | col in vcols :: !ConvertedCol(col) {
        assert forall col | col in init :: !ConvertedCol(col);
        assert !ConvertedCol(vcols[|vcols| - 1]);
      } else if !(t.Has(areaCol) && NumericCells(t.Get(areaCol))) {
        var col :| col in vcols && ConvertedCol(col);
        if col != vcols[|vcols| - 1] {
          var i :| 0 <= i < |vcols| && vcols[i] == col;
          assert init[i] == col;
        }
      }
    }
  }

  /** Some selected column is converted to the name `n`. */
  predicate ConvertsTo(vcols: seq<string>, areaCol: string, n: string) {
    exists col | col in vcols && ConvertedCol(col) :: Convert(col, areaCol).target == n
  }

  lemma ConvertsToSnoc(vcols: seq<string>, areaCol: string, n: string)
    requires vcols != []
    ensures var last := vcols[|vcols| - 1];
      ConvertsTo(vcols, areaCol, n) <==>
        ConvertsTo(vcols[..|vcols| - 1], areaCol, n) || (ConvertedCol(last) && Convert(last, areaCol).target == n)
  {
    var init := vcols[..|vcols| - 1];
    assert vcols == init + [vcols[|vcols| - 1]];
  }

  /** The converted table holds exactly the new names of the converted columns. */
  lemma {:induction false} ConvertedNames(t: Table, vcols: seq<string>, areaCol: string)
    requires t.Valid() && AreasNonZero(t, areaCol) && Converted(t, vcols, areaCol).Ok?
    ensures forall n :: Converted(t, vcols, areaCol).value.Has(n) <==> ConvertsTo(vcols, areaCol, n)
  {
    if vcols != [] {
      var init := vcols[..|vcols| - 1];
      var last := vcols[|vcols| - 1];
      ConvertedNames(t, init, areaCol);
      var data := Converted(t, init, areaCol).value;
      if ConvertedCol(last) {
        var conv := Convert(last, areaCol);
        AssignEffect(data, conv.target, Scaled(t, last, conv.factor, areaCol).value);
      }
      forall n ensures Converted(t, vcols, areaCol).value.Has(n) <==> ConvertsTo(vcols, areaCol, n) {
        ConvertsToSnoc(vcols, areaCol, n);
      }
    }
  }

  /**
   * A converted column's new name holds `value * factor / area` row by row, provided no later
   * selected column is converted to the same name (a later one would overwrite it in `data`).
   */
  lemma {:induction false} ConvertedValue(t: Table, vcols: seq<string>, areaCol: string, k: nat)
    requires t.Valid() && AreasNonZero(t, areaCol) && Converted(t, vcols, areaCol).Ok?
    requires k < |vcols| && ConvertedCol(vcols[k])
    requires forall j | k < j < |vcols| && ConvertedCol(vcols[j]) ::
      Convert(vcols[j], areaCol).target != Convert(vcols[k], areaCol).target
    ensures var conv := Convert(vcols[k], areaCol);
      var data := Converted(t, vcols, areaCol).value;
      && Scaled(t, vcols[k], conv.factor, areaCol).Ok?
      && data.Has(conv.target) && data.Get(conv.target) == Scaled(t, vcols[k], conv.factor, areaCol).value
  {
    var init := vcols[..|vcols| - 1];
    var last := vcols[|vcols| - 1];
    var data := Converted(t, init, areaCol).value;
    var target := Convert(vcols[k], areaCol).target;
    if k == |vcols| - 1 {
      var conv := Convert(last, areaCol);
      AssignEffect(data, conv.target, Scaled(t, last, conv.factor, areaCol).value);
    } else {
      assert init[k] == vcols[k];
      ConvertedValue(t, init, areaCol, k);
      if ConvertedCol(last) {
        var conv := Convert(last, areaCol);
        AssignEffect(data, conv.target, Scaled(t, last, conv.factor, areaCol).value);
      }
    }
  }

  /** The converted cells, row by row. */
  lemma ScaledAt(t: Table, col: string, factor: real, areaCol: string, i: nat)
    requires t.Valid() && AreasNonZero(t, areaCol) && Scaled(t, col, factor, areaCol).Ok? && i < |t.index|
    ensures t.Has(areaCol) && NumericCells(t.Get(areaCol)) && |t.Get(areaCol)| == |t.index|
    ensures t.Get(areaCol)[i] != Num(0.0)
    ensures Scaled(t, col, factor, areaCol).value[i] == ScaleCell(CellsOrFill(t, col)[i], factor, t.Get(areaCol)[i])
  {
    GetLength(t, areaCol);
  }

  /** The pass-through loop copies exactly the given columns and leaves the others as they were. */
  lemma {:induction false} PassedThroughEffect(t: Table, data: Table, names: seq<string>)
    requires data.Valid() && data.index == t.index && t.Valid()
    ensures var r := PassedThrough(t, data, names);
      && (UniqueNames(data) ==> UniqueNames(r))
      && (forall n :: r.Has(n) <==> data.Has(n) || n in names)
      && (forall n | n in names :: r.Has(n) && r.Get(n) == CellsOrFill(t, n))
      && (forall n | n !in names && data.Has(n) :: r.Get(n) == data.Get(n))
  {
    if names != [] {
      var init := names[..|names| - 1];
      var n := names[|names| - 1];
      PassedThroughEffect(t, data, init);
      var prev := PassedThrough(t, data, init);
      var cells := CellsOrFill(t, n);
      assert |cells| == |t.index| by {
        if t.Has(n) { GetLength(t, n); }
      }
      AssignEffect(prev, n, cells);
      assert forall m :: m in names <==> m in init || m == n;
    }
  }

  // ----- what as_area_specific promises -----

  /**
   * as_area_specific fails exactly when a listed value column is missing, or some selected
   * column is converted while the area column is missing or not numeric.
   */
  lemma AreaSpecificOk(t: Table, valueCols: Option<seq<string>>, areaCol: string)
    requires t.Valid() && UniqueNames(t) && AreasNonZero(t, areaCol)
    ensures AreaSpecificTable(t, valueCols, areaCol).Ok? <==>
      ValueCols(t, valueCols).Ok? &&
      ((forall col | col in ValueCols(t, valueCols).value :: !ConvertedCol(col)) ||
       (t.Has(areaCol) && NumericCells(t.Get(areaCol))))
  {
    if ValueCols(t, valueCols).Ok? {
      ConvertedOk(t, ValueCols(t, valueCols).value, areaCol);
    }
  }

  /**
   * The output's columns: the new names of the converted columns and, under their own
   * names with their own cells, the columns that are not value columns; a value column whose
   * name holds `m2` is neither. Rows and index are the input's unless no column is left.
   */
  lemma AreaSpecificColumns(t: Table, valueCols: Option<seq<string>>, areaCol: string)
    requires t.Valid() && UniqueNames(t) && AreasNonZero(t, areaCol)
    requires AreaSpecificTable(t, valueCols, areaCol).Ok?
    ensures var r := AreaSpecificTable(t, valueCols, areaCol).value;
      var vcols := ValueCols(t, valueCols).value;
      && r.Valid() && UniqueNames(r)
      && (r.cols != [] ==> r.index == t.index)
      && (forall n :: r.Has(n) <==>
            (t.Has(n) && n !in vcols) || ConvertsTo(vcols, areaCol, n))
      && (forall n | t.Has(n) && n !in vcols :: r.Has(n) && r.Get(n) == t.Get(n))
  {
    var vcols := ValueCols(t, valueCols).value;
    var data := Converted(t, vcols, areaCol).value;
    var others := Others(t.Names(), vcols);
    ConvertedNames(t, vcols, areaCol);
    PassedThroughEffect(t, data, others);
    var p := PassedThrough(t, data, others);
    if p.cols == [] {
      forall n ensures !((t.Has(n) && n !in vcols) || ConvertsTo(vcols, areaCol, n)) {
        assert !p.Has(n);
      }
    }
  }

  /** Selected columns whose name holds `m2` are dropped, unless another column is converted to that name. */
  lemma AreaColumnsDropped(t: Table, valueCols: Option<seq<string>>, areaCol: string, col: string)
    requires t.Valid() && UniqueNames(t) && AreasNonZero(t, areaCol)
    requires AreaSpecificTable(t, valueCols, areaCol).Ok?
    requires col in ValueCols(t, valueCols).value && !ConvertedCol(col)
    requires !ConvertsTo(ValueCols(t, valueCols).value, areaCol, col)
    ensures !AreaSpecificTable(t, valueCols, areaCol).value.Has(col)
  {
    AreaSpecificColumns(t, valueCols, areaCol);
  }

  /**
   * A converted column, when its new name is not taken by a later converted column or by a
   * passed-through one, holds `value * factor / area` in every row, where the factor is
   * 1000 for a `kW` or `MWh` unit and 1 otherwise.
   */
  lemma AreaSpecificValue(t: Table, valueCols: Option<seq<string>>, areaCol: string, k: nat, i: nat)
    requires t.Valid() && UniqueNames(t) && AreasNonZero(t, areaCol)
    requires AreaSpecificTable(t, valueCols, areaCol).Ok?
    requires k < |ValueCols(t, valueCols).value| && i < |t.index|
    requires var vcols := ValueCols(t, valueCols).value;
      && ConvertedCol(vcols[k])
      && (forall j | k < j < |vcols| && ConvertedCol(vcols[j]) ::
            Convert(vcols[j], areaCol).target != Convert(vcols[k], areaCol).target)
      && !(t.Has(Convert(vcols[k], areaCol).target) && Convert(vcols[k], areaCol).target !in vcols)
    ensures var vcols := ValueCols(t, valueCols).value;
      var conv := Convert(vcols[k], areaCol);
      var r := AreaSpecificTable(t, valueCols, areaCol).value;
      && t.Has(vcols[k]) && t.Has(areaCol) && |t.Get(vcols[k])| == |t.index| && |t.Get(areaCol)| == |t.index|
      && t.Get(areaCol)[i] != Num(0.0)
      && r.Has(conv.target) && r.index == t.index && |r.Get(conv.target)| == |t.index|
      && r.Get(conv.target)[i] == ScaleCell(t.Get(vcols[k])[i], conv.factor, t.Get(areaCol)[i])
  {
    var vcols := ValueCols(t, valueCols).value;
    var conv := Convert(vcols[k], areaCol);
    var data := Converted(t, vcols, areaCol).value;
    var others := Others(t.Names(), vcols);
    ValueColsSelected(t, valueCols);
    assert vcols[k] in vcols;
    GetLength(t, vcols[k]);
    ConvertedValue(t, vcols, areaCol, k);
    ScaledAt(t, vcols[k], conv.factor, areaCol, i);
    PassedThroughEffect(t, data, others);
    var p := PassedThrough(t, data, others);
    assert p.Has(conv.target);
    GetLength(p, conv.target);
  }

  /** The conversion loop of as_area_specific, filling `data` from the value columns. */
  method ConvertValues(t: Table, vcols: seq<string>, areaCol: string) returns (r: Result<Table, Error>)
    requires t.Valid() && AreasNonZero(t, areaCol)
    ensures r == Converted(t, vcols, areaCol)
  {
    var data := NoData(t);
    for i := 0 to |vcols|
      invariant Converted(t, vcols[..i], areaCol) == Ok(data)
    {
      assert vcols[..i + 1][..i] == vcols[..i];
      var col := vcols[i];
      if Contains(col, AREA_TAG) {
        continue;
      }
      var conv := Convert(col, areaCol);
      var cells := Scaled(t, col, conv.factor, areaCol);
      if cells.Err? {
        ConvertedPrefixErr(t, vcols, areaCol, i + 1);
        return Err(cells.error);
      }
      data := Assign(data, conv.target, cells.value);
    }
    assert vcols[..|vcols|] == vcols;
    return Ok(data);
  }

  /** The pass-through loop of as_area_specific: `for nc in non_value_columns: data[nc] = source_df[nc]`. */
  method PassThrough(t: Table, data: Table, names: seq<string>) returns (r: Table)
    requires data.Valid() && data.index == t.index && t.Valid()
    ensures r == PassedThrough(t, data, names)
  {
    r := data;
    for i := 0 to |names|
      invariant r == PassedThrough(t, data, names[..i])
    {
      assert names[..i + 1][..i] == names[..i];
      r := Assign(r, names[i], CellsOrFill(t, names[i]));
    }
    assert names[..|names|] == names;
  }

  /** as_area_specific: convert the value columns, copy the others under their own names, build the frame. */
  method AsAreaSpecific(t: Table, valueCols: Option<seq<string>>, areaCol: string) returns (r: Result<Table, Error>)
    requires t.Valid() && AreasNonZero(t, areaCol)
    ensures r == AreaSpecificTable(t, valueCols, areaCol)
  {
    var vcols :- ValueCols(t, valueCols);
    var data :- ConvertValues(t, vcols, areaCol);
    data := PassThrough(t, data, Others(t.Names(), vcols));
    return Ok(Framed(data));
  }
}
