/**
 * Compactness (get_compactness): hull areas divided by the per-building mean of a reference
 * area, aligned by building ID, with the two consistency checks reported as flags.
 */
module Compactness {
  import opened Wrappers
  import opened Frames

  const DEFAULT_REF_COL: string := "GFA_m2"
  const RATIO_INFIX: string := "_to_"

  /** A labelled column on its own (a pandas Series). */
  datatype Series = Series(index: seq<Label>, cells: seq<Cell>)

  /** `df[name]` as a series. */
  function ColumnSeries(t: Table, name: string): (s: Series)
    requires t.Valid() && t.Has(name)
    ensures |s.cells| == |s.index|
  {
    GetLength(t, name);
    Series(t.index, t.Get(name))
  }

  /**
   * The distinct labels of an index in order of first appearance; the missing label is
   * kept only when `withMissing` (groupby drops it, `index.duplicated` does not).
   */
  function Labels(index: seq<Label>, withMissing: bool): (r: seq<Label>)
    ensures Distinct(r)
    ensures forall l :: l in r <==> l in index && (withMissing || l != Missing)
  {
    if index == [] then []
    else
      var prev := Labels(index[..|index| - 1], withMissing);
      var last := index[|index| - 1];
      assert forall l :: l in index <==> l in index[..|index| - 1] || l == last;
      if last in prev || (!withMissing && last == Missing) then prev else prev + [last]
  }

  /** Sum of the numeric cells in the first `k` rows labelled `l`. */
  function SumTo(s: Series, l: Label, k: nat): real
    requires k <= |s.index| == |s.cells|
  {
    if k == 0 then 0.0
    else SumTo(s, l, k - 1) + (if s.index[k - 1] == l && s.cells[k - 1].Num? then s.cells[k - 1].x else 0.0)
  }

  /** Number of numeric cells in the first `k` rows labelled `l`. */
  function CountTo(s: Series, l: Label, k: nat): nat
    requires k <= |s.index| == |s.cells|
  {
    if k == 0 then 0
    else CountTo(s, l, k - 1) + (if s.index[k - 1] == l && s.cells[k - 1].Num? then 1 else 0)
  }

  function SumAt(s: Series, l: Label): real
    requires |s.cells| == |s.index|
  {
    SumTo(s, l, |s.index|)
  }

  function CountAt(s: Series, l: Label): nat
    requires |s.cells| == |s.index|
  {
    CountTo(s, l, |s.index|)
  }

  /** `mean` of a group, skipping missing values; missing when the group has no number. */
  function MeanOf(s: Series, l: Label): Cell
    requires |s.cells| == |s.index|
  {
    if CountAt(s, l) == 0 then Missing else Num(SumAt(s, l) / CountAt(s, l) as real)
  }

  /** `s.groupby(s.index).agg("mean")`, groups in order of first appearance. */
  function GroupMean(s: Series): (r: Series)
    requires |s.cells| == |s.index|
    ensures |r.cells| == |r.index|
  {
    var ls := Labels(s.index, false);
    Series(ls, seq(|ls|, k requires 0 <= k < |ls| => MeanOf(s, ls[k])))
  }

  /** `s.loc[~s.index.duplicated(keep="first")]`: the first row of each label. */
  function FirstPerLabel(s: Series): (r: Series)
    requires |s.cells| == |s.index|
    ensures |r.cells| == |r.index|
  {
    var ls := Labels(s.index, true);
    Series(ls, seq(|ls|, k requires 0 <= k < |ls| => Lookup(s.index, s.cells, ls[k])))
  }

  /** Divisors that can be divided by: no zero mean. */
  predicate NonZero(s: Series) {
    forall k | 0 <= k < |s.cells| :: s.cells[k] != Num(0.0)
  }

  /** `a / b` for one aligned pair of cells; missing on either side gives missing. */
  function Quot(a: Cell, b: Cell): Cell
    requires b != Num(0.0)
  {
    if a.Num? && b.Num? then Num(a.x / b.x) else Missing
  }

  /** The labels of `b` that `a` does not have, in `b`'s order. */
  function Extra(a: seq<Label>, b: seq<Label>): (r: seq<Label>)
    ensures forall l :: l in r <==> l in b && l !in a
    ensures Distinct(b) ==> Distinct(r)
  {
    if b == [] then []
    else
      var prev := Extra(a, b[..|b| - 1]);
      var last := b[|b| - 1];
      assert forall l :: l in b <==> l in b[..|b| - 1] || l == last;
      prev + (if last !in a then [last] else [])
  }

  /**
   * The index of an aligned division: every label of `a`, repeats included, then the labels
   * only `b` has.
   */
  function Union(a: seq<Label>, b: seq<Label>): (r: seq<Label>)
    ensures forall l :: l in r <==> l in a || l in b
    ensures |a| <= |r| && r[..|a|] == a
    ensures forall k | |a| <= k < |r| :: r[k] !in a
    ensures Distinct(a) && Distinct(b) ==> Distinct(r)
  {
    var e := Extra(a, b);
    assert Distinct(a) && Distinct(b) ==> Distinct(a + e) by {
      if Distinct(a) && Distinct(b) {
        forall i, j | 0 <= i < j < |a + e| ensures (a + e)[i] != (a + e)[j] {
          if j >= |a| && i < |a| {
            assert e[j - |a|] !in a;
          }
        }
      }
    }
    a + e
  }

  /**
   * `h / g` for a `g` with one row per label (the means), aligned by an outer join: every
   * row of `h`, a repeated label included, is divided by its label's value in `g`, and the
   * labels only `g` has follow with missing values.
   */
  function Divide(h: Series, g: Series): (r: Series)
    requires |h.cells| == |h.index| && |g.cells| == |g.index| && NonZero(g)
    ensures r.index == Union(h.index, g.index) && |r.cells| == |r.index|
  {
    var u := Union(h.index, g.index);
    Series(u, seq(|u|, i requires 0 <= i < |u| =>
      assert Lookup(g.index, g.cells, u[i]) != Num(0.0);
      Quot(if i < |h.cells| then h.cells[i] else Missing, Lookup(g.index, g.cells, u[i]))))
  }

  /** The result of get_compactness: the ratio table and the two warnings it logs. */
  datatype Compactness = Compactness(table: Table, firstMismatch: bool, countMismatch: bool)

  /** The name of the ratio column of `col`. */
  function RatioName(col: string, refCol: string): string {
    col + RATIO_INFIX + refCol
  }

  /** `d` after the loop over the given hull columns. */
  function Ratios(hull: Table, means: Series, hullCols: seq<string>, refCol: string): (r: Result<Table, Error>)
    requires hull.Valid() && |means.cells| == |means.index| && NonZero(means)
    ensures r.Ok? ==> r.value.Valid() && r.value.index == Union(hull.index, means.index) && UniqueNames(r.value)
  {
    if hullCols == [] then Ok(Table(Union(hull.index, means.index), []))
    else
      var d :- Ratios(hull, means, hullCols[..|hullCols| - 1], refCol);
      var col := hullCols[|hullCols| - 1];
      if !hull.Has(col) then Err(MissingColumn(col))
      else if !NumericCells(hull.Get(col)) then Err(NonNumeric(col))
      else
        var q := Divide(ColumnSeries(hull, col), means);
        AssignEffect(d, RatioName(col, refCol), q.cells);
        Ok(Assign(d, RatioName(col, refCol), q.cells))
  }

  /** The per-building mean of the reference column, or the error reading it raises. */
  function RefMeans(area: Table, refCol: string): Result<Series, Error>
    requires area.Valid()
  {
    if !area.Has(refCol) then Err(MissingColumn(refCol))
    else if !NumericCells(area.Get(refCol)) then Err(NonNumeric(refCol))
    else Ok(GroupMean(ColumnSeries(area, refCol)))
  }

  /**
   * What get_compactness needs: well-formed tables and no zero mean reference area (the
   * model has no infinities). A hull ID may repeat.
   */
  predicate CompactnessInputs(hull: Table, area: Table, refCol: string) {
    && hull.Valid() && area.Valid()
    && (RefMeans(area, refCol).Ok? ==> NonZero(RefMeans(area, refCol).value))
  }

  /** get_compactness as a value. */
  function CompactnessOf(hull: Table, area: Table, hullCols: seq<string>, refCol: string): Result<Compactness, Error>
    requires CompactnessInputs(hull, area, refCol)
  {
    var means :- RefMeans(area, refCol);
    var firsts := FirstPerLabel(ColumnSeries(area, refCol));
    var d :- Ratios(hull, means, hullCols, refCol);
    Ok(Compactness(if d.cols == [] then EMPTY else d, firsts != means, |means.index| != |hull.index|))
  }

  // ----- the per-ID mean -----

  /** `v` added up `c` times. */
  function Times(c: nat, v: real): real {
    if c == 0 then 0.0 else Times(c - 1, v) + v
  }

  lemma {:induction false} TimesProduct(c: nat, v: real)
    ensures Times(c, v) == c as real * v
  {
    if c > 0 {
      TimesProduct(c - 1, v);
      Distrib((c - 1) as real, v);
    }
  }

  lemma Distrib(c: real, v: real)
    ensures (c + 1.0) * v == c * v + v
  {
  }

  /** Where every row labelled `l` holds `v`, the sum is `v` added once per counted row. */
  lemma {:induction false} ConstantSum(s: Series, l: Label, v: real, k: nat)
    requires k <= |s.index| == |s.cells|
    requires forall i | 0 <= i < |s.index| && s.index[i] == l :: s.cells[i] == Num(v)
    ensures SumTo(s, l, k) == Times(CountTo(s, l, k), v)
  {
    if k > 0 {
      ConstantSum(s, l, v, k - 1);
    }
  }

  /** Where every row labelled `l` holds a number, some row is counted exactly when the label occurs. */
  lemma {:induction false} CountPositive(s: Series, l: Label, k: nat)
    requires k <= |s.index| == |s.cells|
    requires forall i | 0 <= i < |s.index| && s.index[i] == l :: s.cells[i].Num?
    ensures CountTo(s, l, k) > 0 <==> l in s.index[..k]
  {
    if k > 0 {
      CountPositive(s, l, k - 1);
      assert s.index[..k] == s.index[..k - 1] + [s.index[k - 1]];
    }
  }

  /** A building whose rows all carry the same reference area has that area as its mean. */
  lemma ConstantMean(s: Series, l: Label, v: real)
    requires |s.cells| == |s.index| && l in s.index
    requires forall i | 0 <= i < |s.index| && s.index[i] == l :: s.cells[i] == Num(v)
    ensures MeanOf(s, l) == Num(v)
  {
    ConstantSum(s, l, v, |s.index|);
    TimesProduct(CountTo(s, l, |s.index|), v);
    CountPositive(s, l, |s.index|);
    assert s.index[..|s.index|] == s.index;
    var c := CountAt(s, l) as real;
    assert c > 0.0;
    assert SumAt(s, l) == c * v;
    DivBack(c, v);
  }

  lemma DivBack(c: real, v: real)
    requires c != 0.0
    ensures (c * v) / c == v
  {
  }

  /** Rows before `k` that do not carry `l` contribute nothing. */
  lemma {:induction false} NoRows(s: Series, l: Label, k: nat)
    requires k <= |s.index| == |s.cells| && forall i | 0 <= i < k :: s.index[i] != l
    ensures CountTo(s, l, k) == 0 && SumTo(s, l, k) == 0.0
  {
    if k > 0 {
      NoRows(s, l, k - 1);
    }
  }

  /** A label carried by row `j` only counts that row's number once. */
  lemma {:induction false} SingleRow(s: Series, j: nat, k: nat)
    requires j < k <= |s.index| == |s.cells|
    requires forall i | 0 <= i < |s.index| && i != j :: s.index[i] != s.index[j]
    ensures CountTo(s, s.index[j], k) == (if s.cells[j].Num? then 1 else 0)
    ensures SumTo(s, s.index[j], k) == (if s.cells[j].Num? then s.cells[j].x else 0.0)
  {
    if k - 1 == j {
      NoRows(s, s.index[j], j);
    } else {
      SingleRow(s, j, k - 1);
    }
  }

  /** A label carried by one row only: the mean is that row's cell, unless it is text. */
  lemma SingleMean(s: Series, k: nat)
    requires |s.cells| == |s.index| && k < |s.index| && !s.cells[k].Text?
    requires forall i | 0 <= i < |s.index| && i != k :: s.index[i] != s.index[k]
    ensures MeanOf(s, s.index[k]) == s.cells[k]
  {
    SingleRow(s, k, |s.index|);
    if s.cells[k].Num? {
      assert SumAt(s, s.index[k]) / 1 as real == s.cells[k].x;
    }
  }

  /** Two rows of one building with areas 100 and 105 give the divisor 102.5. */
  lemma MeanExample()
    ensures MeanOf(Series([Text("B1"), Text("B1")], [Num(100.0), Num(105.0)]), Text("B1")) == Num(102.5)
  {
    var s := Series([Text("B1"), Text("B1")], [Num(100.0), Num(105.0)]);
    var p := Series(s.index[..1], s.cells[..1]);
    assert p == Series([Text("B1")], [Num(100.0)]);
    assert Series(p.index[..0], p.cells[..0]) == Series([], []);
    assert CountAt(s, Text("B1")) == 2;
    assert SumAt(s, Text("B1")) == 205.0;
  }

  /** An index without repeats or missing labels is its own list of labels, with or without the missing one. */
  lemma {:induction false} LabelsOfDistinct(index: seq<Label>, withMissing: bool)
    requires Distinct(index) && Missing !in index
    ensures Labels(index, withMissing) == index
  {
    if index != [] {
      var n := |index| - 1;
      assert Distinct(index[..n]);
      LabelsOfDistinct(index[..n], withMissing);
      assert index[n] !in index[..n];
      assert index[..n] + [index[n]] == index;
    }
  }

  /**
   * With one row per building (and every row labelled), the first-occurrence areas equal
   * the means, so the first warning is not raised.
   */
  lemma FirstsAreMeans(s: Series)
    requires |s.cells| == |s.index| && Distinct(s.index) && Missing !in s.index
    requires forall k | 0 <= k < |s.cells| :: !s.cells[k].Text?
    ensures FirstPerLabel(s) == GroupMean(s)
  {
    LabelsOfDistinct(s.index, true);
    LabelsOfDistinct(s.index, false);
    forall k | 0 <= k < |s.index| ensures Lookup(s.index, s.cells, s.index[k]) == MeanOf(s, s.index[k]) {
      LookupOwnRow(s.index, s.cells, k);
      SingleMean(s, k);
    }
  }

  // ----- the ratio table -----

  /** Different hull columns give different ratio names. */
  lemma RatioNameInjective(a: string, b: string, refCol: string)
    ensures RatioName(a, refCol) == RatioName(b, refCol) <==> a == b
  {
    if RatioName(a, refCol) == RatioName(b, refCol) {
      assert |a| == |b|;
      assert a == RatioName(a, refCol)[..|a|];
    }
  }

  /** A hull column that can be divided: present and numeric. */
  predicate Readable(t: Table, col: string) {
    t.Has(col) && NumericCells(t.Get(col))
  }

  /** One more hull column: the loop goes on exactly when that column is readable, and assigns its ratio. */
  lemma RatiosStep(hull: Table, means: Series, hullCols: seq<string>, refCol: string)
    requires hull.Valid() && |means.cells| == |means.index| && NonZero(means) && hullCols != []
    ensures var init := hullCols[..|hullCols| - 1];
      var col := hullCols[|hullCols| - 1];
      && (Ratios(hull, means, hullCols, refCol).Ok? <==>
            Ratios(hull, means, init, refCol).Ok? && Readable(hull, col))
      && (Ratios(hull, means, hullCols, refCol).Ok? ==>
            Ratios(hull, means, hullCols, refCol).value ==
              Assign(Ratios(hull, means, init, refCol).value, RatioName(col, refCol),
                     Divide(ColumnSeries(hull, col), means).cells))
  {
  }

  /** One more hull column: the loop goes on exactly when that column is readable. */
  lemma RatiosStepOk(hull: Table, means: Series, hullCols: seq<string>, refCol: string)
    requires hull.Valid() && |means.cells| == |means.index| && NonZero(means) && hullCols != []
    ensures Ratios(hull, means, hullCols, refCol).Ok? <==>
      Ratios(hull, means, hullCols[..|hullCols| - 1], refCol).Ok? && Readable(hull, hullCols[|hullCols| - 1])
  {
  }

  /** The loop fails exactly when some hull column is missing or not numeric. */
  lemma {:induction false} RatiosOk(hull: Table, means: Series, hullCols: seq<string>, refCol: string)
    requires hull.Valid() && |means.cells| == |means.index| && NonZero(means)
    ensures Ratios(hull, means, hullCols, refCol).Ok? <==> forall col | col in hullCols :: Readable(hull, col)
  {
    if hullCols != [] {
      var n := |hullCols| - 1;
      var init := hullCols[..n];
      RatiosOk(hull, means, init, refCol);
      RatiosStepOk(hull, means, hullCols, refCol);
      assert hullCols == init + [hullCols[n]];
      assert forall col | col in hullCols :: col in init || col == hullCols[n];
      assert forall col | col in init :: col in hullCols;
    }
  }

  /** The ratio columns are exactly those of the hull columns. */
  lemma {:induction false} RatiosNames(hull: Table, means: Series, hullCols: seq<string>, refCol: string)
    requires hull.Valid() && |means.cells| == |means.index| && NonZero(means)
    requires Ratios(hull, means, hullCols, refCol).Ok?
    ensures forall n :: Ratios(hull, means, hullCols, refCol).value.Has(n) <==> RatioOf(hullCols, refCol, n)
  {
    if hullCols != [] {
      var n := |hullCols| - 1;
      var init := hullCols[..n];
      var col := hullCols[n];
      RatiosStep(hull, means, hullCols, refCol);
      RatiosNames(hull, means, init, refCol);
      var d := Ratios(hull, means, init, refCol).value;
      AssignHas(d, RatioName(col, refCol), Divide(ColumnSeries(hull, col), means).cells);
      forall m ensures RatioOf(hullCols, refCol, m) <==> RatioOf(init, refCol, m) || m == RatioName(col, refCol) {
        assert hullCols == init + [col];
      }
    }
  }

  /** `n` is the ratio name of one of the hull columns. */
  predicate RatioOf(hullCols: seq<string>, refCol: string, n: string) {
    exists c | c in hullCols :: n == RatioName(c, refCol)
  }

  /** Each hull column's ratio column holds the aligned quotient. */
  lemma {:induction false} RatiosGet(hull: Table, means: Series, hullCols: seq<string>, refCol: string, c: string)
    requires hull.Valid() && |means.cells| == |means.index| && NonZero(means)
    requires Ratios(hull, means, hullCols, refCol).Ok? && c in hullCols
    ensures var d := Ratios(hull, means, hullCols, refCol).value;
      && hull.Has(c) && d.Has(RatioName(c, refCol))
      && d.Get(RatioName(c, refCol)) == Divide(ColumnSeries(hull, c), means).cells
  {
    var n := |hullCols| - 1;
    var init := hullCols[..n];
    var col := hullCols[n];
    RatiosStep(hull, means, hullCols, refCol);
    var d := Ratios(hull, means, init, refCol).value;
    var q := Divide(ColumnSeries(hull, col), means).cells;
    AssignEffect(d, RatioName(col, refCol), q);
    assert Ratios(hull, means, hullCols, refCol).value == Assign(d, RatioName(col, refCol), q);
    if c != col {
      var i :| 0 <= i < |hullCols| && hullCols[i] == c;
      assert init[i] == c;
      RatiosGet(hull, means, init, refCol, c);
      RatioNameInjective(c, col, refCol);
      assert d.Has(RatioName(c, refCol)) && RatioName(c, refCol) != RatioName(col, refCol);
    }
  }

  /** The mean reference area of a label: missing for a label the reference table lacks. */
  function MeanAt(area: Table, refCol: string, l: Label): Cell
    requires area.Valid() && area.Has(refCol)
  {
    if l in area.index && l != Missing then MeanOf(ColumnSeries(area, refCol), l) else Missing
  }

  /** Looking a label up in the grouped means gives that label's mean. */
  lemma MeansLookup(area: Table, refCol: string, l: Label)
    requires area.Valid() && area.Has(refCol)
    ensures var means := GroupMean(ColumnSeries(area, refCol));
      Lookup(means.index, means.cells, l) == MeanAt(area, refCol, l)
  {
    var means := GroupMean(ColumnSeries(area, refCol));
    if l in means.index {
      var k := LabelPos(means.index, l);
      assert means.cells[k] == MeanOf(ColumnSeries(area, refCol), l);
    }
  }

  /**
   * get_compactness fails only on a missing or non-numeric reference or hull column; the
   * two consistency checks never make it fail.
   */
  lemma CompactnessOk(hull: Table, area: Table, hullCols: seq<string>, refCol: string)
    requires CompactnessInputs(hull, area, refCol)
    ensures CompactnessOf(hull, area, hullCols, refCol).Ok? <==>
      && area.Has(refCol) && NumericCells(area.Get(refCol))
      && forall col | col in hullCols :: Readable(hull, col)
  {
    if RefMeans(area, refCol).Ok? {
      RatiosOk(hull, RefMeans(area, refCol).value, hullCols, refCol);
    }
  }

  /**
   * The ratio table: one `<col>_to_<ref>` column per hull column. Its index is every hull
   * row's ID, a repeated ID included, then the IDs only the reference table has. Each hull
   * row's cell is its own hull value over its ID's mean reference area; the rows after them
   * are missing.
   */
  lemma CompactnessValues(hull: Table, area: Table, hullCols: seq<string>, refCol: string, col: string, i: nat)
    requires CompactnessInputs(hull, area, refCol)
    requires CompactnessOf(hull, area, hullCols, refCol).Ok?
    requires col in hullCols
    ensures var t := CompactnessOf(hull, area, hullCols, refCol).value.table;
      && t.Valid() && UniqueNames(t)
      && (Distinct(hull.index) ==> Distinct(t.index))
      && |hull.index| <= |t.index| && t.index[..|hull.index|] == hull.index
      && (forall l :: l in t.index <==> l in hull.index || (l in area.index && l != Missing))
      && (forall n :: t.Has(n) <==> RatioOf(hullCols, refCol, n))
      && hull.Has(col) && area.Has(refCol) && |hull.Get(col)| == |hull.index|
      && t.Has(RatioName(col, refCol)) && |t.Get(RatioName(col, refCol))| == |t.index|
      && (i < |hull.index| ==>
            MeanAt(area, refCol, hull.index[i]) != Num(0.0) &&
            t.Get(RatioName(col, refCol))[i] == Quot(hull.Get(col)[i], MeanAt(area, refCol, hull.index[i])))
      && (|hull.index| <= i < |t.index| ==> t.Get(RatioName(col, refCol))[i] == Missing)
  {
    var means := RefMeans(area, refCol).value;
    var s := ColumnSeries(area, refCol);
    var d := Ratios(hull, means, hullCols, refCol).value;
    RatiosNames(hull, means, hullCols, refCol);
    RatiosGet(hull, means, hullCols, refCol, col);
    GetLength(hull, col);
    GetLength(d, RatioName(col, refCol));
    assert forall l :: l in means.index <==> l in area.index && l != Missing;
    if i < |d.index| {
      var l := d.index[i];
      MeansLookup(area, refCol, l);
      if l in means.index {
        assert means.cells[LabelPos(means.index, l)] != Num(0.0);
      }
    }
  }

  /** A sequence without repeats has as many elements as it has members. */
  lemma {:induction false} DistinctCard(s: seq<Label>)
    requires Distinct(s)
    ensures |set l | l in s| == |s|
  {
    if s != [] {
      var n := |s| - 1;
      assert Distinct(s[..n]);
      DistinctCard(s[..n]);
      assert s[n] !in s[..n];
      assert (set l | l in s) == (set l | l in s[..n]) + {s[n]} by {
        assert s == s[..n] + [s[n]];
      }
    }
  }

  /** Without a missing label, keeping or dropping the missing label gives the same labels. */
  lemma {:induction false} LabelsNoMissing(index: seq<Label>)
    requires Missing !in index
    ensures Labels(index, true) == Labels(index, false)
  {
    if index != [] {
      assert Missing !in index[..|index| - 1];
      LabelsNoMissing(index[..|index| - 1]);
    }
  }

  /**
   * The first-occurrence values equal the means exactly when no row lacks its label and
   * every label's first value is its mean.
   */
  lemma FirstsEqualMeans(s: Series)
    requires |s.cells| == |s.index|
    ensures FirstPerLabel(s) == GroupMean(s) <==>
      Missing !in s.index && forall l | l in s.index :: Lookup(s.index, s.cells, l) == MeanOf(s, l)
  {
    var firsts, means := FirstPerLabel(s), GroupMean(s);
    if Missing in s.index {
      assert Missing in firsts.index && Missing !in means.index;
    } else {
      LabelsNoMissing(s.index);
      var ls := Labels(s.index, false);
      assert firsts.index == ls == means.index;
      if exists l | l in s.index :: Lookup(s.index, s.cells, l) != MeanOf(s, l) {
        var l :| l in s.index && Lookup(s.index, s.cells, l) != MeanOf(s, l);
        var k :| 0 <= k < |ls| && ls[k] == l;
        assert firsts.cells[k] != means.cells[k];
      }
      if firsts != means {
        assert firsts.cells != means.cells;
        var k :| 0 <= k < |ls| && firsts.cells[k] != means.cells[k];
        assert ls[k] in s.index;
      }
    }
  }

  /**
   * The two warnings. The first is raised exactly when some row has no building ID, or
   * some building's first reference area differs from its mean area; so never when every
   * row carries its own building ID. The second is raised exactly when the number of
   * building IDs in the reference table differs from the number of hull rows.
   */
  lemma CompactnessWarnings(hull: Table, area: Table, hullCols: seq<string>, refCol: string)
    requires CompactnessInputs(hull, area, refCol)
    requires CompactnessOf(hull, area, hullCols, refCol).Ok?
    ensures area.Has(refCol)
    ensures var c := CompactnessOf(hull, area, hullCols, refCol).value;
      && (c.firstMismatch <==>
            Missing in area.index ||
            exists l | l in area.index :: Lookup(area.index, area.Get(refCol), l) != MeanAt(area, refCol, l))
      && (Distinct(area.index) && Missing !in area.index ==> !c.firstMismatch)
      && (c.countMismatch <==> |set l | l in area.index && l != Missing| != |hull.index|)
  {
    var s := ColumnSeries(area, refCol);
    var ls := Labels(s.index, false);
    DistinctCard(ls);
    assert (set l | l in ls) == (set l | l in area.index && l != Missing);
    FirstsEqualMeans(s);
    if Distinct(area.index) && Missing !in area.index {
      forall k | 0 <= k < |s.cells| ensures !s.cells[k].Text? {
        assert s.cells[k] in area.Get(refCol);
      }
      FirstsAreMeans(s);
    }
  }

  /** The grouped mean and the first value of one building listed with areas 100 and 105. */
  lemma TwoRowSeries()
    ensures var s := Series([Text("B1"), Text("B1")], [Num(100.0), Num(105.0)]);
      GroupMean(s) == Series([Text("B1")], [Num(102.5)]) &&
      FirstPerLabel(s) == Series([Text("B1")], [Num(100.0)])
  {
    var s := Series([Text("B1"), Text("B1")], [Num(100.0), Num(105.0)]);
    MeanExample();
    assert s.index[..1] == [Text("B1")] && [Text("B1")][..0] == [];
    assert Labels(s.index, false) == [Text("B1")];
    assert Labels(s.index, true) == [Text("B1")];
  }

  /** The area table of the example below: building `B1` listed with areas 100 and 105. */
  lemma TwoRowArea(area: Table)
    requires area == Table([Text("B1"), Text("B1")], [Column(DEFAULT_REF_COL, [Num(100.0), Num(105.0)])])
    ensures area.Valid() && area.Has(DEFAULT_REF_COL) && NumericCells(area.Get(DEFAULT_REF_COL))
    ensures RefMeans(area, DEFAULT_REF_COL) == Ok(Series([Text("B1")], [Num(102.5)]))
    ensures FirstPerLabel(ColumnSeries(area, DEFAULT_REF_COL)) == Series([Text("B1")], [Num(100.0)])
  {
    assert area.Names() == [DEFAULT_REF_COL];
    assert area.Get(DEFAULT_REF_COL) == [Num(100.0), Num(105.0)];
    assert ColumnSeries(area, DEFAULT_REF_COL) == Series([Text("B1"), Text("B1")], [Num(100.0), Num(105.0)]);
    TwoRowSeries();
  }

  /**
   * One building listed twice with reference areas 100 and 105: its first area is not the
   * mean 102.5, so the first warning is raised; one building on each side, so the second
   * is not.
   */
  lemma FirstMismatchExample()
    ensures var area := Table([Text("B1"), Text("B1")], [Column(DEFAULT_REF_COL, [Num(100.0), Num(105.0)])]);
      var hull := Table([Text("B1")], [Column("walls", [Num(50.0)])]);
      && CompactnessInputs(hull, area, DEFAULT_REF_COL)
      && CompactnessOf(hull, area, ["walls"], DEFAULT_REF_COL).Ok?
      && CompactnessOf(hull, area, ["walls"], DEFAULT_REF_COL).value.firstMismatch
      && !CompactnessOf(hull, area, ["walls"], DEFAULT_REF_COL).value.countMismatch
  {
    var area := Table([Text("B1"), Text("B1")], [Column(DEFAULT_REF_COL, [Num(100.0), Num(105.0)])]);
    var hull := Table([Text("B1")], [Column("walls", [Num(50.0)])]);
    TwoRowArea(area);
    OneHullRowRatios(hull, Series([Text("B1")], [Num(102.5)]));
  }

  /** The ratio loop of the example above succeeds: `walls` is present and numeric. */
  lemma OneHullRowRatios(hull: Table, means: Series)
    requires hull == Table([Text("B1")], [Column("walls", [Num(50.0)])])
    requires means == Series([Text("B1")], [Num(102.5)])
    ensures hull.Valid() && NonZero(means) && Ratios(hull, means, ["walls"], DEFAULT_REF_COL).Ok?
  {
    assert hull.Names() == ["walls"] && Readable(hull, "walls");
    assert ["walls"][..0] == [];
    RatiosStepOk(hull, means, ["walls"], DEFAULT_REF_COL);
  }

  /** Aligned division with a repeated ID: both rows of `B1` are kept, each over `B1`'s mean. */
  lemma RepeatedIdDivide()
    ensures Divide(Series([Text("B1"), Text("B1")], [Num(40.0), Num(60.0)]), Series([Text("B1")], [Num(100.0)]))
      == Series([Text("B1"), Text("B1")], [Num(0.4), Num(0.6)])
  {
    var h := Series([Text("B1"), Text("B1")], [Num(40.0), Num(60.0)]);
    var g := Series([Text("B1")], [Num(100.0)]);
    assert Extra(h.index, g.index) == [];
    assert Union(h.index, g.index) == h.index;
    assert Lookup(g.index, g.cells, Text("B1")) == Num(100.0);
  }

  /** The reference table of the example below: building `B1` once, with area 100. */
  lemma OneRowArea(area: Table)
    requires area == Table([Text("B1")], [Column(DEFAULT_REF_COL, [Num(100.0)])])
    ensures area.Valid() && area.Has(DEFAULT_REF_COL) && NumericCells(area.Get(DEFAULT_REF_COL))
    ensures RefMeans(area, DEFAULT_REF_COL) == Ok(Series([Text("B1")], [Num(100.0)]))
    ensures FirstPerLabel(ColumnSeries(area, DEFAULT_REF_COL)) == Series([Text("B1")], [Num(100.0)])
  {
    assert area.Names() == [DEFAULT_REF_COL];
    assert area.Get(DEFAULT_REF_COL) == [Num(100.0)];
    var s := ColumnSeries(area, DEFAULT_REF_COL);
    assert s == Series([Text("B1")], [Num(100.0)]);
    SingleMean(s, 0);
    assert MeanOf(s, Text("B1")) == Num(100.0);
    assert s.index[..0] == [];
    assert Labels(s.index, false) == [Text("B1")];
    assert Labels(s.index, true) == [Text("B1")];
    assert GroupMean(s).cells == [Num(100.0)];
  }

  /** The ratio loop of the example below, over the single hull column `walls`. */
  lemma RepeatedIdRatios(hull: Table, means: Series)
    requires hull == Table([Text("B1"), Text("B1")], [Column("walls", [Num(40.0), Num(60.0)])])
    requires means == Series([Text("B1")], [Num(100.0)])
    ensures hull.Valid() && NonZero(means)
    ensures Ratios(hull, means, ["walls"], DEFAULT_REF_COL) ==
      Ok(Table([Text("B1"), Text("B1")], [Column("walls_to_GFA_m2", [Num(0.4), Num(0.6)])]))
  {
    assert hull.Names() == ["walls"] && Readable(hull, "walls");
    assert ColumnSeries(hull, "walls") == Series([Text("B1"), Text("B1")], [Num(40.0), Num(60.0)]);
    RepeatedIdDivide();
    var empty := Table([Text("B1"), Text("B1")], []);
    assert ["walls"][..0] == [];
    assert Ratios(hull, means, [], DEFAULT_REF_COL) == Ok(empty) by {
      assert Extra(hull.index, means.index) == [];
    }
    assert !empty.Has("walls_to_GFA_m2");
    assert RatioName("walls", DEFAULT_REF_COL) == "walls_to_GFA_m2";
    var q := Divide(ColumnSeries(hull, "walls"), means).cells;
    assert q == [Num(0.4), Num(0.6)];
    assert Ratios(hull, means, ["walls"], DEFAULT_REF_COL) == Ok(Assign(empty, "walls_to_GFA_m2", q));
    assert Assign(empty, "walls_to_GFA_m2", q) ==
      Table([Text("B1"), Text("B1")], [Column("walls_to_GFA_m2", [Num(0.4), Num(0.6)])]);
  }

  /**
   * A hull that lists building `B1` twice, with walls 40 and 60, against a reference area of
   * 100: both hull rows are kept, as 0.4 and 0.6, and the row counts differ, so only the
   * second warning is raised.
   */
  lemma RepeatedIdExample()
    ensures var area := Table([Text("B1")], [Column(DEFAULT_REF_COL, [Num(100.0)])]);
      var hull := Table([Text("B1"), Text("B1")], [Column("walls", [Num(40.0), Num(60.0)])]);
      && CompactnessInputs(hull, area, DEFAULT_REF_COL)
      && CompactnessOf(hull, area, ["walls"], DEFAULT_REF_COL) ==
           Ok(Compactness(Table([Text("B1"), Text("B1")], [Column("walls_to_GFA_m2", [Num(0.4), Num(0.6)])]), false, true))
  {
    var area := Table([Text("B1")], [Column(DEFAULT_REF_COL, [Num(100.0)])]);
    var hull := Table([Text("B1"), Text("B1")], [Column("walls", [Num(40.0), Num(60.0)])]);
    OneRowArea(area);
    RepeatedIdRatios(hull, Series([Text("B1")], [Num(100.0)]));
  }

  /** An error part-way through the loop is the loop's error. */
  lemma {:induction false} RatiosPrefixErr(hull: Table, means: Series, hullCols: seq<string>, refCol: string, i: nat)
    requires hull.Valid() && |means.cells| == |means.index| && NonZero(means)
    requires i <= |hullCols| && Ratios(hull, means, hullCols[..i], refCol).Err?
    ensures Ratios(hull, means, hullCols, refCol) == Ratios(hull, means, hullCols[..i], refCol)
    decreases |hullCols| - i
  {
    if i < |hullCols| {
      assert hullCols[..i + 1][..i] == hullCols[..i];
      RatiosPrefixErr(hull, means, hullCols, refCol, i + 1);
    } else {
      assert hullCols[..i] == hullCols;
    }
  }

  /**
   * get_compactness: the mean reference area per ID, the two consistency warnings as flags,
   * then one ratio column per hull column.
   */
  method GetCompactness(hull: Table, area: Table, hullCols: seq<string>, refCol: string)
    returns (r: Result<Compactness, Error>)
    requires CompactnessInputs(hull, area, refCol)
    ensures r == CompactnessOf(hull, area, hullCols, refCol)
  {
    var means :- RefMeans(area, refCol);
    var firsts := FirstPerLabel(ColumnSeries(area, refCol));
    var firstMismatch := firsts != means;
    var countMismatch := |means.index| != |hull.index|;
    var d := Table(Union(hull.index, means.index), []);
    for i := 0 to |hullCols|
      invariant Ratios(hull, means, hullCols[..i], refCol) == Ok(d)
    {
      assert hullCols[..i + 1][..i] == hullCols[..i];
      var col := hullCols[i];
      if !hull.Has(col) {
        RatiosPrefixErr(hull, means, hullCols, refCol, i + 1);
        return Err(MissingColumn(col));
      }
      if !NumericCells(hull.Get(col)) {
        RatiosPrefixErr(hull, means, hullCols, refCol, i + 1);
        return Err(NonNumeric(col));
      }
      d := Assign(d, RatioName(col, refCol), Divide(ColumnSeries(hull, col), means).cells);
    }
    assert hullCols[..|hullCols|] == hullCols;
    if d.cols == [] {
      d := EMPTY;
    }
    return Ok(Compactness(d, firstMismatch, countMismatch));
  }
}
