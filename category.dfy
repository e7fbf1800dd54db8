/**
 * Category binning (add_compactness_category_col): a labelled column cut from a numeric
 * one with right-closed intervals, the lowest edge included, written into the frame.
 */
module Category {
  import opened Wrappers
  import opened Frames

  const DEFAULT_SOURCE_COL: string := "hull_ag_to_GFA_m2"
  const DEFAULT_CATEGORY_COL: string := "compact_category"

  /** Bin edges pandas accepts: strictly increasing. */
  predicate Increasing(bins: seq<real>) {
    forall i, j | 0 <= i < j < |bins| :: bins[i] < bins[j]
  }

  /** Whether `x` falls in bin `i`: (bins[i], bins[i+1]], the first bin also holding bins[0]. */
  predicate InBin(x: real, bins: seq<real>, i: nat)
    requires i + 1 < |bins|
  {
    (bins[i] < x <= bins[i + 1]) || (i == 0 && x == bins[0])
  }

  /** The first bin from `i` on that holds `x`. */
  function BinFrom(x: real, bins: seq<real>, i: nat): (r: Option<nat>)
    requires i <= |bins|
    ensures r.Some? ==> i <= r.value && r.value + 1 < |bins| && InBin(x, bins, r.value)
    decreases |bins| - i
  {
    if i + 1 >= |bins| then None
    else if InBin(x, bins, i) then Some(i)
    else BinFrom(x, bins, i + 1)
  }

  /** The label `pd.cut` gives one cell; numbers outside every bin and missing values get none. */
  function CutCell(c: Cell, bins: seq<real>, labels: seq<string>): Cell
    requires |bins| == |labels| + 1
  {
    if c.Num? then
      match BinFrom(c.x, bins, 0)
      case Some(i) => Text(labels[i])
      case None => Missing
    else Missing
  }

  /** `pd.cut(values, bins=bins, labels=labels, include_lowest=True)`. */
  function Cut(values: seq<Cell>, bins: seq<real>, labels: seq<string>): (r: seq<Cell>)
    requires |bins| == |labels| + 1
    ensures |r| == |values|
  {
    seq(|values|, i requires 0 <= i < |values| => CutCell(values[i], bins, labels))
  }

  /** add_compactness_category_col as a value: the frame with the category column set. */
  function Categorized(t: Table, bins: seq<real>, labels: seq<string>, col: string, name: string): Result<Table, Error>
    requires t.Valid()
  {
    if |bins| != |labels| + 1 then Err(BinLabelMismatch(|bins|, |labels|))
    else if !t.Has(col) then Err(MissingColumn(col))
    else if !NumericCells(t.Get(col)) then Err(NonNumeric(col))
    else Ok(Assign(t, name, Cut(t.Get(col), bins, labels)))
  }

  /** What pd.cut demands beyond the count check: increasing edges and distinct labels. */
  predicate CutInputs(bins: seq<real>, labels: seq<string>) {
    |bins| == |labels| + 1 ==> Increasing(bins) && Distinct(labels)
  }

  /**
   * add_compactness_category_col: refuses a bin count that is not one more than the label
   * count, otherwise sets the category column on the given frame and returns that frame.
   */
  method AddCompactnessCategoryCol(df: DataFrame, bins: seq<real>, labels: seq<string>, col: string, name: string)
    returns (r: Result<DataFrame, Error>)
    requires df.Value().Valid() && CutInputs(bins, labels)
    modifies df
    ensures Categorized(old(df.Value()), bins, labels, col, name).Err? ==>
      r == Err(Categorized(old(df.Value()), bins, labels, col, name).error) && unchanged(df)
    ensures Categorized(old(df.Value()), bins, labels, col, name).Ok? ==>
      r == Ok(df) && df.Value() == Categorized(old(df.Value()), bins, labels, col, name).value
  {
    if |bins| != |labels| + 1 {
      return Err(BinLabelMismatch(|bins|, |labels|));
    }
    var t := df.Value();
    if !t.Has(col) {
      return Err(MissingColumn(col));
    }
    if !NumericCells(t.Get(col)) {
      return Err(NonNumeric(col));
    }
    df.SetColumn(name, Cut(t.Get(col), bins, labels));
    return Ok(df);
  }

  /** The count check: the call fails on it exactly when there is not one more edge than labels. */
  lemma CountCheck(t: Table, bins: seq<real>, labels: seq<string>, col: string, name: string)
    requires t.Valid()
    ensures Categorized(t, bins, labels, col, name) == Err(BinLabelMismatch(|bins|, |labels|)) <==>
      |bins| != |labels| + 1
  {
  }

  /** With increasing edges a number lies in at most one bin. */
  lemma InBinUnique(x: real, bins: seq<real>, i: nat, j: nat)
    requires Increasing(bins) && i + 1 < |bins| && j + 1 < |bins|
    requires InBin(x, bins, i) && InBin(x, bins, j)
    ensures i == j
  {
  }

  /** No bin from `i` on holds `x` when the search finds none. */
  lemma {:induction false} BinFromNone(x: real, bins: seq<real>, i: nat, j: nat)
    requires i <= j && j + 1 < |bins| && BinFrom(x, bins, i).None?
    ensures !InBin(x, bins, j)
    decreases j - i
  {
    if i < j {
      BinFromNone(x, bins, i + 1, j);
    }
  }

  /**
   * Label `i` goes to exactly the numbers in (bins[i], bins[i+1]], plus bins[0] for the
   * first label; every other number gets a missing label.
   */
  lemma CutCellSpec(x: real, bins: seq<real>, labels: seq<string>, i: nat)
    requires |bins| == |labels| + 1 && Increasing(bins) && Distinct(labels) && i < |labels|
    ensures CutCell(Num(x), bins, labels) == Text(labels[i]) <==> InBin(x, bins, i)
    ensures CutCell(Num(x), bins, labels) == Missing <==> forall j | 0 <= j < |labels| :: !InBin(x, bins, j)
  {
    match BinFrom(x, bins, 0)
    case Some(k) =>
      if InBin(x, bins, i) {
        InBinUnique(x, bins, i, k);
      }
    case None =>
      BinFromNone(x, bins, 0, i);
      forall j | 0 <= j < |labels| ensures !InBin(x, bins, j) {
        BinFromNone(x, bins, 0, j);
      }
  }

  /** Below the lowest edge or above the highest, the label is missing. */
  lemma OutOfRange(x: real, bins: seq<real>, labels: seq<string>)
    requires |bins| == |labels| + 1 && Increasing(bins) && Distinct(labels)
    requires x < bins[0] || x > bins[|bins| - 1]
    ensures CutCell(Num(x), bins, labels) == Missing
  {
    forall j | 0 <= j < |labels| ensures !InBin(x, bins, j) {
      assert bins[0] <= bins[j] && bins[j + 1] <= bins[|bins| - 1];
    }
    if |labels| > 0 {
      CutCellSpec(x, bins, labels, 0);
    }
  }

  /** With edges 0, 1, 2, 3: 1.5 is `mid`, the lowest edge 0 is `low`, 3 is `high`, 3.5 has no label. */
  lemma CutExample()
    ensures var bins := [0.0, 1.0, 2.0, 3.0];
      var labels := ["low", "mid", "high"];
      && CutCell(Num(1.5), bins, labels) == Text("mid")
      && CutCell(Num(0.0), bins, labels) == Text("low")
      && CutCell(Num(3.0), bins, labels) == Text("high")
      && CutCell(Num(3.5), bins, labels) == Missing
  {
  }

  /**
   * After the call the frame has the category column, holding the cut of the source column
   * row by row, and every other column as before.
   */
  lemma CategorizedEffect(t: Table, bins: seq<real>, labels: seq<string>, col: string, name: string)
    requires t.Valid() && Categorized(t, bins, labels, col, name).Ok?
    ensures var r := Categorized(t, bins, labels, col, name).value;
      && r.Valid() && r.index == t.index && r.Has(name) && (UniqueNames(t) ==> UniqueNames(r))
      && |t.Get(col)| == |t.index|
      && (forall i | 0 <= i < |t.index| :: r.Get(name)[i] == CutCell(t.Get(col)[i], bins, labels))
      && (forall n | n != name && t.Has(n) :: r.Has(n) && r.Get(n) == t.Get(n))
  {
    GetLength(t, col);
    AssignEffect(t, name, Cut(t.Get(col), bins, labels));
  }
}
