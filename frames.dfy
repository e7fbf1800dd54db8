/**
 * The slice of pandas the pipeline relies on, as values: a table is a row index
 * plus an ordered list of named columns, each cell a number, a string or the
 * missing value (NaN).
 */
module Frames {
  import opened Wrappers

  /** One cell of a DataFrame; `Missing` is pandas' NaN/None. */
  datatype Cell = Missing | Num(x: real) | Text(s: string)

  /** Row-index labels are cell values: building IDs are `Text`, a RangeIndex is `Num(0)`, `Num(1)`, ... */
  type Label = Cell

  /** The exceptions the pipeline can raise. */
  datatype Error =
    | MissingColumn(name: string)            // KeyError on df[name]
    | MissingPath(path: string)              // FileNotFoundError on a directory listing or a CSV
    | NoScenarios                            // IndexError on scenario_subdirs[0]
    | NothingToConcatenate                   // ValueError from pd.concat([])
    | ColumnExists(name: string)             // ValueError from DataFrame.insert
    | InsertOutOfRange(position: nat, width: nat)  // IndexError from DataFrame.insert
    | NonNumeric(name: string)               // TypeError in arithmetic on a string column
    | DuplicateLabels                        // ValueError from reindex on a repeated index
    | BinLabelMismatch(bins: nat, labels: nat)  // ValueError raised by the category binning

  datatype Column = Column(name: string, cells: seq<Cell>)

  function NamesOf(cols: seq<Column>): seq<string> {
    seq(|cols|, i requires 0 <= i < |cols| => cols[i].name)
  }

  /** Position of the first column called `name` (where `df[name]` looks). */
  function FirstPos(cols: seq<Column>, name: string): (k: nat)
    requires name in NamesOf(cols)
    ensures k < |cols| && cols[k].name == name
    ensures forall j | 0 <= j < k :: cols[j].name != name
  {
    if cols[0].name == name then 0
    else
      assert name in NamesOf(cols[1..]) by {
        var i :| 0 <= i < |cols| && NamesOf(cols)[i] == name;
        assert NamesOf(cols[1..])[i - 1] == name;
      }
      1 + FirstPos(cols[1..], name)
  }

  datatype Table = Table(index: seq<Label>, cols: seq<Column>) {
    /** Every column has one cell per row. */
    predicate Valid() {
      forall c | c in cols :: |c.cells| == |index|
    }

    function Names(): seq<string> {
      NamesOf(cols)
    }

    predicate Has(name: string) {
      name in Names()
    }

    /** `df[name]` */
    function Get(name: string): seq<Cell>
      requires Has(name)
    {
      cols[FirstPos(cols, name)].cells
    }
  }

  /** What `pd.DataFrame({})` builds: no columns and no rows. */
  const EMPTY: Table := Table([], [])

  predicate Distinct<T(==)>(s: seq<T>) {
    forall i, j | 0 <= i < j < |s| :: s[i] != s[j]
  }

  predicate UniqueNames(t: Table) {
    Distinct(t.Names())
  }

  /** A column pandas treats as numeric: it holds no string. */
  predicate NumericCells(cells: seq<Cell>) {
    forall x | x in cells :: !x.Text?
  }

  predicate AllValid(ts: seq<Table>) {
    forall t | t in ts :: t.Valid()
  }

  function Fill(n: nat, c: Cell): seq<Cell> {
    seq(n, _ => c)
  }

  lemma GetLength(t: Table, name: string)
    requires t.Valid() && t.Has(name)
    ensures |t.Get(name)| == |t.index|
  {
    assert t.cols[FirstPos(t.cols, name)] in t.cols;
  }

  /** With unique names, `df[name]` is the column that carries the name. */
  lemma GetUnique(t: Table, k: nat)
    requires UniqueNames(t) && k < |t.cols|
    ensures t.Has(t.cols[k].name) && t.Get(t.cols[k].name) == t.cols[k].cells
  {
    assert t.Names()[k] == t.cols[k].name;
    var q := FirstPos(t.cols, t.cols[k].name);
    assert t.Names()[q] == t.Names()[k];
  }

  /** `df[name] = cells`: overwrite the column in its place when the name exists, append it otherwise. */
  function Assign(t: Table, name: string, cells: seq<Cell>): Table {
    if t.Has(name) then Table(t.index, t.cols[FirstPos(t.cols, name) := Column(name, cells)])
    else Table(t.index, t.cols + [Column(name, cells)])
  }

  /** The first column carrying a name is the one no earlier column shares it with. */
  lemma FirstPosAt(cols: seq<Column>, name: string, k: nat)
    requires k < |cols| && cols[k].name == name
    requires forall j | 0 <= j < k :: cols[j].name != name
    ensures name in NamesOf(cols) && FirstPos(cols, name) == k
  {
    assert NamesOf(cols)[k] == name;
  }

  /** Assignment sets exactly the one column, keeps the position of an existing one and changes nothing else. */
  lemma AssignEffect(t: Table, name: string, cells: seq<Cell>)
    requires t.Valid() && |cells| == |t.index|
    ensures var r := Assign(t, name, cells);
      && r.Valid() && r.index == t.index
      && r.Names() == (if t.Has(name) then t.Names() else t.Names() + [name])
      && r.Has(name) && r.Get(name) == cells
      && (forall n | n != name && t.Has(n) :: r.Has(n) && r.Get(n) == t.Get(n))
      && (UniqueNames(t) ==> UniqueNames(r))
  {
    var r := Assign(t, name, cells);
    if t.Has(name) {
      var p := FirstPos(t.cols, name);
      assert r.Names() == t.Names();
      FirstPosAt(r.cols, name, p);
    } else {
      assert r.Names() == t.Names() + [name];
      forall j | 0 <= j < |t.cols| ensures r.cols[j].name != name {
        assert t.Names()[j] == t.cols[j].name;
      }
      FirstPosAt(r.cols, name, |t.cols|);
    }
    forall n | n != name && t.Has(n)
      ensures r.Has(n) && r.Get(n) == t.Get(n)
    {
      var q := FirstPos(t.cols, n);
      FirstPosAt(r.cols, n, q);
    }
  }

  /** After an assignment the frame has the assigned name and the names it had. */
  lemma AssignHas(t: Table, name: string, cells: seq<Cell>)
    requires t.Valid() && |cells| == |t.index|
    ensures forall n :: Assign(t, name, cells).Has(n) <==> t.Has(n) || n == name
  {
    AssignEffect(t, name, cells);
  }

  // ----- pd.concat(frames, ignore_index=True) -----

  function TotalRows(ts: seq<Table>): nat {
    if ts == [] then 0 else TotalRows(ts[..|ts| - 1]) + |ts[|ts| - 1].index|
  }

  /** A table's column, or missing values when the table lacks it (concat fills, it does not zero). */
  function CellsOrFill(t: Table, name: string): seq<Cell> {
    if t.Has(name) then t.Get(name) else Fill(|t.index|, Missing)
  }

  /** The named column of every table, one block after the other. */
  function Stacked(ts: seq<Table>, name: string): (r: seq<Cell>)
    requires AllValid(ts)
    ensures |r| == TotalRows(ts)
  {
    if ts == [] then []
    else
      var last := ts[|ts| - 1];
      assert |CellsOrFill(last, name)| == |last.index| by {
        assert last in ts;
        if last.Has(name) { GetLength(last, name); }
      }
      Stacked(ts[..|ts| - 1], name) + CellsOrFill(last, name)
  }

  /** Append the names not seen yet, in order. */
  function AppendNew(acc: seq<string>, names: seq<string>): seq<string>
    decreases |names|
  {
    if names == [] then acc
    else AppendNew(if names[0] in acc then acc else acc + [names[0]], names[1..])
  }

  lemma {:induction false} AppendNewProps(acc: seq<string>, names: seq<string>)
    requires Distinct(acc)
    ensures Distinct(AppendNew(acc, names))
    ensures forall n :: n in AppendNew(acc, names) <==> n in acc || n in names
    ensures |AppendNew(acc, names)| >= |acc| && AppendNew(acc, names)[..|acc|] == acc
    decreases |names|
  {
    if names != [] {
      var next := if names[0] in acc then acc else acc + [names[0]];
      AppendNewProps(next, names[1..]);
      assert names == [names[0]] + names[1..];
      assert next[..|acc|] == acc;
    }
  }

  /** The column labels of a row-wise concat: the union in order of first appearance. */
  function UnionNames(ts: seq<Table>): seq<string> {
    if ts == [] then [] else AppendNew(UnionNames(ts[..|ts| - 1]), ts[|ts| - 1].Names())
  }

  lemma {:induction false} UnionNamesProps(ts: seq<Table>)
    ensures Distinct(UnionNames(ts))
    ensures forall n :: n in UnionNames(ts) <==> exists k | 0 <= k < |ts| :: ts[k].Has(n)
  {
    if ts != [] {
      var init := ts[..|ts| - 1];
      UnionNamesProps(init);
      AppendNewProps(UnionNames(init), ts[|ts| - 1].Names());
      forall n ensures n in UnionNames(ts) <==> exists k | 0 <= k < |ts| :: ts[k].Has(n) {
        if n in UnionNames(init) {
          var k :| 0 <= k < |init| && init[k].Has(n);
          assert ts[k].Has(n);
        }
        if exists k | 0 <= k < |ts| :: ts[k].Has(n) {
          var k :| 0 <= k < |ts| && ts[k].Has(n);
          if k < |init| { assert init[k].Has(n); }
        }
      }
    }
  }

  /**
   * Order of first appearance: the union over the first `k` tables is a prefix of the
   * whole union, so a column first seen in an earlier table comes before one first seen
   * in a later table.
   */
  lemma {:induction false} UnionNamesOrder(ts: seq<Table>, k: nat)
    requires k <= |ts|
    ensures |UnionNames(ts[..k])| <= |UnionNames(ts)|
    ensures UnionNames(ts)[..|UnionNames(ts[..k])|] == UnionNames(ts[..k])
    decreases |ts| - k
  {
    if k < |ts| {
      UnionNamesOrder(ts, k + 1);
      var u := UnionNames(ts[..k]);
      var v := UnionNames(ts[..k + 1]);
      assert ts[..k + 1][..k] == ts[..k];
      UnionNamesProps(ts[..k]);
      AppendNewProps(u, ts[k].Names());
      assert v == AppendNew(u, ts[k].Names());
      assert UnionNames(ts)[..|v|][..|u|] == UnionNames(ts)[..|u|];
    } else {
      assert ts[..k] == ts;
    }
  }

  function RangeIndex(n: nat): seq<Label> {
    seq(n, i => Num(i as real))
  }

  /** `pd.concat(ts, ignore_index=True)`: rows stacked, columns unioned, a fresh RangeIndex. */
  function RowConcat(ts: seq<Table>): Result<Table, Error>
    requires AllValid(ts)
  {
    if ts == [] then Err(NothingToConcatenate)
    else
      var names := UnionNames(ts);
      Ok(Table(RangeIndex(TotalRows(ts)),
               seq(|names|, i requires 0 <= i < |names| => Column(names[i], Stacked(ts, names[i])))))
  }

  /** Row `j` of table `k` lands at offset TotalRows(ts[..k]) + j, with its own cell or a missing value. */
  lemma {:induction false} StackedAt(ts: seq<Table>, name: string, k: nat, j: nat)
    requires AllValid(ts) && k < |ts| && j < |ts[k].index|
    ensures TotalRows(ts[..k]) + j < TotalRows(ts)
    ensures |CellsOrFill(ts[k], name)| == |ts[k].index|
    ensures Stacked(ts, name)[TotalRows(ts[..k]) + j] == CellsOrFill(ts[k], name)[j]
  {
    assert ts[k] in ts;
    if ts[k].Has(name) { GetLength(ts[k], name); }
    var init := ts[..|ts| - 1];
    if k == |ts| - 1 {
      assert ts[..k] == init;
    } else {
      assert init[..k] == ts[..k];
      assert init[k] == ts[k];
      StackedAt(init, name, k, j);
      TotalRowsPrefix(init, k);
    }
  }

  lemma {:induction false} TotalRowsPrefix(ts: seq<Table>, k: nat)
    requires k <= |ts|
    ensures TotalRows(ts[..k]) <= TotalRows(ts)
    decreases |ts|
  {
    if k < |ts| {
      assert ts[..|ts| - 1][..k] == ts[..k];
      TotalRowsPrefix(ts[..|ts| - 1], k);
    } else {
      assert ts[..k] == ts;
    }
  }

  /** Shape of a row-wise concat: every row of every table, the union of their columns, nothing invented. */
  lemma RowConcatEffect(ts: seq<Table>)
    requires AllValid(ts)
    ensures RowConcat(ts).Ok? <==> ts != []
    ensures RowConcat(ts).Ok? ==>
      var r := RowConcat(ts).value;
      && r.Valid() && UniqueNames(r)
      && |r.index| == TotalRows(ts)
      && r.Names() == UnionNames(ts)
      && (forall n :: r.Has(n) <==> exists k | 0 <= k < |ts| :: ts[k].Has(n))
      && (forall n | r.Has(n) :: r.Get(n) == Stacked(ts, n))
  {
    UnionNamesProps(ts);
    if ts != [] {
      var r := RowConcat(ts).value;
      assert r.Names() == UnionNames(ts);
      forall n | r.Has(n) ensures r.Get(n) == Stacked(ts, n) {
        var p :| 0 <= p < |r.cols| && r.Names()[p] == n;
        GetUnique(r, p);
      }
    }
  }

  /** Where row `j` of table `k` ends up in the concat, and what it holds there. */
  lemma RowConcatCell(ts: seq<Table>, k: nat, j: nat, name: string)
    requires AllValid(ts) && k < |ts| && j < |ts[k].index|
    ensures RowConcat(ts).Ok?
    ensures var r := RowConcat(ts).value;
      && TotalRows(ts[..k]) + j < |r.index|
      && |CellsOrFill(ts[k], name)| == |ts[k].index|
      && (ts[k].Has(name) ==> r.Has(name))
      && (r.Has(name) ==>
            |r.Get(name)| == |r.index| &&
            r.Get(name)[TotalRows(ts[..k]) + j] == CellsOrFill(ts[k], name)[j])
  {
    RowConcatEffect(ts);
    StackedAt(ts, name, k, j);
  }

  // ----- df.set_index(name) -----

  /** The columns without those called `name`. */
  function Drop(cols: seq<Column>, name: string): seq<Column> {
    if cols == [] then []
    else if cols[0].name == name then Drop(cols[1..], name)
    else [cols[0]] + Drop(cols[1..], name)
  }

  lemma {:induction false} DropMembers(cols: seq<Column>, name: string)
    ensures forall c | c in Drop(cols, name) :: c in cols && c.name != name
    ensures forall c | c in cols && c.name != name :: c in Drop(cols, name)
  {
    if cols != [] {
      DropMembers(cols[1..], name);
      assert cols == [cols[0]] + cols[1..];
    }
  }

  lemma {:induction false} DropDistinct(cols: seq<Column>, name: string)
    requires Distinct(NamesOf(cols))
    ensures Distinct(NamesOf(Drop(cols, name)))
  {
    if cols != [] {
      DistinctTail(cols);
      DropDistinct(cols[1..], name);
      if cols[0].name != name {
        var e := Drop(cols[1..], name);
        DropMembers(cols[1..], name);
        forall x | x in e ensures x.name != cols[0].name {
          HeadNameFresh(cols, x);
        }
        DistinctCons(cols[0], e);
      }
    }
  }

  lemma DistinctTail(cols: seq<Column>)
    requires cols != [] && Distinct(NamesOf(cols))
    ensures Distinct(NamesOf(cols[1..]))
  {
    forall i, j | 0 <= i < j < |cols| - 1 ensures NamesOf(cols[1..])[i] != NamesOf(cols[1..])[j] {
      assert NamesOf(cols)[i + 1] != NamesOf(cols)[j + 1];
    }
  }

  lemma HeadNameFresh(cols: seq<Column>, x: Column)
    requires cols != [] && Distinct(NamesOf(cols)) && x in cols[1..]
    ensures x.name != cols[0].name
  {
    var i :| 0 <= i < |cols| - 1 && cols[1..][i] == x;
    assert NamesOf(cols)[0] != NamesOf(cols)[i + 1];
  }

  lemma DistinctCons(c: Column, e: seq<Column>)
    requires Distinct(NamesOf(e)) && forall x | x in e :: x.name != c.name
    ensures Distinct(NamesOf([c] + e))
  {
    var d := [c] + e;
    forall i, j | 0 <= i < j < |d| ensures NamesOf(d)[i] != NamesOf(d)[j] {
      assert d[j] == e[j - 1];
      if i > 0 {
        assert NamesOf(e)[i - 1] != NamesOf(e)[j - 1];
      } else {
        assert e[j - 1] in e;
      }
    }
  }

  /** With unique names, the column called `name` is found wherever it sits. */
  lemma GetByMember(t: Table, c: Column)
    requires UniqueNames(t) && c in t.cols
    ensures t.Has(c.name) && t.Get(c.name) == c.cells
  {
    var k :| 0 <= k < |t.cols| && t.cols[k] == c;
    GetUnique(t, k);
  }

  /** `df.set_index(name)`: the column becomes the row index and leaves the columns. */
  function SetIndex(t: Table, name: string): Result<Table, Error> {
    if !t.Has(name) then Err(MissingColumn(name)) else Ok(Table(t.Get(name), Drop(t.cols, name)))
  }

  lemma SetIndexEffect(t: Table, name: string)
    requires t.Valid() && UniqueNames(t)
    ensures SetIndex(t, name).Ok? <==> t.Has(name)
    ensures SetIndex(t, name).Ok? ==>
      var r := SetIndex(t, name).value;
      && r.Valid() && UniqueNames(r) && r.index == t.Get(name) && !r.Has(name)
      && (forall n | n != name :: r.Has(n) <==> t.Has(n))
      && (forall n | n != name && t.Has(n) :: r.Get(n) == t.Get(n))
  {
    DropMembers(t.cols, name);
    DropDistinct(t.cols, name);
    if t.Has(name) {
      var r := SetIndex(t, name).value;
      GetLength(t, name);
      forall i | 0 <= i < |r.cols| ensures r.Names()[i] != name {
        assert r.cols[i] in r.cols;
      }
      forall n | n != name ensures r.Has(n) <==> t.Has(n) {
        if r.Has(n) {
          var i :| 0 <= i < |r.cols| && r.Names()[i] == n;
          assert r.cols[i] in r.cols;
          GetByMember(t, r.cols[i]);
        }
        if t.Has(n) {
          var i :| 0 <= i < |t.cols| && t.Names()[i] == n;
          assert t.cols[i] in t.cols;
          GetByMember(r, t.cols[i]);
        }
      }
      forall n | n != name && t.Has(n) ensures r.Get(n) == t.Get(n) {
        var i :| 0 <= i < |t.cols| && t.Names()[i] == n;
        assert t.cols[i] in t.cols;
        GetByMember(r, t.cols[i]);
        GetByMember(t, t.cols[i]);
      }
    }
  }

  // ----- df.reindex(target) -----

  /** Position of the first row labelled `l`. */
  function LabelPos(index: seq<Label>, l: Label): (k: nat)
    requires l in index
    ensures k < |index| && index[k] == l
    ensures forall j | 0 <= j < k :: index[j] != l
  {
    if index[0] == l then 0 else 1 + LabelPos(index[1..], l)
  }

  /** The cell at label `l`, missing when no row carries it. */
  function Lookup(index: seq<Label>, cells: seq<Cell>, l: Label): Cell
    requires |cells| == |index|
  {
    if l in index then cells[LabelPos(index, l)] else Missing
  }

  /**
   * `df.reindex(target)`, as in pandas 1.x: an identical index is kept as it is; otherwise
   * a repeated label in the table's own index is refused unless the target is empty, and
   * each target label takes the row that carries it, or missing values.
   */
  function Reindex(t: Table, target: seq<Label>): Result<Table, Error>
    requires t.Valid()
  {
    if t.index == target then Ok(t)
    else if !Distinct(t.index) && |target| > 0 then Err(DuplicateLabels)
    else
      Ok(Table(target, seq(|t.cols|, c requires 0 <= c < |t.cols| =>
        assert t.cols[c] in t.cols;
        Column(t.cols[c].name, seq(|target|, i requires 0 <= i < |target| => Lookup(t.index, t.cols[c].cells, target[i]))))))
  }

  lemma ReindexEffect(t: Table, target: seq<Label>)
    requires t.Valid()
    ensures Reindex(t, target).Err? <==> t.index != target && !Distinct(t.index) && |target| > 0
    ensures Reindex(t, target).Ok? ==>
      var r := Reindex(t, target).value;
      && r.Valid() && r.index == target && r.Names() == t.Names()
      && (UniqueNames(t) ==> UniqueNames(r))
      && (forall c, i | 0 <= c < |t.cols| && 0 <= i < |target| ::
            |t.cols[c].cells| == |t.index| &&
            r.cols[c].cells[i] ==
              if t.index == target then t.cols[c].cells[i] else Lookup(t.index, t.cols[c].cells, target[i]))
  {
    if Reindex(t, target).Ok? {
      var r := Reindex(t, target).value;
      forall c, i | 0 <= c < |t.cols| && 0 <= i < |target|
        ensures |t.cols[c].cells| == |t.index|
        ensures r.cols[c].cells[i] ==
          if t.index == target then t.cols[c].cells[i] else Lookup(t.index, t.cols[c].cells, target[i])
      {
        assert t.cols[c] in t.cols;
      }
    }
  }

  /** Looking a table's own label up again finds the same row when the index holds no repeats. */
  lemma LookupOwnRow(index: seq<Label>, cells: seq<Cell>, i: nat)
    requires |cells| == |index| && i < |index|
    ensures Distinct(index) ==> Lookup(index, cells, index[i]) == cells[i]
  {
  }

  // ----- df[[n1, n2, ...]] -----

  /** `df[names]`: the listed columns in the listed order; a missing one raises. */
  function Select(t: Table, names: seq<string>): Result<Table, Error> {
    if forall n | n in names :: t.Has(n) then
      Ok(Table(t.index, seq(|names|, i requires 0 <= i < |names| => Column(names[i], t.Get(names[i])))))
    else
      Err(MissingColumn(FirstAbsent(t, names)))
  }

  function FirstAbsent(t: Table, names: seq<string>): string
    requires exists n | n in names :: !t.Has(n)
  {
    if !t.Has(names[0]) then names[0] else FirstAbsent(t, names[1..])
  }

  // ----- a DataFrame updated in place -----

  /** A DataFrame object whose columns the pipeline overwrites in place. */
  class DataFrame {
    var index: seq<Label>
    var cols: seq<Column>

    function Value(): Table
      reads this
    {
      Table(index, cols)
    }

    constructor (t: Table)
      ensures Value() == t
    {
      index := t.index;
      cols := t.cols;
    }

    /** `df[name] = cells` */
    method SetColumn(name: string, cells: seq<Cell>)
      modifies this
      ensures Value() == Assign(old(Value()), name, cells)
    {
      var t := Assign(Value(), name, cells);
      index := t.index;
      cols := t.cols;
    }
  }
}
