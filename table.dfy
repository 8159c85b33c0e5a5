/** pandas tables as values: a frame is its column labels and one list of cells per row.
    Column access, column assignment and column selection behave as DataFrame indexing does
    for frames whose labels are unique (read_csv makes repeated labels unique). */
module Table {
  import opened Util

  /** A pandas cell: missing, a number, or a string. */
  datatype Cell = NaN | Num(v: real) | Str(s: string)

  /** A table: the column labels and one list of cells per row. Nothing here looks inside
      a label, so the label type is a parameter; the scripts' tables have string labels. */
  datatype Frame<L> = Frame(columns: seq<L>, rows: seq<seq<Cell>>)

  /** Every row has one cell per column. */
  ghost predicate Rectangular<L>(f: Frame<L>) {
    forall i :: 0 <= i < |f.rows| ==> |f.rows[i]| == |f.columns|
  }

  /** The first position of `name` among the columns. */
  function Position<L(==)>(columns: seq<L>, name: L): (i: nat)
    requires name in columns
    ensures i < |columns| && columns[i] == name
    ensures forall k :: 0 <= k < i ==> columns[k] != name
  {
    if columns[0] == name then 0 else 1 + Position(columns[1..], name)
  }

  /** A label found in a prefix is found at the same place in the whole. */
  lemma PositionInPrefix<L>(prefix: seq<L>, whole: seq<L>, name: L)
    requires name in prefix && prefix <= whole
    ensures Position(whole, name) == Position(prefix, name)
  {
    var i := Position(prefix, name);
    assert whole[i] == name;
    PositionFirst(whole, name, i);
  }

  lemma {:induction false} PositionFirst<L>(columns: seq<L>, name: L, i: nat)
    requires i < |columns| && columns[i] == name
    requires forall k :: 0 <= k < i ==> columns[k] != name
    ensures Position(columns, name) == i
  {
    if i > 0 {
      PositionFirst(columns[1..], name, i - 1);
    }
  }

  /** df[name]: the cells of the column with that label, one per row. */
  function GetColumn<L(==)>(f: Frame<L>, name: L): (col: seq<Cell>)
    requires Rectangular(f) && name in f.columns
    ensures |col| == |f.rows|
  {
    ColumnAt(f.rows, Position(f.columns, name))
  }

  /** The cells at position p, one per row. */
  function ColumnAt(rows: seq<seq<Cell>>, p: nat): (col: seq<Cell>)
    requires forall i :: 0 <= i < |rows| ==> p < |rows[i]|
    ensures |col| == |rows|
  {
    if rows == [] then [] else [rows[0][p]] + ColumnAt(rows[1..], p)
  }

  lemma {:induction false} ColumnAtCells(rows: seq<seq<Cell>>, p: nat)
    requires forall i :: 0 <= i < |rows| ==> p < |rows[i]|
    ensures forall i :: 0 <= i < |rows| ==> ColumnAt(rows, p)[i] == rows[i][p]
  {
    if rows != [] {
      ColumnAtCells(rows[1..], p);
    }
  }

  /** Each row with its cell at position p replaced by the matching cell of col. */
  function UpdateAt(rows: seq<seq<Cell>>, p: nat, col: seq<Cell>): (r: seq<seq<Cell>>)
    requires |col| == |rows| && forall i :: 0 <= i < |rows| ==> p < |rows[i]|
    ensures |r| == |rows| && forall i :: 0 <= i < |rows| ==> |r[i]| == |rows[i]|
  {
    if rows == [] then [] else [rows[0][p := col[0]]] + UpdateAt(rows[1..], p, col[1..])
  }

  lemma {:induction false} UpdateAtRows(rows: seq<seq<Cell>>, p: nat, col: seq<Cell>)
    requires |col| == |rows| && forall i :: 0 <= i < |rows| ==> p < |rows[i]|
    ensures forall i :: 0 <= i < |rows| ==> UpdateAt(rows, p, col)[i] == rows[i][p := col[i]]
  {
    if rows != [] {
      UpdateAtRows(rows[1..], p, col[1..]);
    }
  }

  /** Each row with the matching cell of col added at its end. */
  function AppendEach(rows: seq<seq<Cell>>, col: seq<Cell>): (r: seq<seq<Cell>>)
    requires |col| == |rows|
    ensures |r| == |rows| && forall i :: 0 <= i < |rows| ==> |r[i]| == |rows[i]| + 1
  {
    if rows == [] then [] else [rows[0] + [col[0]]] + AppendEach(rows[1..], col[1..])
  }

  lemma {:induction false} AppendEachRows(rows: seq<seq<Cell>>, col: seq<Cell>)
    requires |col| == |rows|
    ensures forall i :: 0 <= i < |rows| ==> AppendEach(rows, col)[i] == rows[i] + [col[i]]
  {
    if rows != [] {
      AppendEachRows(rows[1..], col[1..]);
    }
  }

  /** df[name] = col: an existing column is overwritten where it stands, a new one goes
      after the others. */
  function SetColumn<L(==)>(f: Frame<L>, name: L, col: seq<Cell>): (r: Frame<L>)
    requires Rectangular(f) && |col| == |f.rows|
    ensures Rectangular(r) && |r.rows| == |f.rows|
    ensures r.columns == if name in f.columns then f.columns else f.columns + [name]
  {
    if name in f.columns then Frame(f.columns, UpdateAt(f.rows, Position(f.columns, name), col))
    else Frame(f.columns + [name], AppendEach(f.rows, col))
  }

  /** After df[name] = col the column holds col. */
  lemma SetColumnSets<L>(f: Frame<L>, name: L, col: seq<Cell>)
    requires Rectangular(f) && |col| == |f.rows|
    ensures name in SetColumn(f, name, col).columns && GetColumn(SetColumn(f, name, col), name) == col
  {
    var r := SetColumn(f, name, col);
    if name in f.columns {
      UpdateAtRows(f.rows, Position(f.columns, name), col);
    } else {
      PositionFirst(r.columns, name, |f.columns|);
      AppendEachRows(f.rows, col);
    }
    ColumnAtCells(r.rows, Position(r.columns, name));
  }

  /** df[name] = col leaves every other column as it was. */
  lemma SetColumnKeeps<L>(f: Frame<L>, name: L, col: seq<Cell>, other: L)
    requires Rectangular(f) && |col| == |f.rows| && other in f.columns && other != name
    ensures other in SetColumn(f, name, col).columns
    ensures GetColumn(SetColumn(f, name, col), other) == GetColumn(f, other)
  {
    var r := SetColumn(f, name, col);
    PositionInPrefix(f.columns, r.columns, other);
    if name in f.columns {
      UpdateAtRows(f.rows, Position(f.columns, name), col);
    } else {
      AppendEachRows(f.rows, col);
    }
    ColumnAtCells(r.rows, Position(r.columns, other));
    ColumnAtCells(f.rows, Position(f.columns, other));
  }

  /** df[names]: the listed columns, in the listed order. */
  function Project<L(==)>(f: Frame<L>, names: seq<L>): (r: Frame<L>)
    requires Rectangular(f) && forall j :: 0 <= j < |names| ==> names[j] in f.columns
    ensures r.columns == names && |r.rows| == |f.rows| && Rectangular(r)
  {
    Frame(names, seq(|f.rows|, i requires 0 <= i < |f.rows| =>
      seq(|names|, j requires 0 <= j < |names| => f.rows[i][Position(f.columns, names[j])])))
  }

  /** Column j of the selection is the column named names[j]. */
  lemma ProjectColumn<L>(f: Frame<L>, names: seq<L>, j: nat)
    requires Rectangular(f) && forall j :: 0 <= j < |names| ==> names[j] in f.columns
    requires j < |names| && Distinct(names)
    ensures GetColumn(Project(f, names), names[j]) == GetColumn(f, names[j])
  {
    PositionFirst(names, names[j], j);
    ColumnAtCells(Project(f, names).rows, j);
    ColumnAtCells(f.rows, Position(f.columns, names[j]));
  }
}
