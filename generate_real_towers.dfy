/** generate_real_towers_ns3.py: the tower table is read from the XY file when there is one,
    else from the geocoded file; the x and y columns are taken from metre columns or from the
    first longitude and latitude columns; the four radio fields are forced to numbers with
    their defaults; and the six ns-3 columns are written.

    Whether each file exists and the table read from it are parameters; pd.to_numeric on a
    string is the given partial function `parse`. */
module GenerateRealTowers {
  import opened Util
  import opened Table

  // ---------------------------------------------------------------
  // Source choice (lines 10-18)
  // ---------------------------------------------------------------

  datatype Source = XySource | GeoSource

  /** The XY file when it exists, else the geocoded file, else FileNotFoundError. */
  function ChooseSource(xyExists: bool, geoExists: bool): (r: Result<Source, string>)
    ensures r == Ok(XySource) <==> xyExists
    ensures r == Ok(GeoSource) <==> !xyExists && geoExists
    ensures r.Err? <==> !xyExists && !geoExists
  {
    if xyExists then Ok(XySource)
    else if geoExists then Ok(GeoSource)
    else Err("FileNotFoundError")
  }

  // ---------------------------------------------------------------
  // Coordinate columns (lines 23-37)
  // ---------------------------------------------------------------

  /** [c for c in columns if key in c.lower()], in column order. */
  function ColumnsContaining(columns: seq<string>, key: string): (r: seq<string>)
    ensures |r| <= |columns|
    ensures forall c :: c in r <==> c in columns && Contains(Lower(c), key)
  {
    if columns == [] then []
    else (if Contains(Lower(columns[0]), key) then [columns[0]] else []) + ColumnsContaining(columns[1..], key)
  }

  /** The first entry of the list is the first column whose lower-cased label contains key. */
  lemma {:induction false} ColumnsContainingFirst(columns: seq<string>, key: string)
    requires ColumnsContaining(columns, key) != []
    ensures exists j :: 0 <= j < |columns| && FirstContaining(columns, key, j) && columns[j] == ColumnsContaining(columns, key)[0]
  {
    if Contains(Lower(columns[0]), key) {
      assert FirstContaining(columns, key, 0);
    } else {
      ColumnsContainingFirst(columns[1..], key);
      var j :| 0 <= j < |columns[1..]| && FirstContaining(columns[1..], key, j)
        && columns[1..][j] == ColumnsContaining(columns[1..], key)[0];
      assert FirstContaining(columns, key, j + 1);
    }
  }

  /** Column j is the first whose lower-cased label contains key. */
  ghost predicate FirstContaining(columns: seq<string>, key: string, j: nat) {
    j < |columns| && Contains(Lower(columns[j]), key)
    && forall k :: 0 <= k < j ==> !Contains(Lower(columns[k]), key)
  }

  /** The columns x and y are copied from. */
  datatype Coordinates = Coordinates(xName: string, yName: string)

  predicate HasMetres(columns: seq<string>) {
    "x_m" in columns && "y_m" in columns
  }

  /** x_m and y_m when both are columns; else the first longitude and the first latitude
      column; else ValueError. */
  function SelectCoordinates(columns: seq<string>): (r: Result<Coordinates, string>)
    ensures r.Ok? ==> r.value.xName in columns && r.value.yName in columns
  {
    var latCols := ColumnsContaining(columns, "lat");
    var lonCols := ColumnsContaining(columns, "lon");
    if HasMetres(columns) then Ok(Coordinates("x_m", "y_m"))
    else if latCols != [] && lonCols != [] then Ok(Coordinates(lonCols[0], latCols[0]))
    else Err("ValueError")
  }

  /** The metre columns win whenever both are there; otherwise x comes from the first
      column whose label contains "lon" and y from the first containing "lat"; with
      neither, the selection fails. */
  lemma SelectCoordinatesSpec(columns: seq<string>)
    ensures HasMetres(columns) ==> SelectCoordinates(columns) == Ok(Coordinates("x_m", "y_m"))
    ensures var r := SelectCoordinates(columns);
      !HasMetres(columns) && r.Ok? ==>
        (exists j :: 0 <= j && FirstContaining(columns, "lon", j) && columns[j] == r.value.xName)
        && (exists j :: 0 <= j && FirstContaining(columns, "lat", j) && columns[j] == r.value.yName)
    ensures SelectCoordinates(columns).Err? <==>
      !HasMetres(columns)
      && ((forall c :: c in columns ==> !Contains(Lower(c), "lat")) || (forall c :: c in columns ==> !Contains(Lower(c), "lon")))
  {
    var latCols := ColumnsContaining(columns, "lat");
    var lonCols := ColumnsContaining(columns, "lon");
    if !HasMetres(columns) && latCols != [] && lonCols != [] {
      ColumnsContainingFirst(columns, "lon");
      ColumnsContainingFirst(columns, "lat");
    }
    if latCols != [] {
      assert latCols[0] in latCols;
    }
    if lonCols != [] {
      assert lonCols[0] in lonCols;
    }
  }

  /** The y column never comes from the freshly assigned x column: its label is "y_m" or
      contains "lat", and "x" is neither. */
  lemma SelectedYIsNotX(columns: seq<string>)
    requires SelectCoordinates(columns).Ok?
    ensures SelectCoordinates(columns).value.yName != "x"
  {
    if !HasMetres(columns) {
      var y := SelectCoordinates(columns).value.yName;
      var latCols := ColumnsContaining(columns, "lat");
      assert y == latCols[0] && y in latCols;
      ContainsLength(Lower(y), "lat");
      assert |"lat"| == 3;
    }
  }

  /** df["x"] = df[xName], then df["y"] = df[yName]. */
  function WithCoordinates(df: Frame<string>, c: Coordinates): (r: Frame<string>)
    requires Rectangular(df) && c.xName in df.columns && c.yName in df.columns
    ensures Rectangular(r) && |r.rows| == |df.rows|
    ensures forall name :: name in df.columns ==> name in r.columns
    ensures "x" in r.columns && "y" in r.columns
  {
    var f1 := SetColumn(df, "x", GetColumn(df, c.xName));
    SetColumn(f1, "y", GetColumn(f1, c.yName))
  }

  /** The x column is the selected longitude (or x_m) column and the y column the selected
      latitude (or y_m) column. */
  lemma WithCoordinatesSpec(df: Frame<string>, c: Coordinates)
    requires Rectangular(df) && c.xName in df.columns && c.yName in df.columns && c.yName != "x"
    ensures GetColumn(WithCoordinates(df, c), "x") == GetColumn(df, c.xName)
    ensures GetColumn(WithCoordinates(df, c), "y") == GetColumn(df, c.yName)
  {
    var f1 := SetColumn(df, "x", GetColumn(df, c.xName));
    SetColumnSets(df, "x", GetColumn(df, c.xName));
    SetColumnKeeps(df, "x", GetColumn(df, c.xName), c.yName);
    SetColumnSets(f1, "y", GetColumn(f1, c.yName));
    assert |"x"| == 1 && |"y"| == 1 && "x"[0] != "y"[0];
    SetColumnKeeps(f1, "y", GetColumn(f1, c.yName), "x");
  }

  // ---------------------------------------------------------------
  // Numeric fields (lines 42-53)
  // ---------------------------------------------------------------

  /** A radio field and the value a missing or non-numeric entry gets. */
  datatype Field<L> = Field(name: L, default: real)

  /** numeric_fields, in its order. */
  const NumericFields: seq<Field<string>> :=
    [Field("txPower_dBm", 20.0), Field("frequency_GHz", 3.5), Field("bandwidth_MHz", 100.0), Field("radius_m", 250.0)]

  /** No two fields share a name. */
  ghost predicate DistinctNames<L>(fields: seq<Field<L>>) {
    forall i, j :: 0 <= i < j < |fields| ==> fields[i].name != fields[j].name
  }

  /** pd.to_numeric(errors="coerce") then fillna(default) on one cell. */
  function Coerce(c: Cell, default: real, parse: string -> Option<real>): (v: real)
    ensures c.Num? ==> v == c.v
    ensures c == NaN ==> v == default
    ensures c.Str? ==> v == (if parse(c.s).Some? then parse(c.s).value else default)
  {
    match c
    case NaN => default
    case Num(x) => x
    case Str(s) => match parse(s) case Some(x) => x case None => default
  }

  /** The column a field ends with: the present column coerced cell by cell, or the
      default in every row. */
  function FilledColumn<L(==)>(f: Frame<L>, field: Field<L>, parse: string -> Option<real>): (col: seq<Cell>)
    requires Rectangular(f)
    ensures |col| == |f.rows|
  {
    if field.name in f.columns then CoerceColumn(GetColumn(f, field.name), field.default, parse)
    else Constant(Num(field.default), |f.rows|)
  }

  /** pd.to_numeric(errors="coerce").fillna(default) on a whole column. */
  function CoerceColumn(col: seq<Cell>, default: real, parse: string -> Option<real>): (r: seq<Cell>)
    ensures |r| == |col|
    ensures forall i :: 0 <= i < |r| ==> r[i] == Num(Coerce(col[i], default, parse))
  {
    if col == [] then [] else [Num(Coerce(col[0], default, parse))] + CoerceColumn(col[1..], default, parse)
  }

  /** A column holding the same cell in each of n rows. */
  function Constant(c: Cell, n: nat): (r: seq<Cell>)
    ensures |r| == n && forall i :: 0 <= i < n ==> r[i] == c
  {
    if n == 0 then [] else [c] + Constant(c, n - 1)
  }

  /** The loop over the fields after its first n rounds. */
  function FillFields<L(==)>(f: Frame<L>, fields: seq<Field<L>>, n: nat, parse: string -> Option<real>): (r: Frame<L>)
    requires Rectangular(f) && n <= |fields|
    ensures Rectangular(r) && |r.rows| == |f.rows|
    ensures r.columns == Grown(f.columns, fields, n)
    decreases n, 1
  {
    if n == 0 then f else AfterRound(f, fields, n, parse)
  }

  /** Round n - 1 of the loop, applied to the frame the earlier rounds left. */
  function AfterRound<L(==)>(f: Frame<L>, fields: seq<Field<L>>, n: nat, parse: string -> Option<real>): (r: Frame<L>)
    requires Rectangular(f) && 0 < n <= |fields|
    ensures Rectangular(r) && |r.rows| == |f.rows|
    ensures r.columns == Grown(f.columns, fields, n)
    decreases n, 0
  {
    var g := FillFields(f, fields, n - 1, parse);
    var field := fields[n - 1];
    SetColumn(g, field.name, FilledColumn(g, field, parse))
  }

  /** The labels after the first n rounds: a field not yet a column is added at the end. */
  function Grown<L(==)>(columns: seq<L>, fields: seq<Field<L>>, n: nat): seq<L>
    requires n <= |fields|
  {
    if n == 0 then columns
    else
      var g := Grown(columns, fields, n - 1);
      if fields[n - 1].name in g then g else g + [fields[n - 1].name]
  }

  /** The loop at lines 49-53 over numeric_fields. */
  method FillNumericFields(df: Frame<string>, parse: string -> Option<real>) returns (out: Frame<string>)
    requires Rectangular(df)
    ensures out == FillFields(df, NumericFields, |NumericFields|, parse)
  {
    out := df;
    for k := 0 to |NumericFields|
      invariant out == FillFields(df, NumericFields, k, parse)
    {
      out := FillRound(df, NumericFields, k, parse, out);
    }
  }

  /** One round: df[field] = pd.to_numeric(df[field]).fillna(default), or the default
      when the column is absent. */
  method FillRound<L(==)>(df: Frame<L>, fields: seq<Field<L>>, k: nat, parse: string -> Option<real>, out: Frame<L>)
      returns (next: Frame<L>)
    requires Rectangular(df) && k < |fields| && out == FillFields(df, fields, k, parse)
    ensures next == FillFields(df, fields, k + 1, parse)
  {
    var field := fields[k];
    next := SetColumn(out, field.name, FilledColumn(out, field, parse));
  }

  /** Two frames that agree on a column (or both lack it) give the same filled column. */
  lemma FilledColumnAgrees<L>(f: Frame<L>, g: Frame<L>, field: Field<L>, parse: string -> Option<real>)
    requires Rectangular(f) && Rectangular(g) && |f.rows| == |g.rows|
    requires field.name in f.columns <==> field.name in g.columns
    requires field.name in f.columns ==> GetColumn(f, field.name) == GetColumn(g, field.name)
    ensures FilledColumn(f, field, parse) == FilledColumn(g, field, parse)
  {
  }

  /** A column that none of the first n fields names is there after n rounds exactly when
      it was there before, and holds the same cells. */
  lemma FillFieldsKeeps<L>(f: Frame<L>, fields: seq<Field<L>>, n: nat, parse: string -> Option<real>, c: L)
    requires Rectangular(f) && n <= |fields|
    requires forall j :: 0 <= j < n ==> fields[j].name != c
    ensures c in FillFields(f, fields, n, parse).columns <==> c in f.columns
    ensures c in f.columns ==> GetColumn(FillFields(f, fields, n, parse), c) == GetColumn(f, c)
  {
    GrownKeepsAll(f.columns, fields, n, c);
    if c in f.columns {
      FillFieldsKeepsColumn(f, fields, n, parse, c);
    }
  }

  lemma {:induction false} FillFieldsKeepsColumn<L>(f: Frame<L>, fields: seq<Field<L>>, n: nat, parse: string -> Option<real>, c: L)
    requires Rectangular(f) && n <= |fields| && c in f.columns
    requires forall j :: 0 <= j < n ==> fields[j].name != c
    ensures c in FillFields(f, fields, n, parse).columns
    ensures GetColumn(FillFields(f, fields, n, parse), c) == GetColumn(f, c)
  {
    GrownKeepsAll(f.columns, fields, n, c);
    if n > 0 {
      GrownKeepsAll(f.columns, fields, n - 1, c);
      FillFieldsKeepsColumn(f, fields, n - 1, parse, c);
      FillRoundKeeps(f, fields, n, parse, c);
    }
  }

  /** Labels no round names are among the grown labels exactly when they were there before. */
  lemma {:induction false} GrownKeepsAll<L>(columns: seq<L>, fields: seq<Field<L>>, n: nat, c: L)
    requires n <= |fields|
    requires forall j :: 0 <= j < n ==> fields[j].name != c
    ensures c in Grown(columns, fields, n) <==> c in columns
  {
    if n > 0 {
      GrownKeepsAll(columns, fields, n - 1, c);
      GrownKeeps(columns, fields, n, c);
    }
  }

  lemma GrownKeeps<L>(columns: seq<L>, fields: seq<Field<L>>, n: nat, c: L)
    requires 0 < n <= |fields| && fields[n - 1].name != c
    ensures c in Grown(columns, fields, n) <==> c in Grown(columns, fields, n - 1)
  {
  }

  /** Every field of the first n rounds is among the labels after them. */
  lemma {:induction false} GrownContains<L>(columns: seq<L>, fields: seq<Field<L>>, n: nat, j: nat)
    requires j < n <= |fields|
    ensures fields[j].name in Grown(columns, fields, n)
  {
    if j < n - 1 {
      GrownContains(columns, fields, n - 1, j);
    }
  }

  /** After n rounds field j < n is a column holding its filled column, computed from the
      frame before the loop: round j sets it and no later round names it. */
  lemma {:induction false} FillFieldsSets<L>(f: Frame<L>, fields: seq<Field<L>>, n: nat, parse: string -> Option<real>, j: nat)
    requires Rectangular(f) && n <= |fields| && DistinctNames(fields) && j < n
    ensures fields[j].name in FillFields(f, fields, n, parse).columns
    ensures GetColumn(FillFields(f, fields, n, parse), fields[j].name) == FilledColumn(f, fields[j], parse)
  {
    GrownContains(f.columns, fields, n, j);
    OtherNames(fields, j);
    if n == j + 1 {
      FillRoundSets(f, fields, j, parse);
    } else {
      GrownContains(f.columns, fields, n - 1, j);
      FillFieldsSets(f, fields, n - 1, parse, j);
      FillRoundKeeps(f, fields, n, parse, fields[j].name);
    }
  }

  /** With distinct names, every field other than field j has another name. */
  lemma OtherNames<L>(fields: seq<Field<L>>, j: nat)
    requires DistinctNames(fields) && j < |fields|
    ensures forall i :: 0 <= i < |fields| && i != j ==> fields[i].name != fields[j].name
  {
  }

  /** Round n leaves a column it does not name as it was, and never removes a column. */
  lemma FillRoundKeeps<L>(f: Frame<L>, fields: seq<Field<L>>, n: nat, parse: string -> Option<real>, c: L)
    requires Rectangular(f) && 0 < n <= |fields| && fields[n - 1].name != c
    ensures c in FillFields(f, fields, n, parse).columns <==> c in FillFields(f, fields, n - 1, parse).columns
    ensures c in FillFields(f, fields, n - 1, parse).columns ==>
      GetColumn(FillFields(f, fields, n, parse), c) == GetColumn(FillFields(f, fields, n - 1, parse), c)
  {
    var g := FillFields(f, fields, n - 1, parse);
    var field := fields[n - 1];
    var next := SetColumn(g, field.name, FilledColumn(g, field, parse));
    assert FillFields(f, fields, n, parse) == next;
    if c in g.columns {
      SetColumnKeeps(g, field.name, FilledColumn(g, field, parse), c);
    }
  }

  /** Round n sets its field to the filled column of the frame before the loop, when no
      earlier round named the same field. */
  lemma FillRoundSets<L>(f: Frame<L>, fields: seq<Field<L>>, j: nat, parse: string -> Option<real>)
    requires Rectangular(f) && j < |fields|
    requires forall i :: 0 <= i < j ==> fields[i].name != fields[j].name
    ensures fields[j].name in FillFields(f, fields, j + 1, parse).columns
    ensures GetColumn(FillFields(f, fields, j + 1, parse), fields[j].name) == FilledColumn(f, fields[j], parse)
  {
    var g := FillFields(f, fields, j, parse);
    var field := fields[j];
    FillFieldsKeeps(f, fields, j, parse, field.name);
    FilledColumnAgrees(f, g, field, parse);
    SetColumnSets(g, field.name, FilledColumn(g, field, parse));
  }

  /** The four radio fields are present after the loop. A field absent from the table is
      its default in every row; a present one keeps its numeric entries and has its missing
      and non-numeric entries replaced by the default. Either way no entry is missing. */
  lemma NumericFieldsFilled(df: Frame<string>, parse: string -> Option<real>, j: nat, i: nat)
    requires Rectangular(df) && j < |NumericFields| && i < |df.rows|
    ensures var out := FillFields(df, NumericFields, |NumericFields|, parse); var field := NumericFields[j];
      && field.name in out.columns
      && GetColumn(out, field.name)[i] ==
        (if field.name in df.columns then Num(Coerce(GetColumn(df, field.name)[i], field.default, parse))
         else Num(field.default))
  {
    NumericFieldNamesDistinct();
    FillFieldsSets(df, NumericFields, |NumericFields|, parse, j);
  }

  lemma NumericFieldNamesDistinct()
    ensures DistinctNames(NumericFields)
  {
    var names := seq(4, k requires 0 <= k < 4 => NumericFields[k].name);
    assert names[0][0] == 't' && names[1][0] == 'f' && names[2][0] == 'b' && names[3][0] == 'r';
  }

  // ---------------------------------------------------------------
  // The whole script (line 59)
  // ---------------------------------------------------------------

  /** The columns of the ns-3 file, in order. */
  const OutputColumns: seq<string> := ["x", "y", "txPower_dBm", "frequency_GHz", "bandwidth_MHz", "radius_m"]

  /** The written table for a chosen table whose coordinate columns were found. */
  function Output(df: Frame<string>, parse: string -> Option<real>): (r: Frame<string>)
    requires Rectangular(df) && SelectCoordinates(df.columns).Ok?
    ensures r.columns == OutputColumns && |r.rows| == |df.rows|
  {
    Written(WithCoordinates(df, SelectCoordinates(df.columns).value), parse)
  }

  /** The numeric fields filled in, then the six columns selected. */
  function Written(f: Frame<string>, parse: string -> Option<real>): (r: Frame<string>)
    requires Rectangular(f) && "x" in f.columns && "y" in f.columns
    ensures r.columns == OutputColumns && |r.rows| == |f.rows|
  {
    FilledHasOutputColumns(f, parse);
    Project(FillFields(f, NumericFields, |NumericFields|, parse), OutputColumns)
  }

  /** After the loop the six output columns are all present. */
  lemma FilledHasOutputColumns(f: Frame<string>, parse: string -> Option<real>)
    requires Rectangular(f) && "x" in f.columns && "y" in f.columns
    ensures forall j :: 0 <= j < |OutputColumns| ==> OutputColumns[j] in FillFields(f, NumericFields, |NumericFields|, parse).columns
  {
    forall j | 0 <= j < |OutputColumns|
      ensures OutputColumns[j] in FillFields(f, NumericFields, |NumericFields|, parse).columns
    {
      FilledHasOutputColumn(f, parse, j);
    }
  }

  lemma FilledHasOutputColumn(f: Frame<string>, parse: string -> Option<real>, j: nat)
    requires Rectangular(f) && "x" in f.columns && "y" in f.columns && j < |OutputColumns|
    ensures OutputColumns[j] in FillFields(f, NumericFields, |NumericFields|, parse).columns
  {
    OutputColumnsDistinct();
    if j < 2 {
      FillFieldsKeeps(f, NumericFields, |NumericFields|, parse, OutputColumns[j]);
    } else {
      NumericFieldNamesDistinct();
      FillFieldsSets(f, NumericFields, |NumericFields|, parse, j - 2);
    }
  }

  /** The rows, or the error the script raises. */
  function Generated(xyExists: bool, geoExists: bool, xyTable: Frame<string>, geoTable: Frame<string>,
                     parse: string -> Option<real>): (r: Result<Frame<string>, string>)
    requires Rectangular(xyTable) && Rectangular(geoTable)
  {
    match ChooseSource(xyExists, geoExists)
    case Err(e) => Err(e)
    case Ok(source) =>
      var df := if source == XySource then xyTable else geoTable;
      if SelectCoordinates(df.columns).Err? then Err(SelectCoordinates(df.columns).error)
      else Ok(Output(df, parse))
  }

  /** The script from the file checks to the written table. */
  method GenerateTowers(xyExists: bool, geoExists: bool, xyTable: Frame<string>, geoTable: Frame<string>,
                        parse: string -> Option<real>) returns (r: Result<Frame<string>, string>)
    requires Rectangular(xyTable) && Rectangular(geoTable)
    ensures r == Generated(xyExists, geoExists, xyTable, geoTable, parse)
  {
    var source := ChooseSource(xyExists, geoExists);
    if source.Err? {
      return Err(source.error);
    }
    var df := if source.value == XySource then xyTable else geoTable;
    var coords := SelectCoordinates(df.columns);
    if coords.Err? {
      return Err(coords.error);
    }
    var out := WriteTable(df, coords.value, parse);
    r := Ok(out);
  }

  /** Lines 26-59 once the coordinate columns are chosen. */
  method WriteTable(df: Frame<string>, c: Coordinates, parse: string -> Option<real>) returns (out: Frame<string>)
    requires Rectangular(df) && c.xName in df.columns && c.yName in df.columns
    ensures out == Written(WithCoordinates(df, c), parse)
  {
    var f := SetColumn(df, "x", GetColumn(df, c.xName));
    f := SetColumn(f, "y", GetColumn(f, c.yName));
    f := FillNumericFields(f, parse);
    FilledHasOutputColumns(WithCoordinates(df, c), parse);
    out := Project(f, OutputColumns);
  }

  /** The script fails exactly when neither file exists or the chosen table has no
      coordinate columns. */
  lemma GeneratedFails(xyExists: bool, geoExists: bool, xyTable: Frame<string>, geoTable: Frame<string>,
                       parse: string -> Option<real>)
    requires Rectangular(xyTable) && Rectangular(geoTable)
    ensures var df := if xyExists then xyTable else geoTable;
      Generated(xyExists, geoExists, xyTable, geoTable, parse).Err? <==>
        (!xyExists && !geoExists) || SelectCoordinates(df.columns).Err?
  {
  }

  /** A successful run writes the table Output gives for the chosen table. */
  lemma GeneratedOutput(xyExists: bool, geoExists: bool, xyTable: Frame<string>, geoTable: Frame<string>,
                        parse: string -> Option<real>)
    requires Rectangular(xyTable) && Rectangular(geoTable)
    ensures var r := Generated(xyExists, geoExists, xyTable, geoTable, parse);
      var df := if xyExists then xyTable else geoTable;
      r.Ok? ==> SelectCoordinates(df.columns).Ok? && r.value == Output(df, parse)
  {
  }

  /** The written table has the chosen table's rows under the six columns, in order; x and
      y are the selected coordinate columns. */
  lemma OutputCoordinates(df: Frame<string>, parse: string -> Option<real>)
    requires Rectangular(df) && SelectCoordinates(df.columns).Ok?
    ensures GetColumn(Output(df, parse), "x") == GetColumn(df, SelectCoordinates(df.columns).value.xName)
    ensures GetColumn(Output(df, parse), "y") == GetColumn(df, SelectCoordinates(df.columns).value.yName)
  {
    var c := SelectCoordinates(df.columns).value;
    var coordinated := WithCoordinates(df, c);
    OutputColumnsDistinct();
    SelectedYIsNotX(df.columns);
    WithCoordinatesSpec(df, c);
    FilledKeepsCoordinate(coordinated, parse, 0);
    FilledKeepsCoordinate(coordinated, parse, 1);
  }

  /** x and y, columns 0 and 1 of the output, come through the loop and the selection
      unchanged. */
  lemma FilledKeepsCoordinate(f: Frame<string>, parse: string -> Option<real>, j: nat)
    requires Rectangular(f) && "x" in f.columns && "y" in f.columns && j < 2
    ensures GetColumn(Written(f, parse), OutputColumns[j]) == GetColumn(f, OutputColumns[j])
  {
    OutputColumnsDistinct();
    FilledHasOutputColumns(f, parse);
    FillFieldsKeeps(f, NumericFields, |NumericFields|, parse, OutputColumns[j]);
    ProjectColumn(FillFields(f, NumericFields, |NumericFields|, parse), OutputColumns, j);
  }

  /** Radio field j - 2 of the written table is the filled column of the chosen table: its
      default everywhere when absent, its coerced entries when present. */
  lemma OutputField(df: Frame<string>, parse: string -> Option<real>, j: nat)
    requires Rectangular(df) && SelectCoordinates(df.columns).Ok? && 2 <= j < 6
    ensures GetColumn(Output(df, parse), OutputColumns[j]) == FilledColumn(df, NumericFields[j - 2], parse)
  {
    var c := SelectCoordinates(df.columns).value;
    WrittenField(WithCoordinates(df, c), parse, j);
    OutputColumnsDistinct();
    CoordinatesKeepField(df, c, NumericFields[j - 2], parse);
  }

  lemma WrittenField(f: Frame<string>, parse: string -> Option<real>, j: nat)
    requires Rectangular(f) && "x" in f.columns && "y" in f.columns && 2 <= j < 6
    ensures GetColumn(Written(f, parse), OutputColumns[j]) == FilledColumn(f, NumericFields[j - 2], parse)
  {
    OutputColumnsDistinct();
    NumericFieldNamesDistinct();
    FilledHasOutputColumns(f, parse);
    FillFieldsSets(f, NumericFields, |NumericFields|, parse, j - 2);
    ProjectColumn(FillFields(f, NumericFields, |NumericFields|, parse), OutputColumns, j);
  }

  /** Assigning x and y does not change what a radio field is filled with. */
  lemma CoordinatesKeepField(df: Frame<string>, c: Coordinates, field: Field<string>, parse: string -> Option<real>)
    requires Rectangular(df) && c.xName in df.columns && c.yName in df.columns
    requires field.name != "x" && field.name != "y"
    ensures FilledColumn(WithCoordinates(df, c), field, parse) == FilledColumn(df, field, parse)
  {
    var x := GetColumn(df, c.xName);
    var f1 := SetColumn(df, "x", x);
    if field.name in df.columns {
      SetColumnKeeps(df, "x", x, field.name);
      SetColumnKeeps(f1, "y", GetColumn(f1, c.yName), field.name);
    }
    FilledColumnAgrees(df, WithCoordinates(df, c), field, parse);
  }

  lemma OutputColumnsDistinct()
    ensures Distinct(OutputColumns)
    ensures forall j :: 2 <= j < 6 ==> OutputColumns[j] == NumericFields[j - 2].name
    ensures forall k :: 0 <= k < |NumericFields| ==> NumericFields[k].name != "x" && NumericFields[k].name != "y"
  {
    assert OutputColumns[2][0] == 't' && OutputColumns[3][0] == 'f';
    assert OutputColumns[4][0] == 'b' && OutputColumns[5][0] == 'r';
  }
}
