/** The catalog reader of simulate_real_manila.cc: trim, the header cells and the column
    detection, the data rows, and the rule that turns a row into a site.

    std::stod is the given partial function `parse` (None where stod throws). The degree to
    metre projection and the shift of all sites to positive coordinates are floating-point
    steps outside this model: a site keeps the coordinates the row gave, tagged with the
    unit the reader decided on. */
module SimulateRealManila {
  import opened Util

  // ---------------------------------------------------------------
  // trim (lines 43-48)
  // ---------------------------------------------------------------

  /** The characters trim removes: space, tab, CR, LF and the double quote. */
  predicate IsStrip(c: char) {
    c == ' ' || c == '\t' || c == '\r' || c == '\n' || c == '"'
  }

  /** find_first_not_of: the first kept position, |s| when there is none. */
  function FirstKept(s: string): (b: nat)
    ensures b <= |s|
    ensures forall k :: 0 <= k < b ==> IsStrip(s[k])
    ensures b < |s| ==> !IsStrip(s[b])
  {
    if s == [] then 0
    else if !IsStrip(s[0]) then 0
    else 1 + FirstKept(s[1..])
  }

  /** One past find_last_not_of: 0 when every character is stripped. */
  function KeptEnd(s: string): (e: nat)
    ensures e <= |s|
    ensures forall k :: e <= k < |s| ==> IsStrip(s[k])
    ensures e > 0 ==> !IsStrip(s[e - 1])
  {
    if s == [] then 0
    else if !IsStrip(s[|s| - 1]) then |s|
    else KeptEnd(s[..|s| - 1])
  }

  /** r is the slice of s starting at b, and only stripped characters lie outside it. */
  ghost predicate StripPadded(s: string, r: string, b: int) {
    && 0 <= b && b + |r| <= |s| && s[b..b + |r|] == r
    && (forall k :: 0 <= k < b ==> IsStrip(s[k]))
    && (forall k :: b + |r| <= k < |s| ==> IsStrip(s[k]))
  }

  /** trim: drop the strip characters at both ends. */
  function Trim(s: string): string {
    var b := FirstKept(s);
    if b == |s| then [] else s[b..KeptEnd(s)]
  }

  /** Trim yields the empty string exactly when every character is stripped; otherwise a
      slice of s that neither starts nor ends with a strip character, with only strip
      characters around it. */
  lemma TrimSpec(s: string)
    ensures Trim(s) == [] <==> forall k :: 0 <= k < |s| ==> IsStrip(s[k])
    ensures Trim(s) != [] ==> !IsStrip(Trim(s)[0]) && !IsStrip(Trim(s)[|Trim(s)| - 1])
    ensures exists b :: StripPadded(s, Trim(s), b)
  {
    var b := FirstKept(s);
    if b == |s| {
      assert StripPadded(s, [], 0);
    } else {
      var e := KeptEnd(s);
      assert b < e;
      assert StripPadded(s, s[b..e], b);
    }
  }

  /** Trimming twice is trimming once. */
  lemma TrimIdempotent(s: string)
    ensures Trim(Trim(s)) == Trim(s)
  {
    var r := Trim(s);
    TrimSpec(s);
    if r != [] {
      assert FirstKept(r) == 0;
      assert KeptEnd(r) == |r|;
      assert r[0..|r|] == r;
    }
  }

  // ---------------------------------------------------------------
  // Cells of a line (lines 66-75 and 99-102)
  // ---------------------------------------------------------------

  /** The trimmed tokens std::getline(ss, tok, ',') yields for a line. */
  function Cells(line: string): seq<string> {
    var toks := Split(line, ',');
    seq(|toks|, i requires 0 <= i < |toks| => Trim(toks[i]))
  }

  /** The header cells: trimmed, then lowercased. */
  function HeaderCells(header: string): seq<string> {
    var cells := Cells(header);
    seq(|cells|, i requires 0 <= i < |cells| => Lower(cells[i]))
  }

  /** The split-and-trim loop of lines 70 and 102. */
  method SplitTrimmed(line: string) returns (toks: seq<string>)
    ensures toks == Cells(line)
  {
    var pieces := Split(line, ',');
    toks := [];
    var i := 0;
    while i < |pieces|
      invariant 0 <= i <= |pieces|
      invariant TrimmedPrefix(pieces, i, toks)
    {
      var t := Trim(pieces[i]);
      TrimmedPrefixStep(pieces, i, toks, t);
      toks := toks + [t];
      i := i + 1;
    }
  }

  /** toks holds the trimmed first i pieces. */
  ghost predicate TrimmedPrefix(pieces: seq<string>, i: nat, toks: seq<string>) {
    && i <= |pieces| && |toks| == i
    && forall k :: 0 <= k < i ==> toks[k] == Trim(pieces[k])
  }

  lemma TrimmedPrefixStep(pieces: seq<string>, i: nat, toks: seq<string>, t: string)
    requires i < |pieces| && TrimmedPrefix(pieces, i, toks) && t == Trim(pieces[i])
    ensures TrimmedPrefix(pieces, i + 1, toks + [t])
  {
  }

  /** Header parsing (lines 66-75): split and trim, then lowercase every cell in place. */
  method ParseHeader(header: string) returns (cols: seq<string>)
    ensures cols == HeaderCells(header)
  {
    cols := SplitTrimmed(header);
    var i := 0;
    while i < |cols|
      invariant 0 <= i <= |cols|
      invariant |cols| == |Cells(header)|
      invariant forall k :: 0 <= k < i ==> cols[k] == Lower(Cells(header)[k])
      invariant forall k :: i <= k < |cols| ==> cols[k] == Cells(header)[k]
    {
      cols := cols[i := Lower(cols[i])];
      i := i + 1;
    }
  }

  /** A trimmed, lowercased token without commas is lowercase, holds no comma and keeps
      no strip character at either end. */
  lemma CellClean(tok: string)
    requires forall k :: 0 <= k < |tok| ==> tok[k] != ','
    ensures var c := Lower(Trim(tok));
      && (forall k :: 0 <= k < |c| ==> !IsUpper(c[k]) && c[k] != ',')
      && (c != [] ==> !IsStrip(c[0]) && !IsStrip(c[|c| - 1]))
  {
    var t := Trim(tok);
    TrimSpec(tok);
    var b :| StripPadded(tok, t, b);
    var c := Lower(t);
    forall k | 0 <= k < |c| ensures !IsUpper(c[k]) && c[k] != ',' {
      assert t[k] == tok[b + k];
      assert c[k] == LowerChar(t[k]);
    }
    if c != [] {
      assert c[0] == LowerChar(t[0]) && c[|c| - 1] == LowerChar(t[|t| - 1]);
    }
  }

  /** A header cell is lowercase, holds no comma and neither starts nor ends with a character
      trim removes. */
  lemma HeaderCellsClean(header: string)
    ensures forall i :: 0 <= i < |HeaderCells(header)| ==>
      var c := HeaderCells(header)[i];
      && (forall k :: 0 <= k < |c| ==> !IsUpper(c[k]) && c[k] != ',')
      && (c != [] ==> !IsStrip(c[0]) && !IsStrip(c[|c| - 1]))
  {
    var toks := Split(header, ',');
    SplitTokensHaveNoDelimiter(header, ',');
    forall i | 0 <= i < |HeaderCells(header)|
      ensures var c := HeaderCells(header)[i];
        && (forall k :: 0 <= k < |c| ==> !IsUpper(c[k]) && c[k] != ',')
        && (c != [] ==> !IsStrip(c[0]) && !IsStrip(c[|c| - 1]))
    {
      assert toks[i] in toks;
      CellClean(toks[i]);
    }
  }

  // ---------------------------------------------------------------
  // Column detection (lines 77-91)
  // ---------------------------------------------------------------

  const XAliases: set<string> := {"x", "x_m", "x_meters"}
  const YAliases: set<string> := {"y", "y_m", "y_meters"}
  const LonAliases: set<string> := {"lon", "longitude"}
  const LatAliases: set<string> := {"lat", "latitude"}
  const TxAliases: set<string> := {"txpower_dbm", "tx_power_dbm", "txpower", "tx_power"}
  const FreqAliases: set<string> := {"frequency_ghz", "frequency", "freq_ghz"}
  const BwAliases: set<string> := {"bandwidth_mhz", "bandwidth", "bw_mhz"}
  const RadiusAliases: set<string> := {"radius_m", "radius"}

  /** The column indices (-1 for "absent") and the two coordinate flags. */
  datatype Columns = Columns(
    x: int, y: int, lon: int, lat: int,
    tx: int, freq: int, bw: int, radius: int,
    hasXy: bool, hasLonLat: bool)

  /** The last position whose cell is one of the aliases, -1 when there is none: the value an
      index variable holds after the scan, since every later match overwrites it. */
  function LastIndexIn(cols: seq<string>, aliases: set<string>): (r: int)
    ensures -1 <= r < |cols|
  {
    if cols == [] then -1
    else if cols[|cols| - 1] in aliases then |cols| - 1
    else LastIndexIn(cols[..|cols| - 1], aliases)
  }

  /** The index found is a matching column with no match after it; -1 means no column
      matches at all. */
  lemma {:induction false} LastIndexInSpec(cols: seq<string>, aliases: set<string>)
    ensures var r := LastIndexIn(cols, aliases);
      && (r >= 0 ==> cols[r] in aliases)
      && (forall k :: r < k < |cols| ==> cols[k] !in aliases)
    decreases |cols|
  {
    if cols != [] && cols[|cols| - 1] !in aliases {
      var init := cols[..|cols| - 1];
      LastIndexInSpec(init, aliases);
      forall k | LastIndexIn(cols, aliases) < k < |cols| ensures cols[k] !in aliases {
        if k < |cols| - 1 {
          assert cols[k] == init[k];
        }
      }
    }
  }

  /** What the scan finds: each index is the last matching column, and a coordinate flag is
      set as soon as either of its two columns is seen. */
  function ColumnsOf(cols: seq<string>): Columns {
    var x := LastIndexIn(cols, XAliases);
    var y := LastIndexIn(cols, YAliases);
    var lon := LastIndexIn(cols, LonAliases);
    var lat := LastIndexIn(cols, LatAliases);
    Columns(x, y, lon, lat,
            LastIndexIn(cols, TxAliases), LastIndexIn(cols, FreqAliases),
            LastIndexIn(cols, BwAliases), LastIndexIn(cols, RadiusAliases),
            x >= 0 || y >= 0, lon >= 0 || lat >= 0)
  }

  /** Extending the scanned prefix by one cell. */
  lemma LastIndexInStep(cols: seq<string>, i: nat, aliases: set<string>)
    requires i < |cols|
    ensures LastIndexIn(cols[..i + 1], aliases) ==
      if cols[i] in aliases then i else LastIndexIn(cols[..i], aliases)
  {
    assert cols[..i + 1][..i] == cols[..i];
  }

  /** The scan itself (lines 77-91), one index variable per attribute as in the source. */
  method DetectColumns(cols: seq<string>) returns (c: Columns)
    ensures c == ColumnsOf(cols)
  {
    var hasXy, hasLonLat := false, false;
    var idxX, idxY, idxLon, idxLat := -1, -1, -1, -1;
    var idxTx, idxFreq, idxBw, idxR := -1, -1, -1, -1;
    var i := 0;
    while i < |cols|
      invariant 0 <= i <= |cols|
      invariant idxX == LastIndexIn(cols[..i], XAliases)
      invariant idxY == LastIndexIn(cols[..i], YAliases)
      invariant idxLon == LastIndexIn(cols[..i], LonAliases)
      invariant idxLat == LastIndexIn(cols[..i], LatAliases)
      invariant idxTx == LastIndexIn(cols[..i], TxAliases)
      invariant idxFreq == LastIndexIn(cols[..i], FreqAliases)
      invariant idxBw == LastIndexIn(cols[..i], BwAliases)
      invariant idxR == LastIndexIn(cols[..i], RadiusAliases)
      invariant hasXy == (idxX >= 0 || idxY >= 0)
      invariant hasLonLat == (idxLon >= 0 || idxLat >= 0)
    {
      LastIndexInStep(cols, i, XAliases);
      LastIndexInStep(cols, i, YAliases);
      LastIndexInStep(cols, i, LonAliases);
      LastIndexInStep(cols, i, LatAliases);
      LastIndexInStep(cols, i, TxAliases);
      LastIndexInStep(cols, i, FreqAliases);
      LastIndexInStep(cols, i, BwAliases);
      LastIndexInStep(cols, i, RadiusAliases);
      var cell := cols[i];
      if cell in XAliases { idxX := i; hasXy := true; }
      if cell in YAliases { idxY := i; hasXy := true; }
      if cell in LonAliases { idxLon := i; hasLonLat := true; }
      if cell in LatAliases { idxLat := i; hasLonLat := true; }
      if cell in TxAliases { idxTx := i; }
      if cell in FreqAliases { idxFreq := i; }
      if cell in BwAliases { idxBw := i; }
      if cell in RadiusAliases { idxR := i; }
      i := i + 1;
    }
    assert cols[..i] == cols;
    c := Columns(idxX, idxY, idxLon, idxLat, idxTx, idxFreq, idxBw, idxR, hasXy, hasLonLat);
  }

  /** Every detected index is -1 or a position of the header, and a flag is set exactly
      when one of its columns was found. */
  lemma ColumnsWellFormed(cols: seq<string>)
    ensures var c := ColumnsOf(cols);
      && (forall idx :: idx in [c.x, c.y, c.lon, c.lat, c.tx, c.freq, c.bw, c.radius] ==> -1 <= idx < |cols|)
      && (c.hasXy <==> (exists k :: 0 <= k < |cols| && (cols[k] in XAliases || cols[k] in YAliases)))
      && (c.hasLonLat <==> (exists k :: 0 <= k < |cols| && (cols[k] in LonAliases || cols[k] in LatAliases)))
  {
    LastIndexInSpec(cols, XAliases);
    LastIndexInSpec(cols, YAliases);
    LastIndexInSpec(cols, LonAliases);
    LastIndexInSpec(cols, LatAliases);
  }

  // ---------------------------------------------------------------
  // Data rows (lines 94-104)
  // ---------------------------------------------------------------

  /** The characters of the blank-line test; unlike trim it does not include the quote. */
  predicate IsBlankChar(c: char) {
    c == ' ' || c == '\t' || c == '\r' || c == '\n'
  }

  predicate Blank(line: string) {
    forall k :: 0 <= k < |line| ==> IsBlankChar(line[k])
  }

  /** positions is strictly increasing and every entry lies in [lo, hi). */
  ghost predicate AscendingWithin(positions: seq<nat>, lo: nat, hi: nat) {
    && (forall k :: 0 <= k < |positions| ==> lo <= positions[k] < hi)
    && (forall k, l :: 0 <= k < l < |positions| ==> positions[k] < positions[l])
  }

  /** The row loop (lines 96-104): every non-blank line from `first` on, in order, split and
      trimmed. The ghost `origin` gives the line each row came from. */
  method ReadRows(lines: seq<string>, first: nat) returns (rows: seq<seq<string>>, ghost origin: seq<nat>)
    requires first <= |lines|
    ensures |rows| == |origin| <= |lines| - first
    ensures AscendingWithin(origin, first, |lines|)
    ensures forall k :: 0 <= k < |rows| ==> rows[k] == Cells(lines[origin[k]])
    ensures forall i :: first <= i < |lines| ==> (!Blank(lines[i]) <==> i in origin)
  {
    rows := [];
    origin := [];
    var i := first;
    while i < |lines|
      invariant first <= i <= |lines|
      invariant |rows| == |origin| <= i - first
      invariant AscendingWithin(origin, first, i)
      invariant forall k :: 0 <= k < |rows| ==> rows[k] == Cells(lines[origin[k]])
      invariant forall j :: first <= j < i ==> (!Blank(lines[j]) <==> j in origin)
    {
      if !Blank(lines[i]) {
        var toks := SplitTrimmed(lines[i]);
        rows := rows + [toks];
        origin := origin + [i];
      }
      i := i + 1;
    }
  }

  // ---------------------------------------------------------------
  // From a row to a site (lines 131-199)
  // ---------------------------------------------------------------

  /** The coordinates of a site and the unit the reader took them in. */
  datatype Coord =
    | Meters(x: real, y: real)           // x/y columns outside the degree bounds
    | Degrees(lon: real, lat: real)      // lon/lat columns, or x/y that look like degrees

  datatype Site = Site(coord: Coord, txPower: real, freqGHz: real, bwMHz: real, radius: real, rawLine: string)

  function Abs(v: real): real { if v < 0.0 then -v else v }

  /** The corrected column guard: the index names a cell of this row. */
  predicate InRange(idx: int, toks: seq<string>) {
    0 <= idx < |toks|
  }

  /** The guard as written at lines 112, 140 and 155, `(int)toks.size() > idx`; it also
      holds for the absent column -1. */
  predicate GuardAsWritten(idx: int, toks: seq<string>) {
    |toks| > idx
  }

  predicate XyUsable(c: Columns, toks: seq<string>) {
    c.hasXy && InRange(c.x, toks) && InRange(c.y, toks)
  }

  predicate LonLatUsable(c: Columns, toks: seq<string>) {
    c.hasLonLat && InRange(c.lon, toks) && InRange(c.lat, toks)
  }

  /** The heuristic of line 144: x/y values within longitude and latitude bounds are degrees. */
  function ClassifyXy(xv: real, yv: real): (r: Coord)
    ensures r.Degrees? <==> Abs(yv) <= 90.0 && Abs(xv) <= 180.0
    ensures r.Degrees? ==> r == Degrees(xv, yv)
    ensures r.Meters? ==> r == Meters(xv, yv)
  {
    if Abs(yv) <= 90.0 && Abs(xv) <= 180.0 then Degrees(xv, yv) else Meters(xv, yv)
  }

  /** The coordinate try-block (lines 138-165), with the corrected guard. The x/y columns are
      tried first; when they are usable a parse failure rejects the row and the lon/lat
      columns are not tried. */
  function ParseCoords(c: Columns, toks: seq<string>, parse: string -> Option<real>): (r: Option<Coord>)
    ensures XyUsable(c, toks) ==>
      (r.Some? <==> parse(toks[c.x]).Some? && parse(toks[c.y]).Some?)
    ensures XyUsable(c, toks) && r.Some? ==>
      r.value == ClassifyXy(parse(toks[c.x]).value, parse(toks[c.y]).value)
    ensures !XyUsable(c, toks) && LonLatUsable(c, toks) ==>
      (r.Some? <==> parse(toks[c.lon]).Some? && parse(toks[c.lat]).Some?)
    ensures !XyUsable(c, toks) && LonLatUsable(c, toks) && r.Some? ==>
      r.value == Degrees(parse(toks[c.lon]).value, parse(toks[c.lat]).value)
    ensures !XyUsable(c, toks) && !LonLatUsable(c, toks) ==> r.None?
    ensures r.Some? && r.value.Meters? ==> XyUsable(c, toks)
  {
    if XyUsable(c, toks) then
      var xv := parse(toks[c.x]);
      var yv := parse(toks[c.y]);
      if xv.Some? && yv.Some? then Some(ClassifyXy(xv.value, yv.value)) else None
    else if LonLatUsable(c, toks) then
      var lon := parse(toks[c.lon]);
      var lat := parse(toks[c.lat]);
      if lon.Some? && lat.Some? then Some(Degrees(lon.value, lat.value)) else None
    else None
  }

  /** The attribute defaults of line 134: 20 dBm, 3.5 GHz, 100 MHz, 250 m. */
  const AttrDefaults: seq<real> := [20.0, 3.5, 100.0, 250.0]

  function AttrColumns(c: Columns): seq<int> {
    [c.tx, c.freq, c.bw, c.radius]
  }

  /** The attribute guard, written correctly in the source (lines 169-178). */
  predicate Present(idx: int, toks: seq<string>) {
    idx >= 0 && |toks| > idx
  }

  /** Attribute k is present in the row and does not parse: the shared try is left there. */
  predicate FailsAt(idxs: seq<int>, toks: seq<string>, parse: string -> Option<real>, k: nat)
    requires k < |idxs|
  {
    Present(idxs[k], toks) && parse(toks[idxs[k]]).None?
  }

  /** No attribute before j fails. */
  predicate NoFailureBefore(idxs: seq<int>, toks: seq<string>, parse: string -> Option<real>, j: nat)
    requires j <= |idxs|
  {
    forall k :: 0 <= k < j ==> !FailsAt(idxs, toks, parse, k)
  }

  /** The attribute try-block (lines 168-183): the attributes are read in order inside one
      try, so the first failure leaves that attribute and every later one at its default,
      while the attributes read before it keep their parsed values. */
  function ParseAttributes(idxs: seq<int>, defaults: seq<real>, toks: seq<string>, parse: string -> Option<real>): (r: seq<real>)
    requires |idxs| == |defaults|
    ensures |r| == |idxs|
  {
    if idxs == [] then []
    else if Present(idxs[0], toks) then
      match parse(toks[idxs[0]])
      case None => defaults
      case Some(v) => [v] + ParseAttributes(idxs[1..], defaults[1..], toks, parse)
    else
      [defaults[0]] + ParseAttributes(idxs[1..], defaults[1..], toks, parse)
  }

  /** Attribute j keeps its parsed value exactly when it is present, parses, and no attribute
      before it failed; otherwise it keeps its default. */
  lemma {:induction false} ParseAttributesValues(idxs: seq<int>, defaults: seq<real>, toks: seq<string>, parse: string -> Option<real>)
    requires |idxs| == |defaults|
    ensures var r := ParseAttributes(idxs, defaults, toks, parse);
      forall j :: 0 <= j < |idxs| ==>
        r[j] == (if NoFailureBefore(idxs, toks, parse, j) && Present(idxs[j], toks) && parse(toks[idxs[j]]).Some?
                 then parse(toks[idxs[j]]).value else defaults[j])
  {
    if idxs != [] {
      if Present(idxs[0], toks) && parse(toks[idxs[0]]).None? {
        assert FailsAt(idxs, toks, parse, 0);
      } else {
        ParseAttributesValues(idxs[1..], defaults[1..], toks, parse);
        AttributesShift(idxs, toks, parse);
      }
    }
  }

  /** When attribute 0 does not fail, "no failure before j" is "no failure before j - 1"
      among the rest. */
  lemma AttributesShift(idxs: seq<int>, toks: seq<string>, parse: string -> Option<real>)
    requires |idxs| > 0 && !FailsAt(idxs, toks, parse, 0)
    ensures forall j :: 1 <= j <= |idxs| ==>
      (NoFailureBefore(idxs, toks, parse, j) <==> NoFailureBefore(idxs[1..], toks, parse, j - 1))
  {
    forall j | 1 <= j <= |idxs|
      ensures NoFailureBefore(idxs, toks, parse, j) <==> NoFailureBefore(idxs[1..], toks, parse, j - 1)
    {
      if NoFailureBefore(idxs[1..], toks, parse, j - 1) {
        forall k | 0 <= k < j ensures !FailsAt(idxs, toks, parse, k) {
          if k > 0 {
            assert !FailsAt(idxs[1..], toks, parse, k - 1);
          }
        }
      }
      if NoFailureBefore(idxs, toks, parse, j) {
        forall k | 0 <= k < j - 1 ensures !FailsAt(idxs[1..], toks, parse, k) {
          assert !FailsAt(idxs, toks, parse, k + 1);
        }
      }
    }
  }

  /** The site a row gives, or None when its coordinates did not parse (line 186). The raw
      line is the trimmed tokens joined by commas (lines 190-197). */
  function RowSite(c: Columns, toks: seq<string>, parse: string -> Option<real>): (r: Option<Site>)
    ensures r.Some? <==> ParseCoords(c, toks, parse).Some?
    ensures r.Some? ==> r.value.coord == ParseCoords(c, toks, parse).value
    ensures r.Some? ==> r.value.rawLine == Join(toks, ",")
    ensures r.Some? ==>
      var a := ParseAttributes(AttrColumns(c), AttrDefaults, toks, parse);
      [r.value.txPower, r.value.freqGHz, r.value.bwMHz, r.value.radius] == a
  {
    var a := ParseAttributes(AttrColumns(c), AttrDefaults, toks, parse);
    match ParseCoords(c, toks, parse)
    case None => None
    case Some(coord) => Some(Site(coord, a[0], a[1], a[2], a[3], Join(toks, ",")))
  }

  /** A row without any of the optional columns keeps all four defaults; a row whose
      transmit-power cell does not parse keeps all four defaults as well, even when the later
      cells would parse. */
  lemma AttributeDefaults(c: Columns, toks: seq<string>, parse: string -> Option<real>)
    requires Present(c.tx, toks) ==> parse(toks[c.tx]).None?
    requires !Present(c.tx, toks) ==>
      !Present(c.freq, toks) && !Present(c.bw, toks) && !Present(c.radius, toks)
    ensures ParseAttributes(AttrColumns(c), AttrDefaults, toks, parse) == [20.0, 3.5, 100.0, 250.0]
  {
    var a := ParseAttributes(AttrColumns(c), AttrDefaults, toks, parse);
    ParseAttributesValues(AttrColumns(c), AttrDefaults, toks, parse);
    forall j | 0 <= j < 4 ensures a[j] == AttrDefaults[j] {
      if Present(c.tx, toks) {
        assert FailsAt(AttrColumns(c), toks, parse, 0);
        if j > 0 {
          assert !NoFailureBefore(AttrColumns(c), toks, parse, j);
        }
      }
    }
  }

  /** The site loop (lines 131-199): one site per row whose coordinates parsed, in row order. */
  method BuildSites(c: Columns, rows: seq<seq<string>>, parse: string -> Option<real>)
    returns (sites: seq<Site>, ghost origin: seq<nat>)
    ensures |sites| == |origin| <= |rows|
    ensures AscendingWithin(origin, 0, |rows|)
    ensures forall k :: 0 <= k < |sites| ==> RowSite(c, rows[origin[k]], parse) == Some(sites[k])
    ensures forall i :: 0 <= i < |rows| ==> (RowSite(c, rows[i], parse).Some? <==> i in origin)
  {
    ghost var opts := seq(|rows|, j requires 0 <= j < |rows| => RowSite(c, rows[j], parse));
    sites := [];
    origin := [];
    var i := 0;
    while i < |rows|
      invariant 0 <= i <= |rows|
      invariant SomesSoFar(opts, i, sites, origin)
    {
      var site := RowSite(c, rows[i], parse);
      if site.Some? {
        SomesTake(opts, i, sites, origin);
        sites := sites + [site.value];
        origin := origin + [i];
      } else {
        SomesSkip(opts, i, sites, origin);
      }
      i := i + 1;
    }
  }

  /** After i steps of a filter over opts: vals holds the present values of the first i
      entries, in order, and origin the positions they came from. */
  ghost predicate SomesSoFar<T>(opts: seq<Option<T>>, i: nat, vals: seq<T>, origin: seq<nat>) {
    && i <= |opts|
    && |vals| == |origin| <= i
    && AscendingWithin(origin, 0, i)
    && (forall k :: 0 <= k < |vals| ==> opts[origin[k]] == Some(vals[k]))
    && (forall j :: 0 <= j < i ==> (opts[j].Some? <==> j in origin))
  }

  lemma SomesTake<T>(opts: seq<Option<T>>, i: nat, vals: seq<T>, origin: seq<nat>)
    requires i < |opts| && SomesSoFar(opts, i, vals, origin) && opts[i].Some?
    ensures SomesSoFar(opts, i + 1, vals + [opts[i].value], origin + [i])
  {
  }

  lemma SomesSkip<T>(opts: seq<Option<T>>, i: nat, vals: seq<T>, origin: seq<nat>)
    requires i < |opts| && SomesSoFar(opts, i, vals, origin) && opts[i].None?
    ensures SomesSoFar(opts, i + 1, vals, origin)
  {
  }

  /** The line of each site: site k came from row siteOrigin[k], which came from line
      rowOrigin[siteOrigin[k]]. */
  ghost function FileLines(rowOrigin: seq<nat>, siteOrigin: seq<nat>): seq<nat>
    requires forall k :: 0 <= k < |siteOrigin| ==> siteOrigin[k] < |rowOrigin|
  {
    seq(|siteOrigin|, k requires 0 <= k < |siteOrigin| => rowOrigin[siteOrigin[k]])
  }

  lemma FileLinesAscending(rowOrigin: seq<nat>, siteOrigin: seq<nat>, lo: nat, hi: nat)
    requires AscendingWithin(rowOrigin, lo, hi)
    requires AscendingWithin(siteOrigin, 0, |rowOrigin|)
    ensures AscendingWithin(FileLines(rowOrigin, siteOrigin), lo, hi)
  {
    var f := FileLines(rowOrigin, siteOrigin);
    forall k, l | 0 <= k < l < |siteOrigin| ensures f[k] < f[l] {
      assert siteOrigin[k] < siteOrigin[l];
    }
  }

  /** Every row that gave a site contributes its line. */
  lemma FileLinesCover(rowOrigin: seq<nat>, siteOrigin: seq<nat>, m: nat)
    requires forall k :: 0 <= k < |siteOrigin| ==> siteOrigin[k] < |rowOrigin|
    requires m in siteOrigin
    ensures rowOrigin[m] in FileLines(rowOrigin, siteOrigin)
  {
    var k :| 0 <= k < |siteOrigin| && siteOrigin[k] == m;
    assert FileLines(rowOrigin, siteOrigin)[k] == rowOrigin[m];
  }

  /** ReadSites up to the projection: an empty file is an error, otherwise the header gives
      the columns and every non-blank data line whose coordinates parse gives one site, in
      file order. `origin` names the line of each site. */
  method ReadSites(lines: seq<string>, parse: string -> Option<real>)
    returns (r: Result<seq<Site>, string>, ghost origin: seq<nat>)
    ensures r.Err? <==> lines == []
    ensures r.Ok? ==> |r.value| == |origin| < |lines|
    ensures r.Ok? ==> AscendingWithin(origin, 1, |lines|)
    ensures r.Ok? ==> forall k :: 0 <= k < |origin| ==>
      && !Blank(lines[origin[k]])
      && RowSite(ColumnsOf(HeaderCells(lines[0])), Cells(lines[origin[k]]), parse) == Some(r.value[k])
    ensures r.Ok? ==> forall i :: 1 <= i < |lines| ==>
      (!Blank(lines[i]) && RowSite(ColumnsOf(HeaderCells(lines[0])), Cells(lines[i]), parse).Some? ==> i in origin)
  {
    if lines == [] {
      return Err("Empty CSV file"), [];
    }
    var cols := ParseHeader(lines[0]);
    var c := DetectColumns(cols);
    var rows, rowOrigin := ReadRows(lines, 1);
    var sites, siteOrigin := BuildSites(c, rows, parse);
    origin := FileLines(rowOrigin, siteOrigin);
    FileLinesAscending(rowOrigin, siteOrigin, 1, |lines|);
    r := Ok(sites);
    forall k | 0 <= k < |origin|
      ensures !Blank(lines[origin[k]])
    {
      assert rowOrigin[siteOrigin[k]] in rowOrigin;
    }
    forall i | 1 <= i < |lines| && !Blank(lines[i]) && RowSite(c, Cells(lines[i]), parse).Some?
      ensures i in origin
    {
      var m :| 0 <= m < |rowOrigin| && rowOrigin[m] == i;
      assert m in siteOrigin;
      FileLinesCover(rowOrigin, siteOrigin, m);
    }
  }

  // ---------------------------------------------------------------
  // The column guard as written
  // ---------------------------------------------------------------

  /** A header naming only a y column sets the x/y flag while the x index stays -1, and the
      guard as written then lets every row through to the read of toks[-1]. */
  lemma GuardAdmitsAbsentColumn(toks: seq<string>)
    ensures ColumnsOf(["id", "y"]).hasXy
    ensures ColumnsOf(["id", "y"]).x == -1
    ensures GuardAsWritten(ColumnsOf(["id", "y"]).x, toks)
    ensures !InRange(ColumnsOf(["id", "y"]).x, toks)
  {
    var cols := ["id", "y"];
    assert cols[..1] == ["id"];
    assert LastIndexIn(cols, YAliases) == 1;
    assert LastIndexIn(cols, XAliases) == -1 by {
      assert LastIndexIn(cols[..1], XAliases) == -1 by {
        assert ["id"][..0] == [];
      }
    }
  }

  /** The lon/lat twin (lines 83-84 and 154-155): a header naming only a latitude column sets
      the lon/lat flag while the longitude index stays -1. No x/y column is seen, so the first
      branch is skipped and the second guard as written admits the read of toks[-1]. */
  lemma GuardAdmitsAbsentLon(toks: seq<string>)
    ensures !ColumnsOf(["id", "lat"]).hasXy
    ensures ColumnsOf(["id", "lat"]).hasLonLat
    ensures ColumnsOf(["id", "lat"]).lon == -1
    ensures GuardAsWritten(ColumnsOf(["id", "lat"]).lon, toks)
    ensures !InRange(ColumnsOf(["id", "lat"]).lon, toks)
  {
    var cols := ["id", "lat"];
    assert cols[..1] == ["id"];
    assert ["id"][..0] == [];
    assert LastIndexIn(cols, LatAliases) == 1;
    assert LastIndexIn(cols, LonAliases) == -1 by {
      assert LastIndexIn(cols[..1], LonAliases) == -1;
    }
    assert LastIndexIn(cols, XAliases) == -1 by {
      assert LastIndexIn(cols[..1], XAliases) == -1;
    }
    assert LastIndexIn(cols, YAliases) == -1 by {
      assert LastIndexIn(cols[..1], YAliases) == -1;
    }
  }

  /** With the corrected guard, a coordinate is only ever read from a cell the row has, so a
      row without a usable pair of columns is rejected rather than read out of bounds. */
  lemma CorrectedGuardRejects(c: Columns, toks: seq<string>, parse: string -> Option<real>)
    requires !(c.hasXy && 0 <= c.x < |toks| && 0 <= c.y < |toks|)
    requires !(c.hasLonLat && 0 <= c.lon < |toks| && 0 <= c.lat < |toks|)
    ensures RowSite(c, toks, parse).None?
  {
  }
}
