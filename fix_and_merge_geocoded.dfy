/** fix_and_merge_geocoded.py: the rows of the PDF table are flattened to text lines, the
    lines are grouped into one block per tower, the first blocks are paired with the geocoded
    rows, each pair gives one output row per sector azimuth found in the block (or one row
    without an azimuth), and the rows without coordinates are dropped.

    The two tables are given as values: the PDF table as rows of optional strings (None for a
    missing cell), the geocoded table as a frame of cells. The regular expressions are
    modelled by hand-written scanners that follow Python's matching rules for them. */
module FixAndMergeGeocoded {
  import opened Util
  import opened Table

  // ---------------------------------------------------------------
  // Flattening the PDF rows (line 28)
  // ---------------------------------------------------------------

  /** The cells that are present, in order. */
  function PresentCells(cells: seq<Option<string>>): (r: seq<string>)
    ensures |r| <= |cells|
    ensures forall x :: x in r <==> Some(x) in cells
  {
    if cells == [] then []
    else if cells[0].Some? then [cells[0].value] + PresentCells(cells[1..])
    else PresentCells(cells[1..])
  }

  /** One row as one line: its present cells joined by single spaces. */
  function FlattenRow(cells: seq<Option<string>>): string {
    Join(PresentCells(cells), " ")
  }

  /** Flattening keeps every present cell: each occurs in the line. */
  lemma FlattenKeepsCells(cells: seq<Option<string>>, s: string)
    requires Some(s) in cells
    ensures Contains(FlattenRow(cells), s)
  {
    var parts := PresentCells(cells);
    var k :| 0 <= k < |parts| && parts[k] == s;
    JoinContainsPart(parts, " ", k);
    ContainsIffOccurs(FlattenRow(cells), s);
  }

  function FlattenLines(rows: seq<seq<Option<string>>>): (lines: seq<string>)
    ensures |lines| == |rows|
  {
    seq(|rows|, i requires 0 <= i < |rows| => FlattenRow(rows[i]))
  }

  // ---------------------------------------------------------------
  // Grouping lines into tower blocks (lines 31-44)
  // ---------------------------------------------------------------

  /** A line that opens a tower's block. */
  predicate IsHeader(line: string) {
    Contains(line, "eNB ID")
  }

  /** The runs of lines the loop gathers: a header line opens a new run unless no run has
      been started yet, and every other line joins the current run. */
  function Group(lines: seq<string>): (g: seq<seq<string>>)
    ensures |g| <= |lines|
    ensures g == [] <==> lines == []
  {
    if lines == [] then []
    else
      var g := Group(lines[..|lines| - 1]);
      var line := lines[|lines| - 1];
      if g == [] || IsHeader(line) then g + [[line]]
      else g[..|g| - 1] + [g[|g| - 1] + [line]]
  }

  function Concat(runs: seq<seq<string>>): seq<string> {
    if runs == [] then [] else Concat(runs[..|runs| - 1]) + runs[|runs| - 1]
  }

  /** No run is empty, every run after the first starts with a header, and no header stands
      anywhere else in a run. */
  ghost predicate WellGrouped(runs: seq<seq<string>>) {
    && (forall k :: 0 <= k < |runs| ==> runs[k] != [])
    && (forall k :: 0 < k < |runs| ==> IsHeader(runs[k][0]))
    && (forall k, j :: 0 <= k < |runs| && 0 < j < |runs[k]| ==> !IsHeader(runs[k][j]))
  }

  /** Grouping neither loses nor reorders lines: the runs, in order, are the lines. */
  lemma {:induction false} GroupConcat(lines: seq<string>)
    ensures Concat(Group(lines)) == lines
  {
    if lines != [] {
      var init := lines[..|lines| - 1];
      var line := lines[|lines| - 1];
      GroupConcat(init);
      var g := Group(init);
      assert lines == init + [line];
      if g == [] || IsHeader(line) {
        ConcatSnoc(g, [line]);
      } else {
        ConcatExtendLast(g, line);
      }
    }
  }

  lemma ConcatSnoc(runs: seq<seq<string>>, run: seq<string>)
    ensures Concat(runs + [run]) == Concat(runs) + run
  {
    assert (runs + [run])[..|runs|] == runs;
  }

  lemma ConcatExtendLast(runs: seq<seq<string>>, line: string)
    requires runs != []
    ensures Concat(runs[..|runs| - 1] + [runs[|runs| - 1] + [line]]) == Concat(runs) + [line]
  {
    var m := |runs| - 1;
    ConcatSnoc(runs[..m], runs[m] + [line]);
  }

  /** The runs are well grouped: a block starts exactly at each header after the first line. */
  lemma {:induction false} GroupShape(lines: seq<string>)
    ensures WellGrouped(Group(lines))
  {
    if lines != [] {
      var init := lines[..|lines| - 1];
      var line := lines[|lines| - 1];
      GroupShape(init);
      var g := Group(init);
      if g == [] || IsHeader(line) {
        WellGroupedNewRun(g, line);
      } else {
        WellGroupedExtendRun(g, line);
      }
    }
  }

  lemma WellGroupedNewRun(g: seq<seq<string>>, line: string)
    requires WellGrouped(g) && (g == [] || IsHeader(line))
    ensures WellGrouped(g + [[line]])
  {
    var r := g + [[line]];
    forall k | 0 <= k < |r| ensures r[k] != [] && (0 < k ==> IsHeader(r[k][0])) && (forall j :: 0 < j < |r[k]| ==> !IsHeader(r[k][j])) {
      if k < |g| {
        assert r[k] == g[k];
      } else {
        assert r[k] == [line];
      }
    }
  }

  lemma WellGroupedExtendRun(g: seq<seq<string>>, line: string)
    requires WellGrouped(g) && g != [] && !IsHeader(line)
    ensures WellGrouped(g[..|g| - 1] + [g[|g| - 1] + [line]])
  {
    var m := |g| - 1;
    var r := g[..m] + [g[m] + [line]];
    forall k | 0 <= k < |r| ensures r[k] != [] && (0 < k ==> IsHeader(r[k][0])) && (forall j :: 0 < j < |r[k]| ==> !IsHeader(r[k][j])) {
      if k < m {
        assert r[k] == g[k];
      } else {
        assert r[k] == g[m] + [line];
        assert r[k][0] == g[m][0];
        forall j | 0 < j < |r[k]| ensures !IsHeader(r[k][j]) {
          if j < |g[m]| {
            assert r[k][j] == g[m][j];
          }
        }
      }
    }
  }

  /** The number of header lines. */
  function HeaderCount(lines: seq<string>): nat {
    if lines == [] then 0
    else HeaderCount(lines[..|lines| - 1]) + (if IsHeader(lines[|lines| - 1]) then 1 else 0)
  }

  /** There is one block per header line, plus one for leading lines before the first header. */
  lemma {:induction false} GroupCount(lines: seq<string>)
    ensures |Group(lines)| == HeaderCount(lines) + (if lines != [] && !IsHeader(lines[0]) then 1 else 0)
  {
    if lines != [] {
      var init := lines[..|lines| - 1];
      GroupCount(init);
      if init != [] {
        assert init[0] == lines[0];
      }
    }
  }

  /** Each run joined with single spaces. */
  function JoinRuns(runs: seq<seq<string>>): (r: seq<string>)
    ensures |r| == |runs|
    ensures forall k :: 0 <= k < |r| ==> r[k] == Join(runs[k], " ")
  {
    seq(|runs|, k requires 0 <= k < |runs| => Join(runs[k], " "))
  }

  lemma JoinRunsSnoc(runs: seq<seq<string>>, run: seq<string>)
    ensures JoinRuns(runs + [run]) == JoinRuns(runs) + [Join(run, " ")]
  {
  }

  function Pending(runs: seq<seq<string>>, current: seq<string>): seq<seq<string>> {
    if current == [] then runs else runs + [current]
  }

  /** The block loop: block k is the space-join of run k of Group. */
  method GroupBlocks(rawLines: seq<string>) returns (blocks: seq<string>)
    ensures blocks == Blocks(rawLines)
  {
    blocks := [];
    var current: seq<string> := [];
    ghost var runs: seq<seq<string>> := [];
    for i := 0 to |rawLines|
      invariant Pending(runs, current) == Group(rawLines[..i])
      invariant current == [] ==> runs == []
      invariant blocks == JoinRuns(runs)
    {
      var line := rawLines[i];
      GroupStep(rawLines, i, runs, current);
      if IsHeader(line) && current != [] {
        JoinRunsSnoc(runs, current);
        blocks := blocks + [Join(current, " ")];
        runs := runs + [current];
        current := [line];
      } else {
        current := current + [line];
      }
    }
    if current != [] {
      JoinRunsSnoc(runs, current);
      blocks := blocks + [Join(current, " ")];
      runs := runs + [current];
    }
    assert rawLines[..|rawLines|] == rawLines;
  }

  /** One line of the block loop, for both of its branches. */
  lemma GroupStep(lines: seq<string>, i: nat, runs: seq<seq<string>>, current: seq<string>)
    requires i < |lines| && Pending(runs, current) == Group(lines[..i])
    requires current == [] ==> runs == []
    ensures IsHeader(lines[i]) && current != [] ==>
      Group(lines[..i + 1]) == Pending(runs + [current], [lines[i]])
    ensures !(IsHeader(lines[i]) && current != []) ==>
      Group(lines[..i + 1]) == Pending(runs, current + [lines[i]])
  {
    var prefix := lines[..i + 1];
    assert prefix[..|prefix| - 1] == lines[..i];
    assert prefix[|prefix| - 1] == lines[i];
    var g := Group(lines[..i]);
    assert Group(prefix) == if g == [] || IsHeader(lines[i]) then g + [[lines[i]]]
      else g[..|g| - 1] + [g[|g| - 1] + [lines[i]]];
    if current != [] {
      assert g == runs + [current];
      assert g[..|g| - 1] == runs;
      assert g[|g| - 1] == current;
      if !IsHeader(lines[i]) {
        assert Group(prefix) == runs + [current + [lines[i]]];
      }
    } else {
      assert g == [];
      assert current + [lines[i]] == [lines[i]];
    }
  }

  // ---------------------------------------------------------------
  // The azimuth pattern Direction.*?\((\d{1,3}) (line 62)
  // ---------------------------------------------------------------

  /** `word`, given in lower case, stands at position p of the text when case is ignored. */
  predicate WordAt(text: string, p: nat, word: string) {
    p + |word| <= |text| && forall k :: 0 <= k < |word| ==> LowerChar(text[p + k]) == word[k]
  }

  /** The digits from position q on, at most `max` of them: a greedy \d{1,max}. */
  function DigitRun(text: string, q: nat, max: nat): (m: nat)
    requires q <= |text|
    ensures m <= max && q + m <= |text|
    ensures forall k :: q <= k < q + m ==> IsDigit(text[k])
    ensures m < max && q + m < |text| ==> !IsDigit(text[q + m])
    decreases max
  {
    if max == 0 || q == |text| || !IsDigit(text[q]) then 0 else 1 + DigitRun(text, q + 1, max - 1)
  }

  /** A '(' followed by a digit stands at position k. */
  predicate ParenDigitAt(text: string, k: nat) {
    k + 1 < |text| && text[k] == '(' && IsDigit(text[k + 1])
  }

  /** A line break stands somewhere in text[q..k]. */
  predicate LineBreakIn(text: string, q: nat, k: nat) {
    exists m :: q <= m < k && m < |text| && text[m] == '\n'
  }

  /** The lazy `.*?\(\d` from position q: the first '(' followed by a digit, provided no line
      break comes before it (`.` does not match a line break). None means every such '(' from
      q on lies beyond a line break. */
  function ParenAfter(text: string, q: nat): (r: Option<nat>)
    requires q <= |text|
    ensures r.Some? ==> q <= r.value && ParenDigitAt(text, r.value)
    ensures r.Some? ==> forall k :: q <= k < r.value ==> text[k] != '\n'
    ensures r.Some? ==> forall k :: q <= k < r.value ==> !ParenDigitAt(text, k)
    ensures r.None? ==> forall k :: q <= k && ParenDigitAt(text, k) ==> LineBreakIn(text, q, k)
    decreases |text| - q
  {
    if q + 1 < |text| && text[q] == '(' && IsDigit(text[q + 1]) then Some(q)
    else if q < |text| && text[q] != '\n' then ParenAfter(text, q + 1)
    else None
  }

  /** A captured group and the position where its match ends. */
  datatype Capture = Capture(digits: string, end: nat)

  predicate DigitString(ds: string) {
    1 <= |ds| <= 3 && forall k :: 0 <= k < |ds| ==> IsDigit(ds[k])
  }

  /** The azimuth pattern matched at position p: "direction", then the first "(digit" on the
      same line, capturing up to three digits. */
  function AzimuthAt(text: string, p: nat): (r: Option<Capture>)
    requires p <= |text|
    ensures r.Some? ==> p < r.value.end <= |text| && DigitString(r.value.digits)
    ensures r.Some? <==> (WordAt(text, p, "direction") &&
                          exists k :: p + 9 <= k && ParenDigitAt(text, k) && !LineBreakIn(text, p + 9, k))
  {
    if !WordAt(text, p, "direction") then None
    else
      match ParenAfter(text, p + 9)
      case None => None
      case Some(q) =>
        var m := DigitRun(text, q + 1, 3);
        Some(Capture(text[q + 1..q + 1 + m], q + 1 + m))
  }

  /** re.findall from position p: the captures of the successive non-overlapping matches,
      each search resuming where the previous match ended. */
  function FindAzimuths(text: string, p: nat): (r: seq<string>)
    requires p <= |text|
    ensures forall k :: 0 <= k < |r| ==> DigitString(r[k])
    ensures r == [] <==> forall k :: p <= k < |text| ==> AzimuthAt(text, k).None?
    decreases |text| - p
  {
    if p == |text| then []
    else
      match AzimuthAt(text, p)
      case Some(c) => [c.digits] + FindAzimuths(text, c.end)
      case None => FindAzimuths(text, p + 1)
  }

  /** A captured azimuth, as float() reads it, lies in [0, 999]. */
  lemma AzimuthRange(ds: string)
    requires DigitString(ds)
    ensures 0.0 <= DigitsValue(ds) as real <= 999.0
  {
    DigitsValueBound(ds);
  }

  // ---------------------------------------------------------------
  // The bandwidth pattern Bandwidth.*?(\d{1,3})\s*MHz (lines 65-66)
  // ---------------------------------------------------------------

  /** The white space (\s) from position q on. */
  function WsRun(text: string, q: nat): (w: nat)
    requires q <= |text|
    ensures q + w <= |text|
    ensures forall k :: q <= k < q + w ==> IsPyWhitespace(text[k])
    ensures q + w < |text| ==> !IsPyWhitespace(text[q + w])
    decreases |text| - q
  {
    if q < |text| && IsPyWhitespace(text[q]) then 1 + WsRun(text, q + 1) else 0
  }

  /** `(\d{1,3})\s*MHz` matches at q. Backtracking cannot help once the greedy attempt fails:
      giving up a digit leaves a digit, and giving up white space leaves white space, where
      "m" must stand. */
  predicate BandwidthTail(text: string, q: nat)
    requires q <= |text|
  {
    var m := DigitRun(text, q, 3);
    m >= 1 && WordAt(text, q + m + WsRun(text, q + m), "mhz")
  }

  /** The lazy `.*?` before the group: the first position on the same line where the rest of
      the pattern matches, and the digits captured there. */
  function BandwidthFrom(text: string, q: nat): (r: Option<string>)
    requires q <= |text|
    ensures r.Some? ==> DigitString(r.value)
    ensures r.None? ==> forall k :: q <= k <= |text| && !LineBreakIn(text, q, k) ==> !BandwidthTail(text, k)
    decreases |text| - q
  {
    if BandwidthTail(text, q) then Some(text[q..q + DigitRun(text, q, 3)])
    else if q < |text| && text[q] != '\n' then BandwidthFrom(text, q + 1)
    else None
  }

  /** "bandwidth" at position j starts a match of the whole pattern. */
  predicate BandwidthStartsAt(text: string, j: nat) {
    j + 9 <= |text| && WordAt(text, j, "bandwidth") && BandwidthFrom(text, j + 9).Some?
  }

  /** re.search from position p: the first position where "bandwidth" starts a match. */
  function SearchBandwidth(text: string, p: nat): (r: Option<string>)
    requires p <= |text|
    ensures r.Some? ==> DigitString(r.value)
    ensures r.None? ==> forall k :: p <= k < |text| ==> !BandwidthStartsAt(text, k)
    decreases |text| - p
  {
    if p == |text| then None
    else if BandwidthStartsAt(text, p) then BandwidthFrom(text, p + 9)
    else SearchBandwidth(text, p + 1)
  }

  /** The rest of the bandwidth pattern matches nowhere in text[q..k]. */
  predicate NoTailIn(text: string, q: nat, k: nat) {
    forall j :: q <= j < k && j <= |text| ==> !BandwidthTail(text, j)
  }

  /** A match found by BandwidthFrom stands at the first position of the line where the rest of
      the pattern matches, and captures the digits there. */
  lemma {:induction false} BandwidthFromFirst(text: string, q: nat)
    requires q <= |text| && BandwidthFrom(text, q).Some?
    ensures exists k :: q <= k <= |text| && !LineBreakIn(text, q, k) && NoTailIn(text, q, k) && BandwidthTail(text, k) &&
                        BandwidthFrom(text, q).value == text[k..k + DigitRun(text, k, 3)]
    decreases |text| - q
  {
    if BandwidthTail(text, q) {
      assert !LineBreakIn(text, q, q) && NoTailIn(text, q, q);
    } else {
      BandwidthFromFirst(text, q + 1);
      var k :| q + 1 <= k <= |text| && !LineBreakIn(text, q + 1, k) && NoTailIn(text, q + 1, k) && BandwidthTail(text, k) &&
               BandwidthFrom(text, q + 1).value == text[k..k + DigitRun(text, k, 3)];
      assert !LineBreakIn(text, q, k);
      assert NoTailIn(text, q, k);
    }
  }

  /** "bandwidth" starts no match anywhere in text[p..k]. */
  predicate NoBandwidthIn(text: string, p: nat, k: nat) {
    forall j :: p <= j < k ==> !BandwidthStartsAt(text, j)
  }

  /** re.search returns the capture of the first "bandwidth" that starts a match. */
  lemma {:induction false} SearchBandwidthFirst(text: string, p: nat)
    requires p <= |text| && SearchBandwidth(text, p).Some?
    ensures exists k :: p <= k < |text| && NoBandwidthIn(text, p, k) && BandwidthStartsAt(text, k) &&
                        SearchBandwidth(text, p) == BandwidthFrom(text, k + 9)
    decreases |text| - p
  {
    if BandwidthStartsAt(text, p) {
      assert NoBandwidthIn(text, p, p);
    } else {
      assert SearchBandwidth(text, p) == SearchBandwidth(text, p + 1);
      SearchBandwidthFirst(text, p + 1);
      var k :| p + 1 <= k < |text| && NoBandwidthIn(text, p + 1, k) && BandwidthStartsAt(text, k) &&
               SearchBandwidth(text, p + 1) == BandwidthFrom(text, k + 9);
      assert NoBandwidthIn(text, p, k);
    }
  }

  /** The bandwidth of a block: the matched number, or 10 MHz when nothing matches. */
  function Bandwidth(text: string): (bw: real)
    ensures bw == 10.0 || 0.0 <= bw <= 999.0
    ensures SearchBandwidth(text, 0).None? ==> bw == 10.0
  {
    match SearchBandwidth(text, 0)
    case Some(ds) =>
      DigitsValueBound(ds);
      DigitsValue(ds) as real
    case None => 10.0
  }

  // ---------------------------------------------------------------
  // Output rows (lines 53-90)
  // ---------------------------------------------------------------

  /** One row as a dictionary: its keys in order and the value under each. */
  datatype Record = Record(columns: seq<string>, cells: seq<Cell>)

  /** row[name] = v: an existing key keeps its place, a new key goes at the end. */
  function WithCell(r: Record, name: string, v: Cell): (out: Record)
    requires |r.columns| == |r.cells|
    ensures |out.columns| == |out.cells|
    ensures out.columns == (if name in r.columns then r.columns else r.columns + [name])
  {
    if name in r.columns then Record(r.columns, r.cells[Position(r.columns, name) := v])
    else Record(r.columns + [name], r.cells + [v])
  }

  predicate HasKey(r: Record, name: string) {
    |r.columns| == |r.cells| && name in r.columns
  }

  /** The value under a key. */
  function Lookup(r: Record, name: string): Cell
    requires HasKey(r, name)
  {
    r.cells[Position(r.columns, name)]
  }

  /** After row[name] = v the key holds v. */
  lemma WithCellSets(r: Record, name: string, v: Cell)
    requires |r.columns| == |r.cells|
    ensures HasKey(WithCell(r, name, v), name) && Lookup(WithCell(r, name, v), name) == v
  {
    var out := WithCell(r, name, v);
    if name !in r.columns {
      PositionFirst(out.columns, name, |r.columns|);
    }
  }

  /** row[name] = v leaves every other original column, and its cell, where it was. */
  lemma WithCellKeepsColumn(r: Record, name: string, v: Cell, j: nat)
    requires |r.columns| == |r.cells| && j < |r.columns| && r.columns[j] != name
    ensures WithCell(r, name, v).columns[j] == r.columns[j] && WithCell(r, name, v).cells[j] == r.cells[j]
  {
  }

  /** row[name] = v leaves the value under every other key alone. */
  lemma WithCellKeeps(r: Record, name: string, v: Cell, other: string)
    requires HasKey(r, other) && other != name
    ensures HasKey(WithCell(r, name, v), other) && Lookup(WithCell(r, name, v), other) == Lookup(r, other)
  {
    PositionInPrefix(r.columns, WithCell(r, name, v).columns, other);
  }

  /** The keys the loop writes into each row (lines 76-79 and 84-87). */
  predicate IsAddedKey(c: string) {
    c == "azimuth_deg" || c == "bandwidth_mhz" || c == "txpower_dbm" || c == "frequency_ghz"
  }

  /** The row for one sector of a block: a copy of the geocoded row with the four added keys.
      The transmit power is the fixed 46 dBm (line 70), the frequency the fixed 1.8 GHz. */
  function OutRecord(geo: Record, azimuth: Cell, bw: real): (out: Record)
    requires |geo.columns| == |geo.cells|
    ensures |out.columns| == |out.cells|
  {
    var r1 := WithCell(geo, "azimuth_deg", azimuth);
    var r2 := WithCell(r1, "bandwidth_mhz", Num(bw));
    var r3 := WithCell(r2, "txpower_dbm", Num(46.0));
    WithCell(r3, "frequency_ghz", Num(1.8))
  }

  /** The keys of every output row: the geocoded columns, then the added keys they lack. */
  function OutColumns(columns: seq<string>): seq<string> {
    var c1 := if "azimuth_deg" in columns then columns else columns + ["azimuth_deg"];
    var c2 := if "bandwidth_mhz" in c1 then c1 else c1 + ["bandwidth_mhz"];
    var c3 := if "txpower_dbm" in c2 then c2 else c2 + ["txpower_dbm"];
    if "frequency_ghz" in c3 then c3 else c3 + ["frequency_ghz"]
  }

  /** Every output row has the same keys: the geocoded columns, then the added keys they lack. */
  lemma OutRecordColumns(geo: Record, azimuth: Cell, bw: real)
    requires |geo.columns| == |geo.cells|
    ensures OutRecord(geo, azimuth, bw).columns == OutColumns(geo.columns)
  {
  }

  /** Under the added keys an output row holds the azimuth, the bandwidth, 46 dBm and 1.8 GHz. */
  lemma OutRecordValues(geo: Record, azimuth: Cell, bw: real)
    requires |geo.columns| == |geo.cells|
    ensures var out := OutRecord(geo, azimuth, bw);
      && HasKey(out, "azimuth_deg") && Lookup(out, "azimuth_deg") == azimuth
      && HasKey(out, "bandwidth_mhz") && Lookup(out, "bandwidth_mhz") == Num(bw)
      && HasKey(out, "txpower_dbm") && Lookup(out, "txpower_dbm") == Num(46.0)
      && HasKey(out, "frequency_ghz") && Lookup(out, "frequency_ghz") == Num(1.8)
  {
    var r1 := WithCell(geo, "azimuth_deg", azimuth);
    var r2 := WithCell(r1, "bandwidth_mhz", Num(bw));
    var r3 := WithCell(r2, "txpower_dbm", Num(46.0));
    assert "azimuth_deg"[0] == 'a' && "bandwidth_mhz"[0] == 'b';
    assert "txpower_dbm"[0] == 't' && "frequency_ghz"[0] == 'f';
    WithCellSets(geo, "azimuth_deg", azimuth);
    WithCellSets(r1, "bandwidth_mhz", Num(bw));
    WithCellSets(r2, "txpower_dbm", Num(46.0));
    WithCellSets(r3, "frequency_ghz", Num(1.8));
    WithCellKeeps(r1, "bandwidth_mhz", Num(bw), "azimuth_deg");
    WithCellKeeps(r2, "txpower_dbm", Num(46.0), "azimuth_deg");
    WithCellKeeps(r3, "frequency_ghz", Num(1.8), "azimuth_deg");
    WithCellKeeps(r2, "txpower_dbm", Num(46.0), "bandwidth_mhz");
    WithCellKeeps(r3, "frequency_ghz", Num(1.8), "bandwidth_mhz");
    WithCellKeeps(r3, "frequency_ghz", Num(1.8), "txpower_dbm");
  }

  /** Every other geocoded column keeps its place and its value for this tower. */
  lemma OutRecordKeepsGeo(geo: Record, azimuth: Cell, bw: real, j: nat)
    requires |geo.columns| == |geo.cells| && j < |geo.columns| && !IsAddedKey(geo.columns[j])
    ensures var out := OutRecord(geo, azimuth, bw);
      j < |out.columns| && out.columns[j] == geo.columns[j] && out.cells[j] == geo.cells[j]
  {
    var r1 := WithCell(geo, "azimuth_deg", azimuth);
    var r2 := WithCell(r1, "bandwidth_mhz", Num(bw));
    var r3 := WithCell(r2, "txpower_dbm", Num(46.0));
    WithCellKeepsColumn(geo, "azimuth_deg", azimuth, j);
    WithCellKeepsColumn(r1, "bandwidth_mhz", Num(bw), j);
    WithCellKeepsColumn(r2, "txpower_dbm", Num(46.0), j);
    WithCellKeepsColumn(r3, "frequency_ghz", Num(1.8), j);
  }

  /** A captured azimuth as float() reads it. */
  function AzimuthCell(ds: string): (c: Cell)
    requires DigitString(ds)
    ensures c.Num? && 0.0 <= c.v <= 999.0
  {
    DigitsValueBound(ds);
    Num(DigitsValue(ds) as real)
  }

  /** A row dictionary whose keys and values line up. */
  type Dict = r: Record | |r.columns| == |r.cells| witness Record([], [])

  /** One entry of extracted_data: the geocoded row it copies and the azimuth and bandwidth
      the loop assigns into the copy. Its dictionary is SectorRow. */
  datatype Sector = Sector(geo: Dict, azimuth: Cell, bandwidth: real)

  /** The dictionary of an entry: the copy with the four keys assigned. */
  function SectorRow(s: Sector): Record {
    OutRecord(s.geo, s.azimuth, s.bandwidth)
  }

  /** The entries for the captured azimuths, one per azimuth and in their order. */
  function SectorRecords(geo: Dict, azimuths: seq<string>, bw: real): (rs: seq<Sector>)
    requires forall k :: 0 <= k < |azimuths| ==> DigitString(azimuths[k])
    ensures |rs| == |azimuths|
  {
    if azimuths == [] then []
    else
      var last := |azimuths| - 1;
      SectorRecords(geo, azimuths[..last], bw) + [Sector(geo, AzimuthCell(azimuths[last]), bw)]
  }

  lemma {:induction false} SectorRecordAt(geo: Dict, azimuths: seq<string>, bw: real, k: nat)
    requires forall k :: 0 <= k < |azimuths| ==> DigitString(azimuths[k])
    requires k < |azimuths|
    ensures SectorRecords(geo, azimuths, bw)[k] == Sector(geo, AzimuthCell(azimuths[k]), bw)
  {
    var last := |azimuths| - 1;
    if k < last {
      SectorRecordAt(geo, azimuths[..last], bw, k);
    }
  }

  /** The entries one block gives: one per captured azimuth, or one without azimuth. */
  function BlockRecords(geo: Dict, text: string): (rs: seq<Sector>)
    ensures |rs| >= 1
  {
    var azimuths := FindAzimuths(text, 0);
    var bw := Bandwidth(text);
    if azimuths == [] then [Sector(geo, NaN, bw)] else SectorRecords(geo, azimuths, bw)
  }

  /** The geocoded row i as a dictionary. */
  function GeoRecord(geo: Frame<string>, i: nat): (r: Dict)
    requires i < |geo.rows| && Rectangular(geo)
    ensures r.columns == geo.columns && r.cells == geo.rows[i]
  {
    Record(geo.columns, geo.rows[i])
  }

  function Min(a: nat, b: nat): nat { if a <= b then a else b }

  /** The entries of the first n blocks, block i paired with geocoded row i. */
  function Extracted(blocks: seq<string>, geo: Frame<string>, n: nat): (rs: seq<Sector>)
    requires n <= |blocks| && n <= |geo.rows| && Rectangular(geo)
    ensures |rs| >= n
    decreases n, 1
  {
    if n == 0 then [] else ExtractedThrough(blocks, geo, n)
  }

  /** The entries of the first n - 1 blocks followed by those of block n - 1. */
  function ExtractedThrough(blocks: seq<string>, geo: Frame<string>, n: nat): (rs: seq<Sector>)
    requires 0 < n <= |blocks| && n <= |geo.rows| && Rectangular(geo)
    ensures |rs| >= n
    decreases n, 0
  {
    Extracted(blocks, geo, n - 1) + BlockRecords(GeoRecord(geo, n - 1), blocks[n - 1])
  }

  /** The extraction loop over limit = min(#blocks, #geocoded rows). */
  method ExtractRows(blocks: seq<string>, geo: Frame<string>) returns (rows: seq<Sector>)
    requires Rectangular(geo)
    ensures rows == Extracted(blocks, geo, Min(|blocks|, |geo.rows|))
  {
    var limit := Min(|blocks|, |geo.rows|);
    rows := [];
    for i := 0 to limit
      invariant limit <= |blocks| && limit <= |geo.rows|
      invariant rows == Extracted(blocks, geo, i)
    {
      rows := ExtendRows(blocks, geo, i, rows);
    }
  }

  /** One round of the extraction loop: the entries of block i, paired with geocoded row i,
      are appended. */
  method ExtendRows(blocks: seq<string>, geo: Frame<string>, i: nat, rows: seq<Sector>) returns (next: seq<Sector>)
    requires i < |blocks| && i < |geo.rows| && Rectangular(geo)
    requires rows == Extracted(blocks, geo, i)
    ensures next == Extracted(blocks, geo, i + 1)
  {
    var blockRows := CreateRows(GeoRecord(geo, i), blocks[i]);
    next := rows + blockRows;
  }

  /** The body of the extraction loop for one block (lines 56-88): the azimuths and the
      bandwidth are searched for, and one entry is appended per azimuth, or a single entry
      without one. */
  method CreateRows(geoRow: Dict, text: string) returns (rows: seq<Sector>)
    ensures rows == BlockRecords(geoRow, text)
  {
    var azimuths := FindAzimuths(text, 0);
    var bwMatch := SearchBandwidth(text, 0);
    var bandwidth := if bwMatch.Some? then DigitsValue(bwMatch.value) as real else 10.0;
    assert bandwidth == Bandwidth(text);
    if |azimuths| > 0 {
      rows := SectorRows(geoRow, azimuths, bandwidth);
    } else {
      rows := [Sector(geoRow, NaN, bandwidth)];
    }
  }

  /** The inner loop over the captured azimuths (lines 73-80). */
  method SectorRows(geoRow: Dict, azimuths: seq<string>, bandwidth: real) returns (rows: seq<Sector>)
    requires forall k :: 0 <= k < |azimuths| ==> DigitString(azimuths[k])
    ensures rows == SectorRecords(geoRow, azimuths, bandwidth)
  {
    rows := [];
    var j := 0;
    while j < |azimuths|
      invariant 0 <= j <= |azimuths|
      invariant rows == SectorRecords(geoRow, azimuths[..j], bandwidth)
    {
      var azimuth := Num(DigitsValue(azimuths[j]) as real);
      assert azimuths[..j + 1][..j] == azimuths[..j];
      rows := rows + [Sector(geoRow, azimuth, bandwidth)];
      j := j + 1;
    }
    assert azimuths[..j] == azimuths;
  }

  /** Entry k of a block copies the block's geocoded row and carries the block's bandwidth
      and the k-th captured azimuth; with no capture the single entry has a missing azimuth. */
  lemma BlockRecordsSpec(geo: Dict, text: string)
    ensures var rs := BlockRecords(geo, text); var az := FindAzimuths(text, 0);
      && |rs| == (if az == [] then 1 else |az|)
      && (forall k :: 0 <= k < |rs| ==> rs[k].geo == geo && rs[k].bandwidth == Bandwidth(text))
      && (az == [] ==> rs[0].azimuth == NaN)
      && (forall k :: 0 <= k < |az| ==> rs[k].azimuth == AzimuthCell(az[k]))
  {
    var az := FindAzimuths(text, 0);
    if az != [] {
      forall k | 0 <= k < |az| ensures BlockRecords(geo, text)[k] == Sector(geo, AzimuthCell(az[k]), Bandwidth(text)) {
        SectorRecordAt(geo, az, Bandwidth(text), k);
      }
    }
  }

  /** The dictionary of an entry has the common keys, the assigned azimuth and bandwidth,
      46 dBm and 1.8 GHz, and every other geocoded column in its place with its value. */
  lemma SectorRowSpec(s: Sector)
    ensures var r := SectorRow(s);
      && r.columns == OutColumns(s.geo.columns)
      && HasKey(r, "azimuth_deg") && Lookup(r, "azimuth_deg") == s.azimuth
      && HasKey(r, "bandwidth_mhz") && Lookup(r, "bandwidth_mhz") == Num(s.bandwidth)
      && HasKey(r, "txpower_dbm") && Lookup(r, "txpower_dbm") == Num(46.0)
      && HasKey(r, "frequency_ghz") && Lookup(r, "frequency_ghz") == Num(1.8)
      && (forall j :: 0 <= j < |s.geo.columns| && !IsAddedKey(s.geo.columns[j]) ==>
            j < |r.columns| && r.columns[j] == s.geo.columns[j] && r.cells[j] == s.geo.cells[j])
  {
    OutRecordColumns(s.geo, s.azimuth, s.bandwidth);
    OutRecordValues(s.geo, s.azimuth, s.bandwidth);
    forall j | 0 <= j < |s.geo.columns| && !IsAddedKey(s.geo.columns[j])
      ensures var r := SectorRow(s); j < |r.columns| && r.columns[j] == s.geo.columns[j] && r.cells[j] == s.geo.cells[j]
    {
      OutRecordKeepsGeo(s.geo, s.azimuth, s.bandwidth, j);
    }
  }

  /** Every extracted row has the common keys, 46 dBm, 1.8 GHz, a bandwidth of 10 MHz or a
      matched value in [0, 999], and an azimuth that is missing or in [0, 999]. */
  predicate RowDefaults(r: Record) {
    && HasKey(r, "azimuth_deg") && HasKey(r, "bandwidth_mhz")
    && HasKey(r, "txpower_dbm") && HasKey(r, "frequency_ghz")
    && Lookup(r, "txpower_dbm") == Num(46.0)
    && Lookup(r, "frequency_ghz") == Num(1.8)
    && (var b := Lookup(r, "bandwidth_mhz"); b.Num? && (b.v == 10.0 || 0.0 <= b.v <= 999.0))
    && (var a := Lookup(r, "azimuth_deg"); a == NaN || (a.Num? && 0.0 <= a.v <= 999.0))
  }

  /** The value ranges of an entry: a matched or default bandwidth, a missing or captured
      azimuth. */
  predicate SectorInRange(s: Sector) {
    (s.bandwidth == 10.0 || 0.0 <= s.bandwidth <= 999.0)
    && (s.azimuth == NaN || (s.azimuth.Num? && 0.0 <= s.azimuth.v <= 999.0))
  }

  /** Every entry of one block copies the block's geocoded row and lies in range. */
  lemma BlockRecordsInRange(g: Dict, text: string)
    ensures forall k :: 0 <= k < |BlockRecords(g, text)| ==>
      BlockRecords(g, text)[k].geo == g && SectorInRange(BlockRecords(g, text)[k])
  {
    var rs := BlockRecords(g, text);
    BlockRecordsSpec(g, text);
    var az := FindAzimuths(text, 0);
    forall k | 0 <= k < |rs| ensures rs[k].geo == g && SectorInRange(rs[k]) {
      if az != [] {
        var c := AzimuthCell(az[k]);
      }
    }
  }

  /** Every entry copies a row with these keys and lies in range. */
  ghost predicate EntriesInRange(rs: seq<Sector>, columns: seq<string>) {
    forall k :: 0 <= k < |rs| ==> rs[k].geo.columns == columns && SectorInRange(rs[k])
  }

  lemma EntriesInRangeConcat(a: seq<Sector>, b: seq<Sector>, columns: seq<string>)
    requires EntriesInRange(a, columns) && EntriesInRange(b, columns)
    ensures EntriesInRange(a + b, columns)
  {
    assert forall k :: |a| <= k < |a + b| ==> (a + b)[k] == b[k - |a|];
  }

  /** Every entry of the first n blocks copies its block's geocoded row and lies in range. */
  lemma {:induction false} ExtractedInRange(blocks: seq<string>, geo: Frame<string>, n: nat)
    requires n <= |blocks| && n <= |geo.rows| && Rectangular(geo)
    ensures EntriesInRange(Extracted(blocks, geo, n), geo.columns)
  {
    if n > 0 {
      ExtractedInRange(blocks, geo, n - 1);
      var g := GeoRecord(geo, n - 1);
      BlockRecordsInRange(g, blocks[n - 1]);
      EntriesInRangeConcat(Extracted(blocks, geo, n - 1), BlockRecords(g, blocks[n - 1]), geo.columns);
    }
  }

  /** Every extracted row has the common keys and the fixed and ranged values. */
  lemma ExtractedDefaults(blocks: seq<string>, geo: Frame<string>, n: nat)
    requires n <= |blocks| && n <= |geo.rows| && Rectangular(geo)
    ensures forall k :: 0 <= k < |Extracted(blocks, geo, n)| ==>
      SectorRow(Extracted(blocks, geo, n)[k]).columns == OutColumns(geo.columns)
      && RowDefaults(SectorRow(Extracted(blocks, geo, n)[k]))
  {
    var all := Extracted(blocks, geo, n);
    ExtractedInRange(blocks, geo, n);
    forall k | 0 <= k < |all| ensures SectorRow(all[k]).columns == OutColumns(geo.columns) && RowDefaults(SectorRow(all[k])) {
      SectorRowSpec(all[k]);
    }
  }

  // ---------------------------------------------------------------
  // Column normalisation and dropping rows without coordinates (lines 90-106)
  // ---------------------------------------------------------------

  /** pd.DataFrame of the row dictionaries: all share their keys, so the keys become the
      columns; without any row the frame has no column at all. */
  function FinalFrame(rows: seq<Sector>, columns: seq<string>): (f: Frame<string>)
    ensures |f.rows| == |rows|
  {
    Frame(if rows == [] then [] else columns, seq(|rows|, k requires 0 <= k < |rows| => SectorRow(rows[k]).cells))
  }

  /** c.strip().lower(). */
  function NormalizeName(c: string): string {
    Lower(PyStrip(c))
  }

  /** DataFrame.rename with the mapping {a: to, b: to}. */
  function Rename(columns: seq<string>, a: string, b: string, to: string): (r: seq<string>)
    ensures |r| == |columns|
    ensures forall j :: 0 <= j < |r| ==> r[j] == (if columns[j] == a || columns[j] == b then to else columns[j])
  {
    seq(|columns|, j requires 0 <= j < |columns| => if columns[j] == a || columns[j] == b then to else columns[j])
  }

  /** After renaming, `to` is a label exactly when `to`, `a` or `b` was one. */
  lemma RenameProduces(columns: seq<string>, a: string, b: string, to: string)
    ensures to in Rename(columns, a, b, to) <==>
      exists j :: 0 <= j < |columns| && (columns[j] == to || columns[j] == a || columns[j] == b)
  {
    var r := Rename(columns, a, b, to);
    if to in r {
      var j :| 0 <= j < |r| && r[j] == to;
      assert columns[j] == to || columns[j] == a || columns[j] == b;
    }
  }

  /** Renaming neither adds nor removes any other label. */
  lemma RenameKeeps(columns: seq<string>, a: string, b: string, to: string, other: string)
    requires other != a && other != b && other != to
    ensures other in Rename(columns, a, b, to) <==> other in columns
  {
    var r := Rename(columns, a, b, to);
    if other in columns {
      var j :| 0 <= j < |columns| && columns[j] == other;
      assert r[j] == other;
    }
  }

  /** c.strip().lower() of every label. */
  function NormalizeNames(columns: seq<string>): (r: seq<string>)
    ensures |r| == |columns|
    ensures forall j :: 0 <= j < |r| ==> r[j] == NormalizeName(columns[j])
  {
    seq(|columns|, j requires 0 <= j < |columns| => NormalizeName(columns[j]))
  }

  /** Lines 103-104: when there is no "latitude" label, "lat" and "y" are renamed to it, and
      likewise "lon" and "x" to "longitude". */
  function RenameCoordinates(names: seq<string>): (r: seq<string>)
    ensures |r| == |names|
  {
    var c2 := if "latitude" in names then names else Rename(names, "lat", "y", "latitude");
    if "longitude" in c2 then c2 else Rename(c2, "lon", "x", "longitude")
  }

  /** Lines 102-104: every label is normalised, then the coordinate labels are renamed. */
  function NormalizeColumns(columns: seq<string>): (r: seq<string>)
    ensures |r| == |columns|
  {
    RenameCoordinates(NormalizeNames(columns))
  }

  predicate LatitudeName(c: string) {
    c == "latitude" || c == "lat" || c == "y"
  }

  predicate LongitudeName(c: string) {
    c == "longitude" || c == "lon" || c == "x"
  }

  /** After the renaming there is a "latitude" label exactly when some label was "latitude",
      "lat" or "y". */
  lemma RenameCoordinatesLatitude(names: seq<string>)
    ensures "latitude" in RenameCoordinates(names) <==> exists j :: 0 <= j < |names| && LatitudeName(names[j])
  {
    var c2 := if "latitude" in names then names else Rename(names, "lat", "y", "latitude");
    assert |"lon"| == 3 && |"x"| == 1 && |"longitude"| == 9 && |"latitude"| == 8;
    assert "latitude" in RenameCoordinates(names) <==> "latitude" in c2 by {
      if "longitude" !in c2 {
        RenameKeeps(c2, "lon", "x", "longitude", "latitude");
      }
    }
    if "latitude" in names {
      var j :| 0 <= j < |names| && names[j] == "latitude";
      assert LatitudeName(names[j]);
    } else {
      RenameProduces(names, "lat", "y", "latitude");
    }
  }

  /** After the renaming there is a "longitude" label exactly when some label was
      "longitude", "lon" or "x". */
  lemma RenameCoordinatesLongitude(names: seq<string>)
    ensures "longitude" in RenameCoordinates(names) <==> exists j :: 0 <= j < |names| && LongitudeName(names[j])
  {
    var c2 := if "latitude" in names then names else Rename(names, "lat", "y", "latitude");
    assert |"longitude"| == 9 && |"lat"| == 3 && |"y"| == 1 && |"latitude"| == 8;
    if "latitude" !in names {
      RenameKeeps(names, "lat", "y", "latitude", "longitude");
    }
    if "longitude" in c2 {
      var j :| 0 <= j < |names| && names[j] == "longitude";
      assert LongitudeName(names[j]);
    } else {
      RenameProduces(c2, "lon", "x", "longitude");
      if exists j :: 0 <= j < |names| && LongitudeName(names[j]) {
        var j :| 0 <= j < |names| && LongitudeName(names[j]);
        assert c2[j] == "lon" || c2[j] == "x";
      }
    }
  }

  /** No column labelled latitude or longitude holds a missing value in the row. */
  predicate HasCoordinates(columns: seq<string>, row: seq<Cell>) {
    forall j :: 0 <= j < |columns| && j < |row| && (columns[j] == "latitude" || columns[j] == "longitude") ==> row[j] != NaN
  }

  function KeepWithCoordinates(columns: seq<string>, rows: seq<seq<Cell>>): (r: seq<seq<Cell>>)
    ensures |r| <= |rows|
    ensures forall x :: x in r <==> x in rows && HasCoordinates(columns, x)
  {
    if rows == [] then []
    else
      var init := KeepWithCoordinates(columns, rows[..|rows| - 1]);
      var last := rows[|rows| - 1];
      assert rows == rows[..|rows| - 1] + [last];
      if HasCoordinates(columns, last) then init + [last] else init
  }

  /** dropna(subset=['latitude', 'longitude']): a missing label is a KeyError; otherwise the
      rows with a missing value in any latitude or longitude column go, the others stay. */
  function DropMissing(f: Frame<string>): (r: Result<Frame<string>, string>)
    ensures r.Err? <==> "latitude" !in f.columns || "longitude" !in f.columns
    ensures r.Ok? ==> r.value.columns == f.columns
  {
    if "latitude" !in f.columns || "longitude" !in f.columns then Err("KeyError")
    else Ok(Frame(f.columns, KeepWithCoordinates(f.columns, f.rows)))
  }

  /** Dropping works row by row and keeps the order of the rows it keeps: dropping from two
      runs of rows one after the other is dropping from each. */
  lemma {:induction false} KeepAppend(columns: seq<string>, a: seq<seq<Cell>>, b: seq<seq<Cell>>)
    ensures KeepWithCoordinates(columns, a + b) == KeepWithCoordinates(columns, a) + KeepWithCoordinates(columns, b)
  {
    if b != [] {
      var init := b[..|b| - 1];
      var last := b[|b| - 1];
      KeepAppend(columns, a, init);
      assert (a + b)[..|a + b| - 1] == a + init;
      assert (a + b)[|a + b| - 1] == last;
    } else {
      assert a + b == a;
    }
  }

  /** Dropping a second time changes nothing. */
  lemma {:induction false} KeepIdempotent(columns: seq<string>, rows: seq<seq<Cell>>)
    ensures KeepWithCoordinates(columns, KeepWithCoordinates(columns, rows)) == KeepWithCoordinates(columns, rows)
  {
    if rows != [] {
      var init := rows[..|rows| - 1];
      var last := rows[|rows| - 1];
      var kept := KeepWithCoordinates(columns, init);
      KeepIdempotent(columns, init);
      if HasCoordinates(columns, last) {
        KeepAppend(columns, kept, [last]);
        assert [last][..0] == [];
      }
    }
  }

  // ---------------------------------------------------------------
  // The whole script up to the projection
  // ---------------------------------------------------------------

  /** The blocks the grouping loop builds from the lines: block k is the space-join of run k
      of Group. */
  function Blocks(lines: seq<string>): (blocks: seq<string>)
    ensures |blocks| == |Group(lines)|
    ensures forall k :: 0 <= k < |blocks| ==> blocks[k] == Join(Group(lines)[k], " ")
  {
    JoinRuns(Group(lines))
  }

  /** The sector rows of the script: flatten, group, pair and expand, build the frame and
      normalise its columns. */
  function SectorFrame(cleanRows: seq<seq<Option<string>>>, geo: Frame<string>): (f: Frame<string>)
    requires Rectangular(geo)
  {
    var blocks := Blocks(FlattenLines(cleanRows));
    var frame := FinalFrame(Extracted(blocks, geo, Min(|blocks|, |geo.rows|)), OutColumns(geo.columns));
    Frame(NormalizeColumns(frame.columns), frame.rows)
  }

  /** The PDF rows and the geocoded table give the sector rows that have coordinates, or the
      KeyError dropna raises when a coordinate column is missing; in particular when no row
      was extracted at all, since the frame then has no columns. */
  method FixAndMerge(cleanRows: seq<seq<Option<string>>>, geo: Frame<string>) returns (r: Result<Frame<string>, string>)
    requires Rectangular(geo)
    ensures r == DropMissing(SectorFrame(cleanRows, geo))
    ensures SectorFrame(cleanRows, geo).rows == [] ==> r.Err?
    ensures r.Ok? ==> forall x :: x in r.value.rows <==>
      x in SectorFrame(cleanRows, geo).rows && HasCoordinates(r.value.columns, x)
  {
    var lines := FlattenLines(cleanRows);
    var blocks := GroupBlocks(lines);
    var rows := ExtractRows(blocks, geo);
    var frame := FinalFrame(rows, OutColumns(geo.columns));
    var normalized := Frame(NormalizeColumns(frame.columns), frame.rows);
    r := DropMissing(normalized);
  }
}
