/** The tower loader and the energy model of manila_5g.cc.

    The file is given as its lines; the first is the header the program skips. std::stod is
    the given partial function `parse` (None where it throws). Node, mobility and LTE device
    installation are not modelled: an installed tower is the record of the values the
    program hands to them. Doubles are modelled as reals. */
module Manila5g {
  import opened Util

  /** What the loop reads from an accepted row (lines 118-121 and 135-138). */
  datatype Tower = Tower(x: real, y: real, txPower: real, bwMHz: real, rbs: nat)

  // ---------------------------------------------------------------
  // Energy model (lines 37-41)
  // ---------------------------------------------------------------

  /** 130 W of static consumption per active macro cell; the TX power argument is unused. */
  function CalculateTotalEnergy(activeTowers: nat, totalTxPowerDbm: real): (e: real)
    ensures e >= 0.0
    ensures e == 0.0 <==> activeTowers == 0
  {
    130.0 * activeTowers as real
  }

  /** The energy score does not depend on the transmit power. */
  lemma EnergyIgnoresTxPower(activeTowers: nat, p: real, q: real)
    ensures CalculateTotalEnergy(activeTowers, p) == CalculateTotalEnergy(activeTowers, q)
  {
  }

  /** Every further active tower costs exactly 130 W. */
  lemma EnergyPerTower(activeTowers: nat, p: real)
    ensures CalculateTotalEnergy(activeTowers + 1, p) == CalculateTotalEnergy(activeTowers, p) + 130.0
  {
  }

  // ---------------------------------------------------------------
  // Bandwidth to resource blocks (lines 135-138)
  // ---------------------------------------------------------------

  function ResourceBlocks(bwMHz: real): (rbs: nat)
    ensures rbs in {25, 50, 75, 100}
    ensures rbs == 100 <==> bwMHz >= 19.0
    ensures rbs == 75 <==> 14.0 <= bwMHz < 19.0
    ensures rbs == 50 <==> 9.0 <= bwMHz < 14.0
    ensures rbs == 25 <==> bwMHz < 9.0
  {
    if bwMHz >= 19.0 then 100
    else if bwMHz >= 14.0 then 75
    else if bwMHz >= 9.0 then 50
    else 25
  }

  /** More bandwidth never gives fewer resource blocks. */
  lemma ResourceBlocksMonotone(a: real, b: real)
    requires a <= b
    ensures ResourceBlocks(a) <= ResourceBlocks(b)
  {
  }

  // ---------------------------------------------------------------
  // One row (lines 99-121)
  // ---------------------------------------------------------------

  /** The value stored for one cell: std::stod's result, or 0.0 where it throws (line 113). */
  function CellValue(item: string, parse: string -> Option<real>): real {
    match parse(item)
    case Some(v) => v
    case None => 0.0
  }

  /** The inner getline loop (lines 109-114): one value per comma-separated item; an item
      stod rejects becomes 0.0 and does not reject the row. */
  method ParseRowValues(line: string, parse: string -> Option<real>) returns (rowData: seq<real>)
    ensures |rowData| == |Split(line, ',')|
    ensures forall k :: 0 <= k < |rowData| ==>
      rowData[k] == (if parse(Split(line, ',')[k]).Some? then parse(Split(line, ',')[k]).value else 0.0)
  {
    var items := Split(line, ',');
    rowData := [];
    var k := 0;
    while k < |items|
      invariant 0 <= k <= |items|
      invariant |rowData| == k
      invariant forall m :: 0 <= m < k ==> rowData[m] == CellValue(items[m], parse)
    {
      rowData := rowData + [CellValue(items[k], parse)];
      k := k + 1;
    }
  }

  /** The values of a row, one per item. */
  function RowValues(line: string, parse: string -> Option<real>): (r: seq<real>)
    ensures |r| == |Split(line, ',')|
  {
    var items := Split(line, ',');
    seq(|items|, k requires 0 <= k < |items| => CellValue(items[k], parse))
  }

  /** The tower an accepted row describes: columns 0, 1, 2 and 4. */
  function TowerOf(values: seq<real>): (t: Tower)
    requires |values| >= 5
    ensures t.rbs == ResourceBlocks(t.bwMHz)
  {
    Tower(values[0], values[1], values[2], values[4], ResourceBlocks(values[4]))
  }

  /** What the loop does with one line. */
  datatype Outcome = Blank | MaskedOff | TooShort | Installed(tower: Tower)

  /** The mask turns the tower at towerIndex off only when the mask is non-empty, reaches
      that far and holds '0' there (lines 102-103). */
  predicate SwitchedOff(mask: string, towerIndex: nat) {
    |mask| > 0 && towerIndex < |mask| && mask[towerIndex] == '0'
  }

  /** Lines 99-116: an empty line is passed over, a line the mask switches off is passed over,
      a line with fewer than five items is passed over, and any other line is installed. */
  function Classify(line: string, mask: string, towerIndex: nat, parse: string -> Option<real>): Outcome {
    if line == [] then Blank
    else if SwitchedOff(mask, towerIndex) then MaskedOff
    else if |Split(line, ',')| < 5 then TooShort
    else Installed(TowerOf(RowValues(line, parse)))
  }

  /** towerIndex moves on for a masked-off line (line 104) and an installed one (line 150),
      and stays put for an empty line (line 99) and a short one (line 116). */
  function Advance(o: Outcome, towerIndex: nat): (next: nat)
    ensures next == towerIndex || next == towerIndex + 1
  {
    if o.MaskedOff? || o.Installed? then towerIndex + 1 else towerIndex
  }

  datatype Loaded = Loaded(towers: seq<Tower>, towerIndex: nat)

  /** The state after one more line with the given outcome: an installed tower is appended,
      and the index moves on as Advance says. */
  function Next(before: Loaded, o: Outcome): Loaded {
    if o.Installed? then Loaded(before.towers + [o.tower], before.towerIndex + 1)
    else Loaded(before.towers, Advance(o, before.towerIndex))
  }

  /** The towers the loop has installed after the given lines, and the index it has reached.
      The index counts exactly the installed and the masked-off lines, so it never falls
      behind the number of towers nor runs ahead of the number of lines. */
  function Load(rows: seq<string>, mask: string, parse: string -> Option<real>): (r: Loaded)
    ensures |r.towers| <= r.towerIndex <= |rows|
  {
    if rows == [] then Loaded([], 0)
    else
      var before := Load(rows[..|rows| - 1], mask, parse);
      Next(before, Classify(rows[|rows| - 1], mask, before.towerIndex, parse))
  }

  /** The lines after the header (line 92); a file without lines has none. */
  function DataRows(lines: seq<string>): seq<string> {
    if lines == [] then [] else lines[1..]
  }

  function SumTxPower(towers: seq<Tower>): real {
    if towers == [] then 0.0 else SumTxPower(towers[..|towers| - 1]) + towers[|towers| - 1].txPower
  }

  lemma SumTxPowerAppend(towers: seq<Tower>, t: Tower)
    ensures SumTxPower(towers + [t]) == SumTxPower(towers) + t.txPower
  {
    assert (towers + [t])[..|towers|] == towers;
  }

  /** Load on one more line is Next on the outcome of that line. */
  lemma LoadStep(rows: seq<string>, mask: string, parse: string -> Option<real>, i: nat,
                 before: Loaded, o: Outcome)
    requires i < |rows| && Load(rows[..i], mask, parse) == before
    requires o == Classify(rows[i], mask, before.towerIndex, parse)
    ensures Load(rows[..i + 1], mask, parse) == Next(before, o)
  {
    assert rows[..i + 1][..i] == rows[..i];
  }

  // ---------------------------------------------------------------
  // The loading loop (lines 91-151)
  // ---------------------------------------------------------------

  /** The tests the loop body makes on one line, in the program's order (lines 99-116): the
      outcome is the one Classify describes. */
  method ReadLine(line: string, mask: string, towerIndex: nat, parse: string -> Option<real>)
    returns (o: Outcome)
    ensures o == Classify(line, mask, towerIndex, parse)
  {
    if line == [] {
      return Blank;
    }
    if |mask| > 0 && towerIndex < |mask| {
      if mask[towerIndex] == '0' {
        return MaskedOff;
      }
    }
    var rowData := ParseRowValues(line, parse);
    assert rowData == RowValues(line, parse);
    if |rowData| < 5 {
      return TooShort;
    }
    return Installed(TowerOf(rowData));
  }

  /** The loop over the data lines: the installed towers and the final index are those Load
      describes, activeCount counts the towers and totalTxPower sums their transmit powers. */
  method LoadTowers(lines: seq<string>, mask: string, parse: string -> Option<real>)
    returns (towers: seq<Tower>, activeCount: nat, totalTxPower: real, towerIndex: nat)
    ensures Load(DataRows(lines), mask, parse) == Loaded(towers, towerIndex)
    ensures activeCount == |towers|
    ensures totalTxPower == SumTxPower(towers)
  {
    var rows := DataRows(lines);
    towers := [];
    activeCount := 0;
    totalTxPower := 0.0;
    towerIndex := 0;
    var i := 0;
    while i < |rows|
      invariant 0 <= i <= |rows|
      invariant Load(rows[..i], mask, parse) == Loaded(towers, towerIndex)
      invariant activeCount == |towers|
      invariant totalTxPower == SumTxPower(towers)
    {
      var o := ReadLine(rows[i], mask, towerIndex, parse);
      LoadStep(rows, mask, parse, i, Loaded(towers, towerIndex), o);
      if o.Installed? {
        SumTxPowerAppend(towers, o.tower);
        towers := towers + [o.tower];
        activeCount := activeCount + 1;
        totalTxPower := totalTxPower + o.tower.txPower;
        towerIndex := towerIndex + 1;
      } else if o.MaskedOff? {
        towerIndex := towerIndex + 1;
      }
      i := i + 1;
    }
    assert rows[..i] == rows;
  }

  // ---------------------------------------------------------------
  // Properties of the loop
  // ---------------------------------------------------------------

  /** A line the loop installs when the mask lets it: non-empty with at least five items. */
  predicate Eligible(line: string) {
    line != [] && |Split(line, ',')| >= 5
  }

  /** The towers of every eligible line, as with no mask at all. */
  function AllTowers(rows: seq<string>, parse: string -> Option<real>): seq<Tower> {
    if rows == [] then []
    else
      var before := AllTowers(rows[..|rows| - 1], parse);
      var last := rows[|rows| - 1];
      if Eligible(last) then before + [TowerOf(RowValues(last, parse))] else before
  }

  /** Only the first |rows| mask positions can matter: a mask with no '0' among them switches
      nothing off. In particular the empty mask, a mask of '1's and a mask shorter than the
      first '0' it would need all install every eligible line. */
  lemma {:induction false} NoZeroInstallsAll(rows: seq<string>, mask: string, parse: string -> Option<real>)
    requires forall k :: 0 <= k < |rows| && k < |mask| ==> mask[k] != '0'
    ensures Load(rows, mask, parse).towers == AllTowers(rows, parse)
  {
    if rows != [] {
      var init := rows[..|rows| - 1];
      NoZeroInstallsAll(init, mask, parse);
      var before := Load(init, mask, parse);
      assert !SwitchedOff(mask, before.towerIndex);
    }
  }

  /** The empty mask installs every eligible line (line 102). */
  lemma EmptyMaskInstallsAll(rows: seq<string>, parse: string -> Option<real>)
    ensures Load(rows, "", parse).towers == AllTowers(rows, parse)
  {
    NoZeroInstallsAll(rows, "", parse);
  }

  /** The number of '0's of the mask at positions below k. */
  function ZerosBelow(mask: string, k: nat): nat {
    if k == 0 then 0
    else ZerosBelow(mask, k - 1) + (if k - 1 < |mask| && mask[k - 1] == '0' then 1 else 0)
  }

  lemma {:induction false} ZerosBelowMonotone(mask: string, j: nat, k: nat)
    requires j <= k
    ensures ZerosBelow(mask, j) <= ZerosBelow(mask, k)
    decreases k - j
  {
    if j < k {
      ZerosBelowMonotone(mask, j, k - 1);
    }
  }

  /** The mask never adds towers, and every eligible line it drops used up a '0' of the mask
      below the final index: each '0' switches off at most one line. */
  lemma {:induction false} MaskDropsAtMostZeros(rows: seq<string>, mask: string, parse: string -> Option<real>)
    ensures |Load(rows, mask, parse).towers| <= |AllTowers(rows, parse)|
    ensures |AllTowers(rows, parse)| <= |Load(rows, mask, parse).towers| + ZerosBelow(mask, Load(rows, mask, parse).towerIndex)
  {
    if rows != [] {
      MaskDropsAtMostZeros(rows[..|rows| - 1], mask, parse);
    }
  }

  /** Hence the mask drops at most as many eligible lines as it holds '0's. */
  lemma MaskDropsAtMostMaskZeros(rows: seq<string>, mask: string, parse: string -> Option<real>)
    ensures |AllTowers(rows, parse)| <= |Load(rows, mask, parse).towers| + ZerosBelow(mask, |mask|)
  {
    MaskDropsAtMostZeros(rows, mask, parse);
    var k := Load(rows, mask, parse).towerIndex;
    if k <= |mask| {
      ZerosBelowMonotone(mask, k, |mask|);
    } else {
      ZerosBelowPastEnd(mask, k);
    }
  }

  lemma {:induction false} ZerosBelowPastEnd(mask: string, k: nat)
    requires k >= |mask|
    ensures ZerosBelow(mask, k) == ZerosBelow(mask, |mask|)
  {
    if k > |mask| {
      ZerosBelowPastEnd(mask, k - 1);
    }
  }

  /** A short line does not consume a mask position, so the next line is judged by the mask
      character meant for the short one (lines 116 and 150): with mask "10", a short first
      line followed by a full one installs the full line, although its own position holds '0'. */
  lemma ShortRowShiftsMask(short: string, full: string, parse: string -> Option<real>)
    requires short != [] && |Split(short, ',')| < 5
    requires Eligible(full)
    ensures Load([short, full], "10", parse) == Loaded([TowerOf(RowValues(full, parse))], 1)
    ensures SwitchedOff("10", 1)
  {
    assert [short, full][..1] == [short];
    assert [short][..0] == [];
    assert Load([short], "10", parse) == Loaded([], 0);
  }

  /** A masked-off line still consumes its mask position (line 104): with mask "01", the
      first line is switched off and the second is judged by the '1'. */
  lemma MaskedRowAdvances(first: string, second: string, parse: string -> Option<real>)
    requires first != []
    requires Eligible(second)
    ensures Load([first, second], "01", parse) == Loaded([TowerOf(RowValues(second, parse))], 2)
  {
    assert [first, second][..1] == [first];
    assert [first][..0] == [];
    assert Load([first], "01", parse) == Loaded([], 1);
  }

  // ---------------------------------------------------------------
  // Packet loss (lines 237-240)
  // ---------------------------------------------------------------

  /** The loss ratio in percent; 0 when nothing was sent. */
  function PacketLossRatio(txPackets: real, rxPackets: real): (r: real)
    ensures txPackets <= 0.0 ==> r == 0.0
    ensures txPackets > 0.0 ==> r * txPackets == (txPackets - rxPackets) * 100.0
  {
    if txPackets > 0.0 then ((txPackets - rxPackets) / txPackets) * 100.0 else 0.0
  }

  /** With no more received than sent, the ratio is a percentage. */
  lemma PacketLossRatioBounds(txPackets: real, rxPackets: real)
    requires 0.0 <= rxPackets <= txPackets
    ensures 0.0 <= PacketLossRatio(txPackets, rxPackets) <= 100.0
  {
    if txPackets > 0.0 {
      var r := PacketLossRatio(txPackets, rxPackets);
      assert r * txPackets <= 100.0 * txPackets;
      assert r * txPackets >= 0.0;
    }
  }
}
