# OPTIC-5G in Dafny

OPTIC-5G chooses which base stations of a city, or of a campus Wi-Fi testbed, to keep switched
on. Its pipeline has several parts. A catalog of towers is extracted from a PDF and cleaned.
A greedy maximum-coverage stage picks candidate towers over a grid of demand points. An
integer program shrinks that pool. A QUBO over the survivors penalises interfering pairs, and
the solver's bit vector becomes an activation mask of `'0'`/`'1'` characters. Two ns-3
scenarios consume the mask: the Manila LTE run and the campus testbed.

This project models the discrete logic of that pipeline and proves what it promises. There is
one module per source file:

| module | file | models |
|---|---|---|
| `HybridOptimization` | hybrid_optimization.dfy | demand grid, greedy selection, covering constraints, ILP read-back, QUBO terms, mask |
| `SimulateRealManila` | simulate_real_manila.dfy | `trim`, header cells, column detection, data rows, row-to-site rule |
| `Manila5g` | manila_5g.dfy | mask-driven tower loader, bandwidth to resource blocks, energy, packet loss |
| `PupTestbed` | pup_testbed.dfy | testbed access-point count, transmit powers, client wiring, energy, packet loss, SINR |
| `FixAndMergeGeocoded` | fix_and_merge_geocoded.dfy | row flattening, block grouping, sector expansion, label normalisation, row dropping |
| `GenerateRealTowers` | generate_real_towers.dfy | source choice, coordinate columns, numeric defaults, the six output columns |
| `ExtractTowersCamelot` | extract_towers_camelot.dfy | column-label cleaning |
| `Table` | table.dfy | pandas frames: column read, column assignment, column selection |
| `Util` | util.dfy | Option/Result, ASCII lower-casing, Python `strip`, `getline` splitting, joining |

Some inputs are parameters rather than computed.
- **Distances.** The great-circle tests are given relations. `covers(t, u)` means tower t is
  within the coverage radius of demand point u. `interferes(a, b)` means two towers are closer
  than the interference distance.
- **Solver results.** The integer-program solver's answer is the predicate `isOne`. The
  eigensolver's answer is the vector `solution`.
- **Number parsing.** `std::stod` and `pd.to_numeric` are a given partial function
  `parse: string -> Option<real>`. `None` means the parse throws or coerces to NaN.
- **Files.** Whether a file exists, and the lines or table read from it, are parameters.
- **Numbers.** Doubles are reals.

Imperative code is modelled as methods with loops. Each method is proved against a
specification function or predicate, and the properties are proved about that function:
- the greedy `while` loop;
- the coverage-map and QUBO loops;
- the header and row readers;
- the tower loaders;
- the testbed's loops over its 17 access points;
- the block loop and the extraction loop;
- the numeric-field loop.

The SINR callback's globals are a class, `PupTestbed.SinrMonitor`.

Behaviour of the code worth noting:
- **Solver vector shorter than the candidate list.** Mask encoding does not fail: only a
  vector longer than the candidate list makes the read-back index out of range.
- **QUBO linear coefficient.** Every survivor's linear coefficient is the constant −100, with
  no per-tower cost.
- **Numeric defaults.** generate_real_towers_ns3.py defaults the radio fields to 20 dBm,
  3.5 GHz, 100 MHz and 250 m. fix_and_merge_geocoded.py writes 46 dBm and 1.8 GHz and
  defaults the bandwidth to 10 MHz.

## Model

| member | source | states |
|---|---|---|
| HybridOptimization.DemandGrid | run_hybrid_optimization.py:60-66 | the grid has resolution² points; point k is row k / R, column k mod R; no point starts covered |
| HybridOptimization.CoveredByMembers | run_hybrid_optimization.py:101-102 | a point is covered by a pick list exactly when it is a grid point and some pick covers it |
| HybridOptimization.CurrentCover | run_hybrid_optimization.py:85-90 | the inner scan returns exactly the grid points the tower covers that are not yet covered |
| HybridOptimization.BestSoFarSkip | run_hybrid_optimization.py:82 | skipping an already-picked tower keeps the scan's best-so-far invariant |
| HybridOptimization.BestSoFarKeep | run_hybrid_optimization.py:93 | an unpicked tower whose new cover is not strictly larger leaves the best so far in place |
| HybridOptimization.BestSoFarTake | run_hybrid_optimization.py:93-95 | an unpicked tower with a strictly larger new cover becomes the best so far |
| HybridOptimization.NoGainSoFar | run_hybrid_optimization.py:93-95 | while nothing has been found, every scanned unpicked tower adds no point |
| HybridOptimization.GainBoundSoFar | run_hybrid_optimization.py:93-95 | the best so far has the largest gain among the scanned towers, and every earlier tower has a strictly smaller one |
| HybridOptimization.BestTower | run_hybrid_optimization.py:77-95 | the scan returns −1 with an empty cover exactly when no unpicked tower adds a point; otherwise it returns the greedy pick (largest gain, lowest index on ties) and its new cover |
| HybridOptimization.CoveredByBound | run_hybrid_optimization.py:76 | the covered set holds only grid indices, so it never has more elements than the grid |
| HybridOptimization.GreedyStep | run_hybrid_optimization.py:98-102 | appending the greedy pick keeps the list repetition-free and in the catalog, extends the greedy prefix, and adds exactly the pick's new cover |
| HybridOptimization.GreedyAdvance | run_hybrid_optimization.py:101-102 | taking the tower the scan found preserves the loop state (covered set, greedy prefix, length bound) |
| HybridOptimization.Greedy | run_hybrid_optimization.py:72-102 | the loop returns a complete greedy run (every pick greedy, stopping at 95 % coverage or when no tower adds a point), with the covered set it claims, no repeated tower, at most numTowers picks and only grid points covered |
| HybridOptimization.GreedyPickUnique | run_hybrid_optimization.py:92-95 | the greedy pick after a given list is unique: the strict `>` tie-break is deterministic |
| HybridOptimization.GreedyPrefixAt | run_hybrid_optimization.py:76-102 | every element of a greedy prefix is the greedy pick after the elements before it, made while coverage was below target |
| HybridOptimization.GreedyPrefixUnique | run_hybrid_optimization.py:72-102 | two greedy prefixes of the same length are equal |
| HybridOptimization.GreedyRunUnique | run_hybrid_optimization.py:72-102 | the complete greedy run is unique |
| HybridOptimization.CoverageStrictlyGrows | run_hybrid_optimization.py:98-102 | each step strictly enlarges the covered set, and every newly covered point is covered by the tower just chosen |
| HybridOptimization.GreedyPrefixDistinct | run_hybrid_optimization.py:82 | a greedy prefix never repeats a tower and names only catalog towers |
| HybridOptimization.CoveringTowers | run_hybrid_optimization.py:128-134 | the list of a point holds exactly the candidates covering it |
| HybridOptimization.CoveringTowersStep | run_hybrid_optimization.py:128-134 | one more candidate appends itself to the list of each point it covers, and to no other |
| HybridOptimization.AppendCoverer | run_hybrid_optimization.py:130-134 | one pass over the covered points appends the tower to the list of every point it covers, and keeps the key set |
| HybridOptimization.CoverageMapStep | run_hybrid_optimization.py:128-134 | one pass of the outer loop preserves the map invariant |
| HybridOptimization.BuildCoverageMap | run_hybrid_optimization.py:126-134 | coverage_map has exactly the covered points as keys, each mapped to the candidates covering it, in candidate order |
| HybridOptimization.BuildConstraints | run_hybrid_optimization.py:137-139 | there is one constraint per point with a non-empty list, over exactly that list |
| HybridOptimization.NoConstraintDropped | run_hybrid_optimization.py:137-139 | every point the greedy run covered has a covering candidate, so the `if covering_towers` guard drops nothing |
| HybridOptimization.ReadIlpSelection | run_hybrid_optimization.py:144-147 | the read-back is an order-preserving subsequence of the candidates, holding exactly those the solver set to 1 |
| HybridOptimization.SubsequenceDistinct | run_hybrid_optimization.py:144-147 | a subsequence of a repetition-free list is repetition-free, so the ILP survivors are distinct |
| HybridOptimization.IlpKeepsCoverage | run_hybrid_optimization.py:137-147 | if the solver's answer satisfies every constraint of the map the script builds (each covered point keyed to its non-empty covering list), the survivors cover exactly the points the greedy candidates covered |
| HybridOptimization.RowPairsMembers | run_hybrid_optimization.py:182-190 | the pairs counted in row i are exactly the positions (i, j), i < j, whose towers interfere |
| HybridOptimization.PairsBeforeMembers | run_hybrid_optimization.py:178-190 | the pairs counted in the rows before i are exactly the interfering position pairs a < b with a < i |
| HybridOptimization.RowKeysMembers | run_hybrid_optimization.py:188-189 | the keys row i writes are exactly the tower pairs (s[i], s[j]), i < j, that interfere |
| HybridOptimization.KeysBeforeComplete | run_hybrid_optimization.py:178-190 | every interfering pair in the rows before i has its key among the quadratic terms |
| HybridOptimization.KeysBeforeSound | run_hybrid_optimization.py:178-190 | every quadratic key comes from an interfering pair a < b before row i |
| HybridOptimization.InterferingPairsMembers | run_hybrid_optimization.py:178-190 | the counted pair set holds exactly the interfering position pairs a < b |
| HybridOptimization.RowCountIsPairs | run_hybrid_optimization.py:190 | the counter of a row counts each of its interfering pairs once |
| HybridOptimization.RowPairsBelow | run_hybrid_optimization.py:182 | the pairs of row i before column j start at i and end below j |
| HybridOptimization.PairsBeforeBelow | run_hybrid_optimization.py:178 | the pairs of the rows before i start below i |
| HybridOptimization.CountIsPairs | run_hybrid_optimization.py:176-190 | interference_count equals the number of interfering pairs a < b |
| HybridOptimization.RowKeysCount | run_hybrid_optimization.py:188-190 | with distinct survivors, row i writes as many keys as it counts |
| HybridOptimization.RowKeysFirst | run_hybrid_optimization.py:189 | every key of row i starts with the survivor s[i] |
| HybridOptimization.KeysBeforeFirst | run_hybrid_optimization.py:189 | every key of the rows before i starts with a survivor before position i |
| HybridOptimization.KeysCount | run_hybrid_optimization.py:176-190 | with distinct survivors, there are as many quadratic terms as counted interferences |
| HybridOptimization.KeysCountStep | run_hybrid_optimization.py:178-190 | one row whose survivor is new adds only new keys |
| HybridOptimization.BuildLinear | run_hybrid_optimization.py:170-171 | every survivor, and nothing else, gets the linear coefficient −100 |
| HybridOptimization.ScanRow | run_hybrid_optimization.py:182-190 | the inner loop adds row i's keys with weight 500 and counts row i's interfering pairs |
| HybridOptimization.BuildQuadratic | run_hybrid_optimization.py:175-190 | the quadratic terms are the keys of all rows, each weighted 500, and the counter counts all interfering pairs |
| HybridOptimization.BuildQubo | run_hybrid_optimization.py:165-190 | a quadratic term exists for (s[a], s[b]) iff some positions a < b interfere; every weight is 500; the linear terms are −100 per survivor; interference_count is the number of interfering pairs, which equals the number of terms when the survivors are distinct |
| HybridOptimization.FinalActiveIds | run_hybrid_optimization.py:219-225 | the read-back fails (IndexError) iff the solver vector is longer than the survivor list; otherwise it holds exactly the survivors whose bit is 1.0 |
| HybridOptimization.EncodeMask | run_hybrid_optimization.py:231-235 | the mask fails iff some id is outside the catalog; otherwise its length is the catalog size and it is '1' exactly at the ids |
| HybridOptimization.RunHybridOptimization | run_hybrid_optimization.py:60-235 | the whole pipeline: a greedy run over the R² grid; survivors distinct, at most as many as the candidates, which are at most the towers; a mask of catalog length whose '1's are exactly the survivors with solver bit 1; the constraints built are the constraint map, and if the solver's answer satisfies them the survivors keep the greedy coverage |
| SimulateRealManila.FirstKept | simulate_real_manila.cc:44 | find_first_not_of: every earlier character is a strip character and the one found is not |
| SimulateRealManila.KeptEnd | simulate_real_manila.cc:46 | one past find_last_not_of: every later character is a strip character and the one before is not |
| SimulateRealManila.TrimSpec | simulate_real_manila.cc:43-48 | trim is empty iff every character is a strip character; otherwise it starts and ends with a kept character and is the input minus a strip prefix and a strip suffix |
| SimulateRealManila.TrimIdempotent | simulate_real_manila.cc:44-47 | trimming twice is trimming once |
| SimulateRealManila.SplitTrimmed | simulate_real_manila.cc:99-102 | the split loop gives the trimmed getline items of the line |
| SimulateRealManila.TrimmedPrefixStep | simulate_real_manila.cc:102 | one more trimmed item preserves the split loop's invariant |
| SimulateRealManila.ParseHeader | simulate_real_manila.cc:66-75 | the header cells are the split, trimmed items, lower-cased in place |
| SimulateRealManila.CellClean | simulate_real_manila.cc:70-75 | a header cell has no upper-case letter and no comma, and neither starts nor ends with a strip character |
| SimulateRealManila.HeaderCellsClean | simulate_real_manila.cc:66-75 | every header cell is clean in that sense |
| SimulateRealManila.LastIndexIn | simulate_real_manila.cc:81-90 | an alias scan returns −1 or a valid position |
| SimulateRealManila.LastIndexInSpec | simulate_real_manila.cc:81-90 | the index found holds an alias and no later column does: the last match wins |
| SimulateRealManila.LastIndexInStep | simulate_real_manila.cc:81-90 | scanning one more column moves the index to it iff it is an alias |
| SimulateRealManila.DetectColumns | simulate_real_manila.cc:77-91 | the loop with its eight index variables and two flags computes the column description |
| SimulateRealManila.ColumnsWellFormed | simulate_real_manila.cc:77-91 | every index is −1 or a valid position; has_xy iff an x or a y alias occurs; has_lonlat iff a lon or a lat alias occurs |
| SimulateRealManila.ReadRows | simulate_real_manila.cc:94-104 | a row is kept for exactly the non-blank lines, in file order, each as its trimmed cells |
| SimulateRealManila.ClassifyXy | simulate_real_manila.cc:144-153 | x/y values are taken as degrees iff abs(y) ≤ 90 and abs(x) ≤ 180, and as metres otherwise |
| SimulateRealManila.ParseCoords | simulate_real_manila.cc:138-165 | usable x/y columns are tried first and give a coordinate iff both cells parse; otherwise usable lon/lat columns do; otherwise there is none; metres only come from x/y |
| SimulateRealManila.ParseAttributes | simulate_real_manila.cc:168-183 | there is one value per attribute |
| SimulateRealManila.ParseAttributesValues | simulate_real_manila.cc:168-183 | an attribute takes its parsed cell iff its column is present, the cell parses and no earlier attribute's parse failed; otherwise it keeps its default |
| SimulateRealManila.AttributesShift | simulate_real_manila.cc:168-183 | the shared try block seen from the second attribute on |
| SimulateRealManila.RowSite | simulate_real_manila.cc:131-198 | a row gives a site iff its coordinates parse; the site has those coordinates, the attributes above and the comma-joined cells as its raw line |
| SimulateRealManila.AttributeDefaults | simulate_real_manila.cc:134 | with no attribute column present, the attributes are 20 dBm, 3.5 GHz, 100 MHz and 250 m |
| SimulateRealManila.BuildSites | simulate_real_manila.cc:131-199 | the site loop keeps exactly the rows that give a site, in row order |
| SimulateRealManila.FileLinesAscending | simulate_real_manila.cc:94-199 | the file lines of the sites are in increasing order |
| SimulateRealManila.FileLinesCover | simulate_real_manila.cc:94-199 | every row that gave a site contributes its file line |
| SimulateRealManila.ReadSites | simulate_real_manila.cc:53-199 | an empty file is an error; otherwise the sites come, in file order, from exactly the non-blank data lines that give a site under the detected header |
| SimulateRealManila.GuardAdmitsAbsentColumn | simulate_real_manila.cc:83-84 | a header with a y column but no x column sets has_xy with idx_x = −1, and the guard as written then admits a read at index −1 |
| SimulateRealManila.GuardAdmitsAbsentLon | simulate_real_manila.cc:154-155 | a header with a lat column but no lon and no x/y column leaves has_xy false, sets has_lonlat with idx_lon = −1, and the lon/lat guard as written then admits a read at index −1 |
| SimulateRealManila.CorrectedGuardRejects | simulate_real_manila.cc:140-162 | with the in-range guard, a row without a usable coordinate pair gives no site |
| Manila5g.CalculateTotalEnergy | manila_5g.cc:37-41 | the energy is non-negative, and zero iff no tower is active |
| Manila5g.EnergyIgnoresTxPower | manila_5g.cc:37-41 | the energy does not depend on the transmit power argument |
| Manila5g.EnergyPerTower | manila_5g.cc:39 | every further active tower adds exactly 130 W |
| Manila5g.ResourceBlocks | manila_5g.cc:135-138 | 100 iff bw ≥ 19, 75 iff 14 ≤ bw < 19, 50 iff 9 ≤ bw < 14, 25 iff bw < 9 |
| Manila5g.ResourceBlocksMonotone | manila_5g.cc:135-138 | more bandwidth never gives fewer resource blocks |
| Manila5g.ParseRowValues | manila_5g.cc:109-114 | one value per comma item: the parsed value, or 0.0 where stod throws |
| Manila5g.RowValues | manila_5g.cc:109-114 | there is one value per item |
| Manila5g.TowerOf | manila_5g.cc:118-138 | an installed tower's resource blocks are those of its bandwidth field |
| Manila5g.Advance | manila_5g.cc:99-150 | towerIndex stays put or moves on by exactly one per line |
| Manila5g.Load | manila_5g.cc:98-151 | the installed towers never outnumber towerIndex, which never outruns the lines read |
| Manila5g.LoadStep | manila_5g.cc:98-151 | reading one more line applies that line's outcome to the loader state |
| Manila5g.ReadLine | manila_5g.cc:99-116 | one line is classified as blank, switched off, short or installed, as the specification function says |
| Manila5g.LoadTowers | manila_5g.cc:91-151 | the loop skips the header and returns the loader's towers and index; activeCount is the number of towers and totalTxPower their summed power |
| Manila5g.NoZeroInstallsAll | manila_5g.cc:102-107 | a mask with no '0' among the positions reached installs every eligible line, as if there were no mask |
| Manila5g.EmptyMaskInstallsAll | manila_5g.cc:102 | the empty mask installs every eligible line |
| Manila5g.MaskDropsAtMostZeros | manila_5g.cc:102-106 | the mask never adds towers, and drops at most as many eligible lines as it has '0's below the index reached |
| Manila5g.MaskDropsAtMostMaskZeros | manila_5g.cc:102-106 | the mask drops at most as many eligible lines as it holds '0's |
| Manila5g.ShortRowShiftsMask | manila_5g.cc:99-116 | a short line does not advance towerIndex, so mask "10" switches off nothing and the next line still reads the '1': alignment shifts |
| Manila5g.MaskedRowAdvances | manila_5g.cc:102-106 | a line switched off by '0' still advances towerIndex, so the next line reads the next mask character |
| Manila5g.PacketLossRatio | manila_5g.cc:237-240 | the loss is 0 when nothing was sent, and otherwise (sent − received) / sent × 100 |
| Manila5g.PacketLossRatioBounds | manila_5g.cc:237-240 | with no more received than sent, the loss is a percentage |
| PupTestbed.CountOnes | PUPtestbedns3.cc:100-104 | the count of '1's among the first n positions is at most n |
| PupTestbed.CountActive | PUPtestbedns3.cc:100-104 | activeCount is the number of '1's among mask positions 0 to 16 |
| PupTestbed.DefaultMaskAllActive | PUPtestbedns3.cc:43 | the default mask is readable and switches on all 17 access points |
| PupTestbed.CountAllOnes | PUPtestbedns3.cc:100-104 | a prefix of '1's counts fully |
| PupTestbed.TxPowerFor | PUPtestbedns3.cc:124-130 | the power is −100 dBm iff the character is '0', and 25 dBm iff it is anything else |
| PupTestbed.ConfigureAps | PUPtestbedns3.cc:123-132 | access point i is installed with the power its mask character chooses, for all 17 |
| PupTestbed.Clients | PUPtestbedns3.cc:170-179 | there are as many clients as '1's among the positions scanned |
| PupTestbed.InstallClients | PUPtestbedns3.cc:170-179 | the loop installs exactly the clients the specification function lists |
| PupTestbed.ClientsSound | PUPtestbedns3.cc:172-173 | every client sits on an access point whose character is '1' and sends to interface 17 + ap; clients come in increasing access-point order |
| PupTestbed.ClientsComplete | PUPtestbedns3.cc:172-177 | every access point with '1' has its client |
| PupTestbed.OtherCharacterPoweredButIdle | PUPtestbedns3.cc:103-130 | a character other than '0' and '1' gives full power but no client, and is not counted |
| PupTestbed.CountBelowWithGap | PUPtestbedns3.cc:100-104 | a position without '1' makes the count fall short of the positions |
| PupTestbed.SetUpTestbed | PUPtestbedns3.cc:100-179 | the testbed set-up: the active count equals the number of clients; every client's access point transmits at 25 dBm; each client sends to a user interface in [17, 17 + numUsers); destinations are distinct; every '1' has its client |
| PupTestbed.TestbedEnergy | PUPtestbedns3.cc:37-39 | the energy is non-negative iff the node count is |
| PupTestbed.TestbedEnergyPerNode | PUPtestbedns3.cc:38 | every further active router adds exactly 10.5 W |
| PupTestbed.TestbedEnergyRange | PUPtestbedns3.cc:37-43 | any readable mask's energy lies between 0 and that of the default mask, 178.5 W |
| PupTestbed.PacketLoss | PUPtestbedns3.cc:210 | the loss is 100 when nothing was sent, and otherwise (sent − received) / sent × 100 |
| PupTestbed.PacketLossBounds | PUPtestbedns3.cc:210 | with no more received than sent, the loss is a percentage |
| PupTestbed.AverageSinr | PUPtestbedns3.cc:211 | the mean is 0 dB without samples, and otherwise total / samples |
| PupTestbed.SinrMonitor.constructor | PUPtestbedns3.cc:20-21 | the globals start at zero, with no packet seen |
| PupTestbed.SinrMonitor.OnRx | PUPtestbedns3.cc:24-34 | a packet adds signal − noise to the total and increments the uint32_t counter modulo 2³²; the totals stay those of the packet history |
| PupTestbed.SinrMonitor.Average | PUPtestbedns3.cc:211 | the reported figure is 0 dB before the first packet, and the mean SINR of the history while the counter has not wrapped |
| FixAndMergeGeocoded.PresentCells | fix_and_merge_geocoded.py:28 | `dropna` keeps exactly the present cells, in order |
| FixAndMergeGeocoded.FlattenKeepsCells | fix_and_merge_geocoded.py:28 | every present cell occurs in the flattened line |
| FixAndMergeGeocoded.FlattenLines | fix_and_merge_geocoded.py:28 | there is one line per table row |
| FixAndMergeGeocoded.Group | fix_and_merge_geocoded.py:31-44 | there are no more runs than lines, and no runs iff no lines |
| FixAndMergeGeocoded.GroupConcat | fix_and_merge_geocoded.py:31-44 | the runs, concatenated in order, are the lines: nothing is lost or reordered |
| FixAndMergeGeocoded.GroupShape | fix_and_merge_geocoded.py:36-40 | no run is empty, every run after the first starts with an "eNB ID" line, and within a run only the first line contains it |
| FixAndMergeGeocoded.WellGroupedNewRun | fix_and_merge_geocoded.py:36-40 | starting a run at a header keeps the grouping well formed |
| FixAndMergeGeocoded.WellGroupedExtendRun | fix_and_merge_geocoded.py:40 | appending a non-header line to the current run keeps it well formed |
| FixAndMergeGeocoded.GroupCount | fix_and_merge_geocoded.py:34-44 | there is one block per header line, plus one for any lines before the first header |
| FixAndMergeGeocoded.JoinRuns | fix_and_merge_geocoded.py:37-44 | each block is its run joined with single spaces |
| FixAndMergeGeocoded.GroupBlocks | fix_and_merge_geocoded.py:31-44 | the loop with `current_block` produces exactly the space-joined runs |
| FixAndMergeGeocoded.GroupStep | fix_and_merge_geocoded.py:34-40 | one line of the loop, in each of its two branches, preserves the grouping invariant |
| FixAndMergeGeocoded.Blocks | fix_and_merge_geocoded.py:31-44 | block k is the space-join of run k |
| FixAndMergeGeocoded.DigitRun | fix_and_merge_geocoded.py:62 | the greedy `\d{1,3}` takes as many digits as it can, up to the maximum |
| FixAndMergeGeocoded.ParenAfter | fix_and_merge_geocoded.py:62 | the lazy `.*?\(` stops at the first '(' followed by a digit, before any newline; None exactly when every such '(' lies beyond a line break |
| FixAndMergeGeocoded.AzimuthAt | fix_and_merge_geocoded.py:62 | a match consumes input and captures a digit string; the pattern matches at p exactly when "direction" stands there and a '(' with a digit follows on the same line |
| FixAndMergeGeocoded.FindAzimuths | fix_and_merge_geocoded.py:62 | every captured azimuth is a 1-3 digit string; the result is empty exactly when the pattern matches at no position |
| FixAndMergeGeocoded.AzimuthRange | fix_and_merge_geocoded.py:62-76 | a captured azimuth, as float() reads it, lies in [0, 999] |
| FixAndMergeGeocoded.AzimuthCell | fix_and_merge_geocoded.py:76 | an azimuth cell is a number in [0, 999] |
| FixAndMergeGeocoded.WsRun | fix_and_merge_geocoded.py:65 | `\s*` consumes only white space, stays within the text, and stops at the end or at a non-white-space character |
| FixAndMergeGeocoded.BandwidthFrom | fix_and_merge_geocoded.py:65 | a bandwidth match captures a digit string; None only when the rest of the pattern matches nowhere before the next line break |
| FixAndMergeGeocoded.BandwidthFromFirst | fix_and_merge_geocoded.py:65 | a match stands at the first position of the line where `(\d{1,3})\s*MHz` matches, and captures its digits |
| FixAndMergeGeocoded.SearchBandwidth | fix_and_merge_geocoded.py:65 | re.search's capture is a digit string; None only when no "bandwidth" starts a match |
| FixAndMergeGeocoded.SearchBandwidthFirst | fix_and_merge_geocoded.py:65 | a capture comes from the first "bandwidth" that starts a match |
| FixAndMergeGeocoded.Bandwidth | fix_and_merge_geocoded.py:65-66 | the bandwidth is 10 MHz without a match, and a value in [0, 999] with one |
| FixAndMergeGeocoded.WithCell | fix_and_merge_geocoded.py:76-79 | `row[name] = v` keeps an existing key in place and appends a new one |
| FixAndMergeGeocoded.WithCellSets | fix_and_merge_geocoded.py:76-79 | after `row[name] = v` the key holds v |
| FixAndMergeGeocoded.WithCellKeepsColumn | fix_and_merge_geocoded.py:76-79 | every other key keeps its position and its value |
| FixAndMergeGeocoded.WithCellKeeps | fix_and_merge_geocoded.py:76-79 | looking up any other key gives what it gave before |
| FixAndMergeGeocoded.OutRecord | fix_and_merge_geocoded.py:75-79 | an output row has one value per key |
| FixAndMergeGeocoded.OutRecordColumns | fix_and_merge_geocoded.py:75-87 | every output row has the geocoded keys followed by the added keys they lack |
| FixAndMergeGeocoded.OutRecordValues | fix_and_merge_geocoded.py:76-79 | an output row holds the azimuth, the bandwidth, 46 dBm and 1.8 GHz under the added keys |
| FixAndMergeGeocoded.OutRecordKeepsGeo | fix_and_merge_geocoded.py:75 | every other geocoded column keeps its place and its value |
| FixAndMergeGeocoded.SectorRecords | fix_and_merge_geocoded.py:74-80 | there is one entry per captured azimuth |
| FixAndMergeGeocoded.SectorRecordAt | fix_and_merge_geocoded.py:74-80 | entry k carries azimuth k |
| FixAndMergeGeocoded.BlockRecords | fix_and_merge_geocoded.py:73-88 | every block emits at least one entry |
| FixAndMergeGeocoded.BlockRecordsSpec | fix_and_merge_geocoded.py:73-88 | a block emits one entry per captured azimuth, or exactly one with NaN azimuth when none matched; each entry carries the block's geocoded row and bandwidth |
| FixAndMergeGeocoded.SectorRowSpec | fix_and_merge_geocoded.py:75-87 | an emitted row has the common keys, the geocoded values elsewhere, its azimuth and bandwidth, 46 dBm and 1.8 GHz |
| FixAndMergeGeocoded.BlockRecordsInRange | fix_and_merge_geocoded.py:62-88 | every entry of a block copies the block's geocoded row and has its values in range |
| FixAndMergeGeocoded.GeoRecord | fix_and_merge_geocoded.py:57 | geocoded row i as a dictionary has the table's keys and the row's cells |
| FixAndMergeGeocoded.Extracted | fix_and_merge_geocoded.py:55-88 | the first n blocks emit at least n entries |
| FixAndMergeGeocoded.ExtractedThrough | fix_and_merge_geocoded.py:55-88 | the first n blocks emit at least n entries |
| FixAndMergeGeocoded.ExtractRows | fix_and_merge_geocoded.py:52-88 | the loop runs over min(#blocks, #geocoded rows) blocks, pairing block i with geocoded row i |
| FixAndMergeGeocoded.ExtendRows | fix_and_merge_geocoded.py:56-88 | one iteration appends block i's entries |
| FixAndMergeGeocoded.CreateRows | fix_and_merge_geocoded.py:73-88 | both branches emit the block's entries |
| FixAndMergeGeocoded.SectorRows | fix_and_merge_geocoded.py:73-80 | the inner loop emits one entry per azimuth, in order |
| FixAndMergeGeocoded.ExtractedInRange | fix_and_merge_geocoded.py:55-88 | every extracted entry copies its block's geocoded row and has its values in range |
| FixAndMergeGeocoded.ExtractedDefaults | fix_and_merge_geocoded.py:65-90 | every extracted row has the common keys, 46 dBm, 1.8 GHz, and a bandwidth of 10 MHz or in [0, 999] |
| FixAndMergeGeocoded.FinalFrame | fix_and_merge_geocoded.py:90 | the DataFrame has one row per extracted entry |
| FixAndMergeGeocoded.NormalizeNames | fix_and_merge_geocoded.py:102 | every label becomes `c.strip().lower()` |
| FixAndMergeGeocoded.Rename | fix_and_merge_geocoded.py:103-104 | rename maps the two source labels to the target and keeps every other label |
| FixAndMergeGeocoded.RenameProduces | fix_and_merge_geocoded.py:103-104 | the target is a label afterwards iff it or a source label was one before |
| FixAndMergeGeocoded.RenameKeeps | fix_and_merge_geocoded.py:103-104 | renaming neither adds nor removes any other label |
| FixAndMergeGeocoded.RenameCoordinates | fix_and_merge_geocoded.py:103-104 | the coordinate renames keep the number of labels |
| FixAndMergeGeocoded.NormalizeColumns | fix_and_merge_geocoded.py:102-104 | normalisation keeps the number of labels |
| FixAndMergeGeocoded.RenameCoordinatesLatitude | fix_and_merge_geocoded.py:102-103 | "latitude" is a label afterwards iff some normalised label was latitude, lat or y |
| FixAndMergeGeocoded.RenameCoordinatesLongitude | fix_and_merge_geocoded.py:102-104 | "longitude" is a label afterwards iff some normalised label was longitude, lon or x |
| FixAndMergeGeocoded.KeepWithCoordinates | fix_and_merge_geocoded.py:106 | exactly the rows with both coordinates present are kept, in order |
| FixAndMergeGeocoded.DropMissing | fix_and_merge_geocoded.py:106 | dropna fails (KeyError) iff latitude or longitude is not a label; otherwise it keeps the labels |
| FixAndMergeGeocoded.KeepAppend | fix_and_merge_geocoded.py:106 | dropping distributes over concatenated rows |
| FixAndMergeGeocoded.KeepIdempotent | fix_and_merge_geocoded.py:106 | dropping a second time changes nothing |
| FixAndMergeGeocoded.FixAndMerge | fix_and_merge_geocoded.py:28-106 | the script up to dropna: no rows is an error, otherwise exactly the sector rows with both coordinates |
| GenerateRealTowers.ChooseSource | generate_real_towers_ns3.py:10-18 | the XY file iff it exists; the geocoded file iff only that exists; FileNotFoundError iff neither |
| GenerateRealTowers.ColumnsContaining | generate_real_towers_ns3.py:23-24 | the list holds exactly the labels whose lower-cased form contains the key |
| GenerateRealTowers.ColumnsContainingFirst | generate_real_towers_ns3.py:23-34 | its first entry is the first such label in column order |
| GenerateRealTowers.SelectCoordinates | generate_real_towers_ns3.py:26-37 | any chosen x and y columns are labels of the table |
| GenerateRealTowers.SelectCoordinatesSpec | generate_real_towers_ns3.py:23-37 | x_m and y_m win when both are labels; otherwise x is the first "lon" label and y the first "lat" label; ValueError iff neither case applies |
| GenerateRealTowers.SelectedYIsNotX | generate_real_towers_ns3.py:28-34 | the chosen y column is never the label "x", so writing x first does not change it |
| GenerateRealTowers.WithCoordinates | generate_real_towers_ns3.py:28-34 | assigning x and y keeps every label and adds "x" and "y" |
| GenerateRealTowers.WithCoordinatesSpec | generate_real_towers_ns3.py:28-34 | afterwards x holds the chosen x column and y the chosen y column |
| GenerateRealTowers.Coerce | generate_real_towers_ns3.py:51 | a number stays, NaN becomes the default, a string becomes its parse or else the default |
| GenerateRealTowers.FilledColumn | generate_real_towers_ns3.py:50-53 | a filled column has one cell per row |
| GenerateRealTowers.CoerceColumn | generate_real_towers_ns3.py:51 | each cell is coerced on its own |
| GenerateRealTowers.Constant | generate_real_towers_ns3.py:53 | `df[col] = default` fills every row with the default |
| GenerateRealTowers.FillFields | generate_real_towers_ns3.py:49-53 | after n rounds the labels are the old ones followed by the fields they lacked |
| GenerateRealTowers.AfterRound | generate_real_towers_ns3.py:49-53 | round n gives the same labels |
| GenerateRealTowers.FillNumericFields | generate_real_towers_ns3.py:49-53 | the loop over the four numeric fields computes the specification function |
| GenerateRealTowers.FillRound | generate_real_towers_ns3.py:50-53 | one round computes the next state |
| GenerateRealTowers.FilledColumnAgrees | generate_real_towers_ns3.py:50-53 | a field's filled column depends only on that field's column |
| GenerateRealTowers.FillFieldsKeeps | generate_real_towers_ns3.py:49-53 | a label no round names is present afterwards iff it was before, with its column unchanged |
| GenerateRealTowers.FillFieldsKeepsColumn | generate_real_towers_ns3.py:49-53 | a present label no round names keeps its column |
| GenerateRealTowers.GrownKeepsAll | generate_real_towers_ns3.py:50-53 | labels no round names are present afterwards iff they were before |
| GenerateRealTowers.GrownKeeps | generate_real_towers_ns3.py:50-53 | a round keeps the labels it does not name |
| GenerateRealTowers.GrownContains | generate_real_towers_ns3.py:50-53 | every field of the first n rounds is a label afterwards |
| GenerateRealTowers.FillFieldsSets | generate_real_towers_ns3.py:49-53 | with distinct field names, each field's column afterwards is its filled column from the original table |
| GenerateRealTowers.OtherNames | generate_real_towers_ns3.py:42-47 | with distinct names, every other field has a different name |
| GenerateRealTowers.FillRoundKeeps | generate_real_towers_ns3.py:50-53 | a round leaves a column it does not name as it was |
| GenerateRealTowers.FillRoundSets | generate_real_towers_ns3.py:50-53 | round j writes field j's filled column |
| GenerateRealTowers.NumericFieldsFilled | generate_real_towers_ns3.py:42-53 | after the loop, each numeric field holds the coerced present cell, or its default when the column was absent |
| GenerateRealTowers.NumericFieldNamesDistinct | generate_real_towers_ns3.py:42-47 | the four field names are distinct |
| GenerateRealTowers.Output | generate_real_towers_ns3.py:26-59 | the written table has exactly the six ns-3 columns, in order, and one row per input row |
| GenerateRealTowers.Written | generate_real_towers_ns3.py:49-59 | the written table has exactly the six ns-3 columns, in order |
| GenerateRealTowers.FilledHasOutputColumns | generate_real_towers_ns3.py:49-59 | after the loop all six output columns are present |
| GenerateRealTowers.FilledHasOutputColumn | generate_real_towers_ns3.py:49-59 | after the loop output column j is present |
| GenerateRealTowers.GenerateTowers | generate_real_towers_ns3.py:10-59 | the script returns the specification's result |
| GenerateRealTowers.WriteTable | generate_real_towers_ns3.py:26-59 | x and y assignment, the loop and the selection compute the written table |
| GenerateRealTowers.GeneratedFails | generate_real_towers_ns3.py:10-37 | the script fails iff neither file exists or no coordinate columns are found |
| GenerateRealTowers.GeneratedOutput | generate_real_towers_ns3.py:10-59 | a successful run writes the Output table of the chosen source |
| GenerateRealTowers.OutputCoordinates | generate_real_towers_ns3.py:26-59 | the written x and y are the chosen coordinate columns |
| GenerateRealTowers.FilledKeepsCoordinate | generate_real_towers_ns3.py:49-59 | the loop does not touch x and y |
| GenerateRealTowers.OutputField | generate_real_towers_ns3.py:49-59 | each written radio field is that field filled from the chosen table |
| GenerateRealTowers.WrittenField | generate_real_towers_ns3.py:49-59 | each written radio field is the filled column |
| GenerateRealTowers.CoordinatesKeepField | generate_real_towers_ns3.py:28-53 | assigning x and y does not change any radio field's filling |
| GenerateRealTowers.OutputColumnsDistinct | generate_real_towers_ns3.py:42-59 | the six output labels are distinct, the last four are the numeric fields, and no field is x or y |
| ExtractTowersCamelot.Underscored | extract_towers_camelot.py:19 | `replace(" ", "_")` keeps the length and turns exactly the spaces into underscores |
| ExtractTowersCamelot.CleanName | extract_towers_camelot.py:19 | a cleaned string label is as long as the stripped label, has no space and no upper-case letter, and is its characters lower-cased with spaces as underscores |
| ExtractTowersCamelot.CleanColumns | extract_towers_camelot.py:18-21 | the cleaned label list is as long as the input |
| ExtractTowersCamelot.NonStringLabel | extract_towers_camelot.py:20 | a non-string label at position i becomes "col_" followed by the decimal digits of i |
| ExtractTowersCamelot.NonStringLabelsDiffer | extract_towers_camelot.py:20 | non-string labels at different positions get different names |
| ExtractTowersCamelot.NatToStringInjective | extract_towers_camelot.py:20 | different positions have different decimal forms |
| ExtractTowersCamelot.CleanNameIdempotent | extract_towers_camelot.py:19 | cleaning a cleaned name again changes nothing |
| ExtractTowersCamelot.NonStringClean | extract_towers_camelot.py:19-20 | "col_i" is already clean |
| ExtractTowersCamelot.CleanColumnsIdempotent | extract_towers_camelot.py:18-21 | cleaning the cleaned labels again, as string labels, gives the same list |
| Table.Position | generate_real_towers_ns3.py:28 | the position found holds the label and is its first occurrence |
| Table.GetColumn | generate_real_towers_ns3.py:28 | a column read has one cell per row |
| Table.SetColumn | generate_real_towers_ns3.py:51-53 | column assignment keeps the labels when the label exists and appends it otherwise |
| Table.SetColumnSets | generate_real_towers_ns3.py:51-53 | after `df[name] = col` the column holds col |
| Table.SetColumnKeeps | generate_real_towers_ns3.py:51-53 | `df[name] = col` leaves every other column as it was |
| Table.Project | generate_real_towers_ns3.py:59 | `df[names]` has exactly the listed columns, in order |
| Table.ProjectColumn | generate_real_towers_ns3.py:59 | with distinct names, column j of the selection is the column named names[j] |
| Util.Lower | simulate_real_manila.cc:73-75 | lower-casing keeps the length and leaves no upper-case ASCII letter |
| Util.LowerIdempotent | generate_real_towers_ns3.py:23-24 | lower-casing twice is lower-casing once |
| Util.PyStripSpec | extract_towers_camelot.py:19 | `str.strip()` removes exactly the leading and trailing Python white space |
| Util.PyStripIdempotent | fix_and_merge_geocoded.py:102 | stripping twice is stripping once |
| Util.SplitJoin | simulate_real_manila.cc:190-197 | joining the getline items with commas gives back the line |
| Util.NatToString | extract_towers_camelot.py:20 | the decimal form of a number is a non-empty digit string |

## Left out

- Floating point, which is modelled as exact reals throughout. This covers the haversine
  distance (run_hybrid_optimization.py:32-40), the np.linspace grid coordinates (61-62) and
  the tolerance of `== 1` and `== 1.0` on solver values.
- Projections. The degree to metre projection and the shift to positive coordinates are left
  out: the mean latitude and longitude and the metres per degree at simulate_real_manila.cc:107-128
  and 144-160, and the shift at 201-213. A site keeps the row's coordinates, tagged degrees or
  metres. The pyproj transform and the x_m/y_m columns at fix_and_merge_geocoded.py:109-114
  are left out too.
- The pulp/CBC solve (run_hybrid_optimization.py:116-122, 142) and the Qiskit eigensolver
  (199-210) are foreign; their answers are the parameters `isOne` and `solution`.
  HybridOptimization.IlpKeepsCoverage takes as hypothesis that the solver's answer satisfies
  every constraint.
- HybridOptimization.BuildLinear and HybridOptimization.BuildQuadratic: the variables
  `f"x_{idx}"` are modelled by the tower index itself. This is valid because the naming is
  injective.
- All ns-3 construction (nodes, mobility, LTE/EPC and Wi-Fi helpers, applications, the flow
  monitor, `Simulator::Run`) and the trace callback wiring in manila_5g.cc and
  PUPtestbedns3.cc. Also left out: the throughput sums, manila_5g.cc's own SINR average with
  `log10` (244-252), and every log line.
- Manila5g.PacketLossRatio and PupTestbed.PacketLoss take the summed packet counts as inputs;
  the flow-monitor loops that sum them are not modelled.
- PupTestbed.CountActive, PupTestbed.ConfigureAps and PupTestbed.InstallClients require a mask
  of at least 16 characters. `activeMask[16]` on a 16-character string reads the terminating
  '\0', but a shorter mask is undefined behaviour in C++.
- PupTestbed.SinrMonitor.Average states the mean only while the uint32_t sample counter has
  not wrapped around, that is, below 2³² packets.
- File opening and reading everywhere. The `NS_FATAL_ERROR` on an unopenable file
  (simulate_real_manila.cc:56-58, manila_5g.cc:87-89), the read_csv calls, `to_csv`, `mkdir`
  and the prints are left out. Lines and tables are given as values.
- Util.Lower: `std::tolower` and `str.lower()` are modelled on ASCII letters only.
- FixAndMergeGeocoded: the two regular expressions are hand-written scanners for these
  patterns, not a regex engine.
  - `re.IGNORECASE` is modelled by ASCII case folding.
  - `\d` is modelled as the ASCII digits 0-9; Python's str patterns also match the other
    Unicode decimal digits.
  - `.` is modelled as not matching a newline.
- FixAndMergeGeocoded.FixAndMerge stops at dropna. The azimuth count at line 93 and the later
  steps are not modelled. Absent labels at line 93 would raise a KeyError there, and
  FixAndMergeGeocoded.DropMissing models the same error at line 106.
- FixAndMergeGeocoded: `pd.DataFrame(extracted_data)` is modelled assuming every row has the
  same keys, which FixAndMergeGeocoded.OutRecordColumns proves. The union of keys across
  rows of different shapes is not modelled.
- Table: frames are modelled with unique labels. Position takes the first match, whereas
  pandas would return every column with a repeated label.
- GenerateRealTowers: the pd.to_numeric conversion of a string is the given `parse` function.
- extract_towers_camelot.py:11-15: reading the PDF with camelot and concatenating its tables
  are left out. The concatenated frame's labels are the input.
- Command-line parsing of the mask and the simulation time in both ns-3 programs is left out.
  The mask is a parameter.

## Findings

| source | as written | input that shows it | evidently intended | confidence | as-written member | corrected member |
|---|---|---|---|---|---|---|
| simulate_real_manila.cc:140 | `has_xy` is set by a y alias alone, and the guard `(int)toks.size() > idx_x` also holds for `idx_x == -1`, so `toks[-1]` is read | header `id,y` with any data row | read x/y only when both indices are valid positions (`0 <= idx < toks.size()`) | not executed | SimulateRealManila.GuardAdmitsAbsentColumn | SimulateRealManila.ParseCoords |
| simulate_real_manila.cc:155 | `has_lonlat` is set by a lat alias alone, and the guard `(int)toks.size() > idx_lon` also holds for `idx_lon == -1`, so `toks[-1]` is read when no x/y column exists | header `id,lat` with any data row | read lon/lat only when both indices are valid positions | not executed | SimulateRealManila.GuardAdmitsAbsentLon | SimulateRealManila.ParseCoords |
