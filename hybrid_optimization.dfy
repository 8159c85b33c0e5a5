/** The site-selection pipeline of run_hybrid_optimization.py: demand grid, greedy
    maximum-coverage selection, the covering integer program built over the greedy
    candidates and read back, the QUBO terms over the survivors, and the activation mask.

    Towers are numbered 0 .. numTowers - 1 (their row in the filtered catalog) and demand
    points 0 .. numPoints - 1 (their position in the grid list). The great-circle distance
    tests are given relations: covers(t, u) stands for "tower t lies within the coverage
    radius of point u", interferes(t1, t2) for "towers t1 and t2 are closer than the
    interference distance". The integer-program solver and the eigensolver are given
    result vectors. */
module HybridOptimization {
  import opened Util

  const GridResolution: nat := 20
  const MinCoveragePct: real := 0.95
  const InterferencePenalty: real := 500.0
  /** Linear coefficient of every survivor: the reward for keeping a tower on. */
  const SurvivorReward: real := -100.0

  // ---------------------------------------------------------------
  // Demand grid
  // ---------------------------------------------------------------

  /** A demand point: its step along the latitude and the longitude grid lines. */
  datatype DemandPoint = DemandPoint(latStep: nat, lonStep: nat, covered: bool)

  /** Nested loops over the latitude and then the longitude steps. Point k sits at latitude
      step k / R and longitude step k % R, written here without division. */
  method DemandGrid(resolution: nat) returns (points: seq<DemandPoint>)
    ensures |points| == resolution * resolution
    ensures forall k :: 0 <= k < |points| ==>
      && points[k].latStep < resolution && points[k].lonStep < resolution
      && points[k].latStep * resolution + points[k].lonStep == k
      && !points[k].covered
  {
    points := [];
    var a := 0;
    while a < resolution
      invariant 0 <= a <= resolution
      invariant |points| == a * resolution
      invariant forall k :: 0 <= k < |points| ==>
        && points[k].latStep < resolution && points[k].lonStep < resolution
        && points[k].latStep * resolution + points[k].lonStep == k
        && !points[k].covered
    {
      var b := 0;
      while b < resolution
        invariant 0 <= b <= resolution
        invariant |points| == a * resolution + b
        invariant forall k :: 0 <= k < |points| ==>
          && points[k].latStep < resolution && points[k].lonStep < resolution
          && points[k].latStep * resolution + points[k].lonStep == k
          && !points[k].covered
      {
        points := points + [DemandPoint(a, b, false)];
        b := b + 1;
      }
      assert a * resolution + resolution == (a + 1) * resolution;
      a := a + 1;
    }
  }

  // ---------------------------------------------------------------
  // Greedy maximum-coverage selection
  // ---------------------------------------------------------------

  /** The points within tower t's radius. */
  ghost function Cover(covers: (nat, nat) -> bool, numPoints: nat, t: nat): set<nat> {
    set u: nat | u < numPoints && covers(t, u)
  }

  /** The points covered by at least one tower of `chosen` (covered_indices after those picks). */
  ghost function CoveredBy(covers: (nat, nat) -> bool, numPoints: nat, chosen: seq<nat>): set<nat>
    decreases |chosen|
  {
    if chosen == [] then {}
    else CoveredBy(covers, numPoints, chosen[..|chosen| - 1]) + Cover(covers, numPoints, chosen[|chosen| - 1])
  }

  lemma {:induction false} CoveredByMembers(covers: (nat, nat) -> bool, numPoints: nat, chosen: seq<nat>)
    ensures forall u: nat :: u in CoveredBy(covers, numPoints, chosen) <==>
      u < numPoints && exists c :: c in chosen && covers(c, u)
    decreases |chosen|
  {
    if chosen != [] {
      var init := chosen[..|chosen| - 1];
      CoveredByMembers(covers, numPoints, init);
      assert chosen == init + [chosen[|chosen| - 1]];
    }
  }

  /** |current_cover| for tower t after the picks in `chosen`. */
  ghost function Gain(covers: (nat, nat) -> bool, numPoints: nat, chosen: seq<nat>, t: nat): nat {
    |Cover(covers, numPoints, t) - CoveredBy(covers, numPoints, chosen)|
  }

  /** The loop condition `len(covered_indices) < len(user_points) * MIN_COVERAGE_PCT`. */
  predicate BelowTarget(coveredCount: nat, numPoints: nat) {
    (coveredCount as real) < (numPoints as real) * MinCoveragePct
  }

  /** t is the tower one greedy step picks after `chosen`: not yet picked, it adds at least one
      point, no other unpicked tower adds more, and every unpicked tower with a smaller index
      adds strictly fewer (replacement in the scan needs a strictly larger set). */
  ghost predicate IsGreedyPick(covers: (nat, nat) -> bool, numTowers: nat, numPoints: nat, chosen: seq<nat>, t: nat) {
    && t < numTowers && t !in chosen
    && Gain(covers, numPoints, chosen, t) > 0
    && forall t' :: 0 <= t' < numTowers && t' !in chosen ==>
         && Gain(covers, numPoints, chosen, t') <= Gain(covers, numPoints, chosen, t)
         && (t' < t ==> Gain(covers, numPoints, chosen, t') < Gain(covers, numPoints, chosen, t))
  }

  /** Every element of `chosen` is the greedy pick after the elements before it, made while
      coverage was still below target. */
  ghost predicate GreedyPrefix(covers: (nat, nat) -> bool, numTowers: nat, numPoints: nat, chosen: seq<nat>)
    decreases |chosen|
  {
    chosen == [] ||
      var init := chosen[..|chosen| - 1];
      && GreedyPrefix(covers, numTowers, numPoints, init)
      && BelowTarget(|CoveredBy(covers, numPoints, init)|, numPoints)
      && IsGreedyPick(covers, numTowers, numPoints, init, chosen[|chosen| - 1])
  }

  /** The loop stops: either the coverage target is reached or no unpicked tower adds a point. */
  ghost predicate GreedyStops(covers: (nat, nat) -> bool, numTowers: nat, numPoints: nat, chosen: seq<nat>) {
    || !BelowTarget(|CoveredBy(covers, numPoints, chosen)|, numPoints)
    || forall t :: 0 <= t < numTowers && t !in chosen ==> Gain(covers, numPoints, chosen, t) == 0
  }

  /** `candidates` is exactly what the greedy loop produces. */
  ghost predicate GreedyRun(covers: (nat, nat) -> bool, numTowers: nat, numPoints: nat, candidates: seq<nat>) {
    GreedyPrefix(covers, numTowers, numPoints, candidates) && GreedyStops(covers, numTowers, numPoints, candidates)
  }

  /** The inner scan over the demand points for one tower (lines 85-90). */
  method CurrentCover(covers: (nat, nat) -> bool, numPoints: nat, covered: set<nat>, t: nat) returns (current: set<nat>)
    ensures current == Cover(covers, numPoints, t) - covered
  {
    current := {};
    var u := 0;
    while u < numPoints
      invariant 0 <= u <= numPoints
      invariant current == set v: nat | v < u && v !in covered && covers(t, v)
    {
      if u !in covered && covers(t, u) {
        current := current + {u};
      }
      u := u + 1;
    }
  }

  /** What the scan over the towers below idx has established: `best` is the lowest-index
      unpicked tower with the largest new cover among them, or -1 when none adds a point. */
  ghost predicate BestSoFar(covers: (nat, nat) -> bool, numPoints: nat, candidates: seq<nat>, covered: set<nat>,
                            idx: nat, best: int, bestCover: set<nat>) {
    && (best == -1 <==> bestCover == {})
    && (best == -1 ==>
          forall t :: 0 <= t < idx && t !in candidates ==> Gain(covers, numPoints, candidates, t) == 0)
    && (best != -1 ==>
          && 0 <= best < idx && best !in candidates
          && bestCover == Cover(covers, numPoints, best) - covered
          && forall t :: 0 <= t < idx && t !in candidates ==>
               && Gain(covers, numPoints, candidates, t) <= |bestCover|
               && (t < best ==> Gain(covers, numPoints, candidates, t) < |bestCover|))
  }

  /** A picked tower is skipped by the scan. */
  lemma BestSoFarSkip(covers: (nat, nat) -> bool, numPoints: nat, candidates: seq<nat>, covered: set<nat>,
                      idx: nat, best: int, bestCover: set<nat>)
    requires idx in candidates
    requires BestSoFar(covers, numPoints, candidates, covered, idx, best, bestCover)
    ensures BestSoFar(covers, numPoints, candidates, covered, idx + 1, best, bestCover)
  {
  }

  /** An unpicked tower whose new cover is no larger leaves the best so far in place. */
  lemma BestSoFarKeep(covers: (nat, nat) -> bool, numPoints: nat, candidates: seq<nat>, covered: set<nat>,
                      idx: nat, best: int, bestCover: set<nat>)
    requires covered == CoveredBy(covers, numPoints, candidates)
    requires idx !in candidates && |Cover(covers, numPoints, idx) - covered| <= |bestCover|
    requires BestSoFar(covers, numPoints, candidates, covered, idx, best, bestCover)
    ensures BestSoFar(covers, numPoints, candidates, covered, idx + 1, best, bestCover)
  {
    if best == -1 {
      assert Gain(covers, numPoints, candidates, idx) == 0;
      NoGainSoFar(covers, numPoints, candidates, idx);
    } else {
      assert Gain(covers, numPoints, candidates, idx) <= |bestCover|;
      GainBoundSoFar(covers, numPoints, candidates, idx, best, |bestCover|);
    }
  }

  lemma NoGainSoFar(covers: (nat, nat) -> bool, numPoints: nat, candidates: seq<nat>, idx: nat)
    requires forall t :: 0 <= t < idx && t !in candidates ==> Gain(covers, numPoints, candidates, t) == 0
    requires Gain(covers, numPoints, candidates, idx) == 0
    ensures forall t :: 0 <= t < idx + 1 && t !in candidates ==> Gain(covers, numPoints, candidates, t) == 0
  {
  }

  lemma GainBoundSoFar(covers: (nat, nat) -> bool, numPoints: nat, candidates: seq<nat>, idx: nat, best: nat, g: nat)
    requires best < idx
    requires forall t :: 0 <= t < idx && t !in candidates ==>
      && Gain(covers, numPoints, candidates, t) <= g
      && (t < best ==> Gain(covers, numPoints, candidates, t) < g)
    requires Gain(covers, numPoints, candidates, idx) <= g
    ensures forall t :: 0 <= t < idx + 1 && t !in candidates ==>
      && Gain(covers, numPoints, candidates, t) <= g
      && (t < best ==> Gain(covers, numPoints, candidates, t) < g)
  {
  }

  /** An unpicked tower whose new cover is strictly larger becomes the best so far. */
  lemma BestSoFarTake(covers: (nat, nat) -> bool, numPoints: nat, candidates: seq<nat>, covered: set<nat>,
                      idx: nat, best: int, bestCover: set<nat>)
    requires covered == CoveredBy(covers, numPoints, candidates)
    requires idx !in candidates && |Cover(covers, numPoints, idx) - covered| > |bestCover|
    requires BestSoFar(covers, numPoints, candidates, covered, idx, best, bestCover)
    ensures BestSoFar(covers, numPoints, candidates, covered, idx + 1, idx, Cover(covers, numPoints, idx) - covered)
  {
    var current := Cover(covers, numPoints, idx) - covered;
    assert current != {};
    forall t | 0 <= t < idx && t !in candidates
      ensures Gain(covers, numPoints, candidates, t) < |current|
    {
    }
  }

  /** The scan over all towers (lines 77-95): the lowest-index unpicked tower with the
      largest new cover, or -1 when no unpicked tower adds anything. */
  method BestTower(covers: (nat, nat) -> bool, numTowers: nat, numPoints: nat, candidates: seq<nat>, covered: set<nat>)
    returns (best: int, bestCover: set<nat>)
    requires covered == CoveredBy(covers, numPoints, candidates)
    ensures best == -1 <==> bestCover == {}
    ensures best == -1 ==>
      forall t :: 0 <= t < numTowers && t !in candidates ==> Gain(covers, numPoints, candidates, t) == 0
    ensures best != -1 ==>
      && 0 <= best < numTowers
      && bestCover == Cover(covers, numPoints, best) - covered
      && IsGreedyPick(covers, numTowers, numPoints, candidates, best)
  {
    best := -1;
    bestCover := {};
    var idx := 0;
    while idx < numTowers
      invariant 0 <= idx <= numTowers
      invariant BestSoFar(covers, numPoints, candidates, covered, idx, best, bestCover)
    {
      if idx !in candidates {
        var current := CurrentCover(covers, numPoints, covered, idx);
        if |current| > |bestCover| {
          BestSoFarTake(covers, numPoints, candidates, covered, idx, best, bestCover);
          best := idx;
          bestCover := current;
        } else {
          BestSoFarKeep(covers, numPoints, candidates, covered, idx, best, bestCover);
        }
      } else {
        BestSoFarSkip(covers, numPoints, candidates, covered, idx, best, bestCover);
      }
      idx := idx + 1;
    }
  }

  lemma {:induction false} CoveredByBound(covers: (nat, nat) -> bool, numPoints: nat, chosen: seq<nat>)
    ensures forall u :: u in CoveredBy(covers, numPoints, chosen) ==> u < numPoints
    ensures |CoveredBy(covers, numPoints, chosen)| <= numPoints
    decreases |chosen|
  {
    if chosen != [] {
      CoveredByBound(covers, numPoints, chosen[..|chosen| - 1]);
    }
    SubsetOfRangeSize(CoveredBy(covers, numPoints, chosen), numPoints);
  }

  /** One iteration of the greedy loop keeps its invariants. */
  lemma GreedyStep(covers: (nat, nat) -> bool, numTowers: nat, numPoints: nat, chosen: seq<nat>, best: nat)
    requires Distinct(chosen) && forall c :: c in chosen ==> c < numTowers
    requires GreedyPrefix(covers, numTowers, numPoints, chosen)
    requires BelowTarget(|CoveredBy(covers, numPoints, chosen)|, numPoints)
    requires IsGreedyPick(covers, numTowers, numPoints, chosen, best)
    ensures Distinct(chosen + [best]) && forall c :: c in chosen + [best] ==> c < numTowers
    ensures GreedyPrefix(covers, numTowers, numPoints, chosen + [best])
    ensures CoveredBy(covers, numPoints, chosen + [best]) ==
      CoveredBy(covers, numPoints, chosen) + (Cover(covers, numPoints, best) - CoveredBy(covers, numPoints, chosen))
  {
    assert (chosen + [best])[..|chosen|] == chosen;
  }

  /** The state the greedy loop keeps: the candidates so far are a greedy prefix and
      `covered` is what they cover. */
  ghost predicate GreedyState(covers: (nat, nat) -> bool, numTowers: nat, numPoints: nat,
                              candidates: seq<nat>, covered: set<nat>) {
    && covered == CoveredBy(covers, numPoints, candidates)
    && GreedyPrefix(covers, numTowers, numPoints, candidates)
    && |candidates| <= numTowers
  }

  /** Taking the tower the scan found keeps the loop state. */
  lemma GreedyAdvance(covers: (nat, nat) -> bool, numTowers: nat, numPoints: nat,
                      candidates: seq<nat>, covered: set<nat>, best: nat, bestCover: set<nat>)
    requires GreedyState(covers, numTowers, numPoints, candidates, covered)
    requires BelowTarget(|covered|, numPoints)
    requires bestCover == Cover(covers, numPoints, best) - covered
    requires IsGreedyPick(covers, numTowers, numPoints, candidates, best)
    ensures GreedyState(covers, numTowers, numPoints, candidates + [best], covered + bestCover)
  {
    GreedyPrefixDistinct(covers, numTowers, numPoints, candidates);
    GreedyStep(covers, numTowers, numPoints, candidates, best);
    DistinctBelowLength(candidates + [best], numTowers);
  }

  /** The greedy loop (lines 72-102). */
  method Greedy(covers: (nat, nat) -> bool, numTowers: nat, numPoints: nat)
    returns (candidates: seq<nat>, covered: set<nat>)
    ensures GreedyRun(covers, numTowers, numPoints, candidates)
    ensures covered == CoveredBy(covers, numPoints, candidates)
    ensures Distinct(candidates)
    ensures forall c :: c in candidates ==> c < numTowers
    ensures forall u :: u in covered ==> u < numPoints
    ensures |covered| <= numPoints
    ensures |candidates| <= numTowers
  {
    candidates := [];
    covered := {};
    while BelowTarget(|covered|, numPoints)
      invariant GreedyState(covers, numTowers, numPoints, candidates, covered)
      decreases numTowers - |candidates|
    {
      var best, bestCover := BestTower(covers, numTowers, numPoints, candidates, covered);
      if best == -1 || |bestCover| == 0 {
        break;
      }
      GreedyAdvance(covers, numTowers, numPoints, candidates, covered, best, bestCover);
      candidates := candidates + [best];
      covered := covered + bestCover;
    }
    GreedyPrefixDistinct(covers, numTowers, numPoints, candidates);
    CoveredByBound(covers, numPoints, candidates);
  }

  /** Any two towers that both qualify as the greedy pick are the same tower. */
  lemma GreedyPickUnique(covers: (nat, nat) -> bool, numTowers: nat, numPoints: nat, chosen: seq<nat>, t1: nat, t2: nat)
    requires IsGreedyPick(covers, numTowers, numPoints, chosen, t1)
    requires IsGreedyPick(covers, numTowers, numPoints, chosen, t2)
    ensures t1 == t2
  {
  }

  /** Every element of a greedy prefix is the greedy pick after the elements before it. */
  lemma {:induction false} GreedyPrefixAt(covers: (nat, nat) -> bool, numTowers: nat, numPoints: nat, chosen: seq<nat>, k: nat)
    requires GreedyPrefix(covers, numTowers, numPoints, chosen)
    requires k < |chosen|
    ensures GreedyPrefix(covers, numTowers, numPoints, chosen[..k])
    ensures BelowTarget(|CoveredBy(covers, numPoints, chosen[..k])|, numPoints)
    ensures IsGreedyPick(covers, numTowers, numPoints, chosen[..k], chosen[k])
    decreases |chosen|
  {
    var init := chosen[..|chosen| - 1];
    if k < |chosen| - 1 {
      GreedyPrefixAt(covers, numTowers, numPoints, init, k);
      assert init[..k] == chosen[..k];
    }
  }

  /** Two greedy prefixes of the same length are equal. */
  lemma {:induction false} GreedyPrefixUnique(covers: (nat, nat) -> bool, numTowers: nat, numPoints: nat, c1: seq<nat>, c2: seq<nat>)
    requires GreedyPrefix(covers, numTowers, numPoints, c1)
    requires GreedyPrefix(covers, numTowers, numPoints, c2)
    requires |c1| == |c2|
    ensures c1 == c2
    decreases |c1|
  {
    if c1 != [] {
      var n := |c1| - 1;
      GreedyPrefixUnique(covers, numTowers, numPoints, c1[..n], c2[..n]);
      GreedyPickUnique(covers, numTowers, numPoints, c1[..n], c1[n], c2[n]);
      assert c1 == c1[..n] + [c1[n]] && c2 == c2[..n] + [c2[n]];
    }
  }

  /** The greedy run is determined by its inputs: two sequences satisfying GreedyRun are
      equal, so the selection is deterministic, as the strict tie-break intends. */
  lemma GreedyRunUnique(covers: (nat, nat) -> bool, numTowers: nat, numPoints: nat, c1: seq<nat>, c2: seq<nat>)
    requires GreedyRun(covers, numTowers, numPoints, c1)
    requires GreedyRun(covers, numTowers, numPoints, c2)
    ensures c1 == c2
  {
    if |c1| < |c2| {
      GreedyPrefixAt(covers, numTowers, numPoints, c2, |c1|);
      GreedyPrefixUnique(covers, numTowers, numPoints, c1, c2[..|c1|]);
    } else if |c2| < |c1| {
      GreedyPrefixAt(covers, numTowers, numPoints, c1, |c2|);
      GreedyPrefixUnique(covers, numTowers, numPoints, c2, c1[..|c2|]);
    } else {
      GreedyPrefixUnique(covers, numTowers, numPoints, c1, c2);
    }
  }

  /** Each greedy step strictly enlarges the covered set, and every point it adds was
      uncovered before and lies within the radius of the tower just picked. */
  lemma CoverageStrictlyGrows(covers: (nat, nat) -> bool, numTowers: nat, numPoints: nat, candidates: seq<nat>, k: nat)
    requires GreedyPrefix(covers, numTowers, numPoints, candidates)
    requires k < |candidates|
    ensures CoveredBy(covers, numPoints, candidates[..k]) < CoveredBy(covers, numPoints, candidates[..k + 1])
    ensures forall u :: u in CoveredBy(covers, numPoints, candidates[..k + 1]) - CoveredBy(covers, numPoints, candidates[..k])
              ==> covers(candidates[k], u)
  {
    GreedyPrefixAt(covers, numTowers, numPoints, candidates, k);
    assert candidates[..k + 1][..k] == candidates[..k];
    var added := Cover(covers, numPoints, candidates[k]) - CoveredBy(covers, numPoints, candidates[..k]);
    assert |added| > 0;
    var u :| u in added;
  }

  /** A greedy prefix never repeats a tower and only names towers of the catalog. */
  lemma {:induction false} GreedyPrefixDistinct(covers: (nat, nat) -> bool, numTowers: nat, numPoints: nat, chosen: seq<nat>)
    requires GreedyPrefix(covers, numTowers, numPoints, chosen)
    ensures Distinct(chosen)
    ensures forall c :: c in chosen ==> c < numTowers
    decreases |chosen|
  {
    if chosen != [] {
      GreedyPrefixDistinct(covers, numTowers, numPoints, chosen[..|chosen| - 1]);
      assert chosen == chosen[..|chosen| - 1] + [chosen[|chosen| - 1]];
    }
  }

  // ---------------------------------------------------------------
  // Covering integer program over the greedy candidates
  // ---------------------------------------------------------------

  /** The candidates, in candidate order, whose radius contains point u. */
  function CoveringTowers(covers: (nat, nat) -> bool, candidates: seq<nat>, u: nat): (r: seq<nat>)
    ensures forall c :: c in r <==> c in candidates && covers(c, u)
  {
    if candidates == [] then []
    else
      var last := candidates[|candidates| - 1];
      if covers(last, u) then CoveringTowers(covers, candidates[..|candidates| - 1], u) + [last]
      else CoveringTowers(covers, candidates[..|candidates| - 1], u)
  }

  /** Extending the candidate prefix by one tower appends it to the list of every point it covers. */
  lemma CoveringTowersStep(covers: (nat, nat) -> bool, candidates: seq<nat>, i: nat, u: nat)
    requires i < |candidates|
    ensures CoveringTowers(covers, candidates[..i + 1], u) ==
      CoveringTowers(covers, candidates[..i], u) + (if covers(candidates[i], u) then [candidates[i]] else [])
  {
    assert candidates[..i + 1][..i] == candidates[..i];
  }

  /** The inner loop of lines 129-134 for tower t: t is appended to the list of every covered
      point within its radius; the iteration order over the set does not matter. */
  method AppendCoverer(covers: (nat, nat) -> bool, coverageMap0: map<nat, seq<nat>>, covered: set<nat>, t: nat)
    returns (coverageMap: map<nat, seq<nat>>)
    requires coverageMap0.Keys == covered
    ensures coverageMap.Keys == covered
    ensures forall u :: u in covered ==>
      coverageMap[u] == coverageMap0[u] + (if covers(t, u) then [t] else [])
  {
    coverageMap := coverageMap0;
    var rest := covered;
    while rest != {}
      invariant rest <= covered
      invariant coverageMap.Keys == covered
      invariant forall u :: u in covered ==>
        coverageMap[u] == coverageMap0[u] + (if u !in rest && covers(t, u) then [t] else [])
      decreases rest
    {
      var u :| u in rest;
      if covers(t, u) {
        coverageMap := coverageMap[u := coverageMap[u] + [t]];
      }
      rest := rest - {u};
    }
  }

  /** `coverageMap` lists, for every covered point, the covering towers among the first i candidates. */
  ghost predicate MapBuilt(covers: (nat, nat) -> bool, candidates: seq<nat>, covered: set<nat>, i: nat,
                           coverageMap: map<nat, seq<nat>>)
    requires i <= |candidates|
  {
    && coverageMap.Keys == covered
    && forall u :: u in covered ==> coverageMap[u] == CoveringTowers(covers, candidates[..i], u)
  }

  /** Appending tower i to the lists built from the first i candidates gives the lists built
      from the first i + 1. */
  lemma CoverageMapStep(covers: (nat, nat) -> bool, candidates: seq<nat>, covered: set<nat>, i: nat,
                        m0: map<nat, seq<nat>>, m1: map<nat, seq<nat>>)
    requires i < |candidates|
    requires MapBuilt(covers, candidates, covered, i, m0)
    requires m1.Keys == covered
    requires forall u :: u in covered ==>
      m1[u] == m0[u] + (if covers(candidates[i], u) then [candidates[i]] else [])
    ensures MapBuilt(covers, candidates, covered, i + 1, m1)
  {
    forall u | u in covered
      ensures m1[u] == CoveringTowers(covers, candidates[..i + 1], u)
    {
      CoveringTowersStep(covers, candidates, i, u);
    }
  }

  /** coverage_map (lines 126-134): every covered point maps to the candidates covering it. */
  method BuildCoverageMap(covers: (nat, nat) -> bool, candidates: seq<nat>, covered: set<nat>)
    returns (coverageMap: map<nat, seq<nat>>)
    ensures coverageMap.Keys == covered
    ensures forall u :: u in covered ==> coverageMap[u] == CoveringTowers(covers, candidates, u)
  {
    coverageMap := map u | u in covered :: [];
    var i := 0;
    while i < |candidates|
      invariant 0 <= i <= |candidates|
      invariant MapBuilt(covers, candidates, covered, i, coverageMap)
    {
      var next := AppendCoverer(covers, coverageMap, covered, candidates[i]);
      CoverageMapStep(covers, candidates, covered, i, coverageMap, next);
      coverageMap := next;
      i := i + 1;
    }
    assert candidates[..|candidates|] == candidates;
  }

  /** The constraints added to the program (lines 137-139): one "at least one of these towers"
      per point whose covering list is non-empty, keyed by the point. */
  method BuildConstraints(coverageMap: map<nat, seq<nat>>) returns (constraints: map<nat, seq<nat>>)
    ensures constraints.Keys == set u | u in coverageMap && coverageMap[u] != []
    ensures forall u :: u in constraints ==> constraints[u] == coverageMap[u]
  {
    constraints := map[];
    var rest := coverageMap.Keys;
    while rest != {}
      invariant rest <= coverageMap.Keys
      invariant constraints.Keys == set u | u in coverageMap && u !in rest && coverageMap[u] != []
      invariant forall u :: u in constraints ==> constraints[u] == coverageMap[u]
      decreases rest
    {
      var u :| u in rest;
      if coverageMap[u] != [] {
        constraints := constraints[u := coverageMap[u]];
      }
      rest := rest - {u};
    }
  }

  /** The constraint map the script builds from the greedy stage: a point keyed to its
      covering candidates whenever that list is non-empty. */
  ghost function ConstraintMap(covers: (nat, nat) -> bool, candidates: seq<nat>, covered: set<nat>): map<nat, seq<nat>>
  {
    map u | u in covered && CoveringTowers(covers, candidates, u) != [] :: CoveringTowers(covers, candidates, u)
  }

  /** The solver's 0/1 answer meets every "at least one of these towers" constraint. */
  ghost predicate SatisfiesConstraints(constraints: map<nat, seq<nat>>, isOne: nat -> bool) {
    forall u :: u in constraints ==> exists c :: c in constraints[u] && isOne(c)
  }

  /** Every point the greedy stage covered has a covering candidate, so the
      `if covering_towers` guard never drops a constraint. */
  lemma NoConstraintDropped(covers: (nat, nat) -> bool, numPoints: nat, candidates: seq<nat>, u: nat)
    requires u in CoveredBy(covers, numPoints, candidates)
    ensures CoveringTowers(covers, candidates, u) != []
  {
    CoveredByMembers(covers, numPoints, candidates);
    var c :| c in candidates && covers(c, u);
    assert c in CoveringTowers(covers, candidates, u);
  }

  /** `positions` places `sub` inside `s`: strictly increasing indices of s holding sub's elements. */
  ghost predicate SubsequenceAt<T>(sub: seq<T>, s: seq<T>, positions: seq<nat>) {
    && |positions| == |sub|
    && (forall k :: 0 <= k < |positions| ==> positions[k] < |s| && s[positions[k]] == sub[k])
    && (forall k, l :: 0 <= k < l < |positions| ==> positions[k] < positions[l])
  }

  /** The read-back of the program's solution (lines 144-147): the candidates whose variable
      has value 1, in candidate order. `isOne(i)` is `pulp.value(tower_vars[i]) == 1`. */
  method ReadIlpSelection(candidates: seq<nat>, isOne: nat -> bool) returns (selected: seq<nat>, ghost positions: seq<nat>)
    ensures SubsequenceAt(selected, candidates, positions)
    ensures forall k :: 0 <= k < |positions| ==> isOne(candidates[positions[k]])
    ensures forall i :: 0 <= i < |candidates| && isOne(candidates[i]) ==> i in positions
    ensures forall x :: x in selected <==> x in candidates && isOne(x)
    ensures |selected| <= |candidates|
  {
    selected := [];
    positions := [];
    var i := 0;
    while i < |candidates|
      invariant 0 <= i <= |candidates|
      invariant SubsequenceAt(selected, candidates, positions)
      invariant forall k :: 0 <= k < |positions| ==> positions[k] < i && isOne(candidates[positions[k]])
      invariant forall j :: 0 <= j < i && isOne(candidates[j]) ==> j in positions
      invariant forall x :: x in selected <==> x in candidates[..i] && isOne(x)
      invariant |selected| <= i
    {
      assert candidates[..i + 1] == candidates[..i] + [candidates[i]];
      if isOne(candidates[i]) {
        selected := selected + [candidates[i]];
        positions := positions + [i];
      }
      i := i + 1;
    }
    assert candidates[..i] == candidates;
  }

  /** A subsequence of a repetition-free sequence is repetition-free. */
  lemma SubsequenceDistinct<T>(sub: seq<T>, s: seq<T>, positions: seq<nat>)
    requires SubsequenceAt(sub, s, positions)
    requires Distinct(s)
    ensures Distinct(sub)
  {
    forall k, l | 0 <= k < l < |sub| ensures sub[k] != sub[l] {
      assert positions[k] < positions[l];
    }
  }

  /** If the solver's 0/1 assignment satisfies every constraint the script adds, the survivors
      cover exactly the points the greedy stage covered: the refinement shrinks the pool, never
      the coverage. */
  lemma IlpKeepsCoverage(covers: (nat, nat) -> bool, numPoints: nat, candidates: seq<nat>, isOne: nat -> bool, selected: seq<nat>)
    requires forall x :: x in selected <==> x in candidates && isOne(x)
    requires SatisfiesConstraints(ConstraintMap(covers, candidates, CoveredBy(covers, numPoints, candidates)), isOne)
    ensures CoveredBy(covers, numPoints, selected) == CoveredBy(covers, numPoints, candidates)
  {
    var constraints := ConstraintMap(covers, candidates, CoveredBy(covers, numPoints, candidates));
    CoveredByMembers(covers, numPoints, candidates);
    CoveredByMembers(covers, numPoints, selected);
    forall u | u in CoveredBy(covers, numPoints, candidates)
      ensures u in CoveredBy(covers, numPoints, selected)
    {
      NoConstraintDropped(covers, numPoints, candidates, u);
      assert u in constraints;
      var c :| c in constraints[u] && isOne(c);
      assert c in CoveringTowers(covers, candidates, u);
      assert c in selected;
    }
  }

  // ---------------------------------------------------------------
  // QUBO terms
  // ---------------------------------------------------------------

  /** The interfering position pairs (i, b), i < b < j, of survivor row i. */
  ghost function RowPairs(s: seq<nat>, interferes: (nat, nat) -> bool, i: nat, j: nat): set<(nat, nat)>
    requires i < j <= |s|
    decreases j
  {
    if j == i + 1 then {}
    else if interferes(s[i], s[j - 1]) then RowPairs(s, interferes, i, j - 1) + {(i, j - 1)}
    else RowPairs(s, interferes, i, j - 1)
  }

  /** Their quadratic keys (x_{s[i]}, x_{s[b]}), with x_{idx} written as idx. */
  ghost function RowKeys(s: seq<nat>, interferes: (nat, nat) -> bool, i: nat, j: nat): set<(nat, nat)>
    requires i < j <= |s|
    decreases j
  {
    if j == i + 1 then {}
    else if interferes(s[i], s[j - 1]) then RowKeys(s, interferes, i, j - 1) + {(s[i], s[j - 1])}
    else RowKeys(s, interferes, i, j - 1)
  }

  /** How many times the counter is bumped in row i before column j. */
  ghost function RowCount(s: seq<nat>, interferes: (nat, nat) -> bool, i: nat, j: nat): nat
    requires i < j <= |s|
    decreases j
  {
    if j == i + 1 then 0
    else if interferes(s[i], s[j - 1]) then RowCount(s, interferes, i, j - 1) + 1
    else RowCount(s, interferes, i, j - 1)
  }

  /** The interfering pairs of the rows before row i. */
  ghost function PairsBefore(s: seq<nat>, interferes: (nat, nat) -> bool, i: nat): set<(nat, nat)>
    requires i <= |s|
  {
    if i == 0 then {} else PairsBefore(s, interferes, i - 1) + RowPairs(s, interferes, i - 1, |s|)
  }

  ghost function KeysBefore(s: seq<nat>, interferes: (nat, nat) -> bool, i: nat): set<(nat, nat)>
    requires i <= |s|
  {
    if i == 0 then {} else KeysBefore(s, interferes, i - 1) + RowKeys(s, interferes, i - 1, |s|)
  }

  ghost function CountBefore(s: seq<nat>, interferes: (nat, nat) -> bool, i: nat): nat
    requires i <= |s|
  {
    if i == 0 then 0 else CountBefore(s, interferes, i - 1) + RowCount(s, interferes, i - 1, |s|)
  }

  /** All interfering position pairs a < b of the survivors. */
  ghost function InterferingPairs(s: seq<nat>, interferes: (nat, nat) -> bool): set<(nat, nat)> {
    PairsBefore(s, interferes, |s|)
  }

  lemma {:induction false} RowPairsMembers(s: seq<nat>, interferes: (nat, nat) -> bool, i: nat, j: nat)
    requires i < j <= |s|
    ensures forall a: nat, b: nat :: (a, b) in RowPairs(s, interferes, i, j) <==>
      a == i && i < b < j && interferes(s[a], s[b])
    decreases j
  {
    if j > i + 1 {
      RowPairsMembers(s, interferes, i, j - 1);
    }
  }

  lemma {:induction false} PairsBeforeMembers(s: seq<nat>, interferes: (nat, nat) -> bool, i: nat)
    requires i <= |s|
    ensures forall a: nat, b: nat :: (a, b) in PairsBefore(s, interferes, i) <==>
      a < i && a < b < |s| && interferes(s[a], s[b])
  {
    if i > 0 {
      PairsBeforeMembers(s, interferes, i - 1);
      RowPairsMembers(s, interferes, i - 1, |s|);
    }
  }

  lemma {:induction false} RowKeysMembers(s: seq<nat>, interferes: (nat, nat) -> bool, i: nat, j: nat)
    requires i < j <= |s|
    ensures forall p :: p in RowKeys(s, interferes, i, j) <==>
      exists b :: i < b < j && interferes(s[i], s[b]) && p == (s[i], s[b])
    decreases j
  {
    if j > i + 1 {
      RowKeysMembers(s, interferes, i, j - 1);
    }
  }

  /** Every interfering pair in the rows before row i has its key among KeysBefore. */
  lemma {:induction false} KeysBeforeComplete(s: seq<nat>, interferes: (nat, nat) -> bool, i: nat)
    requires i <= |s|
    ensures forall a, b :: 0 <= a < i && a < b < |s| && interferes(s[a], s[b]) ==>
      (s[a], s[b]) in KeysBefore(s, interferes, i)
  {
    if i > 0 {
      KeysBeforeComplete(s, interferes, i - 1);
      RowKeysMembers(s, interferes, i - 1, |s|);
      forall a, b | 0 <= a < i && a < b < |s| && interferes(s[a], s[b])
        ensures (s[a], s[b]) in KeysBefore(s, interferes, i)
      {
        if a == i - 1 {
          assert (s[a], s[b]) in RowKeys(s, interferes, i - 1, |s|);
        }
      }
    }
  }

  /** Every key in KeysBefore comes from an interfering pair in the rows before row i. */
  lemma {:induction false} KeysBeforeSound(s: seq<nat>, interferes: (nat, nat) -> bool, i: nat)
    requires i <= |s|
    ensures forall p :: p in KeysBefore(s, interferes, i) ==>
      exists a, b :: 0 <= a < b < |s| && a < i && interferes(s[a], s[b]) && p == (s[a], s[b])
  {
    if i > 0 {
      KeysBeforeSound(s, interferes, i - 1);
      RowKeysMembers(s, interferes, i - 1, |s|);
      forall p | p in KeysBefore(s, interferes, i)
        ensures exists a, b :: 0 <= a < b < |s| && a < i && interferes(s[a], s[b]) && p == (s[a], s[b])
      {
        if p !in KeysBefore(s, interferes, i - 1) {
          var b :| i - 1 < b < |s| && interferes(s[i - 1], s[b]) && p == (s[i - 1], s[b]);
          assert 0 <= i - 1 < b < |s| && i - 1 < i && interferes(s[i - 1], s[b]) && p == (s[i - 1], s[b]);
        }
      }
    }
  }

  /** The pair set counted by interference_count holds exactly the interfering pairs a < b. */
  lemma InterferingPairsMembers(s: seq<nat>, interferes: (nat, nat) -> bool, a: nat, b: nat)
    ensures (a, b) in InterferingPairs(s, interferes) <==> a < b < |s| && interferes(s[a], s[b])
  {
    PairsBeforeMembers(s, interferes, |s|);
  }

  /** The counter of a row counts its interfering pairs, each once. */
  lemma {:induction false} RowCountIsPairs(s: seq<nat>, interferes: (nat, nat) -> bool, i: nat, j: nat)
    requires i < j <= |s|
    ensures RowCount(s, interferes, i, j) == |RowPairs(s, interferes, i, j)|
    decreases j
  {
    if j > i + 1 {
      RowCountIsPairs(s, interferes, i, j - 1);
      if interferes(s[i], s[j - 1]) {
        RowPairsBelow(s, interferes, i, j - 1);
        AddFresh(RowPairs(s, interferes, i, j - 1), (i, j - 1));
      }
    }
  }


  /** The pairs of row i before column j all have their second position below j. */
  lemma {:induction false} RowPairsBelow(s: seq<nat>, interferes: (nat, nat) -> bool, i: nat, j: nat)
    requires i < j <= |s|
    ensures forall p :: p in RowPairs(s, interferes, i, j) ==> p.0 == i && p.1 < j
    decreases j
  {
    if j > i + 1 {
      RowPairsBelow(s, interferes, i, j - 1);
    }
  }

  /** The pairs of the rows before row i all start below i. */
  lemma {:induction false} PairsBeforeBelow(s: seq<nat>, interferes: (nat, nat) -> bool, i: nat)
    requires i <= |s|
    ensures forall p :: p in PairsBefore(s, interferes, i) ==> p.0 < i
  {
    if i > 0 {
      PairsBeforeBelow(s, interferes, i - 1);
      RowPairsBelow(s, interferes, i - 1, |s|);
    }
  }

  /** interference_count counts the interfering pairs a < b, each once. */
  lemma {:induction false} CountIsPairs(s: seq<nat>, interferes: (nat, nat) -> bool, i: nat)
    requires i <= |s|
    ensures CountBefore(s, interferes, i) == |PairsBefore(s, interferes, i)|
  {
    if i > 0 {
      CountIsPairs(s, interferes, i - 1);
      RowCountIsPairs(s, interferes, i - 1, |s|);
      PairsBeforeBelow(s, interferes, i - 1);
      RowPairsBelow(s, interferes, i - 1, |s|);
      DisjointUnion(PairsBefore(s, interferes, i - 1), RowPairs(s, interferes, i - 1, |s|));
    }
  }

  /** With distinct survivors, the keys of row i are as many as its counted pairs. */
  lemma {:induction false} RowKeysCount(s: seq<nat>, interferes: (nat, nat) -> bool, i: nat, j: nat)
    requires i < j <= |s|
    requires Distinct(s)
    ensures |RowKeys(s, interferes, i, j)| == RowCount(s, interferes, i, j)
    decreases j
  {
    if j > i + 1 {
      var prev := RowKeys(s, interferes, i, j - 1);
      RowKeysCount(s, interferes, i, j - 1);
      if interferes(s[i], s[j - 1]) {
        assert (s[i], s[j - 1]) !in prev by {
          RowKeysMembers(s, interferes, i, j - 1);
        }
        AddFresh(prev, (s[i], s[j - 1]));
      }
    }
  }


  /** Every key of row i starts with the survivor s[i]. */
  lemma {:induction false} RowKeysFirst(s: seq<nat>, interferes: (nat, nat) -> bool, i: nat, j: nat)
    requires i < j <= |s|
    ensures forall p :: p in RowKeys(s, interferes, i, j) ==> p.0 == s[i]
    decreases j
  {
    if j > i + 1 {
      RowKeysFirst(s, interferes, i, j - 1);
    }
  }

  /** Every key of the rows before row i starts with a survivor before position i. */
  lemma {:induction false} KeysBeforeFirst(s: seq<nat>, interferes: (nat, nat) -> bool, i: nat)
    requires i <= |s|
    ensures forall p :: p in KeysBefore(s, interferes, i) ==> p.0 in s[..i]
  {
    if i > 0 {
      KeysBeforeFirst(s, interferes, i - 1);
      RowKeysFirst(s, interferes, i - 1, |s|);
      assert s[..i] == s[..i - 1] + [s[i - 1]];
    }
  }

  /** With distinct survivors, there are as many quadratic terms as counted pairs. */
  lemma {:induction false} KeysCount(s: seq<nat>, interferes: (nat, nat) -> bool, i: nat)
    requires i <= |s|
    requires Distinct(s)
    ensures |KeysBefore(s, interferes, i)| == CountBefore(s, interferes, i)
  {
    if i > 0 {
      KeysCount(s, interferes, i - 1);
      RowKeysCount(s, interferes, i - 1, |s|);
      assert s[i - 1] !in s[..i - 1];
      KeysCountStep(s, interferes, i);
    }
  }

  /** One row of KeysCount: a row whose survivor is new adds only new keys. */
  lemma KeysCountStep(s: seq<nat>, interferes: (nat, nat) -> bool, i: nat)
    requires 0 < i <= |s|
    requires s[i - 1] !in s[..i - 1]
    requires |KeysBefore(s, interferes, i - 1)| == CountBefore(s, interferes, i - 1)
    requires |RowKeys(s, interferes, i - 1, |s|)| == RowCount(s, interferes, i - 1, |s|)
    ensures |KeysBefore(s, interferes, i)| == CountBefore(s, interferes, i)
  {
    KeysBeforeFirst(s, interferes, i - 1);
    RowKeysFirst(s, interferes, i - 1, |s|);
    DisjointUnion(KeysBefore(s, interferes, i - 1), RowKeys(s, interferes, i - 1, |s|));
  }


  /** The linear terms (lines 170-171): every survivor gets the reward coefficient. */
  method BuildLinear(selected: seq<nat>) returns (linear: map<nat, real>)
    ensures linear.Keys == set x | x in selected
    ensures forall x :: x in linear ==> linear[x] == SurvivorReward
  {
    linear := map[];
    var k := 0;
    while k < |selected|
      invariant 0 <= k <= |selected|
      invariant linear.Keys == set x | x in selected[..k]
      invariant forall x :: x in linear ==> linear[x] == SurvivorReward
    {
      assert selected[..k + 1] == selected[..k] + [selected[k]];
      linear := linear[selected[k] := SurvivorReward];
      k := k + 1;
    }
    assert selected[..k] == selected;
  }

  /** One pass of the inner loop (lines 182-190) for row i. */
  method ScanRow(selected: seq<nat>, interferes: (nat, nat) -> bool, i: nat,
                 quadratic0: map<(nat, nat), real>, count0: nat)
    returns (quadratic: map<(nat, nat), real>, interferenceCount: nat)
    requires i < |selected|
    requires forall p :: p in quadratic0 ==> quadratic0[p] == InterferencePenalty
    ensures quadratic.Keys == quadratic0.Keys + RowKeys(selected, interferes, i, |selected|)
    ensures forall p :: p in quadratic ==> quadratic[p] == InterferencePenalty
    ensures interferenceCount == count0 + RowCount(selected, interferes, i, |selected|)
  {
    quadratic, interferenceCount := quadratic0, count0;
    var j := i + 1;
    while j < |selected|
      invariant i + 1 <= j <= |selected|
      invariant quadratic.Keys == quadratic0.Keys + RowKeys(selected, interferes, i, j)
      invariant forall p :: p in quadratic ==> quadratic[p] == InterferencePenalty
      invariant interferenceCount == count0 + RowCount(selected, interferes, i, j)
    {
      if interferes(selected[i], selected[j]) {
        quadratic := quadratic[(selected[i], selected[j]) := InterferencePenalty];
        interferenceCount := interferenceCount + 1;
      }
      j := j + 1;
    }
  }

  /** The quadratic terms and the interference counter (lines 175-190). */
  method BuildQuadratic(selected: seq<nat>, interferes: (nat, nat) -> bool)
    returns (quadratic: map<(nat, nat), real>, interferenceCount: nat)
    ensures quadratic.Keys == KeysBefore(selected, interferes, |selected|)
    ensures forall p :: p in quadratic ==> quadratic[p] == InterferencePenalty
    ensures interferenceCount == CountBefore(selected, interferes, |selected|)
  {
    quadratic := map[];
    interferenceCount := 0;
    var i := 0;
    while i < |selected|
      invariant 0 <= i <= |selected|
      invariant quadratic.Keys == KeysBefore(selected, interferes, i)
      invariant forall p :: p in quadratic ==> quadratic[p] == InterferencePenalty
      invariant interferenceCount == CountBefore(selected, interferes, i)
    {
      quadratic, interferenceCount := ScanRow(selected, interferes, i, quadratic, interferenceCount);
      i := i + 1;
    }
  }

  /** The QUBO terms (lines 165-190): a -100 coefficient per survivor, and a penalty term for
      the survivors at positions a < b, keyed in survivor order, exactly when they interfere. */
  method BuildQubo(selected: seq<nat>, interferes: (nat, nat) -> bool)
    returns (linear: map<nat, real>, quadratic: map<(nat, nat), real>, interferenceCount: nat)
    ensures linear.Keys == set x | x in selected
    ensures forall x :: x in linear ==> linear[x] == SurvivorReward
    ensures forall a, b :: 0 <= a < b < |selected| && interferes(selected[a], selected[b]) ==>
      (selected[a], selected[b]) in quadratic
    ensures forall p :: p in quadratic ==>
      exists a, b :: 0 <= a < b < |selected| && interferes(selected[a], selected[b]) && p == (selected[a], selected[b])
    ensures forall p :: p in quadratic ==> quadratic[p] == InterferencePenalty
    ensures interferenceCount == |InterferingPairs(selected, interferes)|
    ensures Distinct(selected) ==> |quadratic| == interferenceCount
  {
    linear := BuildLinear(selected);
    quadratic, interferenceCount := BuildQuadratic(selected, interferes);
    KeysBeforeComplete(selected, interferes, |selected|);
    KeysBeforeSound(selected, interferes, |selected|);
    CountIsPairs(selected, interferes, |selected|);
    if Distinct(selected) {
      KeysCount(selected, interferes, |selected|);
    }
  }

  // ---------------------------------------------------------------
  // Solver read-back and the mask
  // ---------------------------------------------------------------

  /** final_active_ids (lines 219-225): the survivor at position i is active when the
      solver's value i is 1.0. A solver vector longer than the survivor list raises
      IndexError, here None. */
  method FinalActiveIds(selected: seq<nat>, solution: seq<real>) returns (r: Option<seq<nat>>)
    ensures r.None? <==> |solution| > |selected|
    ensures r.Some? ==> forall x :: x in r.value <==>
      exists i :: 0 <= i < |solution| && solution[i] == 1.0 && selected[i] == x
    ensures r.Some? ==> forall x :: x in r.value ==> x in selected
  {
    if |solution| > |selected| {
      return None;
    }
    var ids := [];
    var i := 0;
    while i < |solution|
      invariant 0 <= i <= |solution|
      invariant forall x :: x in ids <==> exists k :: 0 <= k < i && solution[k] == 1.0 && selected[k] == x
    {
      if solution[i] == 1.0 {
        ids := ids + [selected[i]];
      }
      i := i + 1;
    }
    r := Some(ids);
  }

  /** full_mask (lines 231-235): n '0's, overwritten with '1' at every active id. An id
      outside the catalog raises IndexError, here None. */
  method EncodeMask(n: nat, activeIds: seq<nat>) returns (r: Option<string>)
    ensures r.None? <==> exists k :: 0 <= k < |activeIds| && activeIds[k] >= n
    ensures r.Some? ==> |r.value| == n
    ensures r.Some? ==> forall k :: 0 <= k < n ==> r.value[k] == (if k in activeIds then '1' else '0')
  {
    var fullMask := new char[n](_ => '0');
    var i := 0;
    while i < |activeIds|
      invariant 0 <= i <= |activeIds|
      invariant forall k :: 0 <= k < i ==> activeIds[k] < n
      invariant forall k :: 0 <= k < n ==> fullMask[k] == (if k in activeIds[..i] then '1' else '0')
    {
      if activeIds[i] >= n {
        return None;
      }
      assert activeIds[..i + 1] == activeIds[..i] + [activeIds[i]];
      fullMask[activeIds[i]] := '1';
      i := i + 1;
    }
    assert activeIds[..i] == activeIds;
    r := Some(fullMask[..]);
  }

  /** The whole pipeline after the catalog is loaded. `isOne` is the integer program's
      solution and `solution` the eigensolver's bit vector over the survivors. */
  method RunHybridOptimization(covers: (nat, nat) -> bool, interferes: (nat, nat) -> bool, numTowers: nat,
                               isOne: nat -> bool, solution: seq<real>)
    returns (candidates: seq<nat>, selected: seq<nat>, mask: Option<string>)
    ensures GreedyRun(covers, numTowers, GridResolution * GridResolution, candidates)
    ensures forall x :: x in selected <==> x in candidates && isOne(x)
    ensures Distinct(selected) && |selected| <= |candidates| <= numTowers
    ensures mask.None? <==> |solution| > |selected|
    ensures mask.Some? ==> |mask.value| == numTowers
    ensures mask.Some? ==> forall k :: 0 <= k < numTowers ==>
      (mask.value[k] == '1' <==> exists i :: 0 <= i < |solution| && solution[i] == 1.0 && selected[i] == k)
    ensures mask.Some? ==> forall k :: 0 <= k < numTowers ==> mask.value[k] in {'0', '1'}
    ensures SatisfiesConstraints(ConstraintMap(covers, candidates, CoveredBy(covers, GridResolution * GridResolution, candidates)), isOne) ==>
      CoveredBy(covers, GridResolution * GridResolution, selected) == CoveredBy(covers, GridResolution * GridResolution, candidates)
  {
    var points := DemandGrid(GridResolution);
    var covered;
    candidates, covered := Greedy(covers, numTowers, |points|);
    var coverageMap := BuildCoverageMap(covers, candidates, covered);
    var constraints := BuildConstraints(coverageMap);
    assert constraints == ConstraintMap(covers, candidates, covered);
    ghost var positions;
    selected, positions := ReadIlpSelection(candidates, isOne);
    SubsequenceDistinct(selected, candidates, positions);
    if SatisfiesConstraints(constraints, isOne) {
      IlpKeepsCoverage(covers, |points|, candidates, isOne, selected);
    }
    var linear, quadratic, interferenceCount := BuildQubo(selected, interferes);
    var active := FinalActiveIds(selected, solution);
    if active.None? {
      mask := None;
    } else {
      forall k | 0 <= k < |active.value|
        ensures active.value[k] < numTowers
      {
        assert active.value[k] in active.value;
        assert active.value[k] in candidates;
      }
      mask := EncodeMask(numTowers, active.value);
      if mask.None? {
        assert false;
      }
      forall k | 0 <= k < numTowers
        ensures mask.value[k] == '1' <==> k in active.value
      {
      }
    }
  }
}
