/** Specification of tower placement and of the greedy coverage optimiser of
    CityGrid: clipped coverage windows, the effect of place_tower on one
    block, the gain of a candidate location, and the selection the greedy
    loop of optimize_towers makes, with the properties proved about them. */
module Coverage {
  import opened Cells

  function Max(a: int, b: int): int { if a < b then b else a }
  function Min(a: int, b: int): int { if a < b then a else b }

  /** The blocks (i, j) with rlo <= i < rhi and clo <= j < chi. */
  function Rect(rlo: int, rhi: int, clo: int, chi: int): set<Coord> {
    set i, j | rlo <= i < rhi && clo <= j < chi :: (i, j)
  }

  /** Every block of an n x m grid. */
  function AllCells(n: int, m: int): set<Coord> {
    Rect(0, n, 0, m)
  }

  /** Block c lies in the window of radius R around t clipped to an n x m grid:
      its row is in range(max(0, x - R), min(n, x + R + 1)) and its column in
      range(max(0, y - R), min(m, y + R + 1)), the loop bounds shared by
      place_tower, update_coverage and get_coverage_count. */
  predicate InWindow(n: int, m: int, R: int, t: Coord, c: Coord) {
    && Max(0, t.0 - R) <= c.0 < Min(n, t.0 + R + 1)
    && Max(0, t.1 - R) <= c.1 < Min(m, t.1 + R + 1)
  }

  /** The set of blocks InWindow(n, m, R, t, _). */
  function Window(n: int, m: int, R: int, t: Coord): set<Coord> {
    Rect(Max(0, t.0 - R), Min(n, t.0 + R + 1), Max(0, t.1 - R), Min(m, t.1 + R + 1))
  }

  /** The clipped window is the square of Chebyshev radius R around t,
      intersected with the grid; for R < 0 it is empty. */
  lemma WindowIsClippedSquare(n: int, m: int, R: int, t: Coord, c: Coord)
    ensures InWindow(n, m, R, t, c) <==> c in Window(n, m, R, t)
    ensures InWindow(n, m, R, t, c) <==>
      0 <= c.0 < n && 0 <= c.1 < m && Abs(c.0 - t.0) <= R && Abs(c.1 - t.1) <= R
    ensures R < 0 ==> Window(n, m, R, t) == {}
  {
  }

  lemma WindowInGrid(n: int, m: int, R: int, t: Coord)
    ensures Window(n, m, R, t) <= AllCells(n, m)
  {
  }

  // ---------------------------------------------------------------------
  // place_tower

  /** The state of block c after place_tower at t with radius R, when its
      state before the call was `cell`: the centre becomes Tower, any other
      non-Blocked block of the window becomes Signal, the rest is unchanged. */
  function PlaceCell(n: int, m: int, R: int, t: Coord, c: Coord, cell: Cell): (r: Cell)
    ensures r == Blocked ==> cell == Blocked
    ensures r != cell ==> InWindow(n, m, R, t, c) && (r == Tower || r == Signal)
    ensures r == Tower ==> c == t || cell == Tower
  {
    if !InWindow(n, m, R, t, c) then cell
    else if c == t then Tower
    else if cell != Blocked then Signal
    else cell
  }

  /** What place_tower does to the blocks of the grid, stated by distance
      from the tower: an in-grid centre becomes Tower, the other non-Blocked
      blocks at Chebyshev distance at most R become Signal, Blocked blocks
      other than the centre stay Blocked, and blocks farther away keep their
      state. */
  lemma PlaceTowerEffect(n: int, m: int, R: int, t: Coord, c: Coord, cell: Cell)
    requires 0 <= c.0 < n && 0 <= c.1 < m
    ensures c == t && R >= 0 ==> PlaceCell(n, m, R, t, c, cell) == Tower
    ensures c != t && Abs(c.0 - t.0) <= R && Abs(c.1 - t.1) <= R && cell != Blocked ==>
      PlaceCell(n, m, R, t, c, cell) == Signal
    ensures c != t && cell == Blocked ==> PlaceCell(n, m, R, t, c, cell) == Blocked
    ensures Abs(c.0 - t.0) > R || Abs(c.1 - t.1) > R ==> PlaceCell(n, m, R, t, c, cell) == cell
  {
  }

  /** Placing the same tower twice leaves every block as placing it once. */
  lemma PlaceCellIdempotent(n: int, m: int, R: int, t: Coord, c: Coord, cell: Cell)
    ensures PlaceCell(n, m, R, t, c, PlaceCell(n, m, R, t, c, cell)) == PlaceCell(n, m, R, t, c, cell)
  {
  }

  /** The state of block c after place_tower for each of `towers` in order,
      starting from state `cell`: the pass at the end of optimize_towers. */
  function PlaceAll(n: int, m: int, R: int, towers: seq<Coord>, c: Coord, cell: Cell): Cell
    decreases |towers|
  {
    if towers == [] then cell
    else PlaceCell(n, m, R, towers[|towers| - 1], c, PlaceAll(n, m, R, towers[..|towers| - 1], c, cell))
  }

  /** A block that is not Blocked never becomes Blocked. */
  lemma {:induction false} PlaceAllNeverBlocks(n: int, m: int, R: int, towers: seq<Coord>, c: Coord, cell: Cell)
    requires cell != Blocked
    ensures PlaceAll(n, m, R, towers, c, cell) != Blocked
    decreases |towers|
  {
    if towers != [] {
      PlaceAllNeverBlocks(n, m, R, towers[..|towers| - 1], c, cell);
    }
  }

  /** Every block inside the window of some placed tower ends up covered:
      it is never left Empty, and if it was not Blocked it ends up Signal or
      Tower. */
  lemma {:induction false} PlaceAllCovers(n: int, m: int, R: int, towers: seq<Coord>, k: int, c: Coord, cell: Cell)
    requires 0 <= k < |towers| && InWindow(n, m, R, towers[k], c)
    ensures PlaceAll(n, m, R, towers, c, cell) != Empty
    ensures cell != Blocked ==> PlaceAll(n, m, R, towers, c, cell) in {Signal, Tower}
    decreases |towers|
  {
    var init := towers[..|towers| - 1];
    if k == |towers| - 1 {
      if cell != Blocked {
        PlaceAllNeverBlocks(n, m, R, init, c, cell);
      }
    } else {
      assert init[k] == towers[k];
      PlaceAllCovers(n, m, R, init, k, c, cell);
    }
  }

  /** A Blocked block at which no tower is placed stays Blocked. */
  lemma {:induction false} PlaceAllKeepsBlocked(n: int, m: int, R: int, towers: seq<Coord>, c: Coord)
    requires c !in towers
    ensures PlaceAll(n, m, R, towers, c, Blocked) == Blocked
    decreases |towers|
  {
    if towers != [] {
      var init := towers[..|towers| - 1];
      assert c !in init by {
        forall k | 0 <= k < |init| ensures init[k] != c {
          assert init[k] == towers[k];
        }
      }
      PlaceAllKeepsBlocked(n, m, R, init, c);
    }
  }

  /** A block outside every placed tower's window keeps its state. */
  lemma {:induction false} PlaceAllOutside(n: int, m: int, R: int, towers: seq<Coord>, c: Coord, cell: Cell)
    requires forall k | 0 <= k < |towers| :: !InWindow(n, m, R, towers[k], c)
    ensures PlaceAll(n, m, R, towers, c, cell) == cell
    decreases |towers|
  {
    if towers != [] {
      var init := towers[..|towers| - 1];
      assert forall k | 0 <= k < |init| :: init[k] == towers[k];
      PlaceAllOutside(n, m, R, init, c, cell);
    }
  }

  /** Only placed towers become Tower: a block that ends up Tower was Tower
      already or is one of the placed towers. */
  lemma {:induction false} PlaceAllTowersArePlaced(n: int, m: int, R: int, towers: seq<Coord>, c: Coord, cell: Cell)
    requires PlaceAll(n, m, R, towers, c, cell) == Tower
    ensures cell == Tower || c in towers
    decreases |towers|
  {
    if towers != [] {
      var init := towers[..|towers| - 1];
      if c != towers[|towers| - 1] {
        PlaceAllTowersArePlaced(n, m, R, init, c, cell);
        if c in init {
          var k :| 0 <= k < |init| && init[k] == c;
          assert towers[k] == c;
        }
      }
    }
  }

  /** The last tower placed, when its block is in the grid and R >= 0, ends up
      Tower. */
  lemma PlaceAllLastIsTower(n: int, m: int, R: int, towers: seq<Coord>, cell: Cell)
    requires towers != [] && R >= 0
    requires 0 <= towers[|towers| - 1].0 < n && 0 <= towers[|towers| - 1].1 < m
    ensures PlaceAll(n, m, R, towers, towers[|towers| - 1], cell) == Tower
  {
  }

  /** The pass does not spare earlier towers: with radius 1 on a 1 x 2 grid,
      the tower placed first at (0, 0) is turned into Signal by the tower
      placed next at (0, 1). */
  lemma EarlierTowerOverwritten()
    ensures PlaceAll(1, 2, 1, [(0, 0), (0, 1)], (0, 0), Blocked) == Signal
    ensures PlaceAll(1, 2, 1, [(0, 0), (0, 1)], (0, 1), Blocked) == Tower
  {
  }

  // ---------------------------------------------------------------------
  // Gain: the count get_coverage_count computes

  /** The blocks (i, j), lo <= j < hi, that are not in `covered`: the inner
      loop of get_coverage_count. */
  function CountRow(covered: set<Coord>, i: int, lo: int, hi: int): nat
    decreases hi - lo
  {
    if hi <= lo then 0
    else CountRow(covered, i, lo, hi - 1) + (if (i, hi - 1) in covered then 0 else 1)
  }

  /** The blocks of rows rlo .. rhi - 1, columns clo .. chi - 1, not in `covered`. */
  function CountRect(covered: set<Coord>, rlo: int, rhi: int, clo: int, chi: int): nat
    decreases rhi - rlo
  {
    if rhi <= rlo then 0
    else CountRect(covered, rlo, rhi - 1, clo, chi) + CountRow(covered, rhi - 1, clo, chi)
  }

  /** The gain of a tower at t: the blocks of its clipped window that are not
      yet covered, Blocked ones included. */
  function Gain(n: int, m: int, R: int, covered: set<Coord>, t: Coord): nat {
    CountRect(covered, Max(0, t.0 - R), Min(n, t.0 + R + 1), Max(0, t.1 - R), Min(m, t.1 + R + 1))
  }

  lemma {:induction false} CountRowUncovered(covered: set<Coord>, i: int, lo: int, hi: int)
    ensures CountRow(covered, i, lo, hi) == |Rect(i, i + 1, lo, hi) - covered|
    decreases hi - lo
  {
    if hi <= lo {
      assert Rect(i, i + 1, lo, hi) == {};
    } else {
      CountRowUncovered(covered, i, lo, hi - 1);
      RowLastCell(i, lo, hi);
      UncoveredOfDisjointUnion(Rect(i, i + 1, lo, hi - 1), {(i, hi - 1)}, covered);
      if (i, hi - 1) in covered {
        assert {(i, hi - 1)} - covered == {};
      } else {
        assert {(i, hi - 1)} - covered == {(i, hi - 1)};
      }
    }
  }

  /** A row segment is the segment without its last block, plus that block. */
  lemma RowLastCell(i: int, lo: int, hi: int)
    requires lo < hi
    ensures Rect(i, i + 1, lo, hi) == Rect(i, i + 1, lo, hi - 1) + {(i, hi - 1)}
    ensures Rect(i, i + 1, lo, hi - 1) * {(i, hi - 1)} == {}
  {
    var prev, row := Rect(i, i + 1, lo, hi - 1), Rect(i, i + 1, lo, hi);
    forall c: Coord | c in row ensures c in prev + {(i, hi - 1)} {
      if c.1 < hi - 1 {
        assert c in prev;
      }
    }
    assert (i, hi - 1) !in prev;
  }

  lemma {:induction false} CountRectUncovered(covered: set<Coord>, rlo: int, rhi: int, clo: int, chi: int)
    ensures CountRect(covered, rlo, rhi, clo, chi) == |Rect(rlo, rhi, clo, chi) - covered|
    decreases rhi - rlo
  {
    if rhi <= rlo {
      assert Rect(rlo, rhi, clo, chi) == {};
    } else {
      CountRectUncovered(covered, rlo, rhi - 1, clo, chi);
      CountRowUncovered(covered, rhi - 1, clo, chi);
      RectLastRow(rlo, rhi, clo, chi);
      UncoveredOfDisjointUnion(Rect(rlo, rhi - 1, clo, chi), Rect(rhi - 1, rhi, clo, chi), covered);
    }
  }

  /** A rectangle is the rectangle without its last row, plus that row. */
  lemma RectLastRow(rlo: int, rhi: int, clo: int, chi: int)
    requires rlo < rhi
    ensures Rect(rlo, rhi, clo, chi) == Rect(rlo, rhi - 1, clo, chi) + Rect(rhi - 1, rhi, clo, chi)
    ensures Rect(rlo, rhi - 1, clo, chi) * Rect(rhi - 1, rhi, clo, chi) == {}
  {
    var top, row := Rect(rlo, rhi - 1, clo, chi), Rect(rhi - 1, rhi, clo, chi);
    forall c: Coord | c in Rect(rlo, rhi, clo, chi) ensures c in top + row {
      if c.0 < rhi - 1 {
        assert c in top;
      } else {
        assert c in row;
      }
    }
    assert forall c: Coord | c in top :: c.0 < rhi - 1;
    assert forall c: Coord | c in row :: c.0 == rhi - 1;
  }

  /** The uncovered part of a disjoint union is counted part by part. */
  lemma UncoveredOfDisjointUnion(a: set<Coord>, b: set<Coord>, covered: set<Coord>)
    requires a * b == {}
    ensures |(a + b) - covered| == |a - covered| + |b - covered|
  {
    assert (a + b) - covered == (a - covered) + (b - covered);
    assert (a - covered) * (b - covered) == {};
  }

  /** The gain is the number of uncovered blocks of the window. */
  lemma GainCountsUncovered(n: int, m: int, R: int, covered: set<Coord>, t: Coord)
    ensures Gain(n, m, R, covered, t) == |Window(n, m, R, t) - covered|
  {
    CountRectUncovered(covered, Max(0, t.0 - R), Min(n, t.0 + R + 1), Max(0, t.1 - R), Min(m, t.1 + R + 1));
  }

  /** The gain is zero exactly when the whole window is covered. */
  lemma GainZeroIffCovered(n: int, m: int, R: int, covered: set<Coord>, t: Coord)
    ensures Gain(n, m, R, covered, t) == 0 <==> Window(n, m, R, t) <= covered
  {
    GainCountsUncovered(n, m, R, covered, t);
    if Window(n, m, R, t) <= covered {
      assert Window(n, m, R, t) - covered == {};
    } else {
      var c :| c in Window(n, m, R, t) && c !in covered;
      assert c in Window(n, m, R, t) - covered;
    }
  }

  lemma {:induction false} CountRowNoneCovered(i: int, lo: int, hi: int)
    requires lo <= hi
    ensures CountRow({}, i, lo, hi) == hi - lo
    decreases hi - lo
  {
    if lo < hi {
      CountRowNoneCovered(i, lo, hi - 1);
    }
  }

  lemma {:induction false} CountRectNoneCovered(rlo: int, rhi: int, clo: int, chi: int)
    requires rlo <= rhi && clo <= chi
    ensures CountRect({}, rlo, rhi, clo, chi) == (rhi - rlo) * (chi - clo)
    decreases rhi - rlo
  {
    if rlo < rhi {
      CountRectNoneCovered(rlo, rhi - 1, clo, chi);
      CountRowNoneCovered(rhi - 1, clo, chi);
      assert (rhi - 1 - rlo) * (chi - clo) + (chi - clo) == (rhi - rlo) * (chi - clo);
    }
  }

  /** An n x m grid has n * m blocks. */
  lemma AllCellsCount(n: nat, m: nat)
    ensures |AllCells(n, m)| == n * m
  {
    CountRectUncovered({}, 0, n, 0, m);
    CountRectNoneCovered(0, n, 0, m);
    assert AllCells(n, m) - {} == AllCells(n, m);
  }

  lemma SubsetCount(a: set<Coord>, b: set<Coord>)
    requires a <= b
    ensures |a| <= |b|
  {
    assert b == a + (b - a);
    assert a * (b - a) == {};
  }

  // ---------------------------------------------------------------------
  // The greedy selection of optimize_towers

  /** The cells the `covered` matrix marks after update_coverage for each of
      `towers` in order. */
  function CoveredBy(n: int, m: int, R: int, towers: seq<Coord>): set<Coord>
    decreases |towers|
  {
    if towers == [] then {}
    else CoveredBy(n, m, R, towers[..|towers| - 1]) + Window(n, m, R, towers[|towers| - 1])
  }

  /** `covered` holds the window of every selected tower and nothing outside
      the grid. */
  lemma {:induction false} CoveredByWindows(n: int, m: int, R: int, towers: seq<Coord>)
    ensures forall k | 0 <= k < |towers| :: Window(n, m, R, towers[k]) <= CoveredBy(n, m, R, towers)
    ensures CoveredBy(n, m, R, towers) <= AllCells(n, m)
    decreases |towers|
  {
    if towers != [] {
      var init := towers[..|towers| - 1];
      CoveredByWindows(n, m, R, init);
      assert forall k | 0 <= k < |init| :: init[k] == towers[k];
      WindowInGrid(n, m, R, towers[|towers| - 1]);
    }
  }

  /** Row-major order: the order of the scan `for x in range(n): for y in range(m)`. */
  predicate RowMajorBefore(a: Coord, b: Coord) {
    a.0 < b.0 || (a.0 == b.0 && a.1 < b.1)
  }

  /** t is the location one pass of the scan settles on when `covered` is
      covered: a blocked block of positive gain, no blocked block has a
      larger gain, and every blocked block before it in row-major order has a
      strictly smaller one (the comparison is strict `>`). */
  predicate IsFirstBest(n: int, m: int, R: int, blocked: set<Coord>, covered: set<Coord>, t: Coord) {
    && t in blocked
    && Gain(n, m, R, covered, t) > 0
    && (forall c | c in blocked :: Gain(n, m, R, covered, c) <= Gain(n, m, R, covered, t))
    && (forall c | c in blocked && RowMajorBefore(c, t) :: Gain(n, m, R, covered, c) < Gain(n, m, R, covered, t))
  }

  /** No blocked block has positive gain: the scan finds no location and the
      loop stops. */
  predicate Exhausted(n: int, m: int, R: int, blocked: set<Coord>, covered: set<Coord>) {
    forall c | c in blocked :: Gain(n, m, R, covered, c) == 0
  }

  /** The state of the scan when it reaches position `pos`: `best` is the
      first blocked block before `pos` with the largest gain `maxGain`, or
      None while that gain is 0, and no blocked block before `pos` has a
      larger gain. */
  predicate ScannedBest(n: int, m: int, R: int, blocked: set<Coord>, covered: set<Coord>,
                        pos: Coord, maxGain: nat, best: Option<Coord>)
  {
    && (best.None? <==> maxGain == 0)
    && (best.Some? ==>
          && best.value in blocked
          && RowMajorBefore(best.value, pos)
          && Gain(n, m, R, covered, best.value) == maxGain
          && (forall c | c in blocked && RowMajorBefore(c, best.value) :: Gain(n, m, R, covered, c) < maxGain))
    && (forall c | c in blocked && RowMajorBefore(c, pos) :: Gain(n, m, R, covered, c) <= maxGain)
  }

  /** Before the first block nothing is scanned. */
  lemma ScanStart(n: int, m: int, R: int, blocked: set<Coord>, covered: set<Coord>)
    requires blocked <= AllCells(n, m)
    ensures ScannedBest(n, m, R, blocked, covered, (0, 0), 0, None)
  {
    forall c | c in blocked ensures !RowMajorBefore(c, (0, 0)) {
      assert c in AllCells(n, m);
    }
  }

  /** Scanning block (x, y) when it is not blocked, or is blocked with no
      larger gain, leaves the choice alone. */
  lemma ScanSkip(n: int, m: int, R: int, blocked: set<Coord>, covered: set<Coord>,
                 x: int, y: int, maxGain: nat, best: Option<Coord>)
    requires ScannedBest(n, m, R, blocked, covered, (x, y), maxGain, best)
    requires (x, y) !in blocked || Gain(n, m, R, covered, (x, y)) <= maxGain
    ensures ScannedBest(n, m, R, blocked, covered, (x, y + 1), maxGain, best)
  {
    forall c | c in blocked && RowMajorBefore(c, (x, y + 1)) && c != (x, y)
      ensures RowMajorBefore(c, (x, y))
    {
    }
  }

  /** Scanning a blocked block (x, y) with a strictly larger gain makes it
      the choice. */
  lemma ScanTake(n: int, m: int, R: int, blocked: set<Coord>, covered: set<Coord>,
                 x: int, y: int, maxGain: nat, best: Option<Coord>)
    requires ScannedBest(n, m, R, blocked, covered, (x, y), maxGain, best)
    requires (x, y) in blocked && Gain(n, m, R, covered, (x, y)) > maxGain
    ensures ScannedBest(n, m, R, blocked, covered, (x, y + 1), Gain(n, m, R, covered, (x, y)), Some((x, y)))
  {
    forall c | c in blocked && RowMajorBefore(c, (x, y + 1)) && c != (x, y)
      ensures RowMajorBefore(c, (x, y))
    {
    }
  }

  /** The end of row x is the start of row x + 1. */
  lemma ScanNextRow(n: int, m: int, R: int, blocked: set<Coord>, covered: set<Coord>,
                    x: int, maxGain: nat, best: Option<Coord>)
    requires blocked <= AllCells(n, m)
    requires ScannedBest(n, m, R, blocked, covered, (x, m), maxGain, best)
    ensures ScannedBest(n, m, R, blocked, covered, (x + 1, 0), maxGain, best)
  {
    forall c | c in blocked ensures RowMajorBefore(c, (x + 1, 0)) <==> RowMajorBefore(c, (x, m)) {
      assert c in AllCells(n, m);
    }
  }

  /** When the scan has passed every row, its choice is the first best
      location, and None means the blocked blocks are exhausted. */
  lemma ScanDone(n: int, m: int, R: int, blocked: set<Coord>, covered: set<Coord>,
                 maxGain: nat, best: Option<Coord>)
    requires blocked <= AllCells(n, m)
    requires ScannedBest(n, m, R, blocked, covered, (n, 0), maxGain, best)
    ensures best.None? ==> Exhausted(n, m, R, blocked, covered)
    ensures best.Some? ==> IsFirstBest(n, m, R, blocked, covered, best.value)
  {
    forall c | c in blocked ensures RowMajorBefore(c, (n, 0)) {
      assert c in AllCells(n, m);
    }
  }

  /** Every tower of `towers` is the one the scan picks after its predecessors
      were selected. */
  predicate GreedySteps(n: int, m: int, R: int, blocked: set<Coord>, towers: seq<Coord>)
    decreases |towers|
  {
    || towers == []
    || (&& GreedySteps(n, m, R, blocked, towers[..|towers| - 1])
        && IsFirstBest(n, m, R, blocked, CoveredBy(n, m, R, towers[..|towers| - 1]), towers[|towers| - 1]))
  }

  /** `towers` is the complete selection of the greedy loop over the blocked
      blocks `blocked`. */
  predicate IsGreedyRun(n: int, m: int, R: int, blocked: set<Coord>, towers: seq<Coord>) {
    GreedySteps(n, m, R, blocked, towers) && Exhausted(n, m, R, blocked, CoveredBy(n, m, R, towers))
  }

  /** One more step of the greedy loop: appending the scan's choice keeps
      the selection greedy and adds exactly its window to what is covered. */
  lemma GreedyStepsExtend(n: int, m: int, R: int, blocked: set<Coord>, towers: seq<Coord>, t: Coord)
    requires GreedySteps(n, m, R, blocked, towers)
    requires IsFirstBest(n, m, R, blocked, CoveredBy(n, m, R, towers), t)
    ensures GreedySteps(n, m, R, blocked, towers + [t])
    ensures CoveredBy(n, m, R, towers + [t]) == CoveredBy(n, m, R, towers) + Window(n, m, R, t)
  {
    assert (towers + [t])[..|towers|] == towers;
  }

  /** A location of positive gain covers a block of the grid that was not
      covered: the uncovered part of the grid shrinks strictly, so the
      greedy loop terminates. */
  lemma PositiveGainShrinksUncovered(n: int, m: int, R: int, covered: set<Coord>, t: Coord)
    requires Gain(n, m, R, covered, t) > 0
    ensures AllCells(n, m) - (covered + Window(n, m, R, t)) < AllCells(n, m) - covered
  {
    GainZeroIffCovered(n, m, R, covered, t);
    WindowInGrid(n, m, R, t);
    var w :| w in Window(n, m, R, t) && w !in covered;
    assert w in AllCells(n, m) - covered;
  }

  /** Every step of a greedy selection is the scan's choice after the steps
      before it. */
  lemma {:induction false} GreedyStepAt(n: int, m: int, R: int, blocked: set<Coord>, towers: seq<Coord>, k: nat)
    requires GreedySteps(n, m, R, blocked, towers) && k < |towers|
    ensures GreedySteps(n, m, R, blocked, towers[..k])
    ensures IsFirstBest(n, m, R, blocked, CoveredBy(n, m, R, towers[..k]), towers[k])
    decreases |towers|
  {
    var init := towers[..|towers| - 1];
    if k < |towers| - 1 {
      GreedyStepAt(n, m, R, blocked, init, k);
      assert init[..k] == towers[..k];
    }
  }

  /** The selection has no duplicates: once a tower is selected its own
      window is covered, so its gain stays 0 and it cannot win again. */
  lemma GreedyStepsDistinct(n: int, m: int, R: int, blocked: set<Coord>, towers: seq<Coord>)
    requires GreedySteps(n, m, R, blocked, towers)
    ensures Distinct(towers)
  {
    forall i, j | 0 <= i < j < |towers| ensures towers[i] != towers[j] {
      var prefix := towers[..j];
      CoveredByWindows(n, m, R, prefix);
      assert prefix[i] == towers[i];
      GainZeroIffCovered(n, m, R, CoveredBy(n, m, R, prefix), towers[i]);
      GreedyStepAt(n, m, R, blocked, towers, j);
    }
  }

  /** Each step covers at least one new block, so the loop runs at most
      n * m times. */
  lemma {:induction false} GreedyStepsBounded(n: nat, m: nat, R: int, blocked: set<Coord>, towers: seq<Coord>)
    requires GreedySteps(n, m, R, blocked, towers)
    ensures |towers| <= |CoveredBy(n, m, R, towers)| <= n * m
    decreases |towers|
  {
    CoveredByWindows(n, m, R, towers);
    AllCellsCount(n, m);
    SubsetCount(CoveredBy(n, m, R, towers), AllCells(n, m));
    if towers != [] {
      var init := towers[..|towers| - 1];
      var t := towers[|towers| - 1];
      GreedyStepsBounded(n, m, R, blocked, init);
      var C := CoveredBy(n, m, R, init);
      var W := Window(n, m, R, t);
      GainCountsUncovered(n, m, R, C, t);
      assert C + W == C + (W - C);
      assert C * (W - C) == {};
    }
  }

  /** The scan's choice is unique for a given `covered`. */
  lemma FirstBestUnique(n: int, m: int, R: int, blocked: set<Coord>, covered: set<Coord>, a: Coord, b: Coord)
    requires IsFirstBest(n, m, R, blocked, covered, a) && IsFirstBest(n, m, R, blocked, covered, b)
    ensures a == b
  {
  }

  lemma {:induction false} GreedyStepsAgree(n: int, m: int, R: int, blocked: set<Coord>, s: seq<Coord>, t: seq<Coord>, k: nat)
    requires GreedySteps(n, m, R, blocked, s) && GreedySteps(n, m, R, blocked, t)
    requires k <= |s| && k <= |t|
    ensures s[..k] == t[..k]
    decreases k
  {
    if k > 0 {
      GreedyStepsAgree(n, m, R, blocked, s, t, k - 1);
      GreedyStepAt(n, m, R, blocked, s, k - 1);
      GreedyStepAt(n, m, R, blocked, t, k - 1);
      FirstBestUnique(n, m, R, blocked, CoveredBy(n, m, R, s[..k - 1]), s[k - 1], t[k - 1]);
      assert s[..k] == s[..k - 1] + [s[k - 1]];
      assert t[..k] == t[..k - 1] + [t[k - 1]];
    }
  }

  /** The greedy selection is determined by the blocked blocks and R: two
      complete runs select the same towers in the same order. */
  lemma GreedyRunUnique(n: int, m: int, R: int, blocked: set<Coord>, s: seq<Coord>, t: seq<Coord>)
    requires IsGreedyRun(n, m, R, blocked, s) && IsGreedyRun(n, m, R, blocked, t)
    ensures s == t
  {
    assert s == s[..|s|] && t == t[..|t|];
    if |s| < |t| {
      GreedyStepsAgree(n, m, R, blocked, s, t, |s|);
      GreedyStepAt(n, m, R, blocked, t, |s|);
      assert false;
    } else if |t| < |s| {
      GreedyStepsAgree(n, m, R, blocked, s, t, |t|);
      GreedyStepAt(n, m, R, blocked, s, |t|);
      assert false;
    } else {
      GreedyStepsAgree(n, m, R, blocked, s, t, |s|);
    }
  }

  /** The selection is empty exactly when there is no blocked block or the
      radius is negative (every window is then empty). */
  lemma GreedyRunEmpty(n: int, m: int, R: int, blocked: set<Coord>, towers: seq<Coord>)
    requires blocked <= AllCells(n, m)
    requires IsGreedyRun(n, m, R, blocked, towers)
    ensures towers == [] <==> (R < 0 || blocked == {})
  {
    if towers != [] {
      GreedyStepAt(n, m, R, blocked, towers, 0);
      assert towers[..0] == [];
      if R < 0 {
        WindowIsClippedSquare(n, m, R, towers[0], towers[0]);
        GainZeroIffCovered(n, m, R, {}, towers[0]);
        assert false;
      }
    } else if R >= 0 && blocked != {} {
      var c :| c in blocked;
      WindowIsClippedSquare(n, m, R, c, c);
      GainZeroIffCovered(n, m, R, {}, c);
      assert false;
    }
  }
}
