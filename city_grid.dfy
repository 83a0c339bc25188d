/** The CityGrid class: an n x m array of blocks, tower placement, the greedy
    tower optimiser and the most-reliable-path search between towers. Each
    method is proved against the specification functions of the Coverage and
    RangeGraph modules. */
module City {
  import opened Cells
  import opened Coverage
  import opened RangeGraph

  class CityGrid {
    const n: nat
    const m: nat
    /** grid[i, j] is the state of block (i, j); rows are the first index. */
    const grid: array2<Cell>

    ghost predicate Valid()
      reads this
    {
      grid.Length0 == n && grid.Length1 == m
    }

    /** A fresh city: every block Empty. The random blocking done right after
        construction is modelled one draw at a time by PopulateStep. */
    constructor (n: nat, m: nat)
      ensures Valid() && fresh(grid)
      ensures this.n == n && this.m == m
      ensures forall i, j | 0 <= i < n && 0 <= j < m :: grid[i, j] == Empty
    {
      this.n := n;
      this.m := m;
      grid := new Cell[n, m]((i, j) => Empty);
    }

    /** The coordinates of the Blocked blocks. */
    ghost function BlockedCells(): (b: set<Coord>)
      requires Valid()
      reads this, grid
      ensures b <= AllCells(n, m)
      ensures forall c | c in b :: 0 <= c.0 < n && 0 <= c.1 < m && grid[c.0, c.1] == Blocked
    {
      set i, j | 0 <= i < n && 0 <= j < m && grid[i, j] == Blocked :: (i, j)
    }

    /** One draw of the retry loop that blocks random blocks: the drawn block
        (i, j) becomes Blocked and counts as placed when it was Empty;
        otherwise nothing changes and the loop draws again. */
    method PopulateStep(i: int, j: int) returns (placed: bool)
      requires Valid() && 0 <= i < n && 0 <= j < m
      modifies grid
      ensures placed <==> old(grid[i, j]) == Empty
      ensures grid[i, j] == if placed then Blocked else old(grid[i, j])
      ensures forall a, b | 0 <= a < n && 0 <= b < m && (a, b) != (i, j) :: grid[a, b] == old(grid[a, b])
      ensures BlockedCells() == old(BlockedCells()) + (if placed then {(i, j)} else {})
      ensures |BlockedCells()| == |old(BlockedCells())| + (if placed then 1 else 0)
    {
      placed := grid[i, j] == Empty;
      if placed {
        grid[i, j] := Blocked;
      }
    }

    /** place_tower: every block of the window around (x, y), clipped to the
        grid, becomes Signal unless it is Blocked, and (x, y) itself becomes
        Tower; blocks outside the window keep their state. */
    method PlaceTower(x: int, y: int, R: int)
      requires Valid()
      modifies grid
      ensures forall i, j | 0 <= i < n && 0 <= j < m ::
        grid[i, j] == PlaceCell(n, m, R, (x, y), (i, j), old(grid[i, j]))
    {
      var rlo, rhi := Max(0, x - R), Min(n, x + R + 1);
      var clo, chi := Max(0, y - R), Min(m, y + R + 1);
      var i := rlo;
      while i < rhi
        invariant rlo <= i <= Max(rlo, rhi)
        invariant forall a, b | 0 <= a < n && 0 <= b < m ::
          grid[a, b] == if a < i then PlaceCell(n, m, R, (x, y), (a, b), old(grid[a, b])) else old(grid[a, b])
      {
        var j := clo;
        while j < chi
          invariant clo <= j <= Max(clo, chi)
          invariant forall a, b | 0 <= a < n && 0 <= b < m ::
            grid[a, b] ==
              if a < i || (a == i && b < j) then PlaceCell(n, m, R, (x, y), (a, b), old(grid[a, b]))
              else old(grid[a, b])
        {
          if i == x && j == y {
            grid[i, j] := Tower;
          } else if grid[i, j] != Blocked {
            grid[i, j] := Signal;
          }
          j := j + 1;
        }
        i := i + 1;
      }
    }

    /** can_place_tower: a tower may only go on a Blocked block, that is,
        on one of BlockedCells(). */
    predicate CanPlaceTower(x: int, y: int): (r: bool)
      requires Valid() && 0 <= x < n && 0 <= y < m
      reads this, grid
      ensures r <==> (x, y) in BlockedCells()
    {
      grid[x, y] == Blocked
    }

    /** update_coverage: marks every block of the clipped window around
        (x, y) as covered. */
    method UpdateCoverage(covered: array2<bool>, x: int, y: int, R: int)
      requires covered.Length0 == n && covered.Length1 == m
      modifies covered
      ensures forall i, j | 0 <= i < n && 0 <= j < m ::
        covered[i, j] == (old(covered[i, j]) || InWindow(n, m, R, (x, y), (i, j)))
    {
      var rlo, rhi := Max(0, x - R), Min(n, x + R + 1);
      var clo, chi := Max(0, y - R), Min(m, y + R + 1);
      var i := rlo;
      while i < rhi
        invariant rlo <= i <= Max(rlo, rhi)
        invariant forall a, b | 0 <= a < n && 0 <= b < m ::
          covered[a, b] == (old(covered[a, b]) || (a < i && InWindow(n, m, R, (x, y), (a, b))))
      {
        var j := clo;
        while j < chi
          invariant clo <= j <= Max(clo, chi)
          invariant forall a, b | 0 <= a < n && 0 <= b < m ::
            covered[a, b] ==
              (old(covered[a, b]) || ((a < i || (a == i && b < j)) && InWindow(n, m, R, (x, y), (a, b))))
        {
          covered[i, j] := true;
          j := j + 1;
        }
        i := i + 1;
      }
    }

    /** get_coverage_count: the number of blocks of the clipped window around
        (x, y) not yet covered, where `C` is the set the array `covered`
        represents. */
    method GetCoverageCount(covered: array2<bool>, x: int, y: int, R: int, ghost C: set<Coord>) returns (count: nat)
      requires covered.Length0 == n && covered.Length1 == m
      requires forall i, j | 0 <= i < n && 0 <= j < m :: covered[i, j] <==> (i, j) in C
      ensures count == Gain(n, m, R, C, (x, y))
      ensures count == |Window(n, m, R, (x, y)) - C|
    {
      count := 0;
      var rlo, rhi := Max(0, x - R), Min(n, x + R + 1);
      var clo, chi := Max(0, y - R), Min(m, y + R + 1);
      var i := rlo;
      while i < rhi
        invariant rlo <= i <= Max(rlo, rhi)
        invariant count == CountRect(C, rlo, i, clo, chi)
      {
        var k := CountUncoveredInRow(covered, i, clo, chi, C);
        count := count + k;
        i := i + 1;
      }
      GainCountsUncovered(n, m, R, C, (x, y));
    }

    /** The inner loop of get_coverage_count: the blocks of row i, columns
        clo .. chi - 1, that are not covered. */
    method CountUncoveredInRow(covered: array2<bool>, i: int, clo: int, chi: int, ghost C: set<Coord>)
      returns (count: nat)
      requires 0 <= i < covered.Length0 && 0 <= clo && chi <= covered.Length1
      requires forall j | 0 <= j < covered.Length1 :: covered[i, j] <==> (i, j) in C
      ensures count == CountRow(C, i, clo, chi)
    {
      count := 0;
      var j := clo;
      while j < chi
        invariant clo <= j <= Max(clo, chi)
        invariant count == CountRow(C, i, clo, j)
      {
        if !covered[i, j] {
          count := count + 1;
        }
        j := j + 1;
      }
    }

    /** One row x of the scan in the greedy search: every Blocked block of
        the row is scored, and a block replaces the current choice only when
        it covers strictly more uncovered blocks. */
    method ScanRow(covered: array2<bool>, R: int, ghost C: set<Coord>, ghost blocked: set<Coord>,
                   x: int, maxCoverage: nat, best: Option<Coord>)
      returns (maxCoverage': nat, best': Option<Coord>)
      requires Valid() && covered.Length0 == n && covered.Length1 == m && 0 <= x < n
      requires forall i, j | 0 <= i < n && 0 <= j < m :: covered[i, j] <==> (i, j) in C
      requires forall j | 0 <= j < m :: (x, j) in blocked <==> grid[x, j] == Blocked
      requires ScannedBest(n, m, R, blocked, C, (x, 0), maxCoverage, best)
      ensures ScannedBest(n, m, R, blocked, C, (x, m), maxCoverage', best')
    {
      maxCoverage', best' := maxCoverage, best;
      var y := 0;
      while y < m
        invariant 0 <= y <= m
        invariant ScannedBest(n, m, R, blocked, C, (x, y), maxCoverage', best')
      {
        if CanPlaceTower(x, y) {
          var coverage := GetCoverageCount(covered, x, y, R, C);
          if coverage > maxCoverage' {
            ScanTake(n, m, R, blocked, C, x, y, maxCoverage', best');
            maxCoverage' := coverage;
            best' := Some((x, y));
          } else {
            ScanSkip(n, m, R, blocked, C, x, y, maxCoverage', best');
          }
        } else {
          ScanSkip(n, m, R, blocked, C, x, y, maxCoverage', best');
        }
        y := y + 1;
      }
    }

    /** One round of the greedy search: scans the blocks in row-major order
        and keeps the first Blocked block whose window has the largest
        positive number of uncovered blocks; None when no Blocked block would
        cover anything new. */
    method FindBestLocation(covered: array2<bool>, R: int, ghost C: set<Coord>, ghost blocked: set<Coord>)
      returns (best: Option<Coord>)
      requires Valid() && covered.Length0 == n && covered.Length1 == m
      requires forall i, j | 0 <= i < n && 0 <= j < m :: covered[i, j] <==> (i, j) in C
      requires blocked <= AllCells(n, m)
      requires forall i, j | 0 <= i < n && 0 <= j < m :: (i, j) in blocked <==> grid[i, j] == Blocked
      ensures best.None? ==> Exhausted(n, m, R, blocked, C)
      ensures best.Some? ==> IsFirstBest(n, m, R, blocked, C, best.value)
    {
      var maxCoverage: nat := 0;
      best := None;
      ScanStart(n, m, R, blocked, C);
      var x := 0;
      while x < n
        invariant 0 <= x <= n
        invariant ScannedBest(n, m, R, blocked, C, (x, 0), maxCoverage, best)
      {
        maxCoverage, best := ScanRow(covered, R, C, blocked, x, maxCoverage, best);
        ScanNextRow(n, m, R, blocked, C, x, maxCoverage, best);
        x := x + 1;
      }
      ScanDone(n, m, R, blocked, C, maxCoverage, best);
    }

    /** The closing pass of optimize_towers: place_tower for each selected
        tower, in order of selection. */
    method PlaceTowers(towers: seq<Coord>, R: int)
      requires Valid()
      modifies grid
      ensures forall i, j | 0 <= i < n && 0 <= j < m ::
        grid[i, j] == PlaceAll(n, m, R, towers, (i, j), old(grid[i, j]))
    {
      var k := 0;
      assert towers[..k] == [];
      while k < |towers|
        invariant 0 <= k <= |towers|
        invariant forall i, j | 0 <= i < n && 0 <= j < m ::
          grid[i, j] == PlaceAll(n, m, R, towers[..k], (i, j), old(grid[i, j]))
      {
        label Before:
        PlaceTower(towers[k].0, towers[k].1, R);
        assert towers[..k + 1][..k] == towers[..k];
        forall i, j | 0 <= i < n && 0 <= j < m
          ensures grid[i, j] == PlaceAll(n, m, R, towers[..k + 1], (i, j), old(grid[i, j]))
        {
          assert grid[i, j] == PlaceCell(n, m, R, towers[k], (i, j), old@Before(grid[i, j]));
        }
        k := k + 1;
      }
      assert towers[..|towers|] == towers;
    }

    /** The selection loop of optimize_towers: starting with nothing
        covered, take the scan's choice and cover its window until the scan
        finds nothing. The result is a complete greedy run over the blocks
        that are Blocked; the grid is not changed. */
    method SelectTowers(R: int) returns (towers: seq<Coord>)
      requires Valid()
      ensures IsGreedyRun(n, m, R, BlockedCells(), towers)
    {
      var covered := new bool[n, m]((i, j) => false);
      ghost var blocked := BlockedCells();
      ghost var C: set<Coord> := {};
      towers := [];
      while true
        modifies covered
        invariant covered.Length0 == n && covered.Length1 == m
        invariant forall i, j | 0 <= i < n && 0 <= j < m :: (i, j) in blocked <==> grid[i, j] == Blocked
        invariant C == CoveredBy(n, m, R, towers)
        invariant forall i, j | 0 <= i < n && 0 <= j < m :: covered[i, j] <==> (i, j) in C
        invariant GreedySteps(n, m, R, blocked, towers)
        decreases AllCells(n, m) - C
      {
        var best := FindBestLocation(covered, R, C, blocked);
        if best.None? {
          break;
        }
        var t := best.value;
        GreedyStepsExtend(n, m, R, blocked, towers, t);
        PositiveGainShrinksUncovered(n, m, R, C, t);
        towers := towers + [t];
        UpdateCoverage(covered, t.0, t.1, R);
        C := C + Window(n, m, R, t);
        forall i, j | 0 <= i < n && 0 <= j < m ensures covered[i, j] <==> (i, j) in C {
          WindowIsClippedSquare(n, m, R, t, (i, j));
        }
      }
    }

    /** optimize_towers: repeatedly picks the first Blocked block that covers
        the most uncovered blocks, until none covers anything new, then places
        the chosen towers in order. The towers are the unique greedy run over
        the blocks Blocked on entry; they are distinct Blocked blocks, at most
        n * m of them, none at all exactly when R < 0 or nothing is Blocked
        (and then the grid is unchanged), and the grid afterwards is the entry grid with place_tower applied for
        each of them in turn. */
    method OptimizeTowers(R: int) returns (towers: seq<Coord>)
      requires Valid()
      modifies grid
      ensures IsGreedyRun(n, m, R, old(BlockedCells()), towers)
      ensures forall k | 0 <= k < |towers| :: towers[k] in old(BlockedCells())
      ensures Distinct(towers)
      ensures |towers| <= n * m
      ensures towers == [] <==> (R < 0 || old(BlockedCells()) == {})
      ensures towers == [] ==> forall i, j | 0 <= i < n && 0 <= j < m :: grid[i, j] == old(grid[i, j])
      ensures forall i, j | 0 <= i < n && 0 <= j < m ::
        grid[i, j] == PlaceAll(n, m, R, towers, (i, j), old(grid[i, j]))
    {
      ghost var blocked := BlockedCells();
      towers := SelectTowers(R);
      GreedyStepsDistinct(n, m, R, blocked, towers);
      GreedyStepsBounded(n, m, R, blocked, towers);
      GreedyRunEmpty(n, m, R, blocked, towers);
      forall k | 0 <= k < |towers| ensures towers[k] in blocked {
        GreedyStepAt(n, m, R, blocked, towers, k);
      }

      PlaceTowers(towers, R);
    }

    /** Graph construction of find_most_reliable_path: every tower maps to
        the list of the other towers in range of it, in tower order. */
    method BuildRangeGraph(R: int, towers: seq<Coord>) returns (graph: map<Coord, seq<Coord>>)
      requires Distinct(towers)
      ensures forall t :: t in graph <==> t in towers
      ensures forall t | t in towers :: graph[t] == Neighbours(R, towers, t)
    {
      graph := map t | t in towers :: [];
      ghost var listed: set<Coord> := {};
      var i := 0;
      while i < |towers|
        invariant 0 <= i <= |towers|
        invariant forall k | 0 <= k < |towers| :: towers[k] in listed <==> k < i
        invariant forall t :: t in graph <==> t in towers
        invariant forall t | t in towers :: graph[t] == if t in listed then Neighbours(R, towers, t) else []
      {
        var tower := towers[i];
        var neighbours := ListNeighbours(R, towers, tower);
        graph := graph[tower := neighbours];
        listed := listed + {tower};
        i := i + 1;
      }
    }

    /** The inner loop of the graph construction: the towers other than
        `tower` that are in range of it, in tower order. */
    method ListNeighbours(R: int, towers: seq<Coord>, tower: Coord) returns (neighbours: seq<Coord>)
      ensures neighbours == Neighbours(R, towers, tower)
    {
      neighbours := [];
      var j := 0;
      while j < |towers|
        invariant 0 <= j <= |towers|
        invariant neighbours == Neighbours(R, towers[..j], tower)
      {
        var neighbour := towers[j];
        if tower != neighbour && InRange(R, tower, neighbour) {
          neighbours := neighbours + [neighbour];
        }
        NeighboursTake(R, towers, j, tower);
        j := j + 1;
      }
      assert towers[..|towers|] == towers;
    }

    /** The inner loop of the breadth-first search, for a tower `current`
        d hops from start: every neighbour of `current` not yet visited is
        marked visited, gets `current` as its parent, is d + 1 hops from
        start, and joins the back of the queue. Afterwards every neighbour
        of `current` is reached, and nothing already known changes. */
    method ExpandTower(R: int, towers: seq<Coord>, neighbours: seq<Coord>, current: Coord, ghost start: Coord,
                       ghost d: nat, queue: seq<Coord>, visited: map<Coord, bool>, parents: map<Coord, Option<Coord>>,
                       ghost dist: map<Coord, nat>)
      returns (queue': seq<Coord>, visited': map<Coord, bool>, parents': map<Coord, Option<Coord>>,
               ghost dist': map<Coord, nat>)
      requires ParentTree(R, towers, start, parents, dist)
      requires Marks(towers, visited, dist)
      requires current in dist && dist[current] == d && forall v | v in dist :: dist[v] <= d + 1
      requires forall u | u in neighbours :: Adjacent(R, towers, current, u)
      requires forall w | Adjacent(R, towers, current, w) :: w in neighbours
      requires Layered(queue, dist, d)
      ensures Discovering(R, towers, start, d, queue, dist, queue', visited', parents', dist')
      ensures queue <= queue'
      ensures forall w | Adjacent(R, towers, current, w) :: w in dist'
    {
      queue', visited', parents', dist' := queue, visited, parents, dist;
      DiscoverStart(R, towers, start, d, queue, visited, parents, dist);
      var k := 0;
      while k < |neighbours|
        invariant 0 <= k <= |neighbours|
        invariant Discovering(R, towers, start, d, queue, dist, queue', visited', parents', dist')
        invariant forall i | 0 <= i < k :: neighbours[i] in dist'
      {
        assert neighbours[k] in neighbours;
        queue', visited', parents', dist' :=
          Discover(R, towers, current, neighbours, k, start, d, queue, dist, queue', visited', parents', dist');
        k := k + 1;
      }
      forall w | Adjacent(R, towers, current, w) ensures w in dist' {
        var i :| 0 <= i < |neighbours| && neighbours[i] == w;
      }
    }

    /** Step k of the inner loop: neighbours[k], a neighbour of `current`
        (d hops from start), if not yet visited, is marked visited, gets
        `current` as its parent, is d + 1 hops from start, and joins the back
        of the queue; a visited one changes nothing. Either way the first
        k + 1 neighbours are reached afterwards. */
    method Discover(R: int, towers: seq<Coord>, current: Coord, neighbours: seq<Coord>, k: nat,
                    ghost start: Coord, ghost d: nat, ghost queue0: seq<Coord>, ghost dist0: map<Coord, nat>,
                    queue: seq<Coord>, visited: map<Coord, bool>, parents: map<Coord, Option<Coord>>,
                    ghost dist: map<Coord, nat>)
      returns (queue': seq<Coord>, visited': map<Coord, bool>, parents': map<Coord, Option<Coord>>,
               ghost dist': map<Coord, nat>)
      requires Discovering(R, towers, start, d, queue0, dist0, queue, visited, parents, dist)
      requires current in dist0 && dist0[current] == d
      requires k < |neighbours| && Adjacent(R, towers, current, neighbours[k])
      requires forall i | 0 <= i < k :: neighbours[i] in dist
      ensures Discovering(R, towers, start, d, queue0, dist0, queue', visited', parents', dist')
      ensures forall i | 0 <= i < k + 1 :: neighbours[i] in dist'
      ensures !visited[neighbours[k]] ==>
        && queue' == queue + [neighbours[k]]
        && visited' == visited[neighbours[k] := true]
        && parents' == parents[neighbours[k] := Some(current)]
        && dist' == dist[neighbours[k] := d + 1]
      ensures visited[neighbours[k]] ==>
        queue' == queue && visited' == visited && parents' == parents && dist' == dist
    {
      var neighbour := neighbours[k];
      queue', visited', parents', dist' := queue, visited, parents, dist;
      if !visited[neighbour] {
        DiscoverNew(R, towers, start, current, d, queue0, dist0, queue, visited, parents, dist, neighbour);
        visited' := visited[neighbour := true];
        parents' := parents[neighbour := Some(current)];
        queue' := queue + [neighbour];
        dist' := dist[neighbour := d + 1];
      }
    }

    /** The start of the breadth-first search: only start is queued and
        visited, no tower has a parent, and start is 0 hops from itself. */
    method StartSearch(towers: seq<Coord>, start: Coord, ghost R: int, ghost end: Coord)
      returns (queue: seq<Coord>, visited: map<Coord, bool>, parents: map<Coord, Option<Coord>>,
               ghost done: set<Coord>, ghost dist: map<Coord, nat>)
      requires start in towers
      ensures queue == [start]
      ensures forall t | t in towers :: t in visited && (visited[t] <==> t == start)
      ensures forall t | t in towers :: t in parents && parents[t] == None
      ensures SearchState(R, towers, start, end, queue, visited, parents, done, dist)
    {
      queue := [start];
      visited := (map t | t in towers :: false)[start := true];
      parents := map t | t in towers :: None;
      done, dist := {}, map[start := 0];
      SearchStart(R, towers, start, end, visited, parents);
    }

    /** One round of the breadth-first search, when the front of the queue
        is not end: the front is dequeued and expanded. The search state is
        kept, with the front now done; the number of unreached towers never
        grows, and it shrinks unless the queue got shorter. */
    method ExpandFront(R: int, towers: seq<Coord>, graph: map<Coord, seq<Coord>>, ghost start: Coord, ghost end: Coord,
                       queue: seq<Coord>, visited: map<Coord, bool>, parents: map<Coord, Option<Coord>>,
                       ghost done: set<Coord>, ghost dist: map<Coord, nat>)
      returns (queue': seq<Coord>, visited': map<Coord, bool>, parents': map<Coord, Option<Coord>>,
               ghost done': set<Coord>, ghost dist': map<Coord, nat>)
      requires forall t | t in towers :: t in graph && graph[t] == Neighbours(R, towers, t)
      requires SearchState(R, towers, start, end, queue, visited, parents, done, dist)
      requires queue != [] && queue[0] != end
      ensures SearchState(R, towers, start, end, queue', visited', parents', done', dist')
      ensures done' == done + {queue[0]}
      ensures queue[1..] <= queue'
      ensures |Unreached(towers, dist')| <= |Unreached(towers, dist)|
      ensures |queue'| >= |queue| ==> |Unreached(towers, dist')| < |Unreached(towers, dist)|
    {
      var current := queue[0];
      SearchFront(R, towers, start, end, queue, visited, parents, done, dist);
      forall u ensures u in graph[current] <==> Adjacent(R, towers, current, u) {
        NeighboursAreInRange(R, towers, current, u);
      }
      ghost var d := dist[current];
      queue', visited', parents', dist' :=
        ExpandTower(R, towers, graph[current], current, start, d, queue[1..], visited, parents, dist);
      SearchStep(R, towers, start, end, queue, visited, parents, done, dist, d, queue', visited', parents', dist');
      done' := done + {current};
      UnreachedShrinks(towers, dist, dist');
      if |queue'| >= |queue| {
        UnreachedLoses(towers, dist, dist', queue'[|queue| - 1]);
      }
    }

    /** The breadth-first search of find_most_reliable_path, from start until
        end is dequeued or the queue runs dry. Each tower's parent is the
        tower it was first discovered from. The ghost result describes the
        search: its keys are the towers reached, its values their hop counts
        along the parent chain. Every walk from start to end is at least as
        long as the parent chain of end, and when end was not reached there
        is no walk at all. */
    method BreadthFirstSearch(R: int, towers: seq<Coord>, graph: map<Coord, seq<Coord>>, start: Coord, end: Coord)
      returns (parents: map<Coord, Option<Coord>>, ghost dist: map<Coord, nat>)
      requires start in towers && end in towers
      requires forall t | t in towers :: t in graph && graph[t] == Neighbours(R, towers, t)
      ensures ParentTree(R, towers, start, parents, dist)
      ensures end in dist ==> forall p | IsWalkBetween(R, towers, p, start, end) :: dist[end] <= |p| - 1
      ensures end !in dist ==> forall p :: !IsWalkBetween(R, towers, p, start, end)
    {
      var queue, visited;
      ghost var done;
      queue, visited, parents, done, dist := StartSearch(towers, start, R, end);
      while queue != []
        invariant SearchState(R, towers, start, end, queue, visited, parents, done, dist)
        decreases |Unreached(towers, dist)|, |queue|
      {
        if queue[0] == end {
          break;
        }
        queue, visited, parents, done, dist := ExpandFront(R, towers, graph, start, end, queue, visited, parents, done, dist);
      }
      SearchConcludes(R, towers, start, end, queue, visited, parents, done, dist);
    }

    /** Path reconstruction: follows the parent links back from end and
        keeps the result only if it arrives at start. When end was reached
        the path is a walk from start to end with one hop per step of the
        search; otherwise it is empty. */
    method ReconstructPath(R: int, towers: seq<Coord>, parents: map<Coord, Option<Coord>>, start: Coord, end: Coord,
                           ghost dist: map<Coord, nat>)
      returns (path: seq<Coord>)
      requires end in towers
      requires ParentTree(R, towers, start, parents, dist)
      ensures end in dist ==> IsWalkBetween(R, towers, path, start, end) && |path| == dist[end] + 1
      ensures end !in dist ==> path == []
    {
      path := [];
      var current := Some(end);
      while current.Some?
        invariant current.Some? ==> current.value in towers
        invariant path == [] ==> current == Some(end)
        invariant path != [] ==> path[|path| - 1] == end && path[0] in towers && parents[path[0]] == current
        invariant forall i | 0 <= i < |path| :: path[i] in towers
        invariant forall i | 0 <= i < |path| - 1 :: Adjacent(R, towers, path[i], path[i + 1])
        invariant end in dist ==>
          && (current.Some? ==> current.value in dist)
          && (forall i | 0 <= i < |path| :: path[i] in dist)
          && (path != [] ==> |path| - 1 + dist[path[0]] == dist[end])
          && (path != [] && current.Some? ==> dist[path[0]] == dist[current.value] + 1)
        invariant end !in dist ==> |path| <= 1 && (path != [] ==> current == None)
        decreases match current case None => 0 case Some(v) => if v in dist then dist[v] + 2 else 1
      {
        path := [current.value] + path;
        current := parents[current.value];
      }
      if path[0] != start {
        path := [];
      }
    }

    /** find_most_reliable_path: the towers of a fewest-hop walk from start
        to end through the range graph, or the empty list when no walk joins
        them; just [start] when start is end. */
    method FindMostReliablePath(R: int, towers: seq<Coord>, start: Coord, end: Coord) returns (path: seq<Coord>)
      requires Distinct(towers) && start in towers && end in towers
      ensures path != [] ==> IsWalkBetween(R, towers, path, start, end)
      ensures path != [] ==> forall p | IsWalkBetween(R, towers, p, start, end) :: |path| <= |p|
      ensures path == [] ==> forall p :: !IsWalkBetween(R, towers, p, start, end)
      ensures start == end ==> path == [start]
    {
      var graph := BuildRangeGraph(R, towers);
      var parents;
      ghost var dist;
      parents, dist := BreadthFirstSearch(R, towers, graph, start, end);
      path := ReconstructPath(R, towers, parents, start, end, dist);
    }

    /** Two towers at (0, 0) and (3, 3): for R = 1 the path joins them
        directly, and for R = 0 there is none. */
    method FindMostReliablePathExample() returns (near: seq<Coord>, far: seq<Coord>)
      ensures near == [(0, 0), (3, 3)]
      ensures far == []
    {
      var towers := [(0, 0), (3, 3)];
      InRangeExample();
      near := FindMostReliablePath(1, towers, (0, 0), (3, 3));
      assert IsWalkBetween(1, towers, towers, (0, 0), (3, 3));
      assert |near| == 2;
      far := FindMostReliablePath(0, towers, (0, 0), (3, 3));
      if far != [] {
        NoWalkBetweenFarTowers(0, (0, 0), (3, 3), far);
      }
    }
  }
}
