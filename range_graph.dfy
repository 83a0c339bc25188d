/** Specification of find_most_reliable_path: the range predicate between
    towers, the graph it induces, walks in that graph, and the facts about a
    breadth-first search state that make its parent tree a shortest-path
    tree. */
module RangeGraph {
  import opened Cells

  /** in_range: both coordinates differ by at most 2R + 1 (a bounding box,
      not a distance and not a test that the coverage windows overlap). */
  predicate InRange(R: int, a: Coord, b: Coord): (r: bool)
    ensures R < 0 ==> !r
    ensures a == b ==> (r <==> R >= 0)
  {
    Abs(a.0 - b.0) <= 2 * R + 1 && Abs(a.1 - b.1) <= 2 * R + 1
  }

  /** in_range does not depend on the order of its arguments. */
  lemma InRangeSymmetric(R: int, a: Coord, b: Coord)
    ensures InRange(R, a, b) <==> InRange(R, b, a)
  {
  }

  /** Towers (0, 0) and (3, 3) are in range for R = 1 and out of range for R = 0. */
  lemma InRangeExample()
    ensures InRange(1, (0, 0), (3, 3))
    ensures !InRange(0, (0, 0), (3, 3))
  {
  }

  /** The list graph[t]: the towers u of `ts` with u != t that are in range of
      t, in the order of `ts`. */
  function Neighbours(R: int, ts: seq<Coord>, t: Coord): seq<Coord>
    decreases |ts|
  {
    if ts == [] then []
    else
      var u := ts[|ts| - 1];
      Neighbours(R, ts[..|ts| - 1], t) + (if t != u && InRange(R, t, u) then [u] else [])
  }

  /** Scanning tower ts[j] after ts[..j] appends it to the list when it is
      in range. */
  lemma NeighboursTake(R: int, ts: seq<Coord>, j: int, t: Coord)
    requires 0 <= j < |ts|
    ensures Neighbours(R, ts[..j + 1], t) == Neighbours(R, ts[..j], t) + (if t != ts[j] && InRange(R, t, ts[j]) then [ts[j]] else [])
  {
    assert ts[..j + 1][..j] == ts[..j];
  }

  /** An edge of the range graph over `towers`. */
  predicate Adjacent(R: int, towers: seq<Coord>, a: Coord, b: Coord) {
    a in towers && b in towers && a != b && InRange(R, a, b)
  }

  /** graph[t] lists exactly the towers in range of t other than t. */
  lemma {:induction false} NeighboursAreInRange(R: int, ts: seq<Coord>, t: Coord, u: Coord)
    ensures u in Neighbours(R, ts, t) <==> u in ts && u != t && InRange(R, t, u)
    decreases |ts|
  {
    if ts != [] {
      var init := ts[..|ts| - 1];
      NeighboursAreInRange(R, init, t, u);
      assert ts == init + [ts[|ts| - 1]];
    }
  }

  /** The range graph has no self-edges and is symmetric. */
  lemma GraphSymmetric(R: int, towers: seq<Coord>, t: Coord, u: Coord)
    ensures t !in Neighbours(R, towers, t)
    ensures t in towers && u in towers ==> (u in Neighbours(R, towers, t) <==> t in Neighbours(R, towers, u))
  {
    NeighboursAreInRange(R, towers, t, t);
    NeighboursAreInRange(R, towers, t, u);
    NeighboursAreInRange(R, towers, u, t);
  }

  /** p is a walk in the range graph: a non-empty sequence of towers, each
      consecutive pair joined by an edge. */
  predicate IsWalk(R: int, towers: seq<Coord>, p: seq<Coord>) {
    && |p| > 0
    && (forall i | 0 <= i < |p| :: p[i] in towers)
    && (forall i | 0 <= i < |p| - 1 :: Adjacent(R, towers, p[i], p[i + 1]))
  }

  /** p is a walk from s to e. */
  predicate IsWalkBetween(R: int, towers: seq<Coord>, p: seq<Coord>, s: Coord, e: Coord) {
    IsWalk(R, towers, p) && p[0] == s && p[|p| - 1] == e
  }

  lemma WalkPrefix(R: int, towers: seq<Coord>, p: seq<Coord>, k: nat)
    requires IsWalk(R, towers, p) && 0 < k <= |p|
    ensures IsWalk(R, towers, p[..k])
  {
    assert forall i | 0 <= i < k :: p[..k][i] == p[i];
  }

  /** With two towers out of range of each other, no walk leaves the first:
      for R = 0, no walk joins (0, 0) and (3, 3). */
  lemma {:induction false} NoWalkBetweenFarTowers(R: int, a: Coord, b: Coord, p: seq<Coord>)
    requires !InRange(R, a, b)
    requires IsWalk(R, [a, b], p) && p[0] == a
    ensures p[|p| - 1] == a
    decreases |p|
  {
    if |p| > 1 {
      WalkPrefix(R, [a, b], p, |p| - 1);
      NoWalkBetweenFarTowers(R, a, b, p[..|p| - 1]);
      assert Adjacent(R, [a, b], p[|p| - 2], p[|p| - 1]);
    }
  }

  /** The state of the search. The towers reached so far are the keys of
      `dist`, which gives each its number of hops from start along the
      parent chain. `parents` maps every tower: the unreached ones and start
      to None, every other reached tower to the tower it was discovered
      from, one hop closer. */
  ghost predicate ParentTree(R: int, towers: seq<Coord>, start: Coord, parents: map<Coord, Option<Coord>>,
                             dist: map<Coord, nat>)
  {
    && start in dist && dist[start] == 0
    && (forall v | v in dist :: v in towers)
    && (forall t | t in towers :: t in parents)
    && parents[start] == None
    && (forall t {:trigger parents[t]} | t in towers && t !in dist :: parents[t] == None)
    && (forall v {:trigger parents[v]} | v in dist && v != start ::
          && parents[v].Some?
          && parents[v].value in dist
          && Adjacent(R, towers, parents[v].value, v)
          && dist[v] == dist[parents[v].value] + 1)
  }

  /** `visited` marks exactly the reached towers. */
  ghost predicate Marks(towers: seq<Coord>, visited: map<Coord, bool>, dist: map<Coord, nat>) {
    forall t | t in towers :: t in visited && (visited[t] <==> t in dist)
  }

  /** Every tower of `done` has been expanded: each of its neighbours is
      reached, at most one hop farther from start. */
  ghost predicate Expanded(R: int, towers: seq<Coord>, done: set<Coord>, dist: map<Coord, nat>) {
    forall u, w | u in done && Adjacent(R, towers, u, w) ::
      u in dist && w in dist && dist[w] <= dist[u] + 1
  }

  /** The queue holds towers d or d + 1 hops from start, nearer ones first. */
  ghost predicate Layered(queue: seq<Coord>, dist: map<Coord, nat>, d: nat) {
    && (forall v | v in queue :: v in dist && d <= dist[v] <= d + 1)
    && (forall i, j | 0 <= i <= j < |queue| :: queue[i] in dist && queue[j] in dist && dist[queue[i]] <= dist[queue[j]])
  }

  /** Reaching more towers, without changing the hop counts already known,
      keeps the expanded towers expanded. */
  lemma ExpandedGrows(R: int, towers: seq<Coord>, done: set<Coord>, dist: map<Coord, nat>, dist': map<Coord, nat>)
    requires Expanded(R, towers, done, dist)
    requires forall v | v in dist :: v in dist' && dist'[v] == dist[v]
    ensures Expanded(R, towers, done, dist')
  {
  }

  /** A tower all of whose neighbours are reached, at most one hop farther,
      may join the expanded ones. */
  lemma ExpandedAdd(R: int, towers: seq<Coord>, done: set<Coord>, dist: map<Coord, nat>, c: Coord)
    requires Expanded(R, towers, done, dist)
    requires c in dist
    requires forall w | Adjacent(R, towers, c, w) :: w in dist && dist[w] <= dist[c] + 1
    ensures Expanded(R, towers, done + {c}, dist)
  {
  }

  /** Dequeuing the front keeps the queue layered around the front's hop count. */
  lemma LayeredTail(queue: seq<Coord>, dist: map<Coord, nat>)
    requires queue != [] && queue[0] in dist && Layered(queue, dist, dist[queue[0]])
    ensures Layered(queue[1..], dist, dist[queue[0]])
  {
    assert forall i | 0 <= i < |queue| - 1 :: queue[1..][i] == queue[i + 1];
  }

  /** Enqueuing a newly reached tower one hop beyond layer d keeps the queue
      layered. */
  lemma LayeredAppend(queue: seq<Coord>, dist: map<Coord, nat>, d: nat, v: Coord)
    requires Layered(queue, dist, d) && v !in dist
    ensures Layered(queue + [v], dist[v := d + 1], d)
  {
    var q := queue + [v];
    forall i | 0 <= i < |q| ensures q[i] in dist[v := d + 1] && d <= dist[v := d + 1][q[i]] <= d + 1 {
      if i < |queue| {
        assert q[i] == queue[i] && queue[i] in queue;
      }
    }
  }

  /** A layered queue is layered around the hop count of its front. */
  lemma LayeredFront(queue: seq<Coord>, dist: map<Coord, nat>, d: nat)
    requires Layered(queue, dist, d) && queue != []
    ensures queue[0] in dist && d <= dist[queue[0]]
    ensures Layered(queue, dist, dist[queue[0]])
  {
    assert queue[0] in queue;
    forall v | v in queue ensures dist[queue[0]] <= dist[v] {
      var i :| 0 <= i < |queue| && queue[i] == v;
    }
  }

  /** The frontier argument of breadth-first search. Let `done` be the towers
      already expanded, and let every reached tower be at most d0 + 1 hops
      and every reached but unexpanded one at least d0 hops from start. Then
      a walk from start that ends at a reached tower is no shorter than that
      tower's hop count, and one that ends at an unreached tower has more
      than d0 hops. */
  lemma {:induction false} FrontierBound(R: int, towers: seq<Coord>, start: Coord, done: set<Coord>,
                                         dist: map<Coord, nat>, d0: nat, p: seq<Coord>)
    requires IsWalk(R, towers, p) && p[0] == start
    requires start in dist && dist[start] == 0
    requires forall u | u in done :: u in dist
    requires Expanded(R, towers, done, dist)
    requires forall v | v in dist && v !in done :: d0 <= dist[v]
    requires forall v | v in dist :: dist[v] <= d0 + 1
    ensures p[|p| - 1] in dist ==> dist[p[|p| - 1]] <= |p| - 1
    ensures p[|p| - 1] !in dist ==> d0 + 1 <= |p| - 1
    decreases |p|
  {
    if |p| > 1 {
      WalkPrefix(R, towers, p, |p| - 1);
      FrontierBound(R, towers, start, done, dist, d0, p[..|p| - 1]);
      assert Adjacent(R, towers, p[|p| - 2], p[|p| - 1]);
    }
  }

  /** The invariant of the search loop. `done` holds the towers already
      dequeued and expanded, which do not include end; every reached tower
      is done or waiting in the queue; the queue is layered around the hop
      count of its front, and no done tower is farther than the front. */
  ghost predicate SearchState(R: int, towers: seq<Coord>, start: Coord, end: Coord, queue: seq<Coord>,
                              visited: map<Coord, bool>, parents: map<Coord, Option<Coord>>,
                              done: set<Coord>, dist: map<Coord, nat>)
  {
    && ParentTree(R, towers, start, parents, dist)
    && Marks(towers, visited, dist)
    && (forall u | u in done :: u in dist)
    && end !in done
    && (forall v | v in dist :: v in done || v in queue)
    && Expanded(R, towers, done, dist)
    && (queue != [] ==>
          && queue[0] in dist
          && Layered(queue, dist, dist[queue[0]])
          && (forall u | u in done :: dist[u] <= dist[queue[0]]))
  }

  /** The search starts with start alone visited, queued and at hop 0. */
  lemma SearchStart(R: int, towers: seq<Coord>, start: Coord, end: Coord,
                    visited: map<Coord, bool>, parents: map<Coord, Option<Coord>>)
    requires start in towers
    requires forall t | t in towers :: t in visited && (visited[t] <==> t == start)
    requires forall t | t in towers :: t in parents && parents[t] == None
    ensures SearchState(R, towers, start, end, [start], visited, parents, {}, map[start := 0])
  {
  }

  /** What the front of the queue knows: it is a reached tower, the rest of
      the queue is layered around it, and no reached tower is more than one
      hop farther. */
  lemma SearchFront(R: int, towers: seq<Coord>, start: Coord, end: Coord, queue: seq<Coord>,
                    visited: map<Coord, bool>, parents: map<Coord, Option<Coord>>,
                    done: set<Coord>, dist: map<Coord, nat>)
    requires SearchState(R, towers, start, end, queue, visited, parents, done, dist)
    requires queue != []
    ensures queue[0] in dist && queue[0] in towers
    ensures Layered(queue[1..], dist, dist[queue[0]])
    ensures forall v | v in dist :: dist[v] <= dist[queue[0]] + 1
  {
    LayeredTail(queue, dist);
  }

  /** Dequeuing end: the hop count of end is a lower bound on the length of
      every walk from start to end. */
  lemma SearchFound(R: int, towers: seq<Coord>, start: Coord, end: Coord, queue: seq<Coord>,
                    visited: map<Coord, bool>, parents: map<Coord, Option<Coord>>,
                    done: set<Coord>, dist: map<Coord, nat>)
    requires SearchState(R, towers, start, end, queue, visited, parents, done, dist)
    requires queue != [] && queue[0] == end
    ensures end in dist
    ensures forall p | IsWalkBetween(R, towers, p, start, end) :: dist[end] <= |p| - 1
  {
    LayeredFront(queue, dist, dist[end]);
    forall p | IsWalkBetween(R, towers, p, start, end) ensures dist[end] <= |p| - 1 {
      FrontierBound(R, towers, start, done, dist, dist[end], p);
    }
  }

  /** The state of the inner loop while the neighbours of a tower d hops
      from start are scanned, starting from queue0 and dist0: the parent
      tree and the visited marks stay in step, the queue stays layered
      around d, and the reached towers have grown as `Grown` says. */
  ghost predicate Discovering(R: int, towers: seq<Coord>, start: Coord, d: nat,
                              queue0: seq<Coord>, dist0: map<Coord, nat>,
                              queue: seq<Coord>, visited: map<Coord, bool>, parents: map<Coord, Option<Coord>>,
                              dist: map<Coord, nat>)
  {
    && ParentTree(R, towers, start, parents, dist)
    && Marks(towers, visited, dist)
    && Layered(queue, dist, d)
    && Grown(d, queue0, dist0, queue, dist)
  }

  /** Hop counts already known stay, no reached tower is more than d + 1
      hops from start, and the queue is queue0 followed by exactly the
      towers reached since. */
  ghost predicate Grown(d: nat, queue0: seq<Coord>, dist0: map<Coord, nat>, queue: seq<Coord>, dist: map<Coord, nat>) {
    && (forall v | v in dist0 :: v in dist && dist[v] == dist0[v])
    && (forall v | v in dist :: dist[v] <= d + 1)
    && queue0 <= queue
    && (forall i | |queue0| <= i < |queue| :: queue[i] in dist && queue[i] !in dist0)
    && (forall v | v in dist :: v in dist0 || v in queue)
  }

  /** Before the first neighbour nothing has changed. */
  lemma DiscoverStart(R: int, towers: seq<Coord>, start: Coord, d: nat,
                      queue: seq<Coord>, visited: map<Coord, bool>, parents: map<Coord, Option<Coord>>,
                      dist: map<Coord, nat>)
    requires ParentTree(R, towers, start, parents, dist)
    requires Marks(towers, visited, dist)
    requires forall v | v in dist :: dist[v] <= d + 1
    requires Layered(queue, dist, d)
    ensures Discovering(R, towers, start, d, queue, dist, queue, visited, parents, dist)
  {
  }

  /** Discovering an unvisited neighbour w of c, which is d hops from
      start: w is marked visited, its parent is c, it is d + 1 hops from
      start and joins the back of the queue. */
  lemma DiscoverNew(R: int, towers: seq<Coord>, start: Coord, c: Coord, d: nat,
                    queue0: seq<Coord>, dist0: map<Coord, nat>,
                    queue: seq<Coord>, visited: map<Coord, bool>, parents: map<Coord, Option<Coord>>,
                    dist: map<Coord, nat>, w: Coord)
    requires Discovering(R, towers, start, d, queue0, dist0, queue, visited, parents, dist)
    requires c in dist0 && dist0[c] == d
    requires Adjacent(R, towers, c, w) && w !in dist
    ensures Discovering(R, towers, start, d, queue0, dist0,
                        queue + [w], visited[w := true], parents[w := Some(c)], dist[w := d + 1])
  {
    ParentTreeAdd(R, towers, start, parents, dist, c, w, d);
    MarksAdd(towers, visited, dist, w, d);
    LayeredAppend(queue, dist, d, w);
    GrownAdd(d, queue0, dist0, queue, dist, w);
  }

  /** A tower w reached from its reached neighbour c, d hops from start,
      joins the parent tree d + 1 hops from start. */
  lemma ParentTreeAdd(R: int, towers: seq<Coord>, start: Coord, parents: map<Coord, Option<Coord>>,
                      dist: map<Coord, nat>, c: Coord, w: Coord, d: nat)
    requires ParentTree(R, towers, start, parents, dist)
    requires c in dist && dist[c] == d && Adjacent(R, towers, c, w) && w !in dist
    ensures ParentTree(R, towers, start, parents[w := Some(c)], dist[w := d + 1])
  {
  }

  /** Marking a newly reached tower visited keeps `visited` in step with
      the reached towers. */
  lemma MarksAdd(towers: seq<Coord>, visited: map<Coord, bool>, dist: map<Coord, nat>, w: Coord, d: nat)
    requires Marks(towers, visited, dist)
    ensures Marks(towers, visited[w := true], dist[w := d + 1])
  {
  }

  /** Enqueuing a newly reached tower d + 1 hops from start. */
  lemma GrownAdd(d: nat, queue0: seq<Coord>, dist0: map<Coord, nat>, queue: seq<Coord>, dist: map<Coord, nat>, w: Coord)
    requires Grown(d, queue0, dist0, queue, dist) && w !in dist
    ensures Grown(d, queue0, dist0, queue + [w], dist[w := d + 1])
  {
    var queue', dist' := queue + [w], dist[w := d + 1];
    assert queue0 <= queue';
    forall i | |queue0| <= i < |queue'| ensures queue'[i] in dist' && queue'[i] !in dist0 {
      if i < |queue| {
        assert queue'[i] == queue[i];
      }
    }
    forall v | v in dist' ensures v in dist0 || v in queue' {
      if v != w && v !in dist0 {
        var i :| 0 <= i < |queue| && queue[i] == v;
        assert queue'[i] == v;
      }
    }
  }

  /** Expanding the front of the queue, d hops from start (its unvisited
      neighbours enqueued d + 1 hops from start, as the inner loop of the
      search does), and marking it done keeps the invariant. */
  lemma SearchStep(R: int, towers: seq<Coord>, start: Coord, end: Coord, queue: seq<Coord>,
                   visited: map<Coord, bool>, parents: map<Coord, Option<Coord>>,
                   done: set<Coord>, dist: map<Coord, nat>, d: nat,
                   queue': seq<Coord>, visited': map<Coord, bool>, parents': map<Coord, Option<Coord>>,
                   dist': map<Coord, nat>)
    requires SearchState(R, towers, start, end, queue, visited, parents, done, dist)
    requires queue != [] && queue[0] != end && queue[0] in dist && dist[queue[0]] == d
    requires Discovering(R, towers, start, d, queue[1..], dist, queue', visited', parents', dist')
    requires forall w | Adjacent(R, towers, queue[0], w) :: w in dist'
    ensures SearchState(R, towers, start, end, queue', visited', parents', done + {queue[0]}, dist')
  {
    var c := queue[0];
    ExpandedGrows(R, towers, done, dist, dist');
    ExpandedAdd(R, towers, done, dist', c);
    StillQueued(done, queue, dist, queue', dist');
    if queue' != [] {
      LayeredFront(queue', dist', d);
    }
  }

  /** Dequeuing the front and enqueuing what was reached after it leaves
      every reached tower done, dequeued or still queued. */
  lemma StillQueued(done: set<Coord>, queue: seq<Coord>, dist: map<Coord, nat>,
                    queue': seq<Coord>, dist': map<Coord, nat>)
    requires queue != []
    requires forall v | v in dist :: v in done || v in queue
    requires queue[1..] <= queue'
    requires forall v | v in dist' :: v in dist || v in queue'
    ensures forall v | v in dist' :: v in done + {queue[0]} || v in queue'
  {
    forall v | v in dist' && v in dist && v !in done && v != queue[0] ensures v in queue' {
      var i :| 0 <= i < |queue| && queue[i] == v;
      assert queue'[i - 1] == queue[1..][i - 1] == v;
    }
  }

  /** The towers the search has not reached yet. Their number never grows
      from one round to the next, which together with the queue length
      bounds the search. */
  ghost function Unreached(towers: seq<Coord>, dist: map<Coord, nat>): set<Coord> {
    (set t | t in towers) - dist.Keys
  }

  lemma UnreachedShrinks(towers: seq<Coord>, dist: map<Coord, nat>, dist': map<Coord, nat>)
    requires forall v | v in dist :: v in dist'
    ensures |Unreached(towers, dist')| <= |Unreached(towers, dist)|
  {
    var u, u' := Unreached(towers, dist), Unreached(towers, dist');
    assert u == u' + (u - u');
    assert u' * (u - u') == {};
  }

  lemma UnreachedLoses(towers: seq<Coord>, dist: map<Coord, nat>, dist': map<Coord, nat>, w: Coord)
    requires forall v | v in dist :: v in dist'
    requires w in towers && w !in dist && w in dist'
    ensures |Unreached(towers, dist')| < |Unreached(towers, dist)|
  {
    var u, u' := Unreached(towers, dist), Unreached(towers, dist');
    assert u == u' + (u - u');
    assert u' * (u - u') == {};
    assert w in u - u';
  }

  /** An empty queue: end was never reached and no walk joins start to end. */
  lemma SearchExhausted(R: int, towers: seq<Coord>, start: Coord, end: Coord,
                        visited: map<Coord, bool>, parents: map<Coord, Option<Coord>>,
                        done: set<Coord>, dist: map<Coord, nat>)
    requires SearchState(R, towers, start, end, [], visited, parents, done, dist)
    ensures end !in dist
    ensures forall p :: !IsWalkBetween(R, towers, p, start, end)
  {
    forall p | IsWalk(R, towers, p) && p[0] == start ensures p[|p| - 1] in dist {
      ClosedReach(R, towers, start, dist, p);
    }
  }

  /** The end of the search loop, by end dequeued or by an empty queue: the
      parent links form a tree of shortest hop counts, end is reached at
      the least hop count of any walk to it, or no walk reaches it. */
  lemma SearchConcludes(R: int, towers: seq<Coord>, start: Coord, end: Coord, queue: seq<Coord>,
                        visited: map<Coord, bool>, parents: map<Coord, Option<Coord>>,
                        done: set<Coord>, dist: map<Coord, nat>)
    requires SearchState(R, towers, start, end, queue, visited, parents, done, dist)
    requires queue != [] ==> queue[0] == end
    ensures ParentTree(R, towers, start, parents, dist)
    ensures end in dist ==> forall p | IsWalkBetween(R, towers, p, start, end) :: dist[end] <= |p| - 1
    ensures end !in dist ==> forall p :: !IsWalkBetween(R, towers, p, start, end)
  {
    if queue != [] {
      SearchFound(R, towers, start, end, queue, visited, parents, done, dist);
    } else {
      SearchExhausted(R, towers, start, end, visited, parents, done, dist);
    }
  }

  /** When the reached towers are closed under the edges of the graph, every
      walk from start ends at a reached tower. */
  lemma {:induction false} ClosedReach(R: int, towers: seq<Coord>, start: Coord, dist: map<Coord, nat>, p: seq<Coord>)
    requires IsWalk(R, towers, p) && p[0] == start && start in dist
    requires forall u, w | u in dist && Adjacent(R, towers, u, w) :: w in dist
    ensures p[|p| - 1] in dist
    decreases |p|
  {
    if |p| > 1 {
      WalkPrefix(R, towers, p, |p| - 1);
      ClosedReach(R, towers, start, dist, p[..|p| - 1]);
      assert Adjacent(R, towers, p[|p| - 2], p[|p| - 1]);
    }
  }
}
