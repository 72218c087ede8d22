/**
 * The ExplorationPlanner of path_planner.py: waypoint bookkeeping for
 * autonomous exploration, the signed angle difference it steers by, and
 * the 4-connected A* search on the occupancy grid that plans the way back
 * to the start pose.
 */
module Exploration {
  import opened Wrappers
  import opened Regions
  import Motion
  import Grid
  import PathPlanner

  /** A world-frame target (x, y) in metres. */
  type Waypoint = (real, real)

  /** The exploration modes; any other word is accepted and generates nothing new. */
  datatype Mode = Explore | Coverage | Boundary | Corners | Return | Other(name: string)

  /** `math.pi` as a double. */
  const Pi: real := 3.141592653589793

  /** A waypoint counts as reached within 20 cm, i.e. at squared distance below 0.04 m². */
  const ReachedRadiusSquared: real := 0.04

  /** The heading error (radians) above which the planner turns towards its target. */
  const HeadingTolerance: real := 0.4

  // ------------------------------------------------------------------
  // Angles and steering
  // ------------------------------------------------------------------

  /**
   * `_angle_diff`: `a - b` brought into [-pi, pi] by whole turns. An
   * angle already in range is returned unchanged.
   */
  method AngleDiff(a: real, b: real) returns (d: real, ghost turns: int)
    ensures -Pi <= d <= Pi
    ensures d == a - b + Turns(turns)
    ensures -Pi <= a - b <= Pi ==> d == a - b
  {
    d := a - b;
    turns := 0;
    while d > Pi
      invariant d == a - b + (turns as real) * (2.0 * Pi)
      invariant a - b <= Pi ==> d == a - b
      decreases d.Floor
    {
      d := d - 2.0 * Pi;
      turns := turns - 1;
    }
    while d < -Pi
      invariant d <= Pi
      invariant d == a - b + (turns as real) * (2.0 * Pi)
      invariant -Pi <= a - b <= Pi ==> d == a - b
      decreases (-d).Floor
    {
      d := d + 2.0 * Pi;
      turns := turns + 1;
    }
  }

  /** `t` whole turns, in radians. */
  function Turns(t: int): real
  {
    (t as real) * (2.0 * Pi)
  }

  /** `d` is `a - b` brought into [-pi, pi] by whole turns, and is `a - b` itself when that is in range. */
  ghost predicate WrappedDiff(d: real, a: real, b: real)
  {
    && -Pi <= d <= Pi
    && (exists t :: d == a - b + Turns(t))
    && (-Pi <= a - b <= Pi ==> d == a - b)
  }

  /** The waypoint lies within 20 cm of the pose. */
  predicate Reached(pose: (real, real, real), wp: Waypoint)
  {
    var (px, py, _) := pose;
    var (tx, ty) := wp;
    (tx - px) * (tx - px) + (ty - py) * (ty - py) < ReachedRadiusSquared
  }

  /** The first waypoint from index `k` on that is not reached from `pose`; `|wps|` when every one is. */
  function FirstUnreached(wps: seq<Waypoint>, pose: (real, real, real), k: nat): (u: nat)
    requires k <= |wps|
    ensures k <= u <= |wps|
    ensures forall j :: k <= j < u ==> Reached(pose, wps[j])
    ensures u < |wps| ==> !Reached(pose, wps[u])
    decreases |wps| - k
  {
    if k == |wps| || !Reached(pose, wps[k]) then k else FirstUnreached(wps, pose, k + 1)
  }

  /** The waypoint list `_refresh_waypoints` builds in a mode other than Return. */
  function Regenerated(m: Mode, current: seq<Waypoint>, generate: Mode -> seq<Waypoint>): seq<Waypoint>
  {
    if m.Other? then current else generate(m)
  }

  /**
   * The command of a clear path towards the target: a heading error above
   * 0.4 rad turns with steering `int(clamp(error * 80, -100, 100))`, to the
   * left for a positive error (negative steering) and to the right for a
   * negative one; otherwise the planner drives straight on.
   */
  function Steer(headingError: real, speed: int): (cmd: PathPlanner.Command)
    ensures cmd.speed == speed && cmd.sectorDistances == [] && cmd.bestSector == -1
    ensures headingError > HeadingTolerance ==>
      cmd.action == PathPlanner.TurnLeft && -100 <= cmd.steering <= -32
    ensures headingError < -HeadingTolerance ==>
      cmd.action == PathPlanner.TurnRight && 32 <= cmd.steering <= 100
    ensures -HeadingTolerance <= headingError <= HeadingTolerance ==>
      cmd.action == PathPlanner.Forward && cmd.steering == 0
  {
    if headingError > HeadingTolerance || headingError < -HeadingTolerance then
      var raw := headingError * 80.0;
      var bounded := if raw > 100.0 then 100.0 else if raw < -100.0 then -100.0 else raw;
      var steering := Grid.TruncReal(bounded);
      if headingError > 0.0 then
        PathPlanner.Command(PathPlanner.TurnLeft, speed, 0 - Grid.Abs(steering), [], -1)
      else
        PathPlanner.Command(PathPlanner.TurnRight, speed, Grid.Abs(steering), [], -1)
    else
      PathPlanner.Command(PathPlanner.Forward, speed, 0, [], -1)
  }

  // ------------------------------------------------------------------
  // The A* open list
  // ------------------------------------------------------------------

  /** A heap entry `(f, g, row, col)`: estimated total, cost so far, cell. */
  datatype Entry = Entry(f: int, g: int, r: int, c: int)

  function CellOf(e: Entry): Cell
  {
    (e.r, e.c)
  }

  /** Python's tuple order on heap entries, the order `heappop` follows. */
  predicate EntryLe(a: Entry, b: Entry)
  {
    || a.f < b.f
    || (a.f == b.f && (a.g < b.g || (a.g == b.g && (a.r < b.r || (a.r == b.r && a.c <= b.c)))))
  }

  /** The cells that have an entry in the open list. */
  function OpenCells(open: seq<Entry>): set<Cell>
  {
    set e | e in open :: CellOf(e)
  }

  lemma OpenCellsPush(open: seq<Entry>, e: Entry)
    ensures OpenCells(open + [e]) == OpenCells(open) + {CellOf(e)}
  {
    assert e in open + [e];
    forall y | y in OpenCells(open)
      ensures y in OpenCells(open + [e])
    {
      var z :| z in open && CellOf(z) == y;
      assert z in open + [e];
    }
  }

  /**
   * `heappop`: take out a least entry; the rest of the list is what
   * remains, as a multiset.
   */
  method PopMin(open: seq<Entry>) returns (e: Entry, rest: seq<Entry>)
    requires |open| > 0
    ensures e in open
    ensures forall x :: x in open ==> EntryLe(e, x)
    ensures multiset(open) == multiset(rest) + multiset{e}
    ensures |rest| == |open| - 1
    ensures forall x :: x in open && x != e ==> x in rest
    ensures forall x :: x in rest ==> x in open
  {
    var m := MinIndex(open);
    e := open[m];
    rest := open[..m] + open[m + 1..];
    RemoveAt(open, m);
  }

  /** The scan for a least entry: the first index holding one. */
  method MinIndex(open: seq<Entry>) returns (m: int)
    requires |open| > 0
    ensures 0 <= m < |open|
    ensures forall j :: 0 <= j < |open| ==> EntryLe(open[m], open[j])
  {
    m := 0;
    var i := 1;
    while i < |open|
      invariant 0 <= m < i <= |open|
      invariant forall j :: 0 <= j < i ==> EntryLe(open[m], open[j])
    {
      if !EntryLe(open[m], open[i]) {
        m := i;
      }
      i := i + 1;
    }
  }

  /** Taking entry `m` out of a list leaves the other entries, as a multiset and one by one. */
  lemma RemoveAt(open: seq<Entry>, m: int)
    requires 0 <= m < |open|
    ensures multiset(open) == multiset(open[..m] + open[m + 1..]) + multiset{open[m]}
    ensures forall x :: x in open && x != open[m] ==> x in open[..m] + open[m + 1..]
    ensures forall x :: x in open[..m] + open[m + 1..] ==> x in open
  {
    var e, rest := open[m], open[..m] + open[m + 1..];
    assert open == open[..m] + [e] + open[m + 1..];
    forall x | x in open && x != e
      ensures x in rest
    {
      var k :| 0 <= k < |open| && open[k] == x;
      if k < m { assert rest[k] == x; } else { assert k > m; assert rest[k - 1] == x; }
    }
    forall x | x in rest
      ensures x in open
    {
      var k :| 0 <= k < |rest| && rest[k] == x;
      if k < m { assert open[k] == x; } else { assert open[k + 1] == x; }
    }
  }

  /** The cells a pop leaves in the open list: all but possibly the popped one. */
  lemma OpenCellsPop(open: seq<Entry>, e: Entry, rest: seq<Entry>)
    requires forall x :: x in open && x != e ==> x in rest
    requires forall x :: x in rest ==> x in open
    ensures OpenCells(open) - {CellOf(e)} <= OpenCells(rest) <= OpenCells(open)
  {
    forall y | y in OpenCells(open) - {CellOf(e)}
      ensures y in OpenCells(rest)
    {
      var z :| z in open && CellOf(z) == y;
      assert z in rest;
    }
  }

  // ------------------------------------------------------------------
  // Downsampling and reversing a path
  // ------------------------------------------------------------------

  /** `path[::10] if len(path) > 10 else path`. */
  function Downsample<T>(p: seq<T>): (d: seq<T>)
    ensures |p| <= 10 ==> d == p
    ensures |p| > 10 ==> |d| == (|p| + 9) / 10 && forall i :: 0 <= i < |d| ==> d[i] == p[10 * i]
  {
    if |p| > 10 then seq((|p| + 9) / 10, i requires 0 <= i < (|p| + 9) / 10 => p[10 * i]) else p
  }

  /**
   * Downsampling keeps the first entry, and the last one exactly when the
   * length is at most 10 or one more than a multiple of 10: a longer path
   * whose length is not of that form loses its final point.
   */
  lemma DownsampleEnds<T>(p: seq<T>)
    requires |p| > 0
    ensures var d := Downsample(p); |d| > 0 && d[0] == p[0]
    ensures var d := Downsample(p); |p| > 10 ==> (10 * (|d| - 1) == |p| - 1 <==> (|p| - 1) % 10 == 0)
  {
  }

  function Reverse<T>(s: seq<T>): (r: seq<T>)
    ensures |r| == |s| && forall i :: 0 <= i < |s| ==> r[i] == s[|s| - 1 - i]
  {
    if s == [] then [] else Reverse(s[1..]) + [s[0]]
  }

  // ------------------------------------------------------------------
  // The planner
  // ------------------------------------------------------------------

  /**
   * The exploration planner: the current mode, the waypoint list and the
   * index of the waypoint being approached, and the completion flag. The
   * grid and the reactive sector planner it consults are fixed.
   */
  class ExplorationPlanner {
    const grid: Grid.OccupancyGrid
    const reactive: PathPlanner.Config
    const exploreSpeed: int
    const completePct: real
    var mode: Mode
    var waypoints: seq<Waypoint>
    var currentWpIdx: nat
    var complete: bool

    /** The index never runs past the end of the waypoint list. */
    ghost predicate Valid()
      reads this, grid.grid
    {
      && grid.Valid()
      && PathPlanner.ValidConfig(reactive)
      && currentWpIdx <= |waypoints|
    }

    /**
     * A new planner explores frontiers, has no waypoints and is not
     * complete; its reactive planner is the navigation planner run at
     * EXPLORE_SPEED.
     */
    constructor (grid: Grid.OccupancyGrid, navigation: PathPlanner.Config, exploreSpeed: int, completePct: real)
      requires grid.Valid() && PathPlanner.ValidConfig(navigation)
      ensures Valid()
      ensures this.grid == grid && reactive == navigation.(speed := exploreSpeed)
      ensures this.exploreSpeed == exploreSpeed && this.completePct == completePct
      ensures mode == Explore && waypoints == [] && currentWpIdx == 0 && !complete
    {
      this.grid := grid;
      reactive := navigation.(speed := exploreSpeed);
      this.exploreSpeed := exploreSpeed;
      this.completePct := completePct;
      mode := Explore;
      waypoints := [];
      currentWpIdx := 0;
      complete := false;
    }

    /** `_get_current_target`: the waypoint at the index, or None past the end. */
    function CurrentTarget(): (t: Option<Waypoint>)
      reads this
      ensures t.None? <==> currentWpIdx >= |waypoints|
      ensures t.Some? ==> t.value == waypoints[currentWpIdx] && t.value in waypoints
    {
      if currentWpIdx < |waypoints| then Some(waypoints[currentWpIdx]) else None
    }

    // ----------------------------------------------------------------
    // Cells the search may enter, and routes
    // ----------------------------------------------------------------

    /** An in-bounds cell that is not OCCUPIED; the search enters only these. */
    predicate Passable(x: Cell)
      requires grid.Valid()
      reads grid.grid
    {
      grid.InBounds(x.0, x.1) && grid.grid[x.0, x.1] != Grid.Occupied
    }

    /** The Manhattan distance to the goal, the search's heuristic. */
    function H(x: Cell, goal: Cell): int
    {
      Grid.Abs(x.0 - goal.0) + Grid.Abs(x.1 - goal.1)
    }

    /**
     * A 4-connected walk from `start` (not listed) to `goal` (listed last)
     * over passable cells.
     */
    ghost predicate IsRoute(start: Cell, goal: Cell, rt: seq<Cell>)
      requires grid.Valid()
      reads grid.grid
    {
      && |rt| > 0 && rt[|rt| - 1] == goal
      && Adjacent(start, rt[0])
      && (forall i :: 0 <= i < |rt| - 1 ==> Adjacent(rt[i], rt[i + 1]))
      && (forall i :: 0 <= i < |rt| ==> Passable(rt[i]))
    }

    /** The world coordinates of the cells of a route. */
    function Worlds(rt: seq<Cell>): (w: seq<Waypoint>)
      requires grid.resolution > 0.0
      ensures |w| == |rt|
      ensures forall i :: 0 <= i < |rt| ==> w[i] == grid.CellToWorld(rt[i].0 as real, rt[i].1 as real)
    {
      seq(|rt|, i requires 0 <= i < |rt| => grid.CellToWorld(rt[i].0 as real, rt[i].1 as real))
    }

    ghost function AllCells(): set<Cell>
    {
      set r, c | 0 <= r < grid.cells && 0 <= c < grid.cells :: (r, c)
    }

    // ----------------------------------------------------------------
    // The search invariant
    // ----------------------------------------------------------------

    /** Every scored cell but the start has a parent, and visited cells are scored. */
    ghost predicate Scored(start: Cell, gScore: map<Cell, int>, cameFrom: map<Cell, Cell>, visited: set<Cell>)
    {
      && gScore.Keys == cameFrom.Keys + {start}
      && start !in cameFrom
      && visited <= gScore.Keys
      && (visited != {} ==> start in visited)
    }

    /**
     * `rank` numbers the visited cells in visiting order; a parent is
     * visited, and before its child when the child is visited too.
     */
    ghost predicate Ranked(cameFrom: map<Cell, Cell>, visited: set<Cell>, rank: map<Cell, nat>)
    {
      && rank.Keys == visited
      && (forall v :: v in visited ==> rank[v] < |visited|)
      && (forall n :: n in cameFrom ==> cameFrom[n] in visited && (n in visited ==> rank[cameFrom[n]] < rank[n]))
    }

    /** Every cell with a parent is a passable neighbour of it. */
    ghost predicate Entered(cameFrom: map<Cell, Cell>)
      requires grid.Valid()
      reads grid.grid
    {
      forall n :: n in cameFrom ==> Adjacent(cameFrom[n], n) && Passable(n)
    }

    /**
     * Open entries are in bounds and scored, only the start is listed
     * before the first visit, and a scored cell not yet visited still has
     * an open entry.
     */
    ghost predicate Listed(start: Cell, open: seq<Entry>, gScore: map<Cell, int>, cameFrom: map<Cell, Cell>,
                           visited: set<Cell>)
    {
      && (visited == {} ==> cameFrom == map[] && OpenCells(open) <= {start})
      && (forall e :: e in open ==> grid.InBounds(e.r, e.c) && CellOf(e) in gScore)
      && (forall n :: n in gScore && n !in visited ==> n in OpenCells(open))
    }

    /** What the search keeps true of its book-keeping. */
    ghost predicate SearchState(start: Cell, open: seq<Entry>, gScore: map<Cell, int>, cameFrom: map<Cell, Cell>,
                                visited: set<Cell>, rank: map<Cell, nat>)
      reads grid.grid
    {
      && grid.Valid()
      && grid.InBounds(start.0, start.1)
      && Scored(start, gScore, cameFrom, visited)
      && Ranked(cameFrom, visited, rank)
      && Entered(cameFrom)
      && Listed(start, open, gScore, cameFrom, visited)
    }

    /** The search starts with the start cell scored 0 and listed, and nothing visited. */
    lemma StartState(start: Cell, goal: Cell)
      requires grid.Valid() && grid.InBounds(start.0, start.1)
      ensures SearchState(start, [Entry(H(start, goal), 0, start.0, start.1)], map[start := 0], map[], {}, map[])
    {
      var open := [Entry(H(start, goal), 0, start.0, start.1)];
      assert open[0] in open;
      assert OpenCells(open) == {start};
      assert Listed(start, open, map[start := 0], map[], {});
    }

    /** With the open list empty, every scored cell has been visited, the start among them. */
    lemma Drained(start: Cell, open: seq<Entry>, gScore: map<Cell, int>, cameFrom: map<Cell, Cell>,
                  visited: set<Cell>, rank: map<Cell, nat>)
      requires SearchState(start, open, gScore, cameFrom, visited, rank) && open == []
      ensures gScore.Keys <= visited && start in visited
    {
      assert OpenCells(open) == {};
      assert start in gScore;
    }

    /** Every passable neighbour of a cell in `inside` has a score. */
    ghost predicate ClosedUpTo(inside: set<Cell>, gScore: map<Cell, int>)
      requires grid.Valid()
      reads grid.grid
    {
      forall v, k :: v in inside && 0 <= k < |Steps| && Passable(Neighbour(v, k)) ==> Neighbour(v, k) in gScore
    }

    /**
     * The inner loop of `_a_star`: relax the four neighbours of the cell
     * just visited, skipping cells out of bounds, visited or OCCUPIED; a
     * FREE step costs 1 and any other step 5, and a neighbour is pushed
     * when it has no score yet or the new cost is lower.
     */
    method Expand(x: Cell, cost: int, goal: Cell, open0: seq<Entry>, gScore0: map<Cell, int>,
                  cameFrom0: map<Cell, Cell>, visited: set<Cell>, ghost start: Cell, ghost rank: map<Cell, nat>)
      returns (open: seq<Entry>, gScore: map<Cell, int>, cameFrom: map<Cell, Cell>)
      requires grid.Valid()
      requires x in visited
      requires SearchState(start, open0, gScore0, cameFrom0, visited, rank)
      requires ClosedUpTo(visited - {x}, gScore0)
      ensures SearchState(start, open, gScore, cameFrom, visited, rank)
      ensures ClosedUpTo(visited, gScore)
    {
      open, gScore, cameFrom := open0, gScore0, cameFrom0;
      for k := 0 to |Steps|
        invariant SearchState(start, open, gScore, cameFrom, visited, rank)
        invariant gScore0.Keys <= gScore.Keys
        invariant forall j :: 0 <= j < k && Passable(Neighbour(x, j)) ==> Neighbour(x, j) in gScore
      {
        var n := Neighbour(x, k);
        if !grid.InBounds(n.0, n.1) || n in visited || grid.grid[n.0, n.1] == Grid.Occupied {
          continue;
        }
        var moveCost := if grid.grid[n.0, n.1] == Grid.Free then 1 else 5;
        var newG := cost + moveCost;
        if n !in gScore || newG < gScore[n] {
          var e := Entry(newG + H(n, goal), newG, n.0, n.1);
          PushKeeps(start, open, gScore, cameFrom, visited, rank, x, e);
          gScore := gScore[n := newG];
          cameFrom := cameFrom[n := x];
          open := open + [e];
        }
      }
    }

    /** Pushing an entry for an unvisited passable neighbour of a visited cell keeps the search invariant. */
    lemma PushKeeps(start: Cell, open: seq<Entry>, gScore: map<Cell, int>, cameFrom: map<Cell, Cell>,
                    visited: set<Cell>, rank: map<Cell, nat>, x: Cell, e: Entry)
      requires SearchState(start, open, gScore, cameFrom, visited, rank)
      requires x in visited && Adjacent(x, CellOf(e)) && Passable(CellOf(e)) && CellOf(e) !in visited
      requires grid.InBounds(e.r, e.c)
      ensures SearchState(start, open + [e], gScore[CellOf(e) := e.g], cameFrom[CellOf(e) := x], visited, rank)
    {
      var n := CellOf(e);
      PushScored(start, gScore, cameFrom, visited, x, n, e.g);
      PushRanked(cameFrom, visited, rank, x, n);
      PushEntered(cameFrom, x, n);
      PushListed(start, open, gScore, cameFrom, visited, x, e);
    }

    lemma PushScored(start: Cell, gScore: map<Cell, int>, cameFrom: map<Cell, Cell>, visited: set<Cell>,
                     x: Cell, n: Cell, g: int)
      requires Scored(start, gScore, cameFrom, visited) && x in visited && n !in visited
      ensures Scored(start, gScore[n := g], cameFrom[n := x], visited)
    {
    }

    lemma PushRanked(cameFrom: map<Cell, Cell>, visited: set<Cell>, rank: map<Cell, nat>, x: Cell, n: Cell)
      requires Ranked(cameFrom, visited, rank) && x in visited && n !in visited
      ensures Ranked(cameFrom[n := x], visited, rank)
    {
    }

    lemma PushEntered(cameFrom: map<Cell, Cell>, x: Cell, n: Cell)
      requires grid.Valid() && Entered(cameFrom) && Adjacent(x, n) && Passable(n)
      ensures Entered(cameFrom[n := x])
    {
    }

    lemma PushListed(start: Cell, open: seq<Entry>, gScore: map<Cell, int>, cameFrom: map<Cell, Cell>,
                     visited: set<Cell>, x: Cell, e: Entry)
      requires Listed(start, open, gScore, cameFrom, visited) && x in visited && grid.InBounds(e.r, e.c)
      ensures Listed(start, open + [e], gScore[CellOf(e) := e.g], cameFrom[CellOf(e) := x], visited)
    {
      OpenCellsPush(open, e);
    }

    /** Popping an entry of a cell already visited keeps the search invariant. */
    lemma SkipKeeps(start: Cell, open: seq<Entry>, gScore: map<Cell, int>, cameFrom: map<Cell, Cell>,
                    visited: set<Cell>, rank: map<Cell, nat>, e: Entry, rest: seq<Entry>)
      requires SearchState(start, open, gScore, cameFrom, visited, rank)
      requires forall y :: y in open && y != e ==> y in rest
      requires forall y :: y in rest ==> y in open
      requires CellOf(e) in visited
      ensures SearchState(start, rest, gScore, cameFrom, visited, rank)
    {
      OpenCellsPop(open, e, rest);
      assert Listed(start, rest, gScore, cameFrom, visited);
    }

    /** Marking one more cell visited, numbered next, keeps the ranking. */
    lemma VisitRanked(cameFrom: map<Cell, Cell>, visited: set<Cell>, rank: map<Cell, nat>, x: Cell)
      requires Ranked(cameFrom, visited, rank) && x !in visited
      ensures Ranked(cameFrom, visited + {x}, rank[x := |visited|])
    {
    }

    /** Popping an entry of a cell not yet visited and marking the cell visited keeps the search invariant. */
    lemma VisitKeeps(start: Cell, open: seq<Entry>, gScore: map<Cell, int>, cameFrom: map<Cell, Cell>,
                     visited: set<Cell>, rank: map<Cell, nat>, e: Entry, rest: seq<Entry>)
      requires SearchState(start, open, gScore, cameFrom, visited, rank)
      requires e in open
      requires forall y :: y in open && y != e ==> y in rest
      requires forall y :: y in rest ==> y in open
      requires CellOf(e) !in visited
      ensures SearchState(start, rest, gScore, cameFrom, visited + {CellOf(e)}, rank[CellOf(e) := |visited|])
    {
      var x := CellOf(e);
      OpenCellsPop(open, e, rest);
      assert x in OpenCells(open);
      assert x in gScore;
      assert visited == {} ==> x == start;
      assert Scored(start, gScore, cameFrom, visited + {x});
      VisitRanked(cameFrom, visited, rank, x);
      assert Listed(start, rest, gScore, cameFrom, visited + {x});
    }

    /**
     * Every cell of a route leaving a visited start stays in a visited set
     * closed under passable neighbours.
     */
    lemma {:induction false} RouteInside(start: Cell, goal: Cell, rt: seq<Cell>, visited: set<Cell>,
                                         gScore: map<Cell, int>, i: int)
      requires grid.Valid()
      requires IsRoute(start, goal, rt) && 0 <= i < |rt|
      requires start in visited && gScore.Keys <= visited && ClosedUpTo(visited, gScore)
      ensures rt[i] in visited
      decreases i
    {
      var prev := if i == 0 then start else rt[i - 1];
      if i > 0 {
        RouteInside(start, goal, rt, visited, gScore, i - 1);
      }
      assert Adjacent(prev, rt[i]) && Passable(rt[i]);
      AdjacentIsStep(prev, rt[i]);
      var k :| 0 <= k < |Steps| && rt[i] == Neighbour(prev, k);
    }

    /** When the open list runs dry without the goal, no route reaches the goal. */
    lemma NoRouteLeft(start: Cell, goal: Cell, gScore: map<Cell, int>, visited: set<Cell>)
      requires grid.Valid()
      requires start in visited && gScore.Keys <= visited && ClosedUpTo(visited, gScore)
      ensures forall rt :: IsRoute(start, goal, rt) ==> goal in visited
    {
      forall rt | IsRoute(start, goal, rt)
        ensures goal in visited
      {
        RouteInside(start, goal, rt, visited, gScore, |rt| - 1);
      }
    }

    /**
     * `chain` was read off `came_from` starting at the goal: each cell's
     * parent is the next cell.
     */
    ghost predicate ParentChain(goal: Cell, chain: seq<Cell>, cameFrom: map<Cell, Cell>)
    {
      && (|chain| > 0 ==> chain[0] == goal)
      && (forall i :: 0 <= i < |chain| ==> chain[i] in cameFrom)
      && (forall i :: 0 <= i < |chain| - 1 ==> cameFrom[chain[i]] == chain[i + 1])
    }

    /**
     * The `while curr in came_from` loop of the reconstruction: the world
     * coordinates of the goal and its ancestors, goal first, down to (not
     * including) the start.
     */
    method FollowParents(ghost start: Cell, goal: Cell, cameFrom: map<Cell, Cell>,
                         ghost gScore: map<Cell, int>, ghost visited: set<Cell>, ghost rank: map<Cell, nat>)
      returns (back: seq<Waypoint>, ghost chain: seq<Cell>)
      requires grid.Valid()
      requires Scored(start, gScore, cameFrom, visited) && Ranked(cameFrom, visited, rank)
      requires goal in visited
      ensures back == Worlds(chain) && ChainToStart(start, goal, chain, cameFrom)
      ensures exists ch :: back == Worlds(ch) && ChainToStart(start, goal, ch, cameFrom)
    {
      back := [];
      chain := [];
      var curr := goal;
      while curr in cameFrom
        invariant curr in visited
        invariant back == Worlds(chain) && ParentChain(goal, chain, cameFrom)
        invariant |chain| == 0 ==> curr == goal
        invariant |chain| > 0 ==> curr == cameFrom[chain[|chain| - 1]]
        decreases rank[curr]
      {
        back := back + [grid.CellToWorld(curr.0 as real, curr.1 as real)];
        chain := chain + [curr];
        curr := cameFrom[curr];
      }
      assert curr == start;
      assert ChainToStart(start, goal, chain, cameFrom);
    }

    /** A parent chain from the goal that ends next to the start (empty when the goal is the start). */
    ghost predicate ChainToStart(start: Cell, goal: Cell, chain: seq<Cell>, cameFrom: map<Cell, Cell>)
    {
      && ParentChain(goal, chain, cameFrom)
      && (goal == start ==> chain == [])
      && (goal != start ==> |chain| > 0 && cameFrom[chain[|chain| - 1]] == start)
    }

    /**
     * A chain of cells read off `came_from` from the goal back towards the
     * start, reversed, is a route.
     */
    lemma ChainIsRoute(start: Cell, goal: Cell, chain: seq<Cell>, cameFrom: map<Cell, Cell>)
      requires grid.Valid() && Entered(cameFrom)
      requires |chain| > 0 && ParentChain(goal, chain, cameFrom)
      requires cameFrom[chain[|chain| - 1]] == start
      ensures IsRoute(start, goal, Reverse(chain))
    {
      var route := Reverse(chain);
      forall i | 0 <= i < |route| - 1
        ensures Adjacent(route[i], route[i + 1])
      {
        var m := |chain| - 1 - i;
        assert route[i] == chain[m] && route[i + 1] == chain[m - 1];
        assert cameFrom[chain[m - 1]] == chain[m];
      }
      assert route[0] == chain[|chain| - 1];
      forall i | 0 <= i < |route|
        ensures Passable(route[i])
      {
        assert route[i] == chain[|chain| - 1 - i];
      }
    }

    lemma WorldsReverse(chain: seq<Cell>)
      requires grid.resolution > 0.0
      ensures Worlds(Reverse(chain)) == Reverse(Worlds(chain))
    {
    }

    /**
     * The path reconstruction of `_a_star`: follow `came_from` back from
     * the goal to the start, collecting world coordinates, reverse, and
     * downsample.
     */
    method Reconstruct(ghost start: Cell, goal: Cell, cameFrom: map<Cell, Cell>,
                       ghost gScore: map<Cell, int>, ghost visited: set<Cell>, ghost rank: map<Cell, nat>)
      returns (path: seq<Waypoint>, ghost route: seq<Cell>)
      requires grid.Valid()
      requires Scored(start, gScore, cameFrom, visited) && Ranked(cameFrom, visited, rank) && Entered(cameFrom)
      requires goal in visited
      ensures goal == start ==> path == [] && route == []
      ensures goal != start ==> IsRoute(start, goal, route) && path == Downsample(Worlds(route))
      ensures goal != start ==> exists rt :: IsRoute(start, goal, rt) && path == Downsample(Worlds(rt))
    {
      var back;
      ghost var chain;
      back, chain := FollowParents(start, goal, cameFrom, gScore, visited, rank);
      var full := Reverse(back);
      route := Reverse(chain);
      WorldsReverse(chain);
      path := Downsample(full);
      if goal != start {
        ChainIsRoute(start, goal, chain, cameFrom);
      }
    }

    /** The invariant of the search loop. */
    ghost predicate Searching(start: Cell, goal: Cell, open: seq<Entry>, gScore: map<Cell, int>,
                              cameFrom: map<Cell, Cell>, visited: set<Cell>, rank: map<Cell, nat>)
      reads grid.grid
    {
      && SearchState(start, open, gScore, cameFrom, visited, rank)
      && ClosedUpTo(visited, gScore)
      && goal !in visited
      && visited <= AllCells()
    }

    /**
     * One turn of the search loop: pop the least entry; a visited cell is
     * skipped; otherwise the cell is visited, and either it is the goal
     * (`found`) or its neighbours are expanded. Each turn visits a new cell
     * or shortens the open list.
     */
    method SearchStep(start: Cell, goal: Cell, open0: seq<Entry>, gScore0: map<Cell, int>, cameFrom0: map<Cell, Cell>,
                      visited0: set<Cell>, ghost rank0: map<Cell, nat>)
      returns (open: seq<Entry>, gScore: map<Cell, int>, cameFrom: map<Cell, Cell>, visited: set<Cell>,
               ghost rank: map<Cell, nat>, found: bool)
      requires |open0| > 0 && Searching(start, goal, open0, gScore0, cameFrom0, visited0, rank0)
      ensures found ==> && goal in visited && grid.Valid() && Scored(start, gScore, cameFrom, visited)
                        && Ranked(cameFrom, visited, rank) && Entered(cameFrom)
      ensures !found ==> Searching(start, goal, open, gScore, cameFrom, visited, rank)
      ensures !found ==> |AllCells() - visited| < |AllCells() - visited0| || (visited == visited0 && |open| < |open0|)
    {
      var e, rest := PopMin(open0);
      var x := CellOf(e);
      found := false;
      if x in visited0 {
        SkipKeeps(start, open0, gScore0, cameFrom0, visited0, rank0, e, rest);
        return rest, gScore0, cameFrom0, visited0, rank0, false;
      }
      VisitKeeps(start, open0, gScore0, cameFrom0, visited0, rank0, e, rest);
      assert x in AllCells();
      CardinalityDrops(AllCells(), visited0, x);
      rank := rank0[x := |visited0|];
      visited := visited0 + {x};
      if x == goal {
        return rest, gScore0, cameFrom0, visited, rank, true;
      }
      open, gScore, cameFrom := Expand(x, e.g, goal, rest, gScore0, cameFrom0, visited, start, rank);
    }

    /**
     * The search loop of `_a_star` between two in-bounds cells, run until
     * the goal is visited or the open list is empty.
     */
    method Search(start: Cell, goal: Cell) returns (path: seq<Waypoint>, ghost route: seq<Cell>)
      requires grid.Valid() && grid.InBounds(start.0, start.1) && grid.InBounds(goal.0, goal.1)
      ensures start == goal ==> path == []
      ensures start != goal ==>
        if path == [] then forall rt :: !IsRoute(start, goal, rt)
        else IsRoute(start, goal, route) && path == Downsample(Worlds(route))
      ensures start != goal && path != [] ==> exists rt :: IsRoute(start, goal, rt) && path == Downsample(Worlds(rt))
    {
      route := [];
      var open := [Entry(H(start, goal), 0, start.0, start.1)];
      var cameFrom: map<Cell, Cell> := map[];
      var gScore: map<Cell, int> := map[start := 0];
      var visited: set<Cell> := {};
      ghost var rank: map<Cell, nat> := map[];
      StartState(start, goal);
      while |open| > 0
        invariant Searching(start, goal, open, gScore, cameFrom, visited, rank)
        decreases |AllCells() - visited|, |open|
      {
        var found;
        open, gScore, cameFrom, visited, rank, found := SearchStep(start, goal, open, gScore, cameFrom, visited, rank);
        if found {
          path, route := Reconstruct(start, goal, cameFrom, gScore, visited, rank);
          return;
        }
      }
      Drained(start, open, gScore, cameFrom, visited, rank);
      NoRouteLeft(start, goal, gScore, visited);
      path := [];
    }

    /**
     * `_a_star`: best-first search from the cell of (sx, sy) to the cell
     * of (gx, gy), popping the least `(f, g, row, col)` entry each time.
     * No path comes back when an end point is off the grid or the two
     * cells coincide; otherwise the path, when there is one, is the
     * downsampled world form of a 4-connected route over passable cells,
     * and an empty path means that no such route exists at all.
     */
    method AStar(sx: real, sy: real, gx: real, gy: real) returns (path: seq<Waypoint>, ghost route: seq<Cell>)
      requires grid.Valid()
      ensures var s, g := grid.WorldToCell(sx, sy), grid.WorldToCell(gx, gy);
        && (!grid.InBounds(s.0, s.1) || !grid.InBounds(g.0, g.1) || s == g ==> path == [])
        && (grid.InBounds(s.0, s.1) && grid.InBounds(g.0, g.1) && s != g ==>
              if path == [] then forall rt :: !IsRoute(s, g, rt)
              else IsRoute(s, g, route) && path == Downsample(Worlds(route)))
      ensures var s, g := grid.WorldToCell(sx, sy), grid.WorldToCell(gx, gy);
        grid.InBounds(s.0, s.1) && grid.InBounds(g.0, g.1) && s != g && path != [] ==>
          exists rt :: IsRoute(s, g, rt) && path == Downsample(Worlds(rt))
    {
      var start := grid.WorldToCell(sx, sy);
      var goal := grid.WorldToCell(gx, gy);
      if !grid.InBounds(start.0, start.1) || !grid.InBounds(goal.0, goal.1) {
        return [], [];
      }
      path, route := Search(start, goal);
    }

    // ----------------------------------------------------------------
    // Waypoints and modes
    // ----------------------------------------------------------------

    /**
     * The waypoints home: the downsampled world form of a route from the
     * pose's cell to the start pose's cell, or the start position alone
     * when an end is off the grid, the cells coincide or no route exists.
     */
    ghost predicate ReturnPlan(pose: (real, real, real), startPose: (real, real, real), wps: seq<Waypoint>)
      requires grid.Valid()
      reads grid.grid
    {
      var s, g := grid.WorldToCell(pose.0, pose.1), grid.WorldToCell(startPose.0, startPose.1);
      || (exists rt :: IsRoute(s, g, rt) && wps == Downsample(Worlds(rt)))
      || (wps == [(startPose.0, startPose.1)] &&
            (!grid.InBounds(s.0, s.1) || !grid.InBounds(g.0, g.1) || s == g || forall rt :: !IsRoute(s, g, rt)))
    }

    /**
     * `_gen_return_waypoints`: the A* path from the current pose back to
     * the start pose, or just the start position when the search returns
     * nothing.
     */
    method ReturnWaypoints(pose: (real, real, real), startPose: (real, real, real)) returns (wps: seq<Waypoint>)
      requires grid.Valid()
      ensures wps != [] && ReturnPlan(pose, startPose, wps)
    {
      var path;
      ghost var route;
      path, route := AStar(pose.0, pose.1, startPose.0, startPose.1);
      if path != [] {
        wps := path;
      } else {
        wps := [(startPose.0, startPose.1)];
      }
    }

    /**
     * `_refresh_waypoints`: regenerate the waypoints for the current mode
     * and restart at the first. `generate` stands for the frontier,
     * coverage, boundary and corner generators; a mode outside the five
     * keeps the old list.
     */
    method Refresh(pose: (real, real, real), startPose: (real, real, real), generate: Mode -> seq<Waypoint>)
      requires Valid()
      modifies this
      ensures Valid() && currentWpIdx == 0
      ensures mode == old(mode) && complete == old(complete)
      ensures mode.Other? ==> waypoints == old(waypoints)
      ensures !mode.Other? && !mode.Return? ==> waypoints == generate(mode)
      ensures mode.Return? ==> waypoints != [] && ReturnPlan(pose, startPose, waypoints)
    {
      if mode.Return? {
        waypoints := ReturnWaypoints(pose, startPose);
      } else if !mode.Other? {
        waypoints := generate(mode);
      }
      currentWpIdx := 0;
    }

    /** `set_mode`: switch mode, clear the completion flag and regenerate the waypoints. */
    method SetMode(m: Mode, pose: (real, real, real), startPose: (real, real, real), generate: Mode -> seq<Waypoint>)
      requires Valid()
      modifies this
      ensures Valid()
      ensures mode == m && !complete && currentWpIdx == 0
      ensures m.Other? ==> waypoints == old(waypoints)
      ensures !m.Other? && !m.Return? ==> waypoints == generate(m)
      ensures m.Return? ==> waypoints != [] && ReturnPlan(pose, startPose, waypoints)
    {
      mode := m;
      complete := false;
      currentWpIdx := 0;
      Refresh(pose, startPose, generate);
    }

    /** The share of explored cells the grid reports. */
    function ExploredPct(): real
      requires grid.Valid()
      reads grid, grid.grid
    {
      grid.GetStats().exploredPct
    }

    /**
     * The step taken on waypoint `k`, the first one not reached: the
     * reactive planner's stop is returned and skips the waypoint; its turns
     * are returned as they are; on a clear front the planner steers by the
     * heading error towards the waypoint, `bearing(dy, dx) - pi/2 - heading`
     * brought into [-pi, pi].
     */
    ghost predicate ActsOn(k: nat, scan: Option<seq<Motion.ScanPoint>>, pose: (real, real, real),
                           bearing: (real, real) -> real, cmd: Option<PathPlanner.Command>)
      requires k < |waypoints| && PathPlanner.ValidConfig(reactive)
      reads this
    {
      var (px, py, ph) := pose;
      var (tx, ty) := waypoints[k];
      var desired := bearing(ty - py, tx - px) - Pi / 2.0;
      exists r :: PathPlanner.Reacts(reactive, scan, r)
        && (r.action == PathPlanner.Stop ==> cmd == Some(r) && currentWpIdx == k + 1)
        && (r.action == PathPlanner.TurnLeft || r.action == PathPlanner.TurnRight ==>
              cmd == Some(r) && currentWpIdx == k)
        && (r.action == PathPlanner.Forward ==>
              currentWpIdx == k && exists e :: WrappedDiff(e, desired, ph) && cmd == Some(Steer(e, exploreSpeed)))
    }

    /**
     * The step on a freshly refreshed list `w`, entered at index 0 with `f`
     * self-recursions left: with `g` the first waypoint of `w` not reached,
     * the planner acts on `g` when `f` recursions reach it, and otherwise
     * gives None with the index one past the `f + 1` waypoints it skipped.
     */
    ghost predicate StepsOn(w: seq<Waypoint>, f: nat, scan: Option<seq<Motion.ScanPoint>>, pose: (real, real, real),
                            bearing: (real, real) -> real, cmd: Option<PathPlanner.Command>)
      requires PathPlanner.ValidConfig(reactive)
      reads this
    {
      var g := FirstUnreached(w, pose, 0);
      && (g < |w| && g <= f ==> waypoints == w && !complete && ActsOn(g, scan, pose, bearing, cmd))
      && (g > f ==> waypoints == w && !complete && cmd == None && currentWpIdx == f + 1)
    }

    /**
     * What a step past the completion checks does, with `fuel`
     * self-recursions left. With `u` the first waypoint from the current
     * index on not reached:
     * - when `u` is past the fuel, None with the index one past the skipped
     *   waypoints;
     * - when `u` is a waypoint within the fuel, the step `ActsOn` describes;
     * - when every remaining waypoint is reached within the fuel, the list
     *   is refreshed: an empty refresh stops the planner and marks it
     *   complete, and otherwise the step goes on over the refreshed list as
     *   `StepsOn` describes with the fuel that is left (in Return mode the
     *   refreshed list is some route `ReturnPlan` allows).
     * In every case a complete planner stops, the turns keep their steering
     * ranges, and the waypoints change only by a refresh.
     */
    twostate predicate Stepped(fuel: nat, scan: Option<seq<Motion.ScanPoint>>, pose: (real, real, real),
                               startPose: (real, real, real), bearing: (real, real) -> real,
                               generate: Mode -> seq<Waypoint>, new cmd: Option<PathPlanner.Command>)
      requires old(Valid()) && Valid()
      reads this, grid.grid
    {
      var u := old(FirstUnreached(waypoints, pose, currentWpIdx));
      var i, n := old(currentWpIdx), old(|waypoints|);
      && mode == old(mode)
      && (u > i + fuel ==> cmd == None && !complete && waypoints == old(waypoints) && currentWpIdx == i + fuel + 1)
      && (u < n && u <= i + fuel ==>
            !complete && waypoints == old(waypoints) && ActsOn(u, scan, pose, bearing, cmd))
      && (u == n <= i + fuel ==>
            if mode.Return? then
              exists w :: w != [] && ReturnPlan(pose, startPose, w) && StepsOn(w, i + fuel - n, scan, pose, bearing, cmd)
            else if Regenerated(mode, old(waypoints), generate) == [] then
              cmd == Some(PathPlanner.Halt) && complete && waypoints == [] && currentWpIdx == 0
            else
              StepsOn(Regenerated(mode, old(waypoints), generate), i + fuel - n, scan, pose, bearing, cmd))
      && (complete ==> cmd == Some(PathPlanner.Halt))
      && (cmd.Some? && cmd.value.action == PathPlanner.TurnRight ==> 20 <= cmd.value.steering <= 100)
      && (cmd.Some? && cmd.value.action == PathPlanner.TurnLeft ==> -100 <= cmd.value.steering <= -20)
      && (waypoints == old(waypoints) || (!mode.Other? && !mode.Return? && waypoints == generate(mode))
            || (mode.Return? && waypoints != []))
    }

    /**
     * `plan_step` of the exploration planner. A complete planner stops.
     * Otherwise it stops and marks itself complete once the explored share
     * reaches `completePct`; if not, `Follow` takes over. A step changes
     * neither the grid nor a false completion flag, so when a reached
     * waypoint makes `plan_step` call itself those two checks pass again,
     * and the model's recursion enters at `Follow` directly.
     */
    method PlanStep(scan: Option<seq<Motion.ScanPoint>>, pose: (real, real, real), startPose: (real, real, real),
                    bearing: (real, real) -> real, generate: Mode -> seq<Waypoint>, fuel: nat)
      returns (cmd: Option<PathPlanner.Command>)
      requires Valid()
      modifies this
      ensures Valid() && mode == old(mode)
      ensures old(complete) ==>
        cmd == Some(PathPlanner.Halt) && complete && waypoints == old(waypoints) && currentWpIdx == old(currentWpIdx)
      ensures !old(complete) && old(ExploredPct()) >= completePct ==>
        cmd == Some(PathPlanner.Halt) && complete && waypoints == old(waypoints) && currentWpIdx == old(currentWpIdx)
      ensures !old(complete) && old(ExploredPct()) < completePct ==>
        Stepped(fuel, scan, pose, startPose, bearing, generate, cmd)
    {
      if complete {
        return Some(PathPlanner.Halt);
      }
      if ExploredPct() >= completePct {
        complete := true;
        return Some(PathPlanner.Halt);
      }
      cmd := Follow(scan, pose, startPose, bearing, generate, fuel);
    }

    /**
     * `plan_step` past its completion checks: `Restart` when no waypoint is
     * left, `Advance` otherwise.
     */
    method Follow(scan: Option<seq<Motion.ScanPoint>>, pose: (real, real, real), startPose: (real, real, real),
                  bearing: (real, real) -> real, generate: Mode -> seq<Waypoint>, fuel: nat)
      returns (cmd: Option<PathPlanner.Command>)
      requires Valid() && !complete && ExploredPct() < completePct
      modifies this
      decreases fuel, 2
      ensures Valid() && Stepped(fuel, scan, pose, startPose, bearing, generate, cmd)
    {
      if currentWpIdx == |waypoints| {
        cmd := Restart(scan, pose, startPose, bearing, generate, fuel);
      } else {
        cmd := Advance(scan, pose, startPose, bearing, generate, fuel);
      }
    }

    /**
     * No waypoint is left: the list is refreshed, and the planner stops and
     * marks itself complete when even the refreshed list is empty.
     */
    method Restart(scan: Option<seq<Motion.ScanPoint>>, pose: (real, real, real), startPose: (real, real, real),
                   bearing: (real, real) -> real, generate: Mode -> seq<Waypoint>, fuel: nat)
      returns (cmd: Option<PathPlanner.Command>)
      requires Valid() && !complete && ExploredPct() < completePct && currentWpIdx == |waypoints|
      modifies this
      decreases fuel, 1
      ensures Valid() && mode == old(mode)
      ensures if mode.Return? then
                exists w :: w != [] && ReturnPlan(pose, startPose, w) && StepsOn(w, fuel, scan, pose, bearing, cmd)
              else if Regenerated(mode, old(waypoints), generate) == [] then
                cmd == Some(PathPlanner.Halt) && complete && waypoints == [] && currentWpIdx == 0
              else
                StepsOn(Regenerated(mode, old(waypoints), generate), fuel, scan, pose, bearing, cmd)
      ensures complete ==> cmd == Some(PathPlanner.Halt)
      ensures cmd.Some? && cmd.value.action == PathPlanner.TurnRight ==> 20 <= cmd.value.steering <= 100
      ensures cmd.Some? && cmd.value.action == PathPlanner.TurnLeft ==> -100 <= cmd.value.steering <= -20
      ensures waypoints == old(waypoints) || (!mode.Other? && !mode.Return? && waypoints == generate(mode))
                || (mode.Return? && waypoints != [])
    {
      Refresh(pose, startPose, generate);
      ghost var w := waypoints;
      if waypoints == [] {
        complete := true;
        return Some(PathPlanner.Halt);
      }
      cmd := Advance(scan, pose, startPose, bearing, generate, fuel);
      assert StepsOn(w, fuel, scan, pose, bearing, cmd);
    }

    /**
     * The current waypoint exists. One within 20 cm counts as reached: the
     * index moves on and the step starts over on the next waypoint; `fuel`
     * bounds that self-recursion, and None is the result once it runs out.
     * Otherwise the step acts on the waypoint as `ActsOn` describes
     * (`bearing` stands for `math.atan2`).
     */
    method Advance(scan: Option<seq<Motion.ScanPoint>>, pose: (real, real, real), startPose: (real, real, real),
                   bearing: (real, real) -> real, generate: Mode -> seq<Waypoint>, fuel: nat)
      returns (cmd: Option<PathPlanner.Command>)
      requires Valid() && !complete && ExploredPct() < completePct && currentWpIdx < |waypoints|
      modifies this
      decreases fuel, 0
      ensures Valid() && Stepped(fuel, scan, pose, startPose, bearing, generate, cmd)
    {
      if Reached(pose, waypoints[currentWpIdx]) {
        currentWpIdx := currentWpIdx + 1;
        if fuel == 0 {
          return None;
        }
        cmd := Follow(scan, pose, startPose, bearing, generate, fuel - 1);
        return;
      }
      cmd := Approach(scan, pose, bearing);
    }

    /**
     * The rest of `plan_step` once the current waypoint is one not yet
     * reached: the step `ActsOn` describes, which always gives a command.
     */
    method Approach(scan: Option<seq<Motion.ScanPoint>>, pose: (real, real, real), bearing: (real, real) -> real)
      returns (cmd: Option<PathPlanner.Command>)
      requires Valid() && currentWpIdx < |waypoints|
      modifies this
      ensures Valid() && mode == old(mode) && complete == old(complete) && waypoints == old(waypoints)
      ensures ActsOn(old(currentWpIdx), scan, pose, bearing, cmd) && cmd.Some?
      ensures cmd.value.action == PathPlanner.TurnRight ==> 20 <= cmd.value.steering <= 100
      ensures cmd.value.action == PathPlanner.TurnLeft ==> -100 <= cmd.value.steering <= -20
    {
      var (px, py, ph) := pose;
      var (tx, ty) := waypoints[currentWpIdx];
      var desired := bearing(ty - py, tx - px) - Pi / 2.0;
      var headingError;
      ghost var turns;
      headingError, turns := AngleDiff(desired, ph);
      assert WrappedDiff(headingError, desired, ph);
      var reactiveCmd := PathPlanner.PlanStep(reactive, scan);
      if reactiveCmd.action == PathPlanner.Stop {
        currentWpIdx := currentWpIdx + 1;
        return Some(reactiveCmd);
      }
      if reactiveCmd.action != PathPlanner.Forward {
        return Some(reactiveCmd);
      }
      return Some(Steer(headingError, exploreSpeed));
    }
  }

  /** Visiting one more cell of a finite universe leaves fewer unvisited. */
  lemma CardinalityDrops(all: set<Cell>, visited: set<Cell>, x: Cell)
    requires x in all && x !in visited
    ensures |all - (visited + {x})| < |all - visited|
  {
    assert all - (visited + {x}) == (all - visited) - {x};
  }
}
