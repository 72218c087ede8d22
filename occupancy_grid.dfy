/**
 * The occupancy grid of occupancy_grid.py: a square array of cells, each
 * UNKNOWN (0), FREE (1) or OCCUPIED (100), with the world origin at the
 * centre cell. A scan marks the cells along every ray FREE and the ray's
 * end cell OCCUPIED; the grid also yields frontiers, wall runs and corners,
 * statistics, the bounding box of the occupied cells and a downsampled view.
 */
module Grid {
  import Motion
  import opened Wrappers
  import opened Regions

  const Unknown: int := 0
  const Free: int := 1
  const Occupied: int := 100

  predicate IsCellValue(v: int)
  {
    v == Unknown || v == Free || v == Occupied
  }

  function Abs(v: int): nat { if v < 0 then -v else v }

  /** `k` is `v` truncated toward zero, as Python's `int(v)` does. */
  predicate Truncates(v: real, k: int)
  {
    && (v >= 0.0 ==> 0 <= k && k as real <= v < k as real + 1.0)
    && (v < 0.0 ==> k <= 0 && k as real - 1.0 < v <= k as real)
  }

  /** Python's `int()` on a float. */
  function TruncReal(v: real): (r: int)
    ensures Truncates(v, r)
  {
    if v >= 0.0 then v.Floor else -((-v).Floor)
  }

  lemma TruncOfInt(k: int)
    ensures TruncReal(k as real) == k
  {
  }

  // ------------------------------------------------------------------
  // Bresenham ray
  // ------------------------------------------------------------------

  /** The ray loop's moving state: current cell and error term. */
  datatype RayState = RayState(r: int, c: int, err: int)

  /** The ray loop's fixed data: target cell, distances and step signs. */
  datatype Line = Line(r1: int, c1: int, dr: int, dc: int, sr: int, sc: int)

  /** The line from (r0, c0) to (r1, c1) and the loop's initial state. */
  function LineTo(r0: int, c0: int, r1: int, c1: int): Line
  {
    Line(r1, c1, Abs(r1 - r0), Abs(c1 - c0), if r1 > r0 then 1 else -1, if c1 > c0 then 1 else -1)
  }

  /** One error-term step: `e2 = 2*err`, then a row step if `e2 > -dc` and a column step if `e2 < dr`. */
  function Advance(s: RayState, l: Line): RayState
  {
    var e2 := 2 * s.err;
    var s1 := if e2 > -l.dc then RayState(s.r + l.sr, s.c, s.err - l.dc) else s;
    if e2 < l.dr then RayState(s1.r, s1.c + l.sc, s1.err + l.dr) else s1
  }

  /** The error-term update of one ray-loop iteration, as the loop body writes it. */
  method RayAdvance(r0: int, c0: int, err0: int, dr: int, dc: int, sr: int, sc: int)
    returns (r: int, c: int, err: int)
    ensures forall r1, c1 :: RayState(r, c, err) == Advance(RayState(r0, c0, err0), Line(r1, c1, dr, dc, sr, sc))
  {
    r, c, err := r0, c0, err0;
    var e2 := 2 * err;
    if e2 > -dc {
      err := err - dc;
      r := r + sr;
    }
    if e2 < dr {
      err := err + dr;
      c := c + sc;
    }
  }

  /** The cells the ray loop visits from state `s` with `remaining` iterations left. */
  function Trace(s: RayState, l: Line, remaining: nat): seq<Cell>
    decreases remaining
  {
    if remaining == 0 then []
    else if s.r == l.r1 && s.c == l.c1 then [(s.r, s.c)]
    else [(s.r, s.c)] + Trace(Advance(s, l), l, remaining - 1)
  }

  /** One iteration of the ray loop away from the target. */
  lemma TraceStep(s: RayState, l: Line, remaining: nat)
    requires remaining > 0 && !(s.r == l.r1 && s.c == l.c1)
    ensures Trace(s, l, remaining) == [(s.r, s.c)] + Trace(Advance(s, l), l, remaining - 1)
  {
  }

  /** Visiting the current cell moves it from the rest of the trace to the cells done. */
  lemma TraceVisit(done: seq<Cell>, s: RayState, l: Line, remaining: nat)
    requires remaining > 0
    ensures s.r == l.r1 && s.c == l.c1 ==> done + Trace(s, l, remaining) == done + [(s.r, s.c)]
    ensures !(s.r == l.r1 && s.c == l.c1) ==>
      done + Trace(s, l, remaining) == (done + [(s.r, s.c)]) + Trace(Advance(s, l), l, remaining - 1)
  {
    if !(s.r == l.r1 && s.c == l.c1) {
      TraceStep(s, l, remaining);
    }
  }

  /** The cells `_ray_cast_free(r0, c0, r1, c1)` visits, in order. */
  function RayCells(r0: int, c0: int, r1: int, c1: int): seq<Cell>
  {
    var l := LineTo(r0, c0, r1, c1);
    Trace(RayState(r0, c0, l.dr - l.dc), l, l.dr + l.dc + 1)
  }

  /** The ray loop runs at most `remaining` iterations. */
  lemma {:induction false} TraceLength(s: RayState, l: Line, remaining: nat)
    decreases remaining
    ensures |Trace(s, l, remaining)| <= remaining
  {
    if remaining > 0 && !(s.r == l.r1 && s.c == l.c1) {
      TraceLength(Advance(s, l), l, remaining - 1);
    }
  }

  /** `_ray_cast_free` stops within `dr + dc + 1` iterations and starts at the robot's cell. */
  lemma RayBounded(r0: int, c0: int, r1: int, c1: int)
    ensures |RayCells(r0, c0, r1, c1)| <= Abs(r1 - r0) + Abs(c1 - c0) + 1
    ensures |RayCells(r0, c0, r1, c1)| > 0 && RayCells(r0, c0, r1, c1)[0] == (r0, c0)
  {
    var l := LineTo(r0, c0, r1, c1);
    TraceLength(RayState(r0, c0, l.dr - l.dc), l, l.dr + l.dc + 1);
  }

  lemma MulAtLeast(x: int, y: int)
    requires x >= 0 && y >= 1
    ensures x * y >= x
  {
  }

  /** The Bresenham error term with `a` rows and `b` columns still to go. */
  function ErrorTerm(dr: int, dc: int, a: int, b: int): int
  {
    dr - dc + dc * a - dr * b
  }

  /** How one row step and one column step change the error term. */
  lemma ErrorTermSteps(dr: int, dc: int, a: int, b: int)
    ensures ErrorTerm(dr, dc, a - 1, b) == ErrorTerm(dr, dc, a, b) - dc
    ensures ErrorTerm(dr, dc, a, b - 1) == ErrorTerm(dr, dc, a, b) + dr
  {
  }

  /**
   * One iteration of the Bresenham loop away from the target moves at least
   * one axis, and moves an axis only while that axis still has distance to go.
   */
  lemma BresenhamStep(err: int, dr: int, dc: int, a: int, b: int)
    requires 0 <= a <= dr && 0 <= b <= dc && a + b > 0
    requires err == ErrorTerm(dr, dc, a, b)
    ensures 2 * err > -dc || 2 * err < dr
    ensures 2 * err > -dc ==> a > 0
    ensures 2 * err < dr ==> b > 0
  {
    if a == 0 {
      MulAtLeast(dr, b);
    }
    if b == 0 {
      MulAtLeast(dc, a);
    }
  }

  /** Signed distance still to go along one axis, for a step sign `s`. */
  function Toward(s: int, a: int): int
  {
    if s == 1 then a else -a
  }

  /**
   * The error-term invariant of the integer Bresenham loop: with `a` rows
   * and `b` columns still to go, `err == dr - dc + dc*a - dr*b`; the loop then
   * never overshoots the target and reaches it before its iterations run out.
   */
  lemma {:induction false} TraceEndsAtTarget(s: RayState, l: Line, remaining: nat, a: int, b: int)
    requires 0 <= a <= l.dr && 0 <= b <= l.dc
    requires (l.sr == 1 || l.sr == -1) && (l.sc == 1 || l.sc == -1)
    requires l.r1 - s.r == Toward(l.sr, a) && l.c1 - s.c == Toward(l.sc, b)
    requires s.err == ErrorTerm(l.dr, l.dc, a, b)
    requires remaining >= a + b + 1
    decreases remaining
    ensures var ray := Trace(s, l, remaining);
      |ray| > 0 && ray[|ray| - 1] == (l.r1, l.c1)
  {
    if a == 0 && b == 0 {
      assert s.r == l.r1 && s.c == l.c1;
    } else {
      BresenhamStep(s.err, l.dr, l.dc, a, b);
      var e2 := 2 * s.err;
      var a' := if e2 > -l.dc then a - 1 else a;
      var b' := if e2 < l.dr then b - 1 else b;
      ErrorTermSteps(l.dr, l.dc, a, b);
      ErrorTermSteps(l.dr, l.dc, a', b);
      TraceEndsAtTarget(Advance(s, l), l, remaining - 1, a', b');
    }
  }

  /** Every ray cast reaches the target cell: its last visited cell is (r1, c1). */
  lemma RayEndsAtTarget(r0: int, c0: int, r1: int, c1: int)
    ensures var ray := RayCells(r0, c0, r1, c1);
      |ray| > 0 && ray[|ray| - 1] == (r1, c1)
  {
    var l := LineTo(r0, c0, r1, c1);
    assert r1 - r0 == Toward(l.sr, l.dr) && c1 - c0 == Toward(l.sc, l.dc);
    assert ErrorTerm(l.dr, l.dc, l.dr, l.dc) == l.dr - l.dc by {
      assert l.dc * l.dr == l.dr * l.dc;
    }
    TraceEndsAtTarget(RayState(r0, c0, l.dr - l.dc), l, l.dr + l.dc + 1, l.dr, l.dc);
  }

  // ------------------------------------------------------------------
  // Scan updates, characterised independently of the order of the points
  // ------------------------------------------------------------------

  /** A sample is used when its range lies in [minRange, maxRange]. */
  predicate Accepted(p: Motion.ScanPoint, minRange: real, maxRange: real)
  {
    !(p.distance < minRange || p.distance > maxRange)
  }

  /**
   * The value a cell ends with after a scan: OCCUPIED stays OCCUPIED and
   * every hit end cell becomes OCCUPIED; otherwise a cell on some ray
   * becomes FREE; every other cell keeps its value.
   */
  function AfterScan(v: int, hit: bool, onRay: bool): (r: int)
    ensures IsCellValue(v) ==> IsCellValue(r)
    ensures r == Occupied <==> v == Occupied || hit
    ensures IsCellValue(v) && r != v ==> (r == Occupied && hit) || (r == Free && v == Unknown && onRay)
  {
    if v == Occupied || hit then Occupied
    else if onRay then Free
    else v
  }

  /** Statistics record of `get_stats`. */
  datatype Stats = Stats(gridCells: int, free: int, occupied: int, unknown: int,
                         exploredPct: real, scanCount: int, resolution: real,
                         sizeM: real, wallCount: int, cornerCount: int)

  /** The room bounds record of `get_room_bounds`. */
  datatype Bounds = Bounds(xMin: real, yMin: real, xMax: real, yMax: real, width: real, height: real)

  /** The light-weight record of `to_ui_json`. */
  datatype UiView = UiView(grid: seq<seq<int>>, resolution: real, sizeM: real, origin: int, stats: Stats)

  /** A wall run; `horizontal` stands for the source's `axis` word. */
  datatype Wall = Wall(r1: int, c1: int, r2: int, c2: int,
                       x1: real, y1: real, x2: real, y2: real, horizontal: bool)

  /** A corner, in world coordinates. */
  datatype Corner = Corner(x: real, y: real)

  /** A frontier cluster centroid and its size in cells. */
  datatype Frontier = Frontier(x: real, y: real, size: int)

  /** The sign of a product with a positive factor. */
  lemma MulPositive(x: real, b: real)
    requires b > 0.0
    ensures x * b > 0.0 <==> x > 0.0
    ensures x * b < 0.0 <==> x < 0.0
  {
    if x > 0.0 {
      assert x * b > 0.0;
    } else if x < 0.0 {
      assert x * b < 0.0;
    } else {
      assert x * b == 0.0;
    }
  }

  lemma QuotientAtMost(a: real, b: real, k: real)
    requires b > 0.0 && 0.0 <= a <= k * b
    ensures 0.0 <= a / b <= k
  {
    var q := a / b;
    assert q * b == a;
    assert (q - k) * b == q * b - k * b;
    MulPositive(q - k, b);
    MulPositive(q, b);
  }

  lemma QuotientBetween(a: real, b: real, k: real)
    requires b > 0.0 && -(k * b) < a < k * b
    ensures -k < a / b < k
  {
    var q := a / b;
    assert q * b == a;
    assert (q - k) * b == q * b - k * b;
    assert (q + k) * b == q * b + k * b;
    MulPositive(q - k, b);
    MulPositive(q + k, b);
  }

  lemma ScaledOrder(x: real, y: real, s: real)
    requires x <= y && s > 0.0
    ensures x * s <= y * s
  {
  }

  class OccupancyGrid {
    const resolution: real
    const sizeM: real
    const cells: int
    const originCell: int
    const grid: array2<int>
    var scanCount: nat
    var walls: seq<Wall>
    var corners: seq<Corner>

    /** A square array of tri-state cells with the origin at the centre. */
    ghost predicate Valid()
      reads grid
    {
      && resolution > 0.0
      && cells >= 0
      && originCell == cells / 2
      && grid.Length0 == cells && grid.Length1 == cells
      && forall r, c :: 0 <= r < cells && 0 <= c < cells ==> IsCellValue(grid[r, c])
    }

    /** A fresh grid: `int(size / resolution)` cells each way, all UNKNOWN. */
    constructor (sizeM: real, resolution: real)
      requires resolution > 0.0 && sizeM >= 0.0
      ensures Valid()
      ensures this.resolution == resolution && this.sizeM == sizeM
      ensures cells == TruncReal(sizeM / resolution) && originCell == cells / 2
      ensures forall r, c :: 0 <= r < cells && 0 <= c < cells ==> grid[r, c] == Unknown
      ensures scanCount == 0 && walls == [] && corners == []
      ensures fresh(grid)
    {
      var n := TruncReal(sizeM / resolution);
      this.resolution := resolution;
      this.sizeM := sizeM;
      cells := n;
      originCell := n / 2;
      grid := new int[n, n]((r, c) => Unknown);
      scanCount := 0;
      walls := [];
      corners := [];
    }

    // ----------------------------------------------------------------
    // Coordinate transforms
    // ----------------------------------------------------------------

    /** World metres to (row, col); y grows upward, rows grow downward; both truncate toward zero. */
    function WorldToCell(x: real, y: real): (rc: Cell)
      requires resolution > 0.0
      ensures Truncates(x / resolution, rc.1 - originCell)
      ensures Truncates(-y / resolution, rc.0 - originCell)
    {
      (TruncReal(-y / resolution) + originCell, TruncReal(x / resolution) + originCell)
    }

    /** (Fractional) cell indices to world metres. */
    function CellToWorld(row: real, col: real): (xy: (real, real))
      requires resolution > 0.0
    {
      ((col - originCell as real) * resolution, -(row - originCell as real) * resolution)
    }

    /** East of the origin cell is positive x, north of it (smaller rows) positive y. */
    lemma CellToWorldSigns(row: real, col: real)
      requires resolution > 0.0
      ensures var xy := CellToWorld(row, col);
        && (xy.0 > 0.0 <==> col > originCell as real)
        && (xy.0 < 0.0 <==> col < originCell as real)
        && (xy.1 > 0.0 <==> row < originCell as real)
        && (xy.1 < 0.0 <==> row > originCell as real)
    {
      MulPositive(col - originCell as real, resolution);
      MulPositive(row - originCell as real, resolution);
    }

    predicate InBounds(row: int, col: int)
    {
      0 <= row < cells && 0 <= col < cells
    }

    /** A world point less than `originCell` cells from the origin along both axes lies on the grid. */
    lemma NearPointInBounds(x: real, y: real)
      requires Valid()
      requires -(originCell as real * resolution) < x < originCell as real * resolution
      requires -(originCell as real * resolution) < y < originCell as real * resolution
      ensures InBounds(WorldToCell(x, y).0, WorldToCell(x, y).1)
    {
      QuotientBetween(x, resolution, originCell as real);
      QuotientBetween(-y, resolution, originCell as real);
    }

    /** With exact arithmetic, converting a cell to the world and back is the identity. */
    lemma CellRoundTrip(row: int, col: int)
      requires resolution > 0.0
      ensures WorldToCell(CellToWorld(row as real, col as real).0, CellToWorld(row as real, col as real).1) == (row, col)
    {
      var dc := (col - originCell) as real;
      var dr := (row - originCell) as real;
      var (x, y) := CellToWorld(row as real, col as real);
      assert x == dc * resolution;
      assert -y == dr * resolution;
      assert x / resolution == dc;
      assert -y / resolution == dr;
      TruncOfInt(col - originCell);
      TruncOfInt(row - originCell);
    }

    /**
     * Truncation toward zero makes the origin row and column twice as wide as
     * the others: every point less than one resolution from the origin lies
     * in the origin cell.
     */
    lemma OriginCellSpan(x: real, y: real)
      requires resolution > 0.0
      requires -resolution < x < resolution && -resolution < y < resolution
      ensures WorldToCell(x, y) == (originCell, originCell)
    {
      QuotientBelowOne(x, resolution);
      QuotientBelowOne(-y, resolution);
    }

    lemma QuotientBelowOne(a: real, b: real)
      requires b > 0.0 && -b < a < b
      ensures -1.0 < a / b < 1.0
    {
      var q := a / b;
      assert q * b == a;
      assert (q - 1.0) * b == q * b - b;
      assert (q + 1.0) * b == q * b + b;
      MulPositive(q - 1.0, b);
      MulPositive(q + 1.0, b);
    }

    // ----------------------------------------------------------------
    // Ray casting and scan update
    // ----------------------------------------------------------------

    /**
     * `_ray_cast_free`: walk the Bresenham line and mark every in-bounds
     * cell on it FREE, except OCCUPIED cells, which keep their value.
     */
    method RayCastFree(r0: int, c0: int, r1: int, c1: int)
      requires Valid()
      modifies grid
      ensures Valid()
      ensures forall r, c :: 0 <= r < cells && 0 <= c < cells ==>
        grid[r, c] == (if (r, c) in RayCells(r0, c0, r1, c1) && old(grid[r, c]) != Occupied then Free else old(grid[r, c]))
    {
      var dr: int := Abs(r1 - r0);
      var dc: int := Abs(c1 - c0);
      var sr := if r1 > r0 then 1 else -1;
      var sc := if c1 > c0 then 1 else -1;
      var err := dr - dc;
      var r, c := r0, c0;
      var steps := 0;
      var maxSteps := dr + dc + 1;
      ghost var line := LineTo(r0, c0, r1, c1);
      ghost var ray := RayCells(r0, c0, r1, c1);
      ghost var painted: set<Cell> := {};
      ghost var done: seq<Cell> := [];
      ghost var g0 := Snapshot();
      while steps < maxSteps
        invariant 0 <= steps <= maxSteps
        invariant ray == done + Trace(RayState(r, c, err), line, maxSteps - steps)
        invariant forall x :: x in done <==> x in painted
        invariant Valid() && PaintedOver(g0, painted)
      {
        MarkFree(r, c, g0, painted);
        TraceVisit(done, RayState(r, c, err), line, maxSteps - steps);
        done := done + [(r, c)];
        painted := painted + {(r, c)};
        if r == r1 && c == c1 {
          break;
        }
        r, c, err := RayAdvance(r, c, err, dr, dc, sr, sc);
        steps := steps + 1;
      }
    }

    /**
     * The body of the ray loop at one cell: an in-bounds, non-OCCUPIED cell
     * becomes FREE, which extends the painted set of the loop by that cell.
     */
    method MarkFree(r: int, c: int, ghost g0: seq<seq<int>>, ghost painted: set<Cell>)
      requires Valid() && Shaped(g0) && PaintedOver(g0, painted)
      modifies grid
      ensures Valid()
      ensures forall a, b :: 0 <= a < cells && 0 <= b < cells ==>
        grid[a, b] == (if (a, b) == (r, c) && old(grid[a, b]) != Occupied then Free else old(grid[a, b]))
      ensures PaintedOver(g0, painted + {(r, c)})
    {
      if InBounds(r, c) && grid[r, c] != Occupied {
        grid[r, c] := Free;
      }
    }

    /** The cell values as a table, to compare a later state of the grid with. */
    ghost function Snapshot(): (g: seq<seq<int>>)
      requires Valid()
      reads grid
      ensures Shaped(g)
      ensures forall a, b :: 0 <= a < cells && 0 <= b < cells ==> g[a][b] == grid[a, b]
    {
      seq(cells, a requires 0 <= a < grid.Length0 reads grid =>
        seq(cells, b requires 0 <= b < grid.Length1 reads grid => grid[a, b]))
    }

    ghost predicate Shaped(g: seq<seq<int>>)
    {
      |g| == cells && forall a :: 0 <= a < cells ==> |g[a]| == cells
    }

    /** The grid is the table `g0` with the cells of `painted` made FREE unless OCCUPIED. */
    ghost predicate PaintedOver(g0: seq<seq<int>>, painted: set<Cell>)
      requires Valid() && Shaped(g0)
      reads grid
    {
      forall a, b :: 0 <= a < cells && 0 <= b < cells ==>
        grid[a, b] == (if (a, b) in painted && g0[a][b] != Occupied then Free else g0[a][b])
    }

    /** The end cell of a sample seen from `pose`. */
    function EndCell(pose: (real, real, real), p: Motion.ScanPoint, project: Motion.Projector): Cell
      requires resolution > 0.0
    {
      var (ex, ey) := project(pose.0, pose.1, pose.2, p);
      WorldToCell(ex, ey)
    }

    /** Some accepted sample among the first `upto` ends in cell (a, b). */
    ghost predicate Hit(pose: (real, real, real), points: seq<Motion.ScanPoint>, minRange: real, maxRange: real,
                        project: Motion.Projector, upto: int, a: int, b: int)
      requires resolution > 0.0 && upto <= |points|
    {
      exists k :: 0 <= k < upto && Accepted(points[k], minRange, maxRange) && EndCell(pose, points[k], project) == (a, b)
    }

    /** Some accepted sample among the first `upto` has (a, b) on its ray from the robot's cell. */
    ghost predicate OnRay(pose: (real, real, real), points: seq<Motion.ScanPoint>, minRange: real, maxRange: real,
                          project: Motion.Projector, upto: int, a: int, b: int)
      requires resolution > 0.0 && upto <= |points|
    {
      var start := WorldToCell(pose.0, pose.1);
      exists k :: 0 <= k < upto && Accepted(points[k], minRange, maxRange) &&
        (a, b) in RayCells(start.0, start.1, EndCell(pose, points[k], project).0, EndCell(pose, points[k], project).1)
    }

    /**
     * `update_from_scan`: for every sample in range, free its ray and mark
     * its in-bounds end cell OCCUPIED; then count the scan. The end point
     * projection (trigonometry) is supplied by the caller.
     */
    method UpdateFromScan(pose: (real, real, real), points: seq<Motion.ScanPoint>,
                          minRange: real, maxRange: real, project: Motion.Projector)
      requires Valid()
      modifies this, grid
      ensures Valid()
      ensures scanCount == old(scanCount) + 1
      ensures walls == old(walls) && corners == old(corners)
      ensures forall a, b :: 0 <= a < cells && 0 <= b < cells ==>
        grid[a, b] == AfterScan(old(grid[a, b]),
                                Hit(pose, points, minRange, maxRange, project, |points|, a, b),
                                OnRay(pose, points, minRange, maxRange, project, |points|, a, b))
    {
      var start := WorldToCell(pose.0, pose.1);
      for k := 0 to |points|
        invariant Valid()
        invariant scanCount == old(scanCount) && walls == old(walls) && corners == old(corners)
        invariant forall a, b :: 0 <= a < cells && 0 <= b < cells ==>
          grid[a, b] == AfterScan(old(grid[a, b]),
                                  Hit(pose, points, minRange, maxRange, project, k, a, b),
                                  OnRay(pose, points, minRange, maxRange, project, k, a, b))
      {
        var p := points[k];
        if !Accepted(p, minRange, maxRange) {
          ScanStepSkipped(pose, points, minRange, maxRange, project, k);
          continue;
        }
        var end := EndCell(pose, p, project);
        ghost var before := grid;
        RayCastFree(start.0, start.1, end.0, end.1);
        if InBounds(end.0, end.1) {
          grid[end.0, end.1] := Occupied;
        }
        forall a, b | 0 <= a < cells && 0 <= b < cells
          ensures grid[a, b] == AfterScan(old(grid[a, b]),
                                          Hit(pose, points, minRange, maxRange, project, k + 1, a, b),
                                          OnRay(pose, points, minRange, maxRange, project, k + 1, a, b))
        {
          ScanStepAccepted(pose, points, minRange, maxRange, project, k, a, b);
        }
      }
      scanCount := scanCount + 1;
    }

    /** A skipped sample adds no hit and no ray. */
    lemma ScanStepSkipped(pose: (real, real, real), points: seq<Motion.ScanPoint>, minRange: real, maxRange: real,
                          project: Motion.Projector, k: int)
      requires resolution > 0.0 && 0 <= k < |points| && !Accepted(points[k], minRange, maxRange)
      ensures forall a, b :: Hit(pose, points, minRange, maxRange, project, k + 1, a, b) ==
                             Hit(pose, points, minRange, maxRange, project, k, a, b)
      ensures forall a, b :: OnRay(pose, points, minRange, maxRange, project, k + 1, a, b) ==
                             OnRay(pose, points, minRange, maxRange, project, k, a, b)
    {
      forall a, b
        ensures Hit(pose, points, minRange, maxRange, project, k + 1, a, b) ==
                Hit(pose, points, minRange, maxRange, project, k, a, b)
        ensures OnRay(pose, points, minRange, maxRange, project, k + 1, a, b) ==
                OnRay(pose, points, minRange, maxRange, project, k, a, b)
      {
        if Hit(pose, points, minRange, maxRange, project, k + 1, a, b) {
          var j :| 0 <= j < k + 1 && Accepted(points[j], minRange, maxRange) && EndCell(pose, points[j], project) == (a, b);
          assert j != k;
        }
        if OnRay(pose, points, minRange, maxRange, project, k + 1, a, b) {
          var start := WorldToCell(pose.0, pose.1);
          var j :| 0 <= j < k + 1 && Accepted(points[j], minRange, maxRange) &&
            (a, b) in RayCells(start.0, start.1, EndCell(pose, points[j], project).0, EndCell(pose, points[j], project).1);
          assert j != k;
        }
      }
    }

    /** An accepted sample adds its own end cell as a hit and its own ray. */
    lemma ScanStepAccepted(pose: (real, real, real), points: seq<Motion.ScanPoint>, minRange: real, maxRange: real,
                           project: Motion.Projector, k: int, a: int, b: int)
      requires resolution > 0.0 && 0 <= k < |points| && Accepted(points[k], minRange, maxRange)
      ensures var start := WorldToCell(pose.0, pose.1);
        var end := EndCell(pose, points[k], project);
        && (Hit(pose, points, minRange, maxRange, project, k + 1, a, b) <==>
              Hit(pose, points, minRange, maxRange, project, k, a, b) || end == (a, b))
        && (OnRay(pose, points, minRange, maxRange, project, k + 1, a, b) <==>
              OnRay(pose, points, minRange, maxRange, project, k, a, b) || (a, b) in RayCells(start.0, start.1, end.0, end.1))
    {
      var start := WorldToCell(pose.0, pose.1);
      if Hit(pose, points, minRange, maxRange, project, k + 1, a, b) {
        var j :| 0 <= j < k + 1 && Accepted(points[j], minRange, maxRange) && EndCell(pose, points[j], project) == (a, b);
        if j < k {
          assert Hit(pose, points, minRange, maxRange, project, k, a, b);
        }
      }
      if OnRay(pose, points, minRange, maxRange, project, k + 1, a, b) {
        var j :| 0 <= j < k + 1 && Accepted(points[j], minRange, maxRange) &&
          (a, b) in RayCells(start.0, start.1, EndCell(pose, points[j], project).0, EndCell(pose, points[j], project).1);
        if j < k {
          assert OnRay(pose, points, minRange, maxRange, project, k, a, b);
        }
      }
    }
  
    // ----------------------------------------------------------------
    // Statistics
    // ----------------------------------------------------------------

    /** Number of cells in row `r`, columns `0 .. n-1`, holding `v`. */
    function RowCount(v: int, r: int, n: int): nat
      requires Valid() && 0 <= r < cells && 0 <= n <= cells
      reads grid
      decreases n
    {
      if n == 0 then 0 else RowCount(v, r, n - 1) + (if grid[r, n - 1] == v then 1 else 0)
    }

    /** Number of cells in rows `0 .. m-1` holding `v` (`np.sum(grid == v)` for m = cells). */
    function CountValue(v: int, m: int): nat
      requires Valid() && 0 <= m <= cells
      reads grid
      decreases m
    {
      if m == 0 then 0 else CountValue(v, m - 1) + RowCount(v, m - 1, cells)
    }

    /** Every cell of a row is UNKNOWN, FREE or OCCUPIED. */
    lemma {:induction false} RowPartition(r: int, n: int)
      requires Valid() && 0 <= r < cells && 0 <= n <= cells
      decreases n
      ensures RowCount(Unknown, r, n) + RowCount(Free, r, n) + RowCount(Occupied, r, n) == n
    {
      if n > 0 {
        RowPartition(r, n - 1);
      }
    }

    /** The three counts add up to the number of cells in the rows counted. */
    lemma {:induction false} CountPartition(m: int)
      requires Valid() && 0 <= m <= cells
      decreases m
      ensures CountValue(Unknown, m) + CountValue(Free, m) + CountValue(Occupied, m) == m * cells
    {
      if m > 0 {
        CountPartition(m - 1);
        RowPartition(m - 1, cells);
        assert (m - 1) * cells + cells == m * cells;
      }
    }

    /** On a grid with no cell holding `v`, the count of `v` is zero. */
    lemma {:induction false} CountAbsent(v: int, m: int)
      requires Valid() && 0 <= m <= cells
      requires forall r, c :: 0 <= r < cells && 0 <= c < cells ==> grid[r, c] != v
      decreases m
      ensures CountValue(v, m) == 0
    {
      if m > 0 {
        CountAbsent(v, m - 1);
        RowAbsent(v, m - 1, cells);
      }
    }

    lemma {:induction false} RowAbsent(v: int, r: int, n: int)
      requires Valid() && 0 <= r < cells && 0 <= n <= cells
      requires forall c :: 0 <= c < cells ==> grid[r, c] != v
      decreases n
      ensures RowCount(v, r, n) == 0
    {
      if n > 0 {
        RowAbsent(v, r, n - 1);
      }
    }

    /** `get_stats`; the UNKNOWN count is derived as total minus FREE minus OCCUPIED. */
    function GetStats(): (st: Stats)
      requires Valid()
      reads this, grid
      ensures st.gridCells == cells * cells
      ensures st.free == CountValue(Free, cells) && st.occupied == CountValue(Occupied, cells)
      ensures st.scanCount == scanCount && st.wallCount == |walls| && st.cornerCount == |corners|
    {
      var total := cells * cells;
      var free := CountValue(Free, cells);
      var occ := CountValue(Occupied, cells);
      var pct := if total > 0 then (100 * (free + occ)) as real / (total as real) else 0.0;
      Stats(total, free, occ, total - free - occ, pct, scanCount, resolution, sizeM, |walls|, |corners|)
    }

    /**
     * The statistics are consistent: the derived UNKNOWN figure is the
     * number of UNKNOWN cells, the three add up to cells², and the explored
     * percentage lies in [0, 100].
     */
    lemma StatsConsistent()
      requires Valid()
      ensures var st := GetStats();
        && st.unknown == CountValue(Unknown, cells) >= 0
        && st.free + st.occupied + st.unknown == st.gridCells
        && 0.0 <= st.exploredPct <= 100.0
    {
      CountPartition(cells);
      var st := GetStats();
      if st.gridCells > 0 {
        QuotientAtMost((100 * (st.free + st.occupied)) as real, st.gridCells as real, 100.0);
      }
    }

    /** A grid whose cells are all UNKNOWN (a fresh one) reports nothing explored. */
    lemma BlankGridStats()
      requires Valid()
      requires forall r, c :: 0 <= r < cells && 0 <= c < cells ==> grid[r, c] == Unknown
      ensures GetStats().free == 0 && GetStats().occupied == 0
      ensures GetStats().unknown == cells * cells && GetStats().exploredPct == 0.0
    {
      CountAbsent(Free, cells);
      CountAbsent(Occupied, cells);
    }

    // ----------------------------------------------------------------
    // Room bounds
    // ----------------------------------------------------------------

    predicate IsOccupied(r: int, c: int)
      requires Valid()
      reads grid
    {
      InBounds(r, c) && grid[r, c] == Occupied
    }

    /**
     * The row and column extent of the OCCUPIED cells (`np.argwhere` with
     * `min`/`max` per axis): None iff no cell is OCCUPIED, otherwise the
     * tightest (rMin, cMin, rMax, cMax) enclosing them.
     */
    method OccupiedExtent() returns (ext: Option<(int, int, int, int)>)
      requires Valid()
      ensures ext.None? <==> forall r, c :: 0 <= r < cells && 0 <= c < cells ==> grid[r, c] != Occupied
      ensures ext.Some? ==>
        var (rMin, cMin, rMax, cMax) := ext.value;
        && 0 <= rMin <= rMax < cells && 0 <= cMin <= cMax < cells
        && (forall r, c :: 0 <= r < cells && 0 <= c < cells && grid[r, c] == Occupied ==>
              rMin <= r <= rMax && cMin <= c <= cMax)
        && (exists c :: 0 <= c < cells && grid[rMin, c] == Occupied)
        && (exists c :: 0 <= c < cells && grid[rMax, c] == Occupied)
        && (exists r :: 0 <= r < cells && grid[r, cMin] == Occupied)
        && (exists r :: 0 <= r < cells && grid[r, cMax] == Occupied)
    {
      var found := false;
      var rMin, cMin, rMax, cMax := 0, 0, 0, 0;
      ghost var wRMin, wCMin, wRMax, wCMax := 0, 0, 0, 0;
      for r := 0 to cells
        invariant !found ==> forall a, b :: 0 <= a < r && 0 <= b < cells ==> grid[a, b] != Occupied
        invariant found ==> ExtentOf(r, 0, rMin, cMin, rMax, cMax, wRMin, wCMin, wRMax, wCMax)
      {
        for c := 0 to cells
          invariant !found ==> forall a, b :: 0 <= a < cells && 0 <= b < cells && (a < r || (a == r && b < c)) ==> grid[a, b] != Occupied
          invariant found ==> ExtentOf(r, c, rMin, cMin, rMax, cMax, wRMin, wCMin, wRMax, wCMax)
        {
          if grid[r, c] == Occupied {
            if !found {
              found := true;
              rMin, cMin, rMax, cMax := r, c, r, c;
              wRMin, wCMin, wRMax, wCMax := c, r, c, r;
            } else {
              if r < rMin { rMin, wRMin := r, c; }
              if c < cMin { cMin, wCMin := c, r; }
              if r > rMax { rMax, wRMax := r, c; }
              if c > cMax { cMax, wCMax := c, r; }
            }
          }
        }
      }
      if !found {
        return None;
      }
      return Some((rMin, cMin, rMax, cMax));
    }

    /**
     * The extent of the OCCUPIED cells seen before (r, c) in row-major order,
     * with a witness cell on each of the four bounds.
     */
    ghost predicate ExtentOf(r: int, c: int, rMin: int, cMin: int, rMax: int, cMax: int,
                             wRMin: int, wCMin: int, wRMax: int, wCMax: int)
      requires Valid()
      reads grid
    {
      && 0 <= rMin <= rMax < cells && 0 <= cMin <= cMax < cells
      && (forall a, b :: 0 <= a < cells && 0 <= b < cells && (a < r || (a == r && b < c)) && grid[a, b] == Occupied ==>
            rMin <= a <= rMax && cMin <= b <= cMax)
      && 0 <= wRMin < cells && grid[rMin, wRMin] == Occupied
      && 0 <= wRMax < cells && grid[rMax, wRMax] == Occupied
      && 0 <= wCMin < cells && grid[wCMin, cMin] == Occupied
      && 0 <= wCMax < cells && grid[wCMax, cMax] == Occupied
    }

    /**
     * `get_room_bounds`: None iff no cell is OCCUPIED; otherwise the
     * tightest world box holding every OCCUPIED cell (each side is reached
     * by one), with width and height its side lengths.
     */
    method GetRoomBounds() returns (bounds: Option<Bounds>)
      requires Valid()
      ensures bounds.None? <==> forall r, c :: 0 <= r < cells && 0 <= c < cells ==> grid[r, c] != Occupied
      ensures bounds.Some? ==>
        var b := bounds.value;
        && b.xMin <= b.xMax && b.yMin <= b.yMax
        && b.width == b.xMax - b.xMin && b.height == b.yMax - b.yMin
        && forall r, c :: 0 <= r < cells && 0 <= c < cells && grid[r, c] == Occupied ==>
             var (x, y) := CellToWorld(r as real, c as real);
             b.xMin <= x <= b.xMax && b.yMin <= y <= b.yMax
      ensures bounds.Some? ==> var b := bounds.value;
        && (exists r, c :: 0 <= r < cells && 0 <= c < cells && grid[r, c] == Occupied
              && CellToWorld(r as real, c as real).0 == b.xMin)
        && (exists r, c :: 0 <= r < cells && 0 <= c < cells && grid[r, c] == Occupied
              && CellToWorld(r as real, c as real).0 == b.xMax)
        && (exists r, c :: 0 <= r < cells && 0 <= c < cells && grid[r, c] == Occupied
              && CellToWorld(r as real, c as real).1 == b.yMin)
        && (exists r, c :: 0 <= r < cells && 0 <= c < cells && grid[r, c] == Occupied
              && CellToWorld(r as real, c as real).1 == b.yMax)
    {
      var ext := OccupiedExtent();
      if ext.None? {
        return None;
      }
      var (rMin, cMin, rMax, cMax) := ext.value;
      var (xMin, yMax) := CellToWorld(rMin as real, cMin as real);
      var (xMax, yMin) := CellToWorld(rMax as real, cMax as real);
      forall r, c | 0 <= r < cells && 0 <= c < cells && grid[r, c] == Occupied
        ensures var (x, y) := CellToWorld(r as real, c as real);
          xMin <= x <= xMax && yMin <= y <= yMax
      {
        CellInBox(rMin, cMin, rMax, cMax, r, c);
      }
      CellInBox(rMin, cMin, rMax, cMax, rMin, cMin);
      ghost var rOfCMin :| 0 <= rOfCMin < cells && grid[rOfCMin, cMin] == Occupied;
      ghost var rOfCMax :| 0 <= rOfCMax < cells && grid[rOfCMax, cMax] == Occupied;
      ghost var cOfRMin :| 0 <= cOfRMin < cells && grid[rMin, cOfRMin] == Occupied;
      ghost var cOfRMax :| 0 <= cOfRMax < cells && grid[rMax, cOfRMax] == Occupied;
      assert CellToWorld(rOfCMin as real, cMin as real).0 == xMin;
      assert CellToWorld(rOfCMax as real, cMax as real).0 == xMax;
      assert CellToWorld(rMax as real, cOfRMax as real).1 == yMin;
      assert CellToWorld(rMin as real, cOfRMin as real).1 == yMax;
      var width := if xMax - xMin < 0.0 then xMin - xMax else xMax - xMin;
      var height := if yMax - yMin < 0.0 then yMin - yMax else yMax - yMin;
      return Some(Bounds(xMin, yMin, xMax, yMax, width, height));
    }

    /** A cell inside a row/column extent maps into the world box of its corners. */
    lemma CellInBox(rMin: int, cMin: int, rMax: int, cMax: int, r: int, c: int)
      requires resolution > 0.0
      requires rMin <= r <= rMax && cMin <= c <= cMax
      ensures var (xMin, yMax) := CellToWorld(rMin as real, cMin as real);
        var (xMax, yMin) := CellToWorld(rMax as real, cMax as real);
        var (x, y) := CellToWorld(r as real, c as real);
        xMin <= x <= xMax && yMin <= y <= yMax
    {
      ScaledOrder(cMin as real - originCell as real, c as real - originCell as real, resolution);
      ScaledOrder(c as real - originCell as real, cMax as real - originCell as real, resolution);
      ScaledOrder(rMin as real - originCell as real, r as real - originCell as real, resolution);
      ScaledOrder(r as real - originCell as real, rMax as real - originCell as real, resolution);
    }

    // ----------------------------------------------------------------
    // Downsampled view
    // ----------------------------------------------------------------

    /** `max(1, cells // 100)`. */
    function UiStep(): (step: int)
    {
      if cells / 100 < 1 then 1 else cells / 100
    }

    /** Number of rows (and columns) that `grid[::step, ::step]` keeps. */
    function UiSide(): int
    {
      (cells + UiStep() - 1) / UiStep()
    }

    /** `to_ui_json`: every `step`-th row and column, the scaled resolution and the origin index. */
    function ToUiJson(): (v: UiView)
      requires Valid()
      reads this, grid
      ensures |v.grid| == UiSide() && forall i :: 0 <= i < |v.grid| ==> |v.grid[i]| == UiSide()
      ensures forall i, j :: 0 <= i < UiSide() && 0 <= j < UiSide() ==>
        0 <= UiIndex(i) < cells && 0 <= UiIndex(j) < cells && v.grid[i][j] == grid[UiIndex(i), UiIndex(j)]
      ensures v.resolution == resolution * UiStep() as real && v.origin == originCell / UiStep()
      ensures v.stats == GetStats() && v.sizeM == sizeM
    {
      var step := UiStep();
      UiView(UiRows(), resolution * step as real, sizeM, originCell / step, GetStats())
    }

    /** `grid[::step, ::step]`: sample (i, j) is the cell (i * step, j * step). */
    function UiRows(): (rows: seq<seq<int>>)
      requires Valid()
      reads this, grid
      ensures |rows| == UiSide() && forall i :: 0 <= i < |rows| ==> |rows[i]| == UiSide()
      ensures forall i, j :: 0 <= i < UiSide() && 0 <= j < UiSide() ==>
        0 <= UiIndex(i) < cells && 0 <= UiIndex(j) < cells && rows[i][j] == grid[UiIndex(i), UiIndex(j)]
    {
      SamplesInRange();
      var step := UiStep();
      var side := UiSide();
      seq(side, i requires 0 <= i < side && Valid() reads grid =>
        seq(side, j requires 0 <= j < side && Valid() reads grid =>
          SampleAt(i, j, step)))
    }

    /** The grid row (or column) of sample `i` of the view: `i * step`. */
    function UiIndex(i: int): int
    {
      i * UiStep()
    }

    /** Every sample of the view falls inside the grid. */
    lemma SamplesInRange()
      requires cells >= 0
      ensures forall i :: 0 <= i < UiSide() ==> 0 <= UiIndex(i) < cells
    {
      forall i | 0 <= i < UiSide() ensures 0 <= UiIndex(i) < cells {
        SampleInRange(i);
      }
    }

    /** The sampled cell value (i*step, j*step) of the downsampled view. */
    function SampleAt(i: int, j: int, step: int): int
      requires Valid() && step == UiStep() && 0 <= i < UiSide() && 0 <= j < UiSide()
      reads grid
    {
      SampleInRange(i);
      SampleInRange(j);
      grid[i * step, j * step]
    }

    /** A sampled index stays inside the grid. */
    lemma SampleInRange(i: int)
      requires cells >= 0 && 0 <= i < UiSide()
      ensures 0 <= i * UiStep() < cells
    {
      var s := UiStep();
      var q := (cells + s - 1) / s;
      assert i <= q - 1;
      assert (q - 1) * s <= cells + s - 1 - s by {
        assert q * s <= cells + s - 1;
      }
      assert i * s <= (q - 1) * s;
    }
  
    /**
     * Downsampling keeps every side of the view below 200 samples, the
     * samples cover the grid (`(side - 1) * step < cells <= side * step`) and
     * the reported origin is the sample block holding the origin cell.
     */
    lemma UiViewShape()
      requires Valid()
      ensures UiStep() >= 1 && UiSide() < 200
      ensures UiSide() * UiStep() >= cells
      ensures cells > 0 ==> (UiSide() - 1) * UiStep() < cells
      ensures var o := ToUiJson().origin;
        o * UiStep() <= originCell < (o + 1) * UiStep() && (cells > 0 ==> 0 <= o < UiSide())
    {
      var st := UiStep();
      var side := UiSide();
      assert cells < 100 * (cells / 100 + 1);
      assert cells + st - 1 < 200 * st;
      DivBelow(cells + st - 1, st, 200);
      DivFacts(cells + st - 1, st);
      DivFacts(originCell, st);
      var o := originCell / st;
      if cells > 0 {
        assert o * st < side * st;
        MulMonoInt(o, side, st);
      }
    }

    /** A grid under 200 cells a side is shown whole, at its own resolution. */
    lemma SmallGridShownWhole()
      requires Valid() && cells < 200
      ensures UiStep() == 1 && UiSide() == cells
      ensures var v := ToUiJson();
        && v.resolution == resolution && v.origin == originCell
        && forall i, j :: 0 <= i < cells && 0 <= j < cells ==> v.grid[i][j] == grid[i, j]
    {
    }

    // ----------------------------------------------------------------
    // Frontiers
    // ----------------------------------------------------------------

    /** An interior FREE cell with an UNKNOWN 4-neighbour. */
    predicate IsFrontier(r: int, c: int)
      requires Valid()
      reads grid
    {
      && 1 <= r < cells - 1 && 1 <= c < cells - 1
      && grid[r, c] == Free
      && (grid[r - 1, c] == Unknown || grid[r + 1, c] == Unknown ||
          grid[r, c - 1] == Unknown || grid[r, c + 1] == Unknown)
    }

    /** The first pass of `get_frontiers`: every frontier cell, in row-major order. */
    method FrontierCells() returns (fc: seq<Cell>)
      requires Valid()
      ensures forall x :: x in fc <==> IsFrontier(x.0, x.1)
      ensures RowMajorSorted(fc)
    {
      fc := [];
      var r := 1;
      while r < cells - 1
        invariant 1 <= r
        invariant forall x :: x in fc <==> IsFrontier(x.0, x.1) && x.0 < r
        invariant forall i, j :: 0 <= i < j < |fc| ==> RowMajorBefore(fc[i], fc[j])
        invariant forall i :: 0 <= i < |fc| ==> fc[i].0 < r
      {
        var c := 1;
        while c < cells - 1
          invariant 1 <= c
          invariant forall x :: x in fc <==> IsFrontier(x.0, x.1) && (x.0 < r || (x.0 == r && x.1 < c))
          invariant forall i, j :: 0 <= i < j < |fc| ==> RowMajorBefore(fc[i], fc[j])
          invariant forall i :: 0 <= i < |fc| ==> RowMajorBefore(fc[i], (r, c))
        {
          if grid[r, c] == Free {
            var hasUnknown := false;
            for k := 0 to 4
              invariant hasUnknown <==> exists j :: 0 <= j < k && grid[r + Steps[j].0, c + Steps[j].1] == Unknown
            {
              if !hasUnknown && grid[r + Steps[k].0, c + Steps[k].1] == Unknown {
                hasUnknown := true;
              }
            }
            assert Steps[0] == (-1, 0) && Steps[1] == (1, 0) && Steps[2] == (0, -1) && Steps[3] == (0, 1);
            assert hasUnknown <==> IsFrontier(r, c);
            if hasUnknown {
              fc := fc + [(r, c)];
            }
          }
          c := c + 1;
        }
        r := r + 1;
      }
    }

    /** All frontier cells, as a set. */
    ghost function FrontierSet(): set<Cell>
      requires Valid()
      reads grid
    {
      set r, c | 1 <= r < cells - 1 && 1 <= c < cells - 1 && IsFrontier(r, c) :: (r, c)
    }

    /** A cluster's mean row and mean column in world coordinates, with its size. */
    function Centroid(cluster: seq<Cell>): (f: Frontier)
      requires resolution > 0.0 && |cluster| > 0
    {
      var n := |cluster| as real;
      var xy := CellToWorld(SumRows(cluster) as real / n, SumCols(cluster) as real / n);
      Frontier(xy.0, xy.1, |cluster|)
    }

    /** The centroid records of a list of clusters, in order. */
    function CentroidsOf(clusters: seq<seq<Cell>>): (fs: seq<Frontier>)
      requires resolution > 0.0 && forall i :: 0 <= i < |clusters| ==> |clusters[i]| > 0
      ensures |fs| == |clusters|
      ensures forall i :: 0 <= i < |fs| ==> fs[i].size == |clusters[i]|
    {
      if |clusters| == 0 then []
      else CentroidsOf(clusters[..|clusters| - 1]) + [Centroid(clusters[|clusters| - 1])]
    }

    /**
     * A cluster whose cells lie in rows `rLo..rHi` and columns `cLo..cHi`
     * has its centroid inside the world box of those rows and columns.
     */
    lemma CentroidWithin(cluster: seq<Cell>, rLo: int, rHi: int, cLo: int, cHi: int)
      requires resolution > 0.0 && |cluster| > 0
      requires forall i :: 0 <= i < |cluster| ==> rLo <= cluster[i].0 <= rHi && cLo <= cluster[i].1 <= cHi
      ensures var f := Centroid(cluster);
        var (xLo, yHi) := CellToWorld(rLo as real, cLo as real);
        var (xHi, yLo) := CellToWorld(rHi as real, cHi as real);
        xLo <= f.x <= xHi && yLo <= f.y <= yHi
    {
      var n := |cluster| as real;
      SumRowsBounds(cluster, rLo, rHi);
      SumColsBounds(cluster, cLo, cHi);
      MeanBoundsInt(SumRows(cluster), |cluster|, rLo, rHi);
      MeanBoundsInt(SumCols(cluster), |cluster|, cLo, cHi);
      PointInBox(rLo as real, cLo as real, rHi as real, cHi as real,
                 SumRows(cluster) as real / n, SumCols(cluster) as real / n);
    }

    /** A point inside a row/column range maps into the world box of the range's corners. */
    lemma PointInBox(rLo: real, cLo: real, rHi: real, cHi: real, r: real, c: real)
      requires resolution > 0.0
      requires rLo <= r <= rHi && cLo <= c <= cHi
      ensures var (xLo, yHi) := CellToWorld(rLo, cLo);
        var (xHi, yLo) := CellToWorld(rHi, cHi);
        var (x, y) := CellToWorld(r, c);
        xLo <= x <= xHi && yLo <= y <= yHi
    {
      var o := originCell as real;
      ScaledOrder(cLo - o, c - o, resolution);
      ScaledOrder(c - o, cHi - o, resolution);
      ScaledOrder(rLo - o, r - o, resolution);
      ScaledOrder(r - o, rHi - o, resolution);
    }

    /**
     * `get_frontiers`: the frontier cells, grouped by flood fill into their
     * connected components; components of at least three cells become
     * centroid records, sorted by size, largest first.
     */
    method GetFrontiers() returns (frontiers: seq<Frontier>, ghost components: seq<seq<Cell>>)
      requires Valid()
      ensures Components(components, FrontierSet())
      ensures frontiers == SortBySize(CentroidsOf(KeepAtLeast(components, 3)))
      ensures BySizeDescending(frontiers)
      ensures forall i :: 0 <= i < |frontiers| ==> frontiers[i].size >= 3
      ensures |frontiers| == |KeepAtLeast(components, 3)|
    {
      var fc := FrontierCells();
      FrontierSetOf(fc);
      if fc == [] {
        frontiers := [];
        components := [];
        return;
      }
      var clusters;
      clusters, components := ClusterFrontiers(fc);
      assert forall i :: 0 <= i < |clusters| ==> |clusters[i]| >= 3;
      var centroids := CentroidRecords(clusters);
      frontiers := SortBySize(centroids);
      SortedRecords(clusters);
    }

    /** The centroid loop of `get_frontiers`. */
    method CentroidRecords(clusters: seq<seq<Cell>>) returns (centroids: seq<Frontier>)
      requires resolution > 0.0 && forall i :: 0 <= i < |clusters| ==> |clusters[i]| > 0
      ensures centroids == CentroidsOf(clusters)
    {
      centroids := [];
      for i := 0 to |clusters|
        invariant centroids == CentroidsOf(clusters[..i])
      {
        assert clusters[..i + 1][..i] == clusters[..i];
        centroids := centroids + [Centroid(clusters[i])];
      }
      assert clusters[..|clusters|] == clusters;
    }

    lemma FrontierSetOf(fc: seq<Cell>)
      requires Valid()
      requires forall x :: x in fc <==> IsFrontier(x.0, x.1)
      ensures Elems(fc) == FrontierSet()
    {
    }

    /** The sorted records of clusters of at least three cells: largest first, none smaller than three. */
    lemma SortedRecords(clusters: seq<seq<Cell>>)
      requires resolution > 0.0 && forall i :: 0 <= i < |clusters| ==> |clusters[i]| >= 3
      ensures var fs := SortBySize(CentroidsOf(clusters));
        && BySizeDescending(fs) && |fs| == |clusters|
        && forall i :: 0 <= i < |fs| ==> fs[i].size >= 3
    {
      var cs := CentroidsOf(clusters);
      var fs := SortBySize(cs);
      SortBySizeSorts(cs);
      forall i | 0 <= i < |fs| ensures fs[i].size >= 3 {
        assert fs[i] in multiset(cs);
      }
    }

    // ----------------------------------------------------------------
    // Walls and corners
    // ----------------------------------------------------------------

    /** All OCCUPIED cells, as a set. */
    ghost function OccupiedSet(): set<Cell>
      requires Valid()
      reads grid
    {
      set r, c | 0 <= r < cells && 0 <= c < cells && grid[r, c] == Occupied :: (r, c)
    }

    lemma OccupiedSetOf(oc: seq<Cell>)
      requires Valid()
      requires forall x :: x in oc <==> IsOccupied(x.0, x.1)
      ensures Elems(oc) == OccupiedSet()
    {
    }

    /** The occupied-cell pass of `detect_walls_and_corners`, listed in the order `sorted` gives. */
    method OccupiedCells() returns (oc: seq<Cell>)
      requires Valid()
      ensures forall x :: x in oc <==> IsOccupied(x.0, x.1)
      ensures RowMajorSorted(oc)
    {
      oc := [];
      for r := 0 to cells
        invariant forall x :: x in oc <==> IsOccupied(x.0, x.1) && x.0 < r
        invariant RowMajorSorted(oc)
        invariant forall i :: 0 <= i < |oc| ==> oc[i].0 < r
      {
        for c := 0 to cells
          invariant forall x :: x in oc <==> IsOccupied(x.0, x.1) && (x.0 < r || (x.0 == r && x.1 < c))
          invariant RowMajorSorted(oc)
          invariant forall i :: 0 <= i < |oc| ==> RowMajorBefore(oc[i], (r, c))
        {
          if grid[r, c] == Occupied {
            oc := oc + [(r, c)];
          }
        }
      }
    }

    /** The cell `x` is OCCUPIED. */
    predicate OccupiedCell(x: Cell)
      requires Valid()
      reads grid
    {
      IsOccupied(x.0, x.1)
    }

    /**
     * A maximal straight segment of the grid: `len` OCCUPIED cells from `x`
     * along the axis, with the cells just before and just after it not
     * OCCUPIED (or off the grid).
     */
    ghost predicate GridSegment(x: Cell, len: int, horizontal: bool)
      requires Valid()
      reads grid
    {
      && len >= 1
      && (forall k :: 0 <= k < len ==> OccupiedCell(Along(x, k, horizontal)))
      && !OccupiedCell(Along(x, -1, horizontal))
      && !OccupiedCell(Along(x, len, horizontal))
    }

    /** The wall record of the segment of `len` cells from `x`. */
    function WallFrom(x: Cell, len: int, horizontal: bool): Wall
      requires resolution > 0.0
    {
      var y := Along(x, len - 1, horizontal);
      var p1 := CellToWorld(x.0 as real, x.1 as real);
      var p2 := CellToWorld(y.0 as real, y.1 as real);
      Wall(x.0, x.1, y.0, y.1, p1.0, p1.1, p2.0, p2.1, horizontal)
    }

    /** The wall record `_find_runs` builds from a run: its first and last cells and their world points. */
    function WallOf(run: seq<Cell>, horizontal: bool): Wall
      requires resolution > 0.0 && |run| > 0
    {
      var (r1, c1) := run[0];
      var (r2, c2) := run[|run| - 1];
      var p1 := CellToWorld(r1 as real, c1 as real);
      var p2 := CellToWorld(r2 as real, c2 as real);
      Wall(r1, c1, r2, c2, p1.0, p1.1, p2.0, p2.1, horizontal)
    }

    function WallsOf(runs: seq<seq<Cell>>, horizontal: bool): (ws: seq<Wall>)
      requires resolution > 0.0 && forall i :: 0 <= i < |runs| ==> |runs[i]| > 0
      ensures |ws| == |runs|
      ensures forall i :: 0 <= i < |ws| ==> ws[i].horizontal == horizontal
    {
      seq(|runs|, i requires 0 <= i < |runs| => WallOf(runs[i], horizontal))
    }

    /** Every wall of one axis is a maximal grid segment of at least five cells along it. */
    lemma RunsAreSegments(segments: seq<seq<Cell>>, horizontal: bool)
      requires Valid()
      requires forall i :: 0 <= i < |segments| ==> MaximalRun(segments[i], OccupiedSet(), horizontal)
      ensures var ws := WallsOf(KeepAtLeast(segments, 5), horizontal);
        forall i :: 0 <= i < |ws| ==> IsWall(ws[i], horizontal)
    {
      var runs := KeepAtLeast(segments, 5);
      var ws := WallsOf(runs, horizontal);
      forall i | 0 <= i < |ws|
        ensures IsWall(ws[i], horizontal)
      {
        var s := runs[i];
        assert s in segments;
        var j :| 0 <= j < |segments| && segments[j] == s;
        RunOnGrid(s, horizontal);
        assert ws[i] == WallFrom(s[0], |s|, horizontal);
      }
    }

    /** Every maximal grid segment of at least five cells along an axis is a wall of that axis. */
    lemma SegmentsAreRuns(segments: seq<seq<Cell>>, horizontal: bool, x: Cell, len: int)
      requires Valid()
      requires forall i :: 0 <= i < |segments| ==> MaximalRun(segments[i], OccupiedSet(), horizontal)
      requires Union(segments) == OccupiedSet()
      requires len >= 5 && GridSegment(x, len, horizontal)
      ensures WallFrom(x, len, horizontal) in WallsOf(KeepAtLeast(segments, 5), horizontal)
    {
      var runs := KeepAtLeast(segments, 5);
      var ws := WallsOf(runs, horizontal);
      var s := SegmentRun(x, len, horizontal);
      assert x in OccupiedSet() by {
        assert OccupiedCell(Along(x, 0, horizontal));
      }
      UnionMember(segments, x);
      var j :| 0 <= j < |segments| && x in segments[j];
      MaximalRunUnique(segments[j], s, OccupiedSet(), horizontal, x);
      var i :| 0 <= i < |runs| && runs[i] == s;
      assert ws[i] == WallOf(s, horizontal);
      RunOnGrid(s, horizontal);
    }

    /** `w` is the record of a maximal grid segment of at least five cells along its axis. */
    ghost predicate IsWall(w: Wall, horizontal: bool)
      requires Valid()
      reads grid
    {
      exists x, len :: len >= 5 && GridSegment(x, len, horizontal) && w == WallFrom(x, len, horizontal)
    }

    /** The cells of a grid segment, as a run. */
    ghost function SegmentRun(x: Cell, len: int, horizontal: bool): (s: seq<Cell>)
      requires Valid() && GridSegment(x, len, horizontal)
      reads grid
      ensures MaximalRun(s, OccupiedSet(), horizontal) && |s| == len && s[0] == x
    {
      seq(len, k => Along(x, k, horizontal))
    }

    /** A maximal run of the OCCUPIED set is a grid segment with the run's wall record. */
    lemma RunOnGrid(s: seq<Cell>, horizontal: bool)
      requires Valid() && MaximalRun(s, OccupiedSet(), horizontal)
      ensures GridSegment(s[0], |s|, horizontal)
      ensures WallOf(s, horizontal) == WallFrom(s[0], |s|, horizontal)
    {
      assert s[|s| - 1] == Along(s[0], |s| - 1, horizontal);
    }

    /** The point a corner record stands for. */
    function CornerAt(pt: Cell): Corner
      requires resolution > 0.0
    {
      var xy := CellToWorld(pt.0 as real, pt.1 as real);
      Corner(xy.0, xy.1)
    }

    /** Different cells have different corner points. */
    lemma CornerAtInjective(p: Cell, q: Cell)
      requires resolution > 0.0
      ensures CornerAt(p) == CornerAt(q) ==> p == q
    {
      var o := originCell as real;
      MulCancel(p.1 as real - o, q.1 as real - o, resolution);
      MulCancel(p.0 as real - o, q.0 as real - o, resolution);
    }

    /** The set-building loop over the walls' end cells. */
    method EndpointSet(ws: seq<Wall>) returns (pts: set<Cell>)
      ensures pts == Endpoints(ws)
    {
      pts := {};
      for i := 0 to |ws|
        invariant pts == Endpoints(ws[..i])
      {
        assert ws[..i + 1][..i] == ws[..i];
        pts := pts + {(ws[i].r1, ws[i].c1)} + {(ws[i].r2, ws[i].c2)};
      }
      assert ws[..|ws|] == ws;
    }

    /**
     * The corner loop: one corner record for every end cell that ends
     * both a horizontal and a vertical wall.
     */
    method CornersOf(hw: seq<Wall>, vw: seq<Wall>) returns (cs: seq<Corner>)
      requires resolution > 0.0
      requires forall i :: 0 <= i < |hw| ==> hw[i].horizontal
      requires forall i :: 0 <= i < |vw| ==> !vw[i].horizontal
      ensures forall c :: c in cs <==> exists pt :: IsCorner(hw + vw, pt) && c == CornerAt(pt)
      ensures forall i, j :: 0 <= i < j < |cs| ==> cs[i] != cs[j]
    {
      var pts := EndpointSet(hw + vw);
      ghost var seen: set<Cell> := {};
      ghost var all := pts;
      cs := [];
      while pts != {}
        invariant pts + seen == all && pts !! seen
        invariant forall c :: c in cs <==> exists pt :: pt in seen && IsCorner(hw + vw, pt) && c == CornerAt(pt)
        invariant forall i, j :: 0 <= i < j < |cs| ==> cs[i] != cs[j]
        decreases pts
      {
        var pt :| pt in pts;
        CornerTest(hw, vw, pt);
        if CountEnds(hw, pt) > 0 && CountEnds(vw, pt) > 0 {
          forall i | 0 <= i < |cs| ensures cs[i] != CornerAt(pt) {
            assert cs[i] in cs;
            var q :| q in seen && IsCorner(hw + vw, q) && cs[i] == CornerAt(q);
            CornerAtInjective(q, pt);
          }
          cs := cs + [CornerAt(pt)];
        }
        pts := pts - {pt};
        seen := seen + {pt};
      }
      forall pt | IsCorner(hw + vw, pt) ensures pt in seen {
        CornerIsEndpoint(hw + vw, pt);
      }
    }

    /**
     * `detect_walls_and_corners`, computed: no OCCUPIED cell gives no walls
     * and no corners; otherwise the walls are the horizontal runs, then the
     * vertical runs, of at least five cells (exactly the maximal straight
     * segments of that length), and the corners are the end cells shared by
     * a horizontal and a vertical wall, each once.
     */
    method WallsAndCorners() returns (ws: seq<Wall>, cs: seq<Corner>)
      requires Valid()
      ensures OccupiedSet() == {} ==> ws == [] && cs == []
      ensures forall i :: 0 <= i < |ws| ==> IsWall(ws[i], ws[i].horizontal)
      ensures forall x, len, h :: len >= 5 && GridSegment(x, len, h) ==> WallFrom(x, len, h) in ws
      ensures forall i, j :: 0 <= i < j < |ws| && !ws[i].horizontal ==> !ws[j].horizontal
      ensures forall i, j :: 0 <= i < j < |ws| && ws[i].horizontal == ws[j].horizontal ==> RowMajorBefore(Start(ws[i]), Start(ws[j]))
      ensures forall i, j :: 0 <= i < j < |ws| ==> ws[i] != ws[j]
      ensures forall c :: c in cs <==> exists pt :: IsCorner(ws, pt) && c == CornerAt(pt)
      ensures forall i, j :: 0 <= i < j < |cs| ==> cs[i] != cs[j]
    {
      var oc := OccupiedCells();
      OccupiedSetOf(oc);
      if oc == [] {
        return [], [];
      }
      assert oc[0] in OccupiedSet();
      var occupied := Elems(oc);
      var hRuns, hSegs := FindRuns(occupied, oc, true);
      var vRuns, vSegs := FindRuns(occupied, oc, false);
      assert forall i :: 0 <= i < |hRuns| ==> |hRuns[i]| >= 5;
      assert forall i :: 0 <= i < |vRuns| ==> |vRuns[i]| >= 5;
      var hw := WallsOf(hRuns, true);
      var vw := WallsOf(vRuns, false);
      RunsAreSegments(hSegs, true);
      RunsAreSegments(vSegs, false);
      forall x, len, h | len >= 5 && GridSegment(x, len, h)
        ensures WallFrom(x, len, h) in hw + vw
      {
        if h {
          SegmentsAreRuns(hSegs, true, x, len);
        } else {
          SegmentsAreRuns(vSegs, false, x, len);
        }
      }
      WallsInOrder(hRuns, true);
      WallsInOrder(vRuns, false);
      JoinedWalls(hw, vw);
      ws := hw + vw;
      cs := CornersOf(hw, vw);
    }

    /** `detect_walls_and_corners`: stores the walls and corners; nothing else changes. */
    method DetectWallsAndCorners()
      requires Valid()
      modifies this
      ensures Valid() && scanCount == old(scanCount)
      ensures OccupiedSet() == {} ==> walls == [] && corners == []
      ensures forall i :: 0 <= i < |walls| ==> IsWall(walls[i], walls[i].horizontal)
      ensures forall x, len, h :: len >= 5 && GridSegment(x, len, h) ==> WallFrom(x, len, h) in walls
      ensures forall i, j :: 0 <= i < j < |walls| && !walls[i].horizontal ==> !walls[j].horizontal
      ensures forall i, j :: 0 <= i < j < |walls| && walls[i].horizontal == walls[j].horizontal ==>
        RowMajorBefore(Start(walls[i]), Start(walls[j]))
      ensures forall i, j :: 0 <= i < j < |walls| ==> walls[i] != walls[j]
      ensures forall c :: c in corners <==> exists pt :: IsCorner(walls, pt) && c == CornerAt(pt)
      ensures forall i, j :: 0 <= i < j < |corners| ==> corners[i] != corners[j]
    {
      walls, corners := WallsAndCorners();
    }

    /** Walls built from runs that start in row-major order start in that order too. */
    lemma WallsInOrder(runs: seq<seq<Cell>>, horizontal: bool)
      requires resolution > 0.0 && forall i :: 0 <= i < |runs| ==> |runs[i]| > 0
      requires StartsInOrder(runs)
      ensures var ws := WallsOf(runs, horizontal);
        forall i, j :: 0 <= i < j < |ws| ==> RowMajorBefore(Start(ws[i]), Start(ws[j]))
    {
      var ws := WallsOf(runs, horizontal);
      forall i, j | 0 <= i < j < |ws| ensures RowMajorBefore(Start(ws[i]), Start(ws[j])) {
        assert Start(ws[i]) == runs[i][0] && Start(ws[j]) == runs[j][0];
      }
    }

    /** Horizontal walls followed by vertical ones, each list in row-major order, have no repeats. */
    lemma JoinedWalls(hw: seq<Wall>, vw: seq<Wall>)
      requires Valid()
      requires forall i :: 0 <= i < |hw| ==> hw[i].horizontal && IsWall(hw[i], true)
      requires forall i :: 0 <= i < |vw| ==> !vw[i].horizontal && IsWall(vw[i], false)
      requires forall i, j :: 0 <= i < j < |hw| ==> RowMajorBefore(Start(hw[i]), Start(hw[j]))
      requires forall i, j :: 0 <= i < j < |vw| ==> RowMajorBefore(Start(vw[i]), Start(vw[j]))
      ensures forall i :: 0 <= i < |hw + vw| ==> IsWall((hw + vw)[i], (hw + vw)[i].horizontal)
      ensures forall i, j :: 0 <= i < j < |hw + vw| && !(hw + vw)[i].horizontal ==> !(hw + vw)[j].horizontal
      ensures forall i, j :: 0 <= i < j < |hw + vw| && (hw + vw)[i].horizontal == (hw + vw)[j].horizontal ==>
        RowMajorBefore(Start((hw + vw)[i]), Start((hw + vw)[j]))
      ensures forall i, j :: 0 <= i < j < |hw + vw| ==> (hw + vw)[i] != (hw + vw)[j]
    {
      var ws := hw + vw;
      forall i, j | 0 <= i < j < |ws| && ws[i].horizontal == ws[j].horizontal
        ensures RowMajorBefore(Start(ws[i]), Start(ws[j]))
      {
        if j < |hw| {
          assert ws[i] == hw[i] && ws[j] == hw[j];
        } else {
          assert ws[i] == vw[i - |hw|] && ws[j] == vw[j - |hw|];
        }
      }
    }
  }

  /** `n == (n / s) * s + n % s` with `0 <= n % s < s`. */
  lemma DivFacts(n: int, s: int)
    requires s >= 1
    ensures (n / s) * s <= n < (n / s) * s + s
  {
  }

  lemma MulMonoInt(x: int, k: int, s: int)
    requires s >= 1
    ensures x >= k ==> x * s >= k * s
  {
    assert (x - k) * s == x * s - k * s;
    if x >= k {
      MulNonNeg(x - k, s);
    }
  }

  lemma MulNonNeg(x: int, y: int)
    requires x >= 0 && y >= 0
    ensures x * y >= 0
  {
  }

  lemma DivBelow(n: int, s: int, k: int)
    requires s >= 1 && 0 <= n < k * s
    ensures n / s < k
  {
    DivFacts(n, s);
    MulMonoInt(n / s, k, s);
  }

  lemma StrictScaled(x: real, y: real, s: real)
    requires s > 0.0
    ensures x < y ==> x * s < y * s
  {
    MulPositive(y - x, s);
  }

  /** A mean of values between `lo` and `hi` is between `lo` and `hi`. */
  lemma MeanBounds(sum: real, n: real, lo: real, hi: real)
    requires n > 0.0 && lo * n <= sum <= hi * n
    ensures lo <= sum / n <= hi
  {
    var q := sum / n;
    assert q * n == sum;
    StrictScaled(q, lo, n);
    StrictScaled(hi, q, n);
  }

  lemma MeanBoundsInt(sum: int, n: int, lo: int, hi: int)
    requires n > 0 && lo * n <= sum <= hi * n
    ensures lo as real <= sum as real / n as real <= hi as real
  {
    IntProductAsReal(lo, n);
    IntProductAsReal(hi, n);
    MeanBounds(sum as real, n as real, lo as real, hi as real);
  }

  lemma IntProductAsReal(a: int, b: int)
    ensures (a * b) as real == a as real * b as real
  {
  }

  function SumRows(s: seq<Cell>): int
  {
    if |s| == 0 then 0 else SumRows(s[..|s| - 1]) + s[|s| - 1].0
  }

  function SumCols(s: seq<Cell>): int
  {
    if |s| == 0 then 0 else SumCols(s[..|s| - 1]) + s[|s| - 1].1
  }

  lemma {:induction false} SumRowsBounds(s: seq<Cell>, lo: int, hi: int)
    requires forall i :: 0 <= i < |s| ==> lo <= s[i].0 <= hi
    ensures lo * |s| <= SumRows(s) <= hi * |s|
  {
    if |s| > 0 {
      var p := s[..|s| - 1];
      assert forall i :: 0 <= i < |p| ==> p[i] == s[i];
      SumRowsBounds(p, lo, hi);
      assert lo * |s| == lo * |p| + lo && hi * |s| == hi * |p| + hi;
    }
  }

  lemma {:induction false} SumColsBounds(s: seq<Cell>, lo: int, hi: int)
    requires forall i :: 0 <= i < |s| ==> lo <= s[i].1 <= hi
    ensures lo * |s| <= SumCols(s) <= hi * |s|
  {
    if |s| > 0 {
      var p := s[..|s| - 1];
      assert forall i :: 0 <= i < |p| ==> p[i] == s[i];
      SumColsBounds(p, lo, hi);
      assert lo * |s| == lo * |p| + lo && hi * |s| == hi * |p| + hi;
    }
  }

  /** Sizes never increase along the list. */
  predicate BySizeDescending(fs: seq<Frontier>)
  {
    forall i, j :: 0 <= i < j < |fs| ==> fs[i].size >= fs[j].size
  }

  /** Put `f` in front of the first entry no larger than it. */
  function InsertBySize(f: Frontier, fs: seq<Frontier>): seq<Frontier>
  {
    if |fs| == 0 || fs[0].size <= f.size then [f] + fs
    else [fs[0]] + InsertBySize(f, fs[1..])
  }

  /** `centroids.sort(key=size, reverse=True)`, as an insertion sort. */
  function SortBySize(fs: seq<Frontier>): seq<Frontier>
  {
    if |fs| == 0 then [] else InsertBySize(fs[0], SortBySize(fs[1..]))
  }

  lemma {:induction false} InsertBySizeMultiset(f: Frontier, fs: seq<Frontier>)
    ensures multiset(InsertBySize(f, fs)) == multiset(fs) + multiset{f}
  {
    if |fs| > 0 && fs[0].size > f.size {
      InsertBySizeMultiset(f, fs[1..]);
      assert fs == [fs[0]] + fs[1..];
    }
  }

  lemma {:induction false} InsertBySizeBounded(f: Frontier, fs: seq<Frontier>, b: int)
    requires f.size <= b && forall j :: 0 <= j < |fs| ==> fs[j].size <= b
    ensures forall j :: 0 <= j < |InsertBySize(f, fs)| ==> InsertBySize(f, fs)[j].size <= b
  {
    if |fs| > 0 && fs[0].size > f.size {
      InsertBySizeBounded(f, fs[1..], b);
    }
  }

  lemma {:induction false} InsertBySizeSorts(f: Frontier, fs: seq<Frontier>)
    requires BySizeDescending(fs)
    ensures BySizeDescending(InsertBySize(f, fs))
  {
    if |fs| > 0 && fs[0].size > f.size {
      var tail := fs[1..];
      assert BySizeDescending(tail) by {
        forall i, j | 0 <= i < j < |tail| ensures tail[i].size >= tail[j].size {
          assert tail[i] == fs[i + 1] && tail[j] == fs[j + 1];
        }
      }
      InsertBySizeSorts(f, tail);
      InsertBySizeBounded(f, tail, fs[0].size);
      var ins := InsertBySize(f, tail);
      var r := [fs[0]] + ins;
      assert r == InsertBySize(f, fs);
      forall i, j | 0 <= i < j < |r| ensures r[i].size >= r[j].size {
        assert r[j] == ins[j - 1];
        if i > 0 {
          assert r[i] == ins[i - 1];
        }
      }
    }
  }

  /** The sort orders by size, largest first, and keeps every record. */
  lemma {:induction false} SortBySizeSorts(fs: seq<Frontier>)
    ensures BySizeDescending(SortBySize(fs))
    ensures multiset(SortBySize(fs)) == multiset(fs)
    ensures |SortBySize(fs)| == |fs|
  {
    if |fs| > 0 {
      SortBySizeSorts(fs[1..]);
      InsertBySizeSorts(fs[0], SortBySize(fs[1..]));
      InsertBySizeMultiset(fs[0], SortBySize(fs[1..]));
      assert fs == [fs[0]] + fs[1..];
    }
    assert |multiset(SortBySize(fs))| == |SortBySize(fs)|;
  }

  /** The records of `fs` of size `n`, in their order. */
  function OfSize(fs: seq<Frontier>, n: int): (r: seq<Frontier>)
    ensures forall j :: 0 <= j < |r| ==> r[j].size == n
  {
    if |fs| == 0 then []
    else (if fs[0].size == n then [fs[0]] else []) + OfSize(fs[1..], n)
  }

  /** Inserting puts `f` ahead of every record of its own size and behind none of another. */
  lemma {:induction false} InsertBySizeStable(f: Frontier, fs: seq<Frontier>, n: int)
    ensures OfSize(InsertBySize(f, fs), n) == (if f.size == n then [f] else []) + OfSize(fs, n)
  {
    if |fs| > 0 && fs[0].size > f.size {
      InsertBySizeStable(f, fs[1..], n);
      var ins := InsertBySize(f, fs[1..]);
      assert ([fs[0]] + ins)[1..] == ins;
    } else {
      assert ([f] + fs)[1..] == fs;
    }
  }

  /**
   * The sort is stable, as Python's `sort` is: the records of any one size
   * keep their original order.
   */
  lemma {:induction false} SortBySizeStable(fs: seq<Frontier>, n: int)
    ensures OfSize(SortBySize(fs), n) == OfSize(fs, n)
  {
    if |fs| > 0 {
      SortBySizeStable(fs[1..], n);
      InsertBySizeStable(fs[0], SortBySize(fs[1..]), n);
    }
  }

  lemma MulCancel(a: real, b: real, s: real)
    requires s > 0.0
    ensures a * s == b * s ==> a == b
  {
    StrictScaled(a, b, s);
    StrictScaled(b, a, s);
  }

  /** The first cell of a wall. */
  function Start(w: Wall): Cell
  {
    (w.r1, w.c1)
  }

  /** `w` starts or ends at `pt`. */
  predicate EndsAt(w: Wall, pt: Cell)
  {
    (w.r1, w.c1) == pt || (w.r2, w.c2) == pt
  }

  /** `sum(1 for w in ws if …)`: the number of walls of `ws` starting or ending at `pt`. */
  function CountEnds(ws: seq<Wall>, pt: Cell): (n: nat)
    ensures n <= |ws|
  {
    if |ws| == 0 then 0
    else CountEnds(ws[..|ws| - 1], pt) + (if EndsAt(ws[|ws| - 1], pt) then 1 else 0)
  }

  lemma {:induction false} CountEndsPositive(ws: seq<Wall>, pt: Cell)
    ensures CountEnds(ws, pt) > 0 <==> exists i :: 0 <= i < |ws| && EndsAt(ws[i], pt)
  {
    if |ws| > 0 {
      var p := ws[..|ws| - 1];
      CountEndsPositive(p, pt);
      assert forall i :: 0 <= i < |p| ==> p[i] == ws[i];
    }
  }

  /** `pt` ends both a horizontal and a vertical wall of `ws`. */
  ghost predicate IsCorner(ws: seq<Wall>, pt: Cell)
  {
    && (exists i :: 0 <= i < |ws| && ws[i].horizontal && EndsAt(ws[i], pt))
    && (exists i :: 0 <= i < |ws| && !ws[i].horizontal && EndsAt(ws[i], pt))
  }

  /** The start and end cells of all walls. */
  function Endpoints(ws: seq<Wall>): set<Cell>
  {
    if |ws| == 0 then {}
    else Endpoints(ws[..|ws| - 1]) + {(ws[|ws| - 1].r1, ws[|ws| - 1].c1)} + {(ws[|ws| - 1].r2, ws[|ws| - 1].c2)}
  }

  lemma {:induction false} EndpointsMember(ws: seq<Wall>, i: int)
    requires 0 <= i < |ws|
    ensures (ws[i].r1, ws[i].c1) in Endpoints(ws) && (ws[i].r2, ws[i].c2) in Endpoints(ws)
  {
    if i < |ws| - 1 {
      var p := ws[..|ws| - 1];
      EndpointsMember(p, i);
      assert p[i] == ws[i];
    }
  }

  lemma CornerIsEndpoint(ws: seq<Wall>, pt: Cell)
    requires IsCorner(ws, pt)
    ensures pt in Endpoints(ws)
  {
    var i :| 0 <= i < |ws| && ws[i].horizontal && EndsAt(ws[i], pt);
    EndpointsMember(ws, i);
  }

  /** The counting test of the corner loop decides `IsCorner` on the joined wall list. */
  lemma CornerTest(hw: seq<Wall>, vw: seq<Wall>, pt: Cell)
    requires forall i :: 0 <= i < |hw| ==> hw[i].horizontal
    requires forall i :: 0 <= i < |vw| ==> !vw[i].horizontal
    ensures (CountEnds(hw, pt) > 0 && CountEnds(vw, pt) > 0) <==> IsCorner(hw + vw, pt)
  {
    CountEndsPositive(hw, pt);
    CountEndsPositive(vw, pt);
    var ws := hw + vw;
    assert forall i :: 0 <= i < |hw| ==> ws[i] == hw[i];
    assert forall i :: 0 <= i < |vw| ==> ws[|hw| + i] == vw[i];
    assert forall i :: 0 <= i < |ws| && ws[i].horizontal ==> i < |hw|;
    assert forall i :: 0 <= i < |ws| && !ws[i].horizontal ==> i >= |hw| && ws[i] == vw[i - |hw|];
  }
}
