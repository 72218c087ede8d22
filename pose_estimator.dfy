/**
 * The dead-reckoning pose estimator of pose_estimator.py: motor PWM to
 * wheel velocity, the time-step guard and the bounded pose history of
 * `update`, `reset`, `get_path`, and the translational scan-match of
 * `correct_from_scan`. The differential-drive kinematics and the heading
 * normalisation are trigonometric; callers supply them as a function.
 */
module Pose {
  import opened Wrappers
  import opened Motion
  import Grid

  /** MOTOR_MAX_SPEED of config.py. */
  const MotorMaxSpeed: int := 100

  /** A commanded speed at or below this many percent does not move a wheel. */
  const StallSpeed: int := 5

  /** The longest time step `update` accepts, in seconds. */
  const MaxStep: real := 2.0

  /** The number of poses the history keeps. */
  const HistoryLimit: int := 500

  /** The scan match tries each axis offset in this list, x outer, y inner. */
  const Deltas: seq<real> := [-0.05, 0.0, 0.05]

  /** At most this many scan points are scored. */
  const MatchedPoints: int := 100

  /** Fewer points than this and no match is attempted. */
  const MinMatchPoints: int := 20

  /** A correction needs a best score above this. */
  const MinMatchScore: int := 10

  /** One history entry `(x, y, heading, timestamp)`. */
  datatype PoseRecord = PoseRecord(x: real, y: real, heading: real, time: real)

  /**
   * The kinematic step of `update`: from (x, y, heading), linear velocity
   * v, angular velocity omega and the time step, the next pose with its
   * heading normalised to [-pi, pi] by `atan2(sin, cos)`.
   */
  type Kinematics = (real, real, real, real, real, real) -> (real, real, real)

  function AbsReal(v: real): real { if v < 0.0 then -v else v }

  /** The distance covered at speed v during a step: |v| dt, never negative. */
  function Travel(v: real, step: real): (d: real)
    requires step >= 0.0
    ensures d >= 0.0
  {
    var a := AbsReal(v);
    assert a * step >= 0.0 by { NonNegProduct(a, step); }
    a * step
  }

  lemma NonNegProduct(a: real, b: real)
    requires a >= 0.0 && b >= 0.0
    ensures a * b >= 0.0
  {
  }

  /** The position of trial `3 i + j` in the loops is offset i on x and j on y. */
  lemma TrialIndex(i: int, j: int)
    requires 0 <= i < 3 && 0 <= j < 3
    ensures (3 * i + j) / 3 == i && (3 * i + j) % 3 == j
  {
  }

  lemma PrefixSnoc(s: seq<nat>, n: int)
    requires 0 <= n < |s|
    ensures s[..n + 1] == s[..n] + [s[n]]
  {
  }

  /** Only the centre trial, index 4, has both offsets 0. */
  lemma CentreTrial(k: int)
    requires 0 <= k < 9
    ensures Deltas[k / 3] == 0.0 && Deltas[k % 3] == 0.0 <==> k == 4
  {
    var i, j := k / 3, k % 3;
    assert k == 3 * i + j;
    assert 0 <= i < 3 && 0 <= j < 3;
  }

  /** The history after appending: only the last 500 entries are kept. */
  function Capped(h: seq<PoseRecord>): (r: seq<PoseRecord>)
  {
    if |h| > HistoryLimit then h[|h| - HistoryLimit..] else h
  }

  /**
   * Capping keeps at most 500 entries, keeps a suffix of the history
   * (so the newest entry stays last), and keeps a short history whole.
   */
  lemma CappedKeepsNewest(h: seq<PoseRecord>)
    ensures |Capped(h)| <= HistoryLimit
    ensures |Capped(h)| == if |h| > HistoryLimit then HistoryLimit else |h|
    ensures Capped(h) == h[|h| - |Capped(h)|..]
    ensures |h| > 0 ==> Capped(h)[|Capped(h)| - 1] == h[|h| - 1]
  {
  }

  /**
   * `_pwm_to_mps`: a stopped motor or a speed of at most 5 % gives 0;
   * otherwise `speed / MOTOR_MAX_SPEED * maxSpeedMps`, negated backwards.
   */
  function PwmToMps(speed: int, direction: Direction, maxSpeedMps: real): (v: real)
    requires maxSpeedMps > 0.0
    ensures direction == Stop || speed <= StallSpeed ==> v == 0.0
    ensures direction != Stop && speed > StallSpeed ==>
      && (v < 0.0 <==> direction == Backward)
      && AbsReal(v) == (speed as real / MotorMaxSpeed as real) * maxSpeedMps
  {
    if direction == Stop || speed <= StallSpeed then 0.0
    else
      var v := (speed as real / MotorMaxSpeed as real) * maxSpeedMps;
      if direction == Backward then -v else v
  }

  /** Reversing a moving wheel's direction negates its velocity. */
  lemma PwmDirectionSymmetric(speed: int, maxSpeedMps: real)
    requires maxSpeedMps > 0.0
    ensures PwmToMps(speed, Backward, maxSpeedMps) == -PwmToMps(speed, Forward, maxSpeedMps)
  {
  }

  /** A faster command never gives a slower wheel. */
  lemma PwmMonotone(s1: int, s2: int, direction: Direction, maxSpeedMps: real)
    requires maxSpeedMps > 0.0 && s1 <= s2 && direction != Stop
    ensures AbsReal(PwmToMps(s1, direction, maxSpeedMps)) <= AbsReal(PwmToMps(s2, direction, maxSpeedMps))
  {
    if s1 > StallSpeed {
      assert s1 as real / MotorMaxSpeed as real <= s2 as real / MotorMaxSpeed as real;
    }
  }

  /**
   * The estimator: the pose, the start pose, the time of the last update,
   * the distance travelled and the recent pose history.
   */
  class PoseEstimator {
    const maxSpeedMps: real
    const wheelBase: real
    var x: real
    var y: real
    var heading: real
    var startPose: (real, real, real)
    var lastTime: real
    var totalDistance: real
    var history: seq<PoseRecord>

    /** The history never exceeds 500 poses and the distance is never negative. */
    ghost predicate Valid()
      reads this
    {
      maxSpeedMps > 0.0 && wheelBase != 0.0 && |history| <= HistoryLimit && totalDistance >= 0.0
    }

    /** A new estimator sits at the origin facing +y, with an empty history. */
    constructor (now: real, maxSpeedMps: real, wheelBase: real)
      requires maxSpeedMps > 0.0 && wheelBase != 0.0
      ensures Valid()
      ensures this.maxSpeedMps == maxSpeedMps && this.wheelBase == wheelBase
      ensures x == 0.0 && y == 0.0 && heading == 0.0 && startPose == (0.0, 0.0, 0.0)
      ensures lastTime == now && totalDistance == 0.0 && history == []
    {
      this.maxSpeedMps := maxSpeedMps;
      this.wheelBase := wheelBase;
      x, y, heading := 0.0, 0.0, 0.0;
      startPose := (0.0, 0.0, 0.0);
      lastTime := now;
      totalDistance := 0.0;
      history := [];
    }

    /**
     * The effect of `update`: the time step is `dt`, or the time since the last update
     * when `dt` is None. The clock is always recorded; a step of at most
     * 0 or above 2 s changes nothing else. Otherwise the pose advances by
     * the kinematics on the mean wheel velocity and the velocity
     * difference over the wheel base, the distance grows by |v| dt, and
     * the new pose is appended to the history, which keeps its last 500
     * entries.
     */
    twostate predicate Updated(leftSpeed: int, rightSpeed: int, leftDir: Direction, rightDir: Direction,
                               dt: Option<real>, now: real, kinematics: Kinematics)
      requires maxSpeedMps > 0.0 && wheelBase != 0.0
      reads this
    {
      && lastTime == now && startPose == old(startPose)
      && var step := dt.GetOr(now - old(lastTime));
        if step <= 0.0 || step > MaxStep then
          x == old(x) && y == old(y) && heading == old(heading)
          && history == old(history) && totalDistance == old(totalDistance)
        else
          var vl := PwmToMps(leftSpeed, leftDir, maxSpeedMps);
          var vr := PwmToMps(rightSpeed, rightDir, maxSpeedMps);
          var v := (vl + vr) / 2.0;
          && (x, y, heading) == kinematics(old(x), old(y), old(heading), v, (vr - vl) / wheelBase, step)
          && totalDistance == old(totalDistance) + Travel(v, step)
          && history == Capped(old(history) + [PoseRecord(x, y, heading, now)])
    }

    method Update(leftSpeed: int, rightSpeed: int, leftDir: Direction, rightDir: Direction,
                  dt: Option<real>, now: real, kinematics: Kinematics)
      requires Valid()
      modifies this
      ensures Valid()
      ensures Updated(leftSpeed, rightSpeed, leftDir, rightDir, dt, now, kinematics)
      ensures totalDistance >= old(totalDistance)
      ensures history == old(history) || (history != [] && history[|history| - 1] == PoseRecord(x, y, heading, now))
    {
      var step := if dt.None? then now - lastTime else dt.value;
      lastTime := now;
      if step <= 0.0 || step > MaxStep {
        return;
      }
      Advance(leftSpeed, rightSpeed, leftDir, rightDir, step, now, kinematics);
    }

    /** The accepted-step part of `update`: move, count the distance and record the pose. */
    method Advance(leftSpeed: int, rightSpeed: int, leftDir: Direction, rightDir: Direction,
                   step: real, now: real, kinematics: Kinematics)
      requires Valid() && 0.0 < step <= MaxStep
      modifies this
      ensures Valid()
      ensures lastTime == old(lastTime) && startPose == old(startPose)
      ensures var vl := PwmToMps(leftSpeed, leftDir, maxSpeedMps);
        var vr := PwmToMps(rightSpeed, rightDir, maxSpeedMps);
        var v := (vl + vr) / 2.0;
        && (x, y, heading) == kinematics(old(x), old(y), old(heading), v, (vr - vl) / wheelBase, step)
        && totalDistance == old(totalDistance) + Travel(v, step)
        && history == Capped(old(history) + [PoseRecord(x, y, heading, now)])
    {
      var vl := PwmToMps(leftSpeed, leftDir, maxSpeedMps);
      var vr := PwmToMps(rightSpeed, rightDir, maxSpeedMps);
      var v := (vl + vr) / 2.0;
      var omega := (vr - vl) / wheelBase;
      var next := kinematics(x, y, heading, v, omega, step);
      x, y, heading := next.0, next.1, next.2;
      totalDistance := totalDistance + Travel(v, step);
      history := history + [PoseRecord(x, y, heading, now)];
      CappedKeepsNewest(history);
      if |history| > HistoryLimit {
        history := history[|history| - HistoryLimit..];
      }
    }

    /** `reset`: the pose and the start pose become (x, y, heading); distance and history are cleared. */
    method Reset(x0: real, y0: real, heading0: real, now: real)
      requires Valid()
      modifies this
      ensures Valid()
      ensures x == x0 && y == y0 && heading == heading0 && startPose == (x0, y0, heading0)
      ensures lastTime == now && totalDistance == 0.0 && history == []
    {
      x, y, heading := x0, y0, heading0;
      startPose := (x0, y0, heading0);
      lastTime := now;
      totalDistance := 0.0;
      history := [];
    }

    /** `get_pose` (rounding left out). */
    function GetPose(): (p: (real, real, real))
      reads this
      ensures p == (x, y, heading)
    {
      (x, y, heading)
    }

    /** `get_path`: the (x, y) of every history entry, oldest first. */
    function GetPath(): (path: seq<(real, real)>)
      reads this
      ensures |path| == |history|
      ensures forall i :: 0 <= i < |history| ==> path[i] == (history[i].x, history[i].y)
    {
      seq(|history|, i requires 0 <= i < |history| reads this => (history[i].x, history[i].y))
    }

    // ----------------------------------------------------------------
    // Scan matching
    // ----------------------------------------------------------------

    /**
     * The test of one sample in the scan match: its range lies in
     * [0.05, 8.0] and its end point, seen from (tx, ty) with the current
     * heading, falls on an in-bounds OCCUPIED cell.
     */
    predicate Hits(grid: Grid.OccupancyGrid, tx: real, ty: real, h: real, p: ScanPoint, project: Projector)
      requires grid.Valid()
      reads grid.grid
    {
      var w := project(tx, ty, h, p);
      var rc := grid.WorldToCell(w.0, w.1);
      Grid.Accepted(p, 0.05, 8.0) && grid.InBounds(rc.0, rc.1) && grid.grid[rc.0, rc.1] == Grid.Occupied
    }

    /** The score of a trial position: how many of the samples hit. */
    function MatchScore(grid: Grid.OccupancyGrid, tx: real, ty: real, h: real, pts: seq<ScanPoint>,
                        project: Projector): (n: nat)
      requires grid.Valid()
      reads grid.grid
      ensures n <= |pts|
    {
      if pts == [] then 0
      else MatchScore(grid, tx, ty, h, pts[..|pts| - 1], project)
           + (if Hits(grid, tx, ty, h, pts[|pts| - 1], project) then 1 else 0)
    }

    /** The scoring loop over `scan_points[:100]`. */
    method ScoreOffset(grid: Grid.OccupancyGrid, tx: real, ty: real, pts: seq<ScanPoint>, project: Projector)
      returns (score: nat)
      requires grid.Valid()
      ensures score == MatchScore(grid, tx, ty, heading, pts, project)
    {
      score := 0;
      for k := 0 to |pts|
        invariant score == MatchScore(grid, tx, ty, heading, pts[..k], project)
      {
        assert pts[..k + 1][..k] == pts[..k];
        var p := pts[k];
        if p.distance < 0.05 || p.distance > 8.0 {
          continue;
        }
        var (wx, wy) := project(tx, ty, heading, p);
        var (r, c) := grid.WorldToCell(wx, wy);
        if grid.InBounds(r, c) && grid.grid[r, c] == Grid.Occupied {
          score := score + 1;
        }
      }
      assert pts[..|pts|] == pts;
    }

    /**
     * `correct_from_scan`: with no grid, no points or fewer than 20,
     * nothing happens. Otherwise each of the nine offsets in
     * {-0.05, 0, 0.05}² is scored on the first 100 samples, x offset
     * outer; the first offset with the highest positive score wins, and it
     * is applied only when its score is above 10 and it is not (0, 0).
     */
    method CorrectFromScan(grid: Grid.OccupancyGrid?, points: Option<seq<ScanPoint>>, project: Projector)
      returns (applied: bool)
      requires Valid()
      requires grid != null ==> grid.Valid()
      modifies this
      ensures Valid()
      ensures heading == old(heading) && history == old(history) && totalDistance == old(totalDistance)
      ensures startPose == old(startPose) && lastTime == old(lastTime)
      ensures grid == null || points.None? || |points.value| < MinMatchPoints ==>
        !applied && x == old(x) && y == old(y)
      ensures !applied ==> x == old(x) && y == old(y)
      ensures grid != null && points.Some? && |points.value| >= MinMatchPoints ==>
        var scores := OffsetScores(grid, old(x), old(y), heading, Prefix(points.value), project);
        var k := FirstBest(scores);
        && (applied <==> k != -1 && scores[k] > MinMatchScore && k != 4)
        && (applied ==> x == old(x) + Deltas[k / 3] && y == old(y) + Deltas[k % 3])
    {
      if grid == null || points.None? || |points.value| < MinMatchPoints {
        return false;
      }
      var pts := Prefix(points.value);
      var bestScore, bestDx, bestDy := BestOffset(grid, pts, project);
      ghost var k := FirstBest(OffsetScores(grid, x, y, heading, pts, project));
      if k != -1 {
        CentreTrial(k);
      }
      if bestScore > MinMatchScore && (bestDx != 0.0 || bestDy != 0.0) {
        x := x + bestDx;
        y := y + bestDy;
        return true;
      }
      return false;
    }

    /**
     * The two offset loops of `correct_from_scan`: score each trial
     * position and keep the first strictly best one.
     */
    method BestOffset(grid: Grid.OccupancyGrid, pts: seq<ScanPoint>, project: Projector)
      returns (bestScore: nat, bestDx: real, bestDy: real)
      requires grid.Valid()
      ensures BestSoFar(OffsetScores(grid, x, y, heading, pts, project), bestScore, bestDx, bestDy)
    {
      bestScore := 0;
      bestDx, bestDy := 0.0, 0.0;
      ghost var scores: seq<nat> := [];
      ghost var all := OffsetScores(grid, x, y, heading, pts, project);
      for i := 0 to 3
        invariant scores == all[..3 * i]
        invariant BestSoFar(scores, bestScore, bestDx, bestDy)
      {
        bestScore, bestDx, bestDy, scores := TryRow(grid, pts, project, i, bestScore, bestDx, bestDy, scores);
      }
      assert all[..9] == all;
    }

    /** The inner loop for x offset `Deltas[i]`: try the three y offsets in turn. */
    method TryRow(grid: Grid.OccupancyGrid, pts: seq<ScanPoint>, project: Projector, i: int,
                  score0: nat, dx0: real, dy0: real, ghost scores0: seq<nat>)
      returns (bestScore: nat, bestDx: real, bestDy: real, ghost scores: seq<nat>)
      requires grid.Valid() && 0 <= i < 3
      requires scores0 == OffsetScores(grid, x, y, heading, pts, project)[..3 * i]
      requires BestSoFar(scores0, score0, dx0, dy0)
      ensures scores == OffsetScores(grid, x, y, heading, pts, project)[..3 * i + 3]
      ensures BestSoFar(scores, bestScore, bestDx, bestDy)
    {
      bestScore, bestDx, bestDy, scores := score0, dx0, dy0, scores0;
      for j := 0 to 3
        invariant scores == OffsetScores(grid, x, y, heading, pts, project)[..3 * i + j]
        invariant BestSoFar(scores, bestScore, bestDx, bestDy)
      {
        bestScore, bestDx, bestDy, scores := TryOffset(grid, pts, project, i, j, bestScore, bestDx, bestDy, scores);
      }
    }

    /** One trial: score offset (`Deltas[i]`, `Deltas[j]`) and keep it when strictly better. */
    method TryOffset(grid: Grid.OccupancyGrid, pts: seq<ScanPoint>, project: Projector, i: int, j: int,
                     score0: nat, dx0: real, dy0: real, ghost scores0: seq<nat>)
      returns (bestScore: nat, bestDx: real, bestDy: real, ghost scores: seq<nat>)
      requires grid.Valid() && 0 <= i < 3 && 0 <= j < 3
      requires scores0 == OffsetScores(grid, x, y, heading, pts, project)[..3 * i + j]
      requires BestSoFar(scores0, score0, dx0, dy0)
      ensures scores == OffsetScores(grid, x, y, heading, pts, project)[..3 * i + j + 1]
      ensures BestSoFar(scores, bestScore, bestDx, bestDy)
    {
      ghost var all := OffsetScores(grid, x, y, heading, pts, project);
      var score := ScoreOffset(grid, x + Deltas[i], y + Deltas[j], pts, project);
      assert all[3 * i + j] == score;
      PrefixSnoc(all, 3 * i + j);
      BestStep(scores0, score, score0, dx0, dy0, i, j);
      scores := scores0 + [score];
      if score > score0 {
        bestScore, bestDx, bestDy := score, Deltas[i], Deltas[j];
      } else {
        bestScore, bestDx, bestDy := score0, dx0, dy0;
      }
    }

    /** The score of trial (i, j): offset `Deltas[i]` on x and `Deltas[j]` on y. */
    function Trial(grid: Grid.OccupancyGrid, x0: real, y0: real, h: real, pts: seq<ScanPoint>,
                   project: Projector, i: int, j: int): nat
      requires grid.Valid() && 0 <= i < 3 && 0 <= j < 3
      reads grid.grid
    {
      MatchScore(grid, x0 + Deltas[i], y0 + Deltas[j], h, pts, project)
    }

    /** The scores of the nine offsets, in the order the loops try them. */
    function OffsetScores(grid: Grid.OccupancyGrid, x0: real, y0: real, h: real, pts: seq<ScanPoint>,
                          project: Projector): (s: seq<nat>)
      requires grid.Valid()
      reads grid.grid
      ensures |s| == 9
      ensures forall i, j :: 0 <= i < 3 && 0 <= j < 3 ==> s[3 * i + j] == Trial(grid, x0, y0, h, pts, project, i, j)
    {
      [ Trial(grid, x0, y0, h, pts, project, 0, 0), Trial(grid, x0, y0, h, pts, project, 0, 1),
        Trial(grid, x0, y0, h, pts, project, 0, 2), Trial(grid, x0, y0, h, pts, project, 1, 0),
        Trial(grid, x0, y0, h, pts, project, 1, 1), Trial(grid, x0, y0, h, pts, project, 1, 2),
        Trial(grid, x0, y0, h, pts, project, 2, 0), Trial(grid, x0, y0, h, pts, project, 2, 1),
        Trial(grid, x0, y0, h, pts, project, 2, 2) ]
    }
  }

  /** `scan_points[:100]`. */
  function Prefix(pts: seq<ScanPoint>): (p: seq<ScanPoint>)
    ensures |p| == if |pts| < MatchedPoints then |pts| else MatchedPoints
    ensures p == pts[..|p|]
  {
    if |pts| <= MatchedPoints then pts else pts[..MatchedPoints]
  }

  /**
   * The winner of a run of scores under strict improvement from 0: the
   * first index holding the maximum, or -1 when every score is 0.
   */
  function FirstBest(s: seq<nat>): (k: int)
    ensures -1 <= k < |s|
    ensures k == -1 <==> forall i :: 0 <= i < |s| ==> s[i] == 0
    ensures k != -1 ==> && (forall i :: 0 <= i < |s| ==> s[i] <= s[k])
                        && (forall i :: 0 <= i < k ==> s[i] < s[k])
  {
    if s == [] then -1
    else
      var k := FirstBest(s[..|s| - 1]);
      var best := if k == -1 then 0 else s[k];
      if s[|s| - 1] > best then |s| - 1 else k
  }

  /** Extending the scores by one keeps the earlier winner unless the new score beats it. */
  lemma FirstBestSnoc(s: seq<nat>, v: nat)
    ensures var k := FirstBest(s); var best := if k == -1 then 0 else s[k];
      FirstBest(s + [v]) == if v > best then |s| else k
  {
    assert (s + [v])[..|s|] == s;
  }

  /** Trying trial (i, j) next updates the running best exactly as the loop body does. */
  lemma BestStep(scores: seq<nat>, score: nat, best: nat, dx: real, dy: real, i: int, j: int)
    requires 0 <= i < 3 && 0 <= j < 3 && |scores| == 3 * i + j
    requires BestSoFar(scores, best, dx, dy)
    ensures if score > best then BestSoFar(scores + [score], score, Deltas[i], Deltas[j])
            else BestSoFar(scores + [score], best, dx, dy)
  {
    FirstBestSnoc(scores, score);
    TrialIndex(i, j);
  }

  /**
   * The loop's running best: `score` is the best score so far (0 when
   * none is positive) and (dx, dy) the offset of its first occurrence, or
   * (0, 0) when there is none.
   */
  ghost predicate BestSoFar(scores: seq<nat>, score: nat, dx: real, dy: real)
  {
    var k := FirstBest(scores);
    && |scores| <= 9
    && (k == -1 ==> score == 0 && dx == 0.0 && dy == 0.0)
    && (k != -1 ==> score == scores[k] && dx == Deltas[k / 3] && dy == Deltas[k % 3])
  }
}
