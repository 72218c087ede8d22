/**
 * The sector-based reactive planner of path_planner.py. A scan is binned
 * into `sectorCount` angular sectors (sector 0 is at -180 degrees, the
 * centre sector `sectorCount / 2` faces forward); the planner drives forward
 * when the sectors around the centre are clear, turns towards the deepest
 * sector otherwise, and stops when nothing is open.
 */
module PathPlanner {
  import Motion
  import opened Wrappers
  import Mixer
  import Grid

  /** The planner's action words. */
  datatype Action = Forward | TurnLeft | TurnRight | Stop

  /** The command record built by `_cmd`. */
  datatype Command = Command(action: Action, speed: int, steering: int,
                             sectorDistances: seq<real>, bestSector: int)

  /** The stop command a planner returns when it has nothing to go on. */
  const Halt: Command := Command(Stop, 0, 0, [], -1)

  /**
   * The planner's settings (NAV_SECTOR_COUNT, NAV_OBSTACLE_THRESHOLD,
   * NAV_SPEED and NAV_FRONT_SECTOR_HALF); the planner never changes them.
   */
  datatype Config = Config(sectorCount: int, obstacleThreshold: real, speed: int, frontHalf: int)

  /** What the planner needs of its settings: two or more sectors and a positive threshold. */
  predicate ValidConfig(cfg: Config)
  {
    cfg.sectorCount >= 2 && cfg.obstacleThreshold > 0.0
  }

  // ------------------------------------------------------------------
  // Binning points into sectors
  // ------------------------------------------------------------------

  /** Python's float `a % 360.0`: the remainder takes the sign of the divisor. */
  function Mod360(a: real): (r: real)
    ensures 0.0 <= r < 360.0
    ensures ((a - r) / 360.0).Floor as real == (a - r) / 360.0
  {
    a - 360.0 * ((a / 360.0).Floor as real)
  }

  /** The sector a sample falls in: `min(int(((angle + 180) % 360) / width), n - 1)`. */
  function SectorOf(p: Motion.ScanPoint, n: int): (i: int)
    requires n >= 1
    ensures 0 <= i < n
  {
    var norm := Mod360(p.angle + 180.0);
    var width := 360.0 / (n as real);
    assert norm / width >= 0.0 by { NonNegQuotient(norm, width); }
    var idx := (norm / width).Floor;
    if idx < n - 1 then idx else n - 1
  }

  lemma NonNegQuotient(a: real, b: real)
    requires a >= 0.0 && b > 0.0
    ensures a / b >= 0.0
  {
  }

  /** Sum of the distances of the samples of `ps` that fall in sector `i`. */
  function SectorSum(ps: seq<Motion.ScanPoint>, i: int, n: int): real
    requires n >= 1
    decreases |ps|
  {
    if ps == [] then 0.0
    else SectorSum(ps[..|ps| - 1], i, n) + (if SectorOf(ps[|ps| - 1], n) == i then ps[|ps| - 1].distance else 0.0)
  }

  /** Number of samples of `ps` that fall in sector `i`. */
  function SectorCount(ps: seq<Motion.ScanPoint>, i: int, n: int): nat
    requires n >= 1
    decreases |ps|
  {
    if ps == [] then 0
    else SectorCount(ps[..|ps| - 1], i, n) + (if SectorOf(ps[|ps| - 1], n) == i then 1 else 0)
  }

  /** Mean distance in sector `i`, or 0.0 (unknown) for an empty sector. */
  function Average(ps: seq<Motion.ScanPoint>, i: int, n: int): real
    requires n >= 1
  {
    var k := SectorCount(ps, i, n);
    if k > 0 then SectorSum(ps, i, n) / (k as real) else 0.0
  }

  /** The sector profile of a scan. */
  function Averages(ps: seq<Motion.ScanPoint>, n: int): (r: seq<real>)
    requires n >= 1
    ensures |r| == n
    ensures forall i :: 0 <= i < n ==> r[i] == Average(ps, i, n)
  {
    seq(n, i requires 0 <= i < n => Average(ps, i, n))
  }

  /** `_build_sectors`: accumulate sums and counts per sector, then average them. */
  method BuildSectors(n: int, points: seq<Motion.ScanPoint>) returns (sectors: seq<real>)
    requires n >= 1
    ensures sectors == Averages(points, n)
  {
    var sums := new real[n](_ => 0.0);
    var counts := new int[n](_ => 0);
    for k := 0 to |points|
      invariant forall i :: 0 <= i < n ==> sums[i] == SectorSum(points[..k], i, n)
      invariant forall i :: 0 <= i < n ==> counts[i] == SectorCount(points[..k], i, n)
    {
      assert points[..k + 1][..k] == points[..k];
      var idx := SectorOf(points[k], n);
      sums[idx] := sums[idx] + points[k].distance;
      counts[idx] := counts[idx] + 1;
    }
    assert points[..|points|] == points;
    sectors := [];
    for i := 0 to n
      invariant |sectors| == i
      invariant forall j :: 0 <= j < i ==> sectors[j] == Average(points, j, n)
    {
      sectors := sectors + [if counts[i] > 0 then sums[i] / (counts[i] as real) else 0.0];
    }
  }

  /** Sum of the counts of the first `m` sectors. */
  function CountUpTo(ps: seq<Motion.ScanPoint>, n: int, m: int): nat
    requires n >= 1
    decreases if m < 0 then 0 else m
  {
    if m <= 0 then 0 else CountUpTo(ps, n, m - 1) + SectorCount(ps, m - 1, n)
  }

  /** Adding one sample raises the count of exactly its own sector. */
  lemma {:induction false} CountUpToSnoc(ps: seq<Motion.ScanPoint>, p: Motion.ScanPoint, n: int, m: int)
    requires n >= 1 && 0 <= m <= n
    ensures CountUpTo(ps + [p], n, m) == CountUpTo(ps, n, m) + (if SectorOf(p, n) < m then 1 else 0)
  {
    assert (ps + [p])[..|ps + [p]| - 1] == ps;
    if m > 0 {
      CountUpToSnoc(ps, p, n, m - 1);
    }
  }

  /** An empty scan has no sample in any sector. */
  lemma {:induction false} CountUpToEmpty(n: int, m: int)
    requires n >= 1 && 0 <= m
    ensures CountUpTo([], n, m) == 0
  {
    if m > 0 {
      CountUpToEmpty(n, m - 1);
    }
  }

  /** Every sample is counted in exactly one sector: the counts add up to the number of samples. */
  lemma {:induction false} EverySampleBinnedOnce(ps: seq<Motion.ScanPoint>, n: int)
    requires n >= 1
    ensures CountUpTo(ps, n, n) == |ps|
  {
    if ps == [] {
      CountUpToEmpty(n, n);
    } else {
      var init := ps[..|ps| - 1];
      assert init + [ps[|ps| - 1]] == ps;
      EverySampleBinnedOnce(init, n);
      CountUpToSnoc(init, ps[|ps| - 1], n, n);
      assert CountUpTo(ps, n, n) == CountUpTo(init, n, n) + 1;
    }
  }

  /** With non-negative ranges, every sector sum is non-negative. */
  lemma {:induction false} SectorSumNonNeg(ps: seq<Motion.ScanPoint>, i: int, n: int)
    requires n >= 1
    requires forall k :: 0 <= k < |ps| ==> ps[k].distance >= 0.0
    ensures SectorSum(ps, i, n) >= 0.0
  {
    if ps != [] {
      SectorSumNonNeg(ps[..|ps| - 1], i, n);
    }
  }

  /** With non-negative ranges, the sector profile is non-negative. */
  lemma AveragesNonNeg(ps: seq<Motion.ScanPoint>, n: int)
    requires n >= 1
    requires forall k :: 0 <= k < |ps| ==> ps[k].distance >= 0.0
    ensures forall i :: 0 <= i < n ==> Averages(ps, n)[i] >= 0.0
  {
    forall i | 0 <= i < n
      ensures Averages(ps, n)[i] >= 0.0
    {
      SectorSumNonNeg(ps, i, n);
      if SectorCount(ps, i, n) > 0 {
        NonNegQuotient(SectorSum(ps, i, n), SectorCount(ps, i, n) as real);
      }
    }
  }

  // ------------------------------------------------------------------
  // Front check and best sector
  // ------------------------------------------------------------------

  /** Sector `i` (taken modulo `n`) is known (non-zero) and at least the threshold. */
  predicate Open(sectors: seq<real>, i: int, n: int, threshold: real)
    requires n >= 1 && |sectors| == n
  {
    sectors[i % n] >= threshold && sectors[i % n] != 0.0
  }

  /** Every sector in `centre - frontHalf .. centre + frontHalf`, wrapped modulo the count, is open. */
  predicate FrontClear(cfg: Config, sectors: seq<real>)
    requires cfg.sectorCount >= 1 && |sectors| == cfg.sectorCount
  {
    var centre := cfg.sectorCount / 2;
    forall i :: centre - cfg.frontHalf <= i < centre + cfg.frontHalf + 1 ==>
      Open(sectors, i, cfg.sectorCount, cfg.obstacleThreshold)
  }

  /** `_front_is_clear`. */
  method FrontIsClear(cfg: Config, sectors: seq<real>) returns (clear: bool)
    requires cfg.sectorCount >= 1 && |sectors| == cfg.sectorCount
    ensures clear <==> FrontClear(cfg, sectors)
  {
    var n := cfg.sectorCount;
    var centre := n / 2;
    var i := centre - cfg.frontHalf;
    while i < centre + cfg.frontHalf + 1
      invariant forall j :: centre - cfg.frontHalf <= j < i ==> Open(sectors, j, n, cfg.obstacleThreshold)
      decreases centre + cfg.frontHalf + 1 - i
    {
      var idx := i % n;
      if sectors[idx] < cfg.obstacleThreshold || sectors[idx] == 0.0 {
        assert !Open(sectors, i, n, cfg.obstacleThreshold);
        return false;
      }
      i := i + 1;
    }
    return true;
  }

  /**
   * What `_best_sector` returns: -1 when no sector reaches the threshold,
   * otherwise the lowest index holding the maximum.
   */
  predicate IsBest(sectors: seq<real>, threshold: real, best: int)
  {
    && (best == -1 <==> forall i :: 0 <= i < |sectors| ==> sectors[i] < threshold)
    && (best != -1 ==>
          && 0 <= best < |sectors|
          && sectors[best] >= threshold
          && (forall j :: 0 <= j < |sectors| ==> sectors[j] <= sectors[best])
          && (forall j :: 0 <= j < best ==> sectors[j] < sectors[best]))
  }

  /** `_best_sector`: the first strict maximum above 0.0, or -1 if it is below the threshold. */
  method BestSector(sectors: seq<real>, threshold: real) returns (best: int)
    requires threshold > 0.0
    ensures IsBest(sectors, threshold, best)
  {
    var bestIdx := -1;
    var bestDist := 0.0;
    for i := 0 to |sectors|
      invariant bestIdx == -1 ==> bestDist == 0.0 && forall j :: 0 <= j < i ==> sectors[j] <= 0.0
      invariant bestIdx != -1 ==> 0 <= bestIdx < i && bestDist == sectors[bestIdx] > 0.0
      invariant forall j :: 0 <= j < i ==> sectors[j] <= bestDist
      invariant bestIdx != -1 ==> forall j :: 0 <= j < bestIdx ==> sectors[j] < bestDist
    {
      if sectors[i] > bestDist {
        bestDist := sectors[i];
        bestIdx := i;
      }
    }
    if bestDist < threshold {
      return -1;
    }
    return bestIdx;
  }

  /** A scan's maximum decides whether `_best_sector` finds anything, and two answers cannot differ. */
  lemma BestIsUnique(sectors: seq<real>, threshold: real, b1: int, b2: int)
    requires IsBest(sectors, threshold, b1) && IsBest(sectors, threshold, b2)
    ensures b1 == b2
  {
  }

  /**
   * A clear front window includes the centre sector, which is then at or
   * above the threshold, so a best sector exists: plan_step's Stop branch
   * is reached only when the front is blocked.
   */
  lemma ClearFrontHasBest(cfg: Config, sectors: seq<real>, best: int)
    requires ValidConfig(cfg) && |sectors| == cfg.sectorCount && cfg.frontHalf >= 0
    requires FrontClear(cfg, sectors) && IsBest(sectors, cfg.obstacleThreshold, best)
    ensures best != -1 && sectors[best] >= cfg.obstacleThreshold
  {
    var centre := cfg.sectorCount / 2;
    assert Open(sectors, centre, cfg.sectorCount, cfg.obstacleThreshold);
    assert centre % cfg.sectorCount == centre;
  }

  // ------------------------------------------------------------------
  // Turning
  // ------------------------------------------------------------------

  /** `int(min(100, max(20, offset * (100 / centre))))` for a sector offset from the centre. */
  function Steering(offset: int, centre: int): (s: int)
    requires offset >= 0 && centre >= 1
    ensures 20 <= s <= 100
    ensures offset >= centre ==> s == 100
  {
    var raw := (offset as real) * (100.0 / (centre as real));
    assert offset >= centre ==> raw >= 100.0 by {
      if offset >= centre { ScaleAtLeastHundred(offset, centre); }
    }
    var bounded := if raw < 20.0 then 20.0 else if raw > 100.0 then 100.0 else raw;
    bounded.Floor
  }

  lemma ScaleAtLeastHundred(offset: int, centre: int)
    requires 1 <= centre <= offset
    ensures (offset as real) * (100.0 / (centre as real)) >= 100.0
  {
    var q := 100.0 / (centre as real);
    assert (centre as real) * q == 100.0;
    assert (offset as real) * q >= (centre as real) * q by {
      assert q > 0.0;
      assert offset as real >= centre as real;
    }
  }

  /**
   * The command `plan_step` gives for a scan: no points means stop; a
   * clear front means forward; no open sector means stop; otherwise turn
   * towards the best sector, right when it lies below the centre index and
   * left otherwise, by the scaled offset of the best sector from the centre.
   */
  predicate Reacts(cfg: Config, scan: Option<seq<Motion.ScanPoint>>, cmd: Command)
    requires ValidConfig(cfg)
  {
    if scan.None? || scan.value == [] then cmd == Halt
    else
      var sectors := Averages(scan.value, cfg.sectorCount);
      var centre := cfg.sectorCount / 2;
      && cmd.sectorDistances == sectors
      && IsBest(sectors, cfg.obstacleThreshold, cmd.bestSector)
      && (FrontClear(cfg, sectors) ==> cmd.action == Forward && cmd.speed == cfg.speed && cmd.steering == 0)
      && (!FrontClear(cfg, sectors) && cmd.bestSector == -1 ==>
            cmd.action == Stop && cmd.speed == 0 && cmd.steering == 0)
      && (!FrontClear(cfg, sectors) && 0 <= cmd.bestSector < centre ==>
            cmd.action == TurnRight && cmd.speed == cfg.speed
            && cmd.steering == Steering(centre - cmd.bestSector, centre))
      && (!FrontClear(cfg, sectors) && cmd.bestSector >= centre ==>
            cmd.action == TurnLeft && cmd.speed == cfg.speed
            && cmd.steering == -Steering(cmd.bestSector - centre, centre))
  }

  /** A scan has exactly one reaction: the command of `plan_step` is a function of the scan. */
  lemma ReactsUnique(cfg: Config, scan: Option<seq<Motion.ScanPoint>>, a: Command, b: Command)
    requires ValidConfig(cfg) && Reacts(cfg, scan, a) && Reacts(cfg, scan, b)
    ensures a == b
  {
    if scan.Some? && scan.value != [] {
      var sectors := Averages(scan.value, cfg.sectorCount);
      BestIsUnique(sectors, cfg.obstacleThreshold, a.bestSector, b.bestSector);
    }
  }

  /** `plan_step`: the reaction to the scan, with its steering between 20 and 100 either way. */
  method PlanStep(cfg: Config, scan: Option<seq<Motion.ScanPoint>>) returns (cmd: Command)
    requires ValidConfig(cfg)
    ensures Reacts(cfg, scan, cmd)
    ensures cmd.action == TurnRight ==> 20 <= cmd.steering <= 100
    ensures cmd.action == TurnLeft ==> -100 <= cmd.steering <= -20
  {
    if scan.None? || scan.value == [] {
      return Halt;
    }
    var sectors := BuildSectors(cfg.sectorCount, scan.value);
    var best := BestSector(sectors, cfg.obstacleThreshold);
    var frontClear := FrontIsClear(cfg, sectors);
    if frontClear {
      return Command(Forward, cfg.speed, 0, sectors, best);
    }
    if best < 0 {
      return Command(Stop, 0, 0, sectors, best);
    }
    var centre := cfg.sectorCount / 2;
    if best < centre {
      var steering := Steering(centre - best, centre);
      return Command(TurnRight, cfg.speed, steering, sectors, best);
    } else {
      var steering := Steering(best - centre, centre);
      return Command(TurnLeft, cfg.speed, -steering, sectors, best);
    }
  }

  // ------------------------------------------------------------------
  // Command to joystick
  // ------------------------------------------------------------------

  /** Python's `int(v * 0.5)`: halve and truncate toward zero. */
  function HalfTowardZero(v: int): (h: int)
    ensures Grid.Truncates(v as real * 0.5, h)
  {
    if v >= 0 then v / 2 else -((-v) / 2)
  }

  /** `command_to_joystick`: the (x, y) reading that `apply_joystick` is then given. */
  function CommandToJoystick(cmd: Command): (j: (int, int))
    ensures cmd.action == Stop ==> j == (0, 0)
    ensures cmd.action == Forward ==> j == (0, cmd.speed)
    ensures cmd.action == TurnLeft || cmd.action == TurnRight ==>
      j.0 == cmd.steering && Grid.Truncates(cmd.speed as real * 0.5, j.1)
  {
    match cmd.action
    case Forward => (0, cmd.speed)
    case TurnLeft => (cmd.steering, HalfTowardZero(cmd.speed))
    case TurnRight => (cmd.steering, HalfTowardZero(cmd.speed))
    case Stop => (0, 0)
  }

  /**
   * What the mixer makes of a planner command: stop idles both motors,
   * forward drives both wheels forward alike, turn_right runs the left wheel
   * (motor A) faster than the right one and turn_left the other way round.
   */
  lemma CommandDrivesWheels(cmd: Command)
    requires 0 <= cmd.speed <= 100
    requires cmd.action == TurnRight ==> 20 <= cmd.steering <= 100
    requires cmd.action == TurnLeft ==> -100 <= cmd.steering <= -20
    ensures var (x, y) := CommandToJoystick(cmd);
      && (cmd.action == Stop ==> Mixer.Mix(x, y) == Motion.AllStopped)
      && (cmd.action == Forward && cmd.speed >= Mixer.DeadZoneLimit ==>
            Mixer.Mix(x, y).motorA == Mixer.Mix(x, y).motorB == Motion.MotorStatus(Motion.Forward, cmd.speed))
      && (cmd.action == TurnRight ==>
            Mixer.Signed(Mixer.Mix(x, y).motorA) > Mixer.Signed(Mixer.Mix(x, y).motorB))
      && (cmd.action == TurnLeft ==>
            Mixer.Signed(Mixer.Mix(x, y).motorA) < Mixer.Signed(Mixer.Mix(x, y).motorB))
  {
    var (x, y) := CommandToJoystick(cmd);
    Mixer.MixDirections(x, y);
    match cmd.action {
      case Stop =>
      case Forward =>
        assert x == 0 && y == cmd.speed;
        if cmd.speed >= Mixer.DeadZoneLimit {
          assert Mixer.LeftRaw(x, y) == Mixer.RightRaw(x, y) == cmd.speed;
        }
      case TurnRight =>
        assert Mixer.DeadZone(x) == x > 0;
        assert Mixer.LeftRaw(x, y) > Mixer.RightRaw(x, y);
      case TurnLeft =>
        assert Mixer.DeadZone(x) == x < 0;
        assert Mixer.LeftRaw(x, y) < Mixer.RightRaw(x, y);
    }
  }
}
