# Rover backend model

A Dafny model of the control core of a small LiDAR rover backend (hyva_rover). It covers:

- **Joystick mixer.** Readings from a Socket.IO client or a Firebase listener pass through a per-axis dead zone. They are then mixed into left and right wheel commands, `y + x` and `y - x` clamped to [-100, 100]. Each wheel becomes a direction word and a speed.
- **Motor drivers.** Two L298N driver classes (`main_dual_motor.py` and `main.py`) turn these into H-bridge pin levels and PWM duty cycles.
- **Server state.** The server keeps the reported `motor_state`, the mapping, navigation and exploration flags, and the stop events.
- **Firebase watchdog.** It stops the rover once when commands stop arriving.
- **Occupancy grid.** A tri-state grid (UNKNOWN 0, FREE 1, OCCUPIED 100) supports:
  - world/cell transforms;
  - Bresenham ray casting;
  - scan integration;
  - frontier clustering;
  - wall runs and corners;
  - statistics, room bounds and the downsampled UI view.
- **Pose estimator.** It has a PWM-to-velocity conversion, a dt guard, a history capped at 500 poses, and a nine-offset scan-match correction.
- **Planners.**
  - The reactive planner does sector averaging, a front-clear test, the best sector and the steering decision.
  - The exploration planner keeps waypoint bookkeeping and runs a 4-connected A* search.
- **Map manager.** A file-name sanitiser, and the map store keyed by the sanitised name.

Layout (one module per source file, plus shared modules):

| file | module | models |
|---|---|---|
| wrappers.dfy | `Wrappers` | `Option` for Python's `None` |
| motion.dfy | `Motion` | direction words, motor state, LiDAR sample, projector type |
| mixer.dfy | `Mixer` | `clamp` and the pure part of `apply_joystick` |
| hbridge.dfy | `HBridge` | pin levels of one H-bridge channel |
| main_dual_motor.dfy | `MainDualMotor` | `L298NDualMotor` of main_dual_motor.py |
| main_driver.dfy | `MainDriver` | `L298NDualMotor` of main.py |
| server.dfy | `Server` | server.py's globals and handlers |
| firebase_listener.dfy | `FirebaseListener` | firebase_listener.py's globals and callbacks |
| regions.dfy | `Regions` | 4-connected flood fill and straight runs of cells |
| occupancy_grid.dfy | `Grid` | `OccupancyGrid` |
| pose_estimator.dfy | `Pose` | `PoseEstimator` |
| path_planner.dfy | `PathPlanner` | the reactive `PathPlanner` |
| exploration.dfy | `Exploration` | `ExplorationPlanner`, `_angle_diff`, `_a_star` |
| map_manager.dfy | `MapManager` | `_sanitize` and the map store |

How the source is modelled:

- **Mutable objects are classes.** The drivers, the grid (an `array2<int>`), the pose estimator, the exploration planner, the server and the listener are all Dafny classes.
- **Pure code is functions.**
- **Loops are methods.** Each one is proved against a specification function or predicate.
- **Parameters stand in for what the model cannot compute.** These are:
  - the clock (`now`);
  - trigonometry (a `Projector` for scan end points, a `Kinematics` function for the pose step, a `bearing` function for `atan2`);
  - waypoint generation (`generate`);
  - the configuration constants that config.py does not define (sector count, thresholds, ranges, grid size).
- **Drive first, then flags.** `handle_joystick` and `handle_emergency_stop` set their stop events before they drive. The drive touches neither the events nor the task flags, so the model drives first and ends in the same state.
- **The map store is a map from paths to files.** Only the key derivation and the effect of each operation on the store are modelled.

## Model

| member | source | states |
|---|---|---|
| Mixer.Clamp | server.py:106-107 | the result lies in [lo, hi]; it is v inside the range, lo below it and hi above it |
| Mixer.DeadZone | server.py:116-121 | an axis reads as 0 exactly when its magnitude is below 5, and is otherwise unchanged |
| Mixer.DirectionOf | server.py:128-129 | `forward` iff the raw value is positive, `backward` iff it is negative |
| Mixer.Wheel | server.py:126-129 | the direction is `stop` iff the speed is 0, and the signed speed is the raw value |
| Mixer.LeftRaw | server.py:116-123 | the left wheel value `clamp(y + x)` lies in [-100, 100] and is the right wheel value of the mirrored reading |
| Mixer.RightRaw | server.py:116-124 | the right wheel value `clamp(y - x)` lies in [-100, 100] |
| Mixer.Mix | server.py:110-129 | both speeds lie in [0, 100]; a wheel is `stop` iff its speed is 0; a reading inside the dead zone on both axes idles both motors |
| Mixer.WheelRoundTrip | server.py:128-129 | direction and speed together give back the signed wheel value |
| Mixer.MixDirections | server.py:123-129 | a wheel is forward iff its clamped mixed value is positive and backward iff it is negative; the signed view equals that clamped value |
| Mixer.DeadZonePerAxis | server.py:116-127 | a small x acts like x = 0 whatever y is, and vice versa; outside the dead zone the raw wheel values are clamp(y + x) and clamp(y - x) |
| Mixer.MixMirror | server.py:118-129 | negating x swaps motor A and motor B |
| Mixer.MixReverse | server.py:118-129 | negating both axes reverses both wheels at the same speeds |
| Mixer.ZeroStops | server.py:252-255 | the reading (0, 0) idles both motors |
| Mixer.Spins | server.py:287-290 | (-100, 0) gives A backward 100 and B forward 100; (100, 0) gives the reverse |
| Mixer.Straight | server.py:123-129 | a pure throttle drives both wheels alike, forward at min(y, 100) once y is past the dead zone |
| HBridge.Drive | main_dual_motor.py:73-82 | writing a channel sets its two pins to the given levels and leaves every other pin as it was |
| HBridge.AgreesNotBothHigh | main_dual_motor.py:73-103 | pins that agree with a direction word never have both inputs HIGH |
| HBridge.ForwardAfterBackwardPassesBrake | main_dual_motor.py:73-93 | switching from backward to forward writes IN1 HIGH first, so both inputs are HIGH for a moment; once both writes are done they are not |
| MainDualMotor.L298NDualMotor.Status | main_dual_motor.py:190-195 | both reported speeds lie in [0, 100] |
| MainDualMotor.L298NDualMotor.NeverBothHigh | main_dual_motor.py:73-153 | in every valid driver state neither channel has both inputs HIGH |
| MainDualMotor.L298NDualMotor.constructor | main_dual_motor.py:24-71 | a new driver reports both motors `{stop, 0}` with zero duty cycles and both PWM channels running |
| MainDualMotor.L298NDualMotor.MotorAForward | main_dual_motor.py:73-82 | speed clamped to [0, 100] and used as duty A, direction forward, IN1/IN2 HIGH/LOW; motor B untouched |
| MainDualMotor.L298NDualMotor.MotorABackward | main_dual_motor.py:84-93 | speed clamped and used as duty A, direction backward, IN1/IN2 LOW/HIGH; motor B untouched |
| MainDualMotor.L298NDualMotor.MotorAStop | main_dual_motor.py:95-103 | speed 0, duty 0, direction stop, both pins LOW; motor B untouched |
| MainDualMotor.L298NDualMotor.MotorASetSpeed | main_dual_motor.py:105-111 | only the speed and duty change, clamped; direction and pins are unchanged |
| MainDualMotor.L298NDualMotor.MotorBForward | main_dual_motor.py:115-124 | as for motor A, on IN3/IN4 and duty B; motor A untouched |
| MainDualMotor.L298NDualMotor.MotorBBackward | main_dual_motor.py:126-135 | as for motor A backward, on IN3/IN4; motor A untouched |
| MainDualMotor.L298NDualMotor.MotorBStop | main_dual_motor.py:137-145 | speed 0, duty 0, direction stop, IN3/IN4 LOW; motor A untouched |
| MainDualMotor.L298NDualMotor.MotorBSetSpeed | main_dual_motor.py:147-153 | only motor B's speed and duty change, clamped |
| MainDualMotor.L298NDualMotor.BothForward | main_dual_motor.py:157-160 | both motors forward at their clamped speeds |
| MainDualMotor.L298NDualMotor.BothBackward | main_dual_motor.py:162-165 | both motors backward at their clamped speeds |
| MainDualMotor.L298NDualMotor.BothStop | main_dual_motor.py:167-170 | both motors `{stop, 0}`, all four inputs LOW |
| MainDualMotor.L298NDualMotor.TurnLeft | main_dual_motor.py:172-179 | both motors forward; a missing motor B speed becomes the default speed |
| MainDualMotor.L298NDualMotor.TurnRight | main_dual_motor.py:181-188 | both motors forward; a missing motor A speed becomes the default speed |
| MainDualMotor.L298NDualMotor.Cleanup | main_dual_motor.py:197-199 | both motors `{stop, 0}` and both PWM channels stopped |
| MainDualMotor.DriveTo | server.py:131-144 | driving each wheel by its direction word leaves the driver reporting exactly the mixed state |
| MainDriver.L298NDualMotor.Status | main.py:165-170 | both reported speeds lie in [0, 100] |
| MainDriver.L298NDualMotor.NeverBothHigh | main.py:66-146 | in every valid driver state neither channel has both inputs HIGH |
| MainDriver.L298NDualMotor.constructor | main.py:24-64 | a new driver reports both motors `{stop, 0}` |
| MainDriver.L298NDualMotor.MotorAForward | main.py:66-75 | speed clamped, direction forward, IN1/IN2 HIGH/LOW; motor B untouched |
| MainDriver.L298NDualMotor.MotorABackward | main.py:77-86 | speed clamped, direction backward, IN1/IN2 LOW/HIGH; motor B untouched |
| MainDriver.L298NDualMotor.MotorAStop | main.py:88-96 | speed 0, direction stop, both pins LOW; motor B untouched |
| MainDriver.L298NDualMotor.MotorASetSpeed | main.py:98-104 | speed clamped; direction and pins unchanged |
| MainDriver.L298NDualMotor.MotorBForward | main.py:108-117 | as for motor A, on IN3/IN4; motor A untouched |
| MainDriver.L298NDualMotor.MotorBBackward | main.py:119-128 | as for motor A backward, on IN3/IN4; motor A untouched |
| MainDriver.L298NDualMotor.MotorBStop | main.py:130-138 | speed 0, direction stop, IN3/IN4 LOW; motor A untouched |
| MainDriver.L298NDualMotor.MotorBSetSpeed | main.py:140-146 | motor B speed clamped; direction and pins unchanged |
| MainDriver.L298NDualMotor.BothForward | main.py:150-153 | both motors forward at their clamped speeds |
| MainDriver.L298NDualMotor.BothBackward | main.py:155-158 | both motors backward at their clamped speeds |
| MainDriver.L298NDualMotor.BothStop | main.py:160-163 | both motors `{stop, 0}`, all inputs LOW |
| MainDriver.L298NDualMotor.Cleanup | main.py:172-174 | both motors `{stop, 0}` and both PWM channels stopped |
| Server.RoverServer.constructor | server.py:55-78 | at start-up both motors are stopped, no task is active and no event is set |
| Server.RoverServer.ApplyJoystick | server.py:110-157 | `motor_state` becomes the mixed reading and `DroveTo` holds: driven motors report it, simulated ones keep their old status, and the pose estimator integrates the wheel commands over the clock's step; the grid, task flags and stop events are unchanged |
| Server.RoverServer.HandleDisconnect | server.py:252-255 | a disconnect drives (0, 0): `DroveTo` the stopped state, so driven motors stop and the pose estimator takes a stopped step; the grid, task flags and stop events are unchanged |
| Server.RoverServer.RestStop | server.py:171-177 | the stop route leaves both motors stopped and reports so, a simulated driver untouched; the grid, task flags and stop events are unchanged |
| Server.RoverServer.HandleStartAction | server.py:331-344 | a new action starts with its stop event cleared; the other events, the task flags, the motor state and the grid are unchanged |
| Server.RoverServer.HandleStopAction | server.py:347-350 | the action's stop event is set; the other events, the task flags, the motor state and the grid are unchanged |
| Server.RoverServer.HandleJoystick | server.py:353-362 | the action stop event ends up set iff it was set or an action is running; the mixed reading, with a missing axis read as 0, is driven as for `ApplyJoystick` (`DroveTo`); the grid, task flags and other events are unchanged |
| Server.RoverServer.HandleEmergencyStop | server.py:365-380 | every stop event is set, all three task flags are false, the result is the stopped state and `DroveTo` it holds (motors stopped, pose stepped with stopped wheels); the grid is unchanged |
| Server.RoverServer.HandleStartMapping | server.py:459-485 | while mapping or without a LiDAR nothing changes, the pose included; otherwise an existing grid is replaced by a fresh blank one of the configured size and resolution, the pose is reset to the origin at `now`, and mapping is active with its event cleared; the other events and flags and the motor state are unchanged |
| Server.RoverServer.HandleStopMapping | server.py:488-495 | the mapping event is set and mapping is off; the other events and flags, the motor state and the grid are unchanged |
| Server.RoverServer.HandleStartExploration | server.py:593-614 | while exploring or without a LiDAR the exploration flag and event are unchanged; otherwise exploration is active with its event cleared; in both cases the other events and flags, the motor state and the grid are unchanged |
| Server.RoverServer.HandleStopExploration | server.py:617-624 | the exploration event is set and exploration is off; the other events and flags, the motor state and the grid are unchanged |
| Server.RoverServer.HandleStartNavigation | server.py:707-727 | while navigating or without a LiDAR the navigation flag and event are unchanged; otherwise navigation is active with its event cleared; in both cases the other events and flags, the motor state and the grid are unchanged |
| Server.RoverServer.HandleStopNavigation | server.py:730-737 | the navigation event is set and navigation is off; the other events and flags, the motor state and the grid are unchanged |
| FirebaseListener.WatchdogStopsOnce | firebase_listener.py:142-150 | between two commands the watchdog stops at most once, never when already stopped, and exactly once if some tick is past 0.8 s |
| FirebaseListener.Listener.constructor | firebase_listener.py:137-139 | the listener starts with the latch set, counting as stopped |
| FirebaseListener.Listener.ApplyJoystick | firebase_listener.py:83-131 | the same mixing as the server; driven motors report the result; simulation leaves them alone |
| FirebaseListener.Listener.StopMotors | firebase_listener.py:182 | the (0, 0) reading leaves driven motors stopped, and a simulated driver keeps its status |
| FirebaseListener.Listener.OnJoystickChange | firebase_listener.py:156-174 | a non-dictionary payload changes nothing; a dictionary drives the mix of its axes (missing as 0), records the time and releases the latch |
| FirebaseListener.Listener.WatchdogTick | firebase_listener.py:147-150 | a tick stops iff more than 0.8 s have passed and the latch is clear, then latches; otherwise the motors are untouched |
| FirebaseListener.Listener.OnEmergencyStop | firebase_listener.py:178-182 | any payload but none stops the motors; none is ignored |
| FirebaseListener.Listener.Shutdown | firebase_listener.py:218-221 | shutdown leaves both motors stopped and the PWM channels released |
| Regions.Neighbour | occupancy_grid.py:145-147 | each of the four steps gives a 4-adjacent cell |
| Regions.AdjacentIsStep | occupancy_grid.py:166-169 | every 4-adjacent cell is one of the four steps |
| Regions.KeepAtLeast | occupancy_grid.py:170-171 | exactly the groups of at least n cells are kept |
| Regions.UnionMember | occupancy_grid.py:155-171 | a cell is in the union iff it is in some group |
| Regions.FloodFill | occupancy_grid.py:158-169 | the cluster starts at the seed, is duplicate-free and connected, holds only unvisited cells, and is closed under adjacency within the cell set |
| Regions.ClusterFrontiers | occupancy_grid.py:153-171 | the groups found are exactly the connected components of the frontier cells; every cluster returned is a component of at least 3 cells, and every such component is returned |
| Regions.LargeComponentsKept | occupancy_grid.py:170-171 | keeping the components of at least n cells keeps components only and misses none of that size |
| Regions.ComponentsMeetingAgree | occupancy_grid.py:156-169 | two connected components that share a cell hold the same cells, so a flood fill finds each component once |
| Regions.ConnectedInsideClosed | occupancy_grid.py:156-169 | a connected list of cells that meets a closed set lies entirely inside it |
| Regions.DistinctSize | occupancy_grid.py:166-169 | a list without repeats has as many cells as entries |
| Regions.NewComponent | occupancy_grid.py:156-171 | a closed, connected flood from an unvisited seed is a whole component |
| Regions.FindRuns | occupancy_grid.py:234-274 | the runs found partition the occupied cells into maximal straight runs; every run returned is a maximal run of at least 5 cells, every such run is returned, and the runs start in row-major order, as the sorted scan of the source finds them |
| Regions.LongRunsKept | occupancy_grid.py:262-271 | keeping the segments of at least n cells keeps maximal runs only and misses none of that length |
| Regions.RunIsMaximal | occupancy_grid.py:241-262 | a run started where the cell before it is free, and extended until an occupied cell ends, is maximal |
| Regions.MaximalRunUnique | occupancy_grid.py:234-274 | two maximal runs on one axis that share a cell are the same run |
| Grid.TruncReal | occupancy_grid.py:56-57 | Python's `int()` on a real: `Truncates`, truncation toward zero, so the result lies within 1 of the value on the side of 0 |
| Grid.TruncOfInt | occupancy_grid.py:39 | truncation leaves integers unchanged |
| Grid.OccupancyGrid.WorldToCell | occupancy_grid.py:54-58 | the column offset from the origin cell is `x / resolution` truncated toward zero, and the row offset is `-y / resolution` truncated |
| Grid.OccupancyGrid.CellToWorldSigns | occupancy_grid.py:60-64 | columns right of the origin cell have positive x, columns left of it negative x; rows above it positive y, rows below it negative y |
| Grid.OccupancyGrid.NearPointInBounds | occupancy_grid.py:54-67 | a point closer to the origin than `origin_cell` cells along both axes maps to a cell `in_bounds` accepts |
| Grid.RayBounded | occupancy_grid.py:113-128 | the ray visits at most dr + dc + 1 cells and starts at the robot's cell |
| Grid.RayEndsAtTarget | occupancy_grid.py:116-128 | the Bresenham walk reaches the end cell, and the end cell is its last cell |
| Grid.BresenhamStep | occupancy_grid.py:121-127 | every step moves on at least one axis, and never past the target on either axis |
| Grid.AfterScan | occupancy_grid.py:96-101 | a cell becomes OCCUPIED iff it was so or a sample ends in it; otherwise it becomes FREE only from UNKNOWN, on a ray |
| Grid.OccupancyGrid.constructor | occupancy_grid.py:31-48 | `cells` is int(size / resolution), every cell is UNKNOWN, the origin is `cells // 2`, and there are no scans, walls or corners |
| Grid.OccupancyGrid.CellRoundTrip | occupancy_grid.py:54-64 | `world_to_cell(cell_to_world(r, c)) == (r, c)` with exact arithmetic |
| Grid.OccupancyGrid.OriginCellSpan | occupancy_grid.py:54-58 | every point within one resolution of the origin falls in the origin cell, because the division truncates toward zero |
| Grid.OccupancyGrid.RayCastFree | occupancy_grid.py:105-128 | exactly the in-bounds cells on the ray that were not OCCUPIED become FREE; nothing else changes |
| Grid.OccupancyGrid.MarkFree | occupancy_grid.py:117-118 | one in-bounds cell becomes FREE unless it is OCCUPIED |
| Grid.OccupancyGrid.UpdateFromScan | occupancy_grid.py:73-103 | every cell ends as `AfterScan` of its old value, given whether an accepted sample ends in it and whether one of their rays crosses it; `scan_count` goes up by exactly 1 |
| Grid.OccupancyGrid.ScanStepSkipped | occupancy_grid.py:86-87 | a sample outside the range window changes neither the hits nor the rays |
| Grid.OccupancyGrid.CountPartition | occupancy_grid.py:282-285 | the UNKNOWN, FREE and OCCUPIED counts add up to the number of cells |
| Grid.OccupancyGrid.GetStats | occupancy_grid.py:280-299 | the stats report cells², the FREE and OCCUPIED counts, the scan count and the wall and corner counts |
| Grid.OccupancyGrid.StatsConsistent | occupancy_grid.py:282-286 | free + occupied + unknown = cells², and `explored_pct` lies in [0, 100] |
| Grid.OccupancyGrid.BlankGridStats | occupancy_grid.py:280-286 | a blank grid has nothing free or occupied and is 0 % explored |
| Grid.OccupancyGrid.OccupiedExtent | occupancy_grid.py:303-307 | None iff no cell is OCCUPIED; otherwise the tightest row and column box around the OCCUPIED cells |
| Grid.OccupancyGrid.GetRoomBounds | occupancy_grid.py:301-315 | None iff no cell is OCCUPIED; otherwise the tight world box of the OCCUPIED cells: it holds every one of them, each of its four sides is reached by one, and width and height are its side lengths |
| Grid.OccupancyGrid.ToUiJson | occupancy_grid.py:385-396 | the view is square with side `ceil(cells / step)` for `step = max(1, cells // 100)`; sample (i, j) is cell (i * step, j * step); the resolution is scaled by `step`, the origin is `origin_cell // step`, and the stats and size are the grid's |
| Grid.OccupancyGrid.UiRows | occupancy_grid.py:389 | `grid[::step, ::step]`: a square of side `ceil(cells / step)` holding cell (i * step, j * step) at (i, j) |
| Grid.OccupancyGrid.UiViewShape | occupancy_grid.py:387-395 | `step = max(1, cells // 100)` is at least 1; the samples cover the grid; the reported origin is `origin_cell // step` |
| Grid.OccupancyGrid.SmallGridShownWhole | occupancy_grid.py:387-395 | a grid under 200 cells is shown whole at its own resolution |
| Grid.OccupancyGrid.FrontierCells | occupancy_grid.py:139-148 | exactly the interior FREE cells with an UNKNOWN 4-neighbour, in row-major order |
| Grid.OccupancyGrid.CentroidsOf | occupancy_grid.py:173-184 | one record per cluster, whose size is the cluster's size |
| Grid.OccupancyGrid.CentroidWithin | occupancy_grid.py:176-179 | a cluster's centroid lies in the world box of its cells |
| Grid.OccupancyGrid.GetFrontiers | occupancy_grid.py:134-187 | the records are the centroids of the frontier components of at least 3 cells, sorted by size, descending |
| Grid.OccupancyGrid.OccupiedCells | occupancy_grid.py:196-200 | exactly the OCCUPIED cells, in row-major order |
| Grid.OccupancyGrid.RunsAreSegments | occupancy_grid.py:234-274 | every wall reported is a straight run of at least 5 OCCUPIED cells |
| Grid.OccupancyGrid.SegmentsAreRuns | occupancy_grid.py:234-274 | every maximal run of at least 5 OCCUPIED cells is reported as a wall |
| Grid.OccupancyGrid.CornersOf | occupancy_grid.py:213-230 | a corner is reported exactly at an end point shared by a horizontal and a vertical wall, once |
| Grid.OccupancyGrid.WallsAndCorners | occupancy_grid.py:194-232 | no occupied cells means no walls or corners; the walls are exactly the maximal runs of at least 5 cells, horizontal first, each orientation in row-major order of its first cell, with no wall listed twice; the corners are as for `CornersOf`, each once |
| Grid.OccupancyGrid.WallsInOrder | occupancy_grid.py:262-274 | walls built from runs that start in row-major order start in that order |
| Grid.OccupancyGrid.JoinedWalls | occupancy_grid.py:220-222 | joining the horizontal walls and then the vertical ones, each in row-major order, gives walls horizontal first, in order within each orientation, with no repeats |
| Grid.OccupancyGrid.DetectWallsAndCorners | occupancy_grid.py:194-232 | the stored walls and corners are those `WallsAndCorners` describes: exactly the maximal runs, horizontal first, row-major within each orientation, no repeats, and each corner once; the scan count is unchanged |
| Grid.SortBySizeSorts | occupancy_grid.py:186-187 | the sort by size is descending and a permutation |
| Grid.InsertBySizeStable | occupancy_grid.py:186-187 | inserting a record puts it ahead of the records of its own size and leaves their order alone |
| Grid.SortBySizeStable | occupancy_grid.py:186-187 | the sort is stable: the records of any one size keep their original order |
| Grid.CornerTest | occupancy_grid.py:226-229 | a point has a horizontal and a vertical wall ending in it iff it is a corner |
| Pose.PwmToMps | pose_estimator.py:92-103 | 0 for `stop` or speed at most 5; otherwise negative iff backward, with magnitude speed / 100 × maximum speed |
| Pose.PwmDirectionSymmetric | pose_estimator.py:92-103 | backward is the negation of forward |
| Pose.PwmMonotone | pose_estimator.py:92-103 | a faster PWM never gives a slower wheel |
| Pose.CappedKeepsNewest | pose_estimator.py:88-90 | the capped history holds at most 500 poses, is the newest suffix, and ends with the newest pose |
| Pose.Travel | pose_estimator.py:85 | the distance travelled in a step is never negative |
| Pose.PoseEstimator.constructor | pose_estimator.py:27-38 | the pose and start pose are the origin, with no distance and no history |
| Pose.PoseEstimator.Update | pose_estimator.py:40-90 | the time is always recorded; a step at or below 0 or over 2 s changes nothing else; otherwise the pose is the kinematic step, the distance grows by \|v\|·dt and the history gains the new pose, capped; the distance never decreases |
| Pose.PoseEstimator.Reset | pose_estimator.py:166-174 | pose and start pose become (x, y, h), the history is emptied and the distance zeroed |
| Pose.PoseEstimator.GetPath | pose_estimator.py:162-164 | one (x, y) per history entry, in order |
| Pose.PoseEstimator.GetPose | pose_estimator.py:149-151 | the current (x, y, heading) |
| Pose.PoseEstimator.MatchScore | pose_estimator.py:120-132 | a score never exceeds the number of samples |
| Pose.PoseEstimator.ScoreOffset | pose_estimator.py:120-132 | the scoring loop counts the in-range samples that land on an OCCUPIED cell |
| Pose.PoseEstimator.BestOffset | pose_estimator.py:114-136 | the loop keeps the first strictly best of the nine offsets |
| Pose.PoseEstimator.CorrectFromScan | pose_estimator.py:105-143 | no grid or fewer than 20 samples changes nothing; a shift is applied only when the first best of the nine trials scores over 10 and is not the centre, and it moves x and y by that trial's offsets |
| Pose.FirstBest | pose_estimator.py:133-136 | the first index of the strict maximum, or -1 when all scores are 0 |
| Pose.CentreTrial | pose_estimator.py:139 | of the nine trials only the centre has both offsets 0 |
| Pose.Prefix | pose_estimator.py:123 | `scan_points[:100]` |
| PathPlanner.SectorOf | path_planner.py:86-90 | every sample is put in a sector index within [0, sector_count) |
| PathPlanner.Mod360 | path_planner.py:88 | Python's `% 360.0`: a result in [0, 360) differing from the input by a multiple of 360 |
| PathPlanner.Averages | path_planner.py:94-101 | exactly `sector_count` entries, each the average distance of its sector and 0.0 for an empty one |
| PathPlanner.EverySampleBinnedOnce | path_planner.py:85-92 | the sector counts add up to the number of samples |
| PathPlanner.AveragesNonNeg | path_planner.py:94-101 | averages of non-negative distances are non-negative |
| PathPlanner.BuildSectors | path_planner.py:80-101 | the loop computes the per-sector averages |
| PathPlanner.FrontIsClear | path_planner.py:103-111 | true iff every sector in centre ± front_half, taken modulo the count, is non-zero and at least the threshold |
| PathPlanner.BestSector | path_planner.py:113-124 | -1 iff every sector is below the threshold; otherwise the lowest index of the maximum |
| PathPlanner.BestIsUnique | path_planner.py:113-124 | the best-sector answer is determined by the sectors |
| PathPlanner.ClearFrontHasBest | path_planner.py:54-61 | with the front clear there is a best sector at or above the threshold |
| PathPlanner.Steering | path_planner.py:70-73 | the steering magnitude lies in [20, 100], and is 100 once the offset reaches the centre index |
| PathPlanner.PlanStep | path_planner.py:40-74 | the command is the one `Reacts` describes, with its steering in [20, 100] either way |
| PathPlanner.CommandDrivesWheels | path_planner.py:141-158 | through the mixer, stop idles both motors, forward drives both wheels alike, turn_right runs motor A faster than motor B, and turn_left the other way round |
| PathPlanner.ReactsUnique | path_planner.py:40-74 | a scan has exactly one reaction, so `plan_step`'s command is determined by the scan |
| PathPlanner.HalfTowardZero | path_planner.py:154-156 | `int(speed * 0.5)`: half the speed truncated toward zero |
| PathPlanner.CommandToJoystick | path_planner.py:141-158 | stop gives (0, 0), forward gives (0, speed), a turn gives its steering as x and half its speed, truncated toward zero, as y |
| Exploration.AngleDiff | path_planner.py:438-445 | the result lies in [-pi, pi], differs from a - b by whole turns, and is a - b when that is already in range |
| Exploration.Steer | path_planner.py:251-260 | a heading error past the tolerance turns towards the target with steering magnitude in [32, 100]; otherwise the planner drives forward |
| Exploration.PopMin | path_planner.py:394 | `heappop`: the least entry, with the rest of the open list kept |
| Exploration.MinIndex | path_planner.py:394 | the index found holds an entry no greater than any other |
| Exploration.RemoveAt | path_planner.py:394 | removing one entry keeps every other entry, as a multiset |
| Exploration.Downsample | path_planner.py:409 | paths of up to 10 points are kept whole; longer ones keep every tenth point from the first |
| Exploration.DownsampleEnds | path_planner.py:409 | the downsampled path starts where the path did, and ends at the goal only when the length is 1 modulo 10 |
| Exploration.Reverse | path_planner.py:407 | the list reversed |
| Exploration.ExplorationPlanner.constructor | path_planner.py:184-200 | a new planner explores, has no waypoints, index 0, is not complete, and drives the reactive planner at the exploration speed |
| Exploration.ExplorationPlanner.CurrentTarget | path_planner.py:431-435 | None iff the index is at or past the end of the list; otherwise the waypoint at the index |
| Exploration.ExplorationPlanner.Worlds | path_planner.py:404-405 | one world point per cell, in order |
| Exploration.ExplorationPlanner.Reconstruct | path_planner.py:399-409 | following the parent links from the goal gives a route from start to goal, reported in world form and downsampled |
| Exploration.ExplorationPlanner.FollowParents | path_planner.py:399-404 | the `while curr in came_from` loop yields the world form of a parent chain from the goal down to the start |
| Exploration.ExplorationPlanner.NoRouteLeft | path_planner.py:393-425 | once the open list is drained, a goal that was never visited has no route at all |
| Exploration.ExplorationPlanner.Expand | path_planner.py:412-423 | expanding a visited cell keeps the search invariant, and every passable neighbour then has a score |
| Exploration.ExplorationPlanner.SearchStep | path_planner.py:393-423 | one turn of the loop keeps the search invariant, ends with the goal visited when it is found, and otherwise visits a new cell or shortens the open list |
| Exploration.ExplorationPlanner.Search | path_planner.py:388-425 | equal ends give no path; otherwise an empty path means no 4-connected route over non-OCCUPIED cells exists, and any other path is the downsampled world form of such a route |
| Exploration.ExplorationPlanner.AStar | path_planner.py:376-425 | an end point off the grid or equal ends give no path; otherwise as for `Search` |
| Exploration.ExplorationPlanner.ReturnWaypoints | path_planner.py:365-370 | the way home is the A* path to the start pose, or the start position alone when there is none; never empty |
| Exploration.ExplorationPlanner.Refresh | path_planner.py:272-284 | the index goes back to 0 and the waypoints are regenerated for the mode, the return mode using the A* way home |
| Exploration.ExplorationPlanner.SetMode | path_planner.py:265-270 | the mode is set, `complete` cleared, the index reset to 0 and the waypoints refreshed |
| Exploration.ExplorationPlanner.PlanStep | path_planner.py:202-263 | a complete planner stops; reaching the explored share marks it complete and stops; otherwise the step `Stepped` states, as for `Follow` |
| Exploration.ExplorationPlanner.Follow | path_planner.py:216-263 | the step `Stepped` states. Let `u` be the first waypoint not reached from the current index. If `u` lies beyond `fuel` recursions, the result is None with the index past them. If `u` is a waypoint within them, the step acts on it as `ActsOn` describes: a reactive stop is returned and skips it, a reactive turn is returned as it is, and a clear front steers by the heading error brought into [-pi, pi]. If every remaining waypoint is reached within the fuel, the list is refreshed: an empty refresh stops the planner and marks it complete, and otherwise the step continues on the refreshed list as `StepsOn` states, with the fuel left. A complete planner stops, and the waypoints change only by a refresh |
| Exploration.ExplorationPlanner.Restart | path_planner.py:216-224 | the list is refreshed: an empty refresh stops the planner and marks it complete. Otherwise `StepsOn` states the step on the refreshed list from index 0 with all of `fuel`: it acts on the first waypoint not reached, or gives None with the index past the `fuel + 1` waypoints reached. In Return mode the refreshed list is a non-empty route that `ReturnPlan` allows |
| Exploration.ExplorationPlanner.Advance | path_planner.py:226-263 | with a current waypoint, the same step as `Follow`: a reached waypoint moves the index on and the step starts over, and an unreached one is acted on as `ActsOn` describes |
| Exploration.ExplorationPlanner.Approach | path_planner.py:235-259 | on an unreached current waypoint the step acts as `ActsOn` describes and always gives a command |
| Exploration.FirstUnreached | path_planner.py:229-233 | the first index from k on whose waypoint is not within 20 cm, every waypoint before it being within 20 cm |
| MapManager.Filter | map_manager.py:111 | only letters, digits, `-`, `_` and spaces are kept |
| MapManager.StripLeft | map_manager.py:111 | no leading space is left, and the result is the suffix of the input after a run of spaces |
| MapManager.StripRight | map_manager.py:111 | no trailing space is left, and the result is the prefix of the input before a run of spaces |
| MapManager.Sanitize | map_manager.py:108-112 | the key is never empty and every character is a lowercase letter, a digit, `-` or `_` |
| MapManager.SanitizeFixedPoint | map_manager.py:108-112 | a nonempty name made only of those characters is returned unchanged |
| MapManager.SanitizeIdempotent | map_manager.py:108-112 | sanitising twice is sanitising once |
| MapManager.SanitizeDropsUnkept | map_manager.py:111 | any other character is deleted |
| MapManager.SanitizeLeadingSpace | map_manager.py:111 | a leading space is dropped |
| MapManager.SanitizeTrailingSpace | map_manager.py:111 | a trailing space is dropped |
| MapManager.SanitizeInteriorSpace | map_manager.py:112 | a space between two safe parts becomes `_` |
| MapManager.SanitizeIgnoresCase | map_manager.py:112 | the key does not depend on case |
| MapManager.Join | map_manager.py:32-33 | the file name ends the joined path |
| MapManager.SameFileIffSameKey | map_manager.py:32-33 | two map files coincide iff the names have the same key and the files are the same kind |
| MapManager.Exists | map_manager.py:84-87 | a name whose grid loads exists |
| MapManager.MoveFacts | map_manager.py:96-97 | `os.rename`: the target holds what the source held, the source is gone, and every other path is kept |
| MapManager.MoveFromKeeps | map_manager.py:93-97 | the move loop leaves alone every path that is not a file it has still to move |
| MapManager.MoveFromTarget | map_manager.py:93-97 | for different keys each new file holds what the old one held, or kept its own contents when there was none, and no old file is left |
| MapManager.Save | map_manager.py:27-48 | the grid goes to `<key>.json` and a sidecar naming the map and that file to `<key>.meta.json`; other paths are kept |
| MapManager.SaveThenLoad | map_manager.py:50-57 | loading any name with the same key returns the saved grid |
| MapManager.SaveKeepsOthers | map_manager.py:27-48 | saving leaves maps with other keys loadable as before |
| MapManager.Load | map_manager.py:50-57 | a grid comes back only from a grid file at the key's path |
| MapManager.Delete | map_manager.py:59-68 | all three files of the key are gone, true iff one of them existed, other paths kept |
| MapManager.DeleteReportsExisting | map_manager.py:59-68 | deleting a map that exists reports that something was deleted |
| MapManager.DeleteThenGone | map_manager.py:59-68 | after a delete the map no longer exists or loads |
| MapManager.RenameMovesGrid | map_manager.py:89-106 | for different keys, the new name loads what the old one did, and the old name no longer exists |
| MapManager.RenameUpdatesMeta | map_manager.py:101-105 | a sidecar at the new path names the new map and its new grid file |
| MapManager.MoveFromFrame | map_manager.py:93-97 | the move loop leaves every path that is not a file of either name as it was |
| MapManager.Rename | map_manager.py:89-106 | every path that is not a file of the old or the new name keeps its presence and contents |

## Left out

- Threads, sockets, Flask routes, Socket.IO emits, Firebase registration and writes, `time.sleep` loops, locks and prints. Each handler is one atomic step. A `threading.Event` is a boolean. The clock is a `now` parameter.
- Server.RoverServer.HandleStartAction: models only the net effect of setting and then clearing the stop event. The action thread is not modelled.
- Server.RoverServer.HandleStartMapping: builds a fresh grid object instead of calling `__init__` again on the shared one. Code that kept the old reference therefore does not see the reset.
- Server.RoverServer.HandleStartExploration: the planner construction, waypoint generation and the loop thread are left out. So is `handle_set_explore_mode`.
- Mixer.Mix: takes integer readings. `int()` on a fractional joystick value is not modelled.
- Trigonometry and floating point. These are caller-supplied functions over exact reals:
  - the scan end point (`Projector`);
  - the differential-drive step and heading normalisation (`Kinematics`);
  - `atan2` (`bearing`).
  
  `round(..., n)` is dropped everywhere, and `math.pi` is an exact constant. A wall's `length` field, `math.dist` of its end points (occupancy_grid.py:270), is not modelled, since it needs a square root; the end points it is computed from are.
- Exploration.ExplorationPlanner.PlanStep: the self-recursion on a reached waypoint is bounded by a `fuel` parameter, and None is returned once it runs out. This is because `_refresh_waypoints` can hand out a waypoint that is already within reach, so termination is not claimed. The coverage, frontier and other waypoint generators are a `generate` parameter.
- Exploration.ExplorationPlanner.Follow: suppose a refreshed list has every waypoint already reached within the fuel that is left. The step would then refresh once more, and the contract does not follow that second refresh. Only the general clauses hold there: a complete planner stops, the turns keep their steering ranges, and the waypoints change only by a refresh.
- Grid.OccupancyGrid.GetFrontiers: the sort is proved stable, but the order in which the scan discovers the components is not stated, so the order among components of equal size is not pinned down.
- Exploration.ExplorationPlanner.AStar: proves route validity and completeness, but not that the route is cheapest. Nor does it prove the 1-per-FREE, 5-per-UNKNOWN step costs. Only passability and the pop order are specified.
- Exploration.DownsampleEnds: `path[::10]` can drop the goal itself. The lemma states when it does, and the model keeps the source's behaviour.
- Pose.PoseEstimator.CorrectFromScan: a sample's cell is found through the supplied projector. The rotation-free trigonometric projection is not computed.
- `get_pose_dict`, `distance_to_start`, `get_status` of the server, and the `obstacles` field.
- `OccupancyGrid.save`/`load`, `to_data_url` and `_to_simple_data_url`. These are file and image I/O.
- MapManager.Sanitize: ASCII only. Python's `isalnum` and `lower` also accept and fold non-ASCII letters.
- MapManager.Load: gives None for a file at the grid path that is not a grid, where the source raises on bad JSON.
- MapManager.Rename: rewrites the sidecar only when it is a sidecar file. The source raises on bad JSON. The `saved` time stamp, stats and room bounds in the sidecar are not modelled.
- `MapManager.list_maps`: directory globbing, JSON parsing and sorting by modification time are left out.
- lidar_scanner.py (a child process with a serial SDK), the diagnostic and test scripts, and config.py as a module. The constants that config.py does not define are parameters with preconditions.
- GPIO: pin writes are a map from pin numbers to levels. Duty cycles are integers. `GPIO.setmode` and `GPIO.cleanup` are not modelled.
