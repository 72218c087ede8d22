/**
 * The Socket.IO server's state (server.py): the `motor_state` it reports,
 * the three background-task flags and the stop events that end those
 * tasks, and the handlers that change them. Threads, sockets and the emits
 * to clients are not modelled; each handler is one atomic step.
 */
module Server {
  import opened Motion
  import opened Wrappers
  import Mixer
  import MainDualMotor
  import Grid
  import Pose

  class RoverServer {
    /** `SIMULATION_MODE`: no GPIO, so the motors are never driven. */
    const simulation: bool
    /** The LiDAR modules imported and a scanner exists. */
    const lidarAvailable: bool
    const motors: MainDualMotor.L298NDualMotor?
    const pose: Pose.PoseEstimator?
    /** The default size and resolution `OccupancyGrid()` is built with. */
    const gridSizeM: real
    const gridResolution: real

    var grid: Grid.OccupancyGrid?
    var motorState: MotorState
    var mappingActive: bool
    var navigationActive: bool
    var explorationActive: bool
    /** Whether each `threading.Event` is set. */
    var stopAction: bool
    var mappingStop: bool
    var navStop: bool
    var exploreStop: bool

    /** The hardware is driven exactly when motors exist outside simulation. */
    predicate Drives()
    {
      motors != null && !simulation
    }

    /**
     * The server's invariant: reported speeds are percentages, a driven
     * driver is in the reported state, and no task is flagged active while
     * its stop has been requested.
     */
    ghost predicate Valid()
      reads this, motors, pose
    {
      && gridResolution > 0.0 && gridSizeM >= 0.0
      && (motors != null ==> motors.Valid())
      && (pose != null ==> pose.Valid())
      && 0 <= motorState.motorA.speed <= 100 && 0 <= motorState.motorB.speed <= 100
      && (Drives() ==> motors.Status() == motorState)
      && (mappingActive ==> !mappingStop)
      && (navigationActive ==> !navStop)
      && (explorationActive ==> !exploreStop)
    }

    /**
     * What a drive command leaves behind: `s` is the reported state, a driven
     * driver is in `s`, a simulated one is untouched, and the pose estimator
     * has integrated the wheel commands of `s` over the clock's time step.
     */
    twostate predicate DroveTo(s: MotorState, now: real, kinematics: Pose.Kinematics)
      requires old(Valid()) && Valid()
      reads this, motors, pose
    {
      && motorState == s
      && (Drives() ==> motors.Status() == s)
      && (motors != null && simulation ==> motors.Status() == old(motors.Status()))
      && (pose != null ==> pose.Updated(s.motorA.speed, s.motorB.speed,
                                         s.motorA.direction, s.motorB.direction,
                                         None, now, kinematics))
    }

    /** Module start-up: both motors stopped, no task running, no event set. */
    constructor (simulation: bool, lidarAvailable: bool, motors: MainDualMotor.L298NDualMotor?,
                 pose: Pose.PoseEstimator?, grid: Grid.OccupancyGrid?,
                 gridSizeM: real, gridResolution: real)
      requires motors != null ==> motors.Valid() && motors.Status() == AllStopped
      requires pose != null ==> pose.Valid()
      requires gridResolution > 0.0 && gridSizeM >= 0.0
      ensures Valid()
      ensures this.simulation == simulation && this.lidarAvailable == lidarAvailable
      ensures this.motors == motors && this.pose == pose && this.grid == grid
      ensures motorState == AllStopped
      ensures !mappingActive && !navigationActive && !explorationActive
      ensures !stopAction && !mappingStop && !navStop && !exploreStop
    {
      this.simulation := simulation;
      this.lidarAvailable := lidarAvailable;
      this.motors := motors;
      this.pose := pose;
      this.grid := grid;
      this.gridSizeM := gridSizeM;
      this.gridResolution := gridResolution;
      motorState := AllStopped;
      mappingActive, navigationActive, explorationActive := false, false, false;
      stopAction, mappingStop, navStop, exploreStop := false, false, false, false;
    }

    /**
     * `apply_joystick(x, y)`: mix the reading, drive the motors when they
     * exist outside simulation, record the result as `motor_state`, and feed
     * the wheel commands to the pose estimator, which takes its time step
     * from the clock.
     */
    method ApplyJoystick(x: int, y: int, now: real, kinematics: Pose.Kinematics)
      returns (state: MotorState)
      requires Valid()
      modifies this, motors, pose
      ensures Valid()
      ensures state == Mixer.Mix(x, y) && DroveTo(state, now, kinematics)
      ensures grid == old(grid)
      ensures mappingActive == old(mappingActive) && navigationActive == old(navigationActive)
      ensures explorationActive == old(explorationActive)
      ensures stopAction == old(stopAction) && mappingStop == old(mappingStop)
      ensures navStop == old(navStop) && exploreStop == old(exploreStop)
    {
      ghost var before := if motors != null then motors.Status() else AllStopped;
      var mixed := Mixer.Mix(x, y);
      if Drives() {
        MainDualMotor.DriveTo(motors, mixed);
      }
      assert motors != null && simulation ==> motors.Status() == before;
      motorState := mixed;
      if pose != null {
        pose.Update(mixed.motorA.speed, mixed.motorB.speed, mixed.motorA.direction,
                    mixed.motorB.direction, None, now, kinematics);
      }
      state := mixed;
    }

    /** `handle_disconnect`: a lost client stops the rover. */
    method HandleDisconnect(now: real, kinematics: Pose.Kinematics)
      requires Valid()
      modifies this, motors, pose
      ensures Valid()
      ensures DroveTo(AllStopped, now, kinematics)
      ensures grid == old(grid)
      ensures mappingActive == old(mappingActive) && navigationActive == old(navigationActive)
      ensures explorationActive == old(explorationActive)
      ensures stopAction == old(stopAction) && mappingStop == old(mappingStop)
      ensures navStop == old(navStop) && exploreStop == old(exploreStop)
    {
      var _ := ApplyJoystick(0, 0, now, kinematics);
      Mixer.ZeroStops();
    }

    /**
     * `handle_joystick`: a reading interrupts a running action and drives
     * with a missing axis read as 0. The source sets the stop event first;
     * the two updates touch disjoint state, so the model drives first and
     * ends in the same state.
     */
    method HandleJoystick(x: Option<int>, y: Option<int>, actionAlive: bool,
                          now: real, kinematics: Pose.Kinematics)
      returns (state: MotorState)
      requires Valid()
      modifies this, motors, pose
      ensures Valid()
      ensures state == Mixer.Mix(x.GetOr(0), y.GetOr(0)) && DroveTo(state, now, kinematics)
      ensures stopAction == (old(stopAction) || actionAlive)
      ensures mappingStop == old(mappingStop) && navStop == old(navStop) && exploreStop == old(exploreStop)
      ensures grid == old(grid)
      ensures mappingActive == old(mappingActive) && navigationActive == old(navigationActive)
      ensures explorationActive == old(explorationActive)
    {
      ghost var before := if motors != null then motors.Status() else AllStopped;
      state := ApplyJoystick(x.GetOr(0), y.GetOr(0), now, kinematics);
      assert motors != null && simulation ==> motors.Status() == before;
      if actionAlive {
        stopAction := true;
      }
    }

    /** The `/stop` route: stop both motors and report them stopped. */
    method RestStop()
      requires Valid()
      modifies this, motors
      ensures Valid()
      ensures motorState == AllStopped
      ensures Drives() ==> motors.Status() == AllStopped
      ensures motors != null && simulation ==> motors.Status() == old(motors.Status())
      ensures grid == old(grid)
      ensures mappingActive == old(mappingActive) && navigationActive == old(navigationActive)
      ensures explorationActive == old(explorationActive)
      ensures stopAction == old(stopAction) && mappingStop == old(mappingStop)
      ensures navStop == old(navStop) && exploreStop == old(exploreStop)
    {
      if Drives() {
        motors.BothStop();
      }
      motorState := AllStopped;
    }

    /**
     * `handle_emergency_stop`: set every stop event, stop the motors and
     * clear all three task flags. The source sets the events before it
     * drives; the drive touches none of the flags, so the model drives first
     * and ends in the same state.
     */
    method HandleEmergencyStop(now: real, kinematics: Pose.Kinematics)
      returns (state: MotorState)
      requires Valid()
      modifies this, motors, pose
      ensures Valid()
      ensures state == AllStopped && DroveTo(AllStopped, now, kinematics)
      ensures grid == old(grid)
      ensures stopAction && mappingStop && navStop && exploreStop
      ensures !mappingActive && !navigationActive && !explorationActive
    {
      state := ApplyJoystick(0, 0, now, kinematics);
      Mixer.ZeroStops();
      stopAction, navStop, mappingStop, exploreStop := true, true, true, true;
      navigationActive, mappingActive, explorationActive := false, false, false;
    }

    /**
     * `handle_start_action`: the event is set so that a running action ends,
     * then cleared for the new action thread; only the cleared event remains.
     */
    method HandleStartAction()
      requires Valid()
      modifies this
      ensures Valid()
      ensures !stopAction
      ensures mappingStop == old(mappingStop) && navStop == old(navStop) && exploreStop == old(exploreStop)
      ensures motorState == old(motorState) && grid == old(grid)
      ensures mappingActive == old(mappingActive) && navigationActive == old(navigationActive)
      ensures explorationActive == old(explorationActive)
    {
      stopAction := false;
    }

    /** `handle_stop_action`. */
    method HandleStopAction()
      requires Valid()
      modifies this
      ensures Valid()
      ensures stopAction
      ensures mappingStop == old(mappingStop) && navStop == old(navStop) && exploreStop == old(exploreStop)
      ensures motorState == old(motorState) && grid == old(grid)
      ensures mappingActive == old(mappingActive) && navigationActive == old(navigationActive)
      ensures explorationActive == old(explorationActive)
    {
      stopAction := true;
    }

    /**
     * `handle_start_mapping`: a no-op while mapping or without a LiDAR;
     * otherwise a fresh grid and a reset pose, and the mapping task starts.
     */
    method HandleStartMapping(now: real)
      requires Valid()
      modifies this, pose
      ensures Valid()
      ensures old(mappingActive) || !lidarAvailable ==>
        mappingActive == old(mappingActive) && mappingStop == old(mappingStop) && grid == old(grid)
      ensures (old(mappingActive) || !lidarAvailable) && pose != null ==> unchanged(pose)
      ensures !old(mappingActive) && lidarAvailable ==> mappingActive && !mappingStop
      ensures !old(mappingActive) && lidarAvailable && old(grid) == null ==> grid == null
      ensures !old(mappingActive) && lidarAvailable && old(grid) != null ==>
        grid != null && fresh(grid) && grid.Valid() && grid.scanCount == 0
        && grid.sizeM == gridSizeM && grid.resolution == gridResolution
        && grid.cells == Grid.TruncReal(gridSizeM / gridResolution) && grid.originCell == grid.cells / 2
        && grid.walls == [] && grid.corners == []
        && (forall r, c :: 0 <= r < grid.cells && 0 <= c < grid.cells ==> grid.grid[r, c] == Grid.Unknown)
      ensures !old(mappingActive) && lidarAvailable && pose != null ==>
        pose.x == 0.0 && pose.y == 0.0 && pose.heading == 0.0 && pose.history == []
        && pose.totalDistance == 0.0 && pose.startPose == (0.0, 0.0, 0.0) && pose.lastTime == now
      ensures stopAction == old(stopAction) && navStop == old(navStop) && exploreStop == old(exploreStop)
      ensures navigationActive == old(navigationActive) && explorationActive == old(explorationActive)
      ensures motorState == old(motorState)
    {
      if mappingActive || !lidarAvailable {
        return;
      }
      if grid != null {
        grid := new Grid.OccupancyGrid(gridSizeM, gridResolution);
      }
      if pose != null {
        pose.Reset(0.0, 0.0, 0.0, now);
      }
      mappingStop := false;
      mappingActive := true;
    }

    /** `handle_stop_mapping`. */
    method HandleStopMapping()
      requires Valid()
      modifies this
      ensures Valid()
      ensures mappingStop && !mappingActive
      ensures stopAction == old(stopAction) && navStop == old(navStop) && exploreStop == old(exploreStop)
      ensures navigationActive == old(navigationActive) && explorationActive == old(explorationActive)
      ensures motorState == old(motorState) && grid == old(grid)
    {
      mappingStop := true;
      mappingActive := false;
    }

    /** `handle_start_exploration`: a no-op while exploring or without a LiDAR. */
    method HandleStartExploration()
      requires Valid()
      modifies this
      ensures Valid()
      ensures old(explorationActive) || !lidarAvailable ==>
        explorationActive == old(explorationActive) && exploreStop == old(exploreStop)
      ensures !old(explorationActive) && lidarAvailable ==> explorationActive && !exploreStop
      ensures stopAction == old(stopAction) && mappingStop == old(mappingStop) && navStop == old(navStop)
      ensures mappingActive == old(mappingActive) && navigationActive == old(navigationActive)
      ensures motorState == old(motorState) && grid == old(grid)
    {
      if explorationActive || !lidarAvailable {
        return;
      }
      exploreStop := false;
      explorationActive := true;
    }

    /** `handle_stop_exploration`. */
    method HandleStopExploration()
      requires Valid()
      modifies this
      ensures Valid()
      ensures exploreStop && !explorationActive
      ensures stopAction == old(stopAction) && mappingStop == old(mappingStop) && navStop == old(navStop)
      ensures mappingActive == old(mappingActive) && navigationActive == old(navigationActive)
      ensures motorState == old(motorState) && grid == old(grid)
    {
      exploreStop := true;
      explorationActive := false;
    }

    /** `handle_start_navigation`: a no-op while navigating or without a LiDAR. */
    method HandleStartNavigation()
      requires Valid()
      modifies this
      ensures Valid()
      ensures old(navigationActive) || !lidarAvailable ==>
        navigationActive == old(navigationActive) && navStop == old(navStop)
      ensures !old(navigationActive) && lidarAvailable ==> navigationActive && !navStop
      ensures stopAction == old(stopAction) && mappingStop == old(mappingStop) && exploreStop == old(exploreStop)
      ensures mappingActive == old(mappingActive) && explorationActive == old(explorationActive)
      ensures motorState == old(motorState) && grid == old(grid)
    {
      if navigationActive || !lidarAvailable {
        return;
      }
      navStop := false;
      navigationActive := true;
    }

    /** `handle_stop_navigation`. */
    method HandleStopNavigation()
      requires Valid()
      modifies this
      ensures Valid()
      ensures navStop && !navigationActive
      ensures stopAction == old(stopAction) && mappingStop == old(mappingStop) && exploreStop == old(exploreStop)
      ensures mappingActive == old(mappingActive) && explorationActive == old(explorationActive)
      ensures motorState == old(motorState) && grid == old(grid)
    {
      navStop := true;
      navigationActive := false;
    }
  }
}
