/**
 * The Firebase listener (firebase_listener.py): joystick events from the
 * database drive the motors through the shared mixer, a watchdog stops the
 * rover once when commands stop arriving, and an emergency-stop event
 * drives (0, 0). Times are passed in; the database and its threads are not
 * modelled.
 */
module FirebaseListener {
  import opened Motion
  import opened Wrappers
  import Mixer
  import MainDualMotor

  /** Seconds without a command after which the watchdog stops the motors. */
  const SafetyTimeout: real := 0.8

  /** The data of a database event: none, a dictionary with optional axes, or any other value. */
  datatype Payload = Null | Dict(x: Option<int>, y: Option<int>) | OtherValue

  /** Whether one watchdog tick stops the motors. */
  predicate Fires(elapsed: real, alreadyStopped: bool)
  {
    elapsed > SafetyTimeout && !alreadyStopped
  }

  /**
   * The number of stops a run of watchdog ticks at `times` makes when no
   * command arrives in between, starting from the latch `stopped`.
   */
  function StopsOver(times: seq<real>, lastCommand: real, stopped: bool): nat
  {
    if times == [] then 0
    else
      var fires := Fires(times[0] - lastCommand, stopped);
      (if fires then 1 else 0) + StopsOver(times[1..], lastCommand, stopped || fires)
  }

  /**
   * The stop-once latch: between two commands the watchdog stops the
   * motors at most once, never when already stopped, and exactly once when
   * some tick comes later than the timeout.
   */
  lemma {:induction false} WatchdogStopsOnce(times: seq<real>, lastCommand: real, stopped: bool)
    ensures StopsOver(times, lastCommand, stopped) <= 1
    ensures stopped ==> StopsOver(times, lastCommand, stopped) == 0
    ensures !stopped && (exists i :: 0 <= i < |times| && times[i] - lastCommand > SafetyTimeout) ==>
      StopsOver(times, lastCommand, stopped) == 1
  {
    if times != [] {
      var fires := Fires(times[0] - lastCommand, stopped);
      WatchdogStopsOnce(times[1..], lastCommand, stopped || fires);
      if !stopped && !fires && (exists i :: 0 <= i < |times| && times[i] - lastCommand > SafetyTimeout) {
        var i :| 0 <= i < |times| && times[i] - lastCommand > SafetyTimeout;
        assert i != 0;
        assert times[1..][i - 1] == times[i];
      }
    }
  }

  class Listener {
    /** `SIMULATION_MODE`: no GPIO, so the motors are never driven. */
    const simulation: bool
    const motors: MainDualMotor.L298NDualMotor?

    var lastCommandTime: real
    var alreadyStopped: bool

    predicate Drives()
    {
      motors != null && !simulation
    }

    /** The latch never claims a stop the driven motors have not made. */
    ghost predicate Valid()
      reads this, motors
    {
      && (motors != null ==> motors.Valid())
      && (Drives() && alreadyStopped ==> motors.Status() == AllStopped)
    }

    /** Start-up: the clock is read and the rover counts as stopped. */
    constructor (simulation: bool, motors: MainDualMotor.L298NDualMotor?, now: real)
      requires motors != null ==> motors.Valid() && motors.Status() == AllStopped
      ensures Valid()
      ensures this.simulation == simulation && this.motors == motors
      ensures lastCommandTime == now && alreadyStopped
    {
      this.simulation := simulation;
      this.motors := motors;
      lastCommandTime := now;
      alreadyStopped := true;
    }

    /**
     * `apply_joystick(x, y)`: the same mixing as the server; the motors are
     * driven when they exist outside simulation. The write of the result
     * back to the database is not modelled.
     */
    method ApplyJoystick(x: int, y: int) returns (state: MotorState)
      requires motors != null ==> motors.Valid()
      modifies motors
      ensures motors != null ==> motors.Valid()
      ensures state == Mixer.Mix(x, y)
      ensures Drives() ==> motors.Status() == state
      ensures !Drives() && motors != null ==> motors.Status() == old(motors.Status())
    {
      state := Mixer.Mix(x, y);
      if Drives() {
        MainDualMotor.DriveTo(motors, state);
      }
    }

    /** The (0, 0) reading every stop path uses. */
    method StopMotors()
      requires motors != null ==> motors.Valid()
      modifies motors
      ensures motors != null ==> motors.Valid()
      ensures Drives() ==> motors.Status() == AllStopped
      ensures !Drives() && motors != null ==> motors.Status() == old(motors.Status())
    {
      var state := ApplyJoystick(0, 0);
      Mixer.ZeroStops();
    }

    /**
     * `on_joystick_change`: anything but a dictionary is ignored; otherwise
     * a missing axis reads as 0, the command time is recorded, the latch is
     * released and the reading drives the motors.
     */
    method OnJoystickChange(data: Payload, now: real) returns (state: Option<MotorState>)
      requires Valid()
      modifies this, motors
      ensures Valid()
      ensures !data.Dict? ==>
        state == None && lastCommandTime == old(lastCommandTime) && alreadyStopped == old(alreadyStopped)
      ensures !data.Dict? && motors != null ==> motors.Status() == old(motors.Status())
      ensures data.Dict? ==>
        state == Some(Mixer.Mix(data.x.GetOr(0), data.y.GetOr(0))) && lastCommandTime == now && !alreadyStopped
      ensures data.Dict? && Drives() ==> motors.Status() == state.value
    {
      if !data.Dict? {
        return None;
      }
      var x := data.x.GetOr(0);
      var y := data.y.GetOr(0);
      lastCommandTime := now;
      alreadyStopped := false;
      var s := ApplyJoystick(x, y);
      state := Some(s);
    }

    /**
     * One pass of `safety_watchdog` at time `now`: stop once the timeout has
     * passed since the last command, unless already stopped, and latch.
     */
    method WatchdogTick(now: real) returns (stopped: bool)
      requires Valid()
      modifies this, motors
      ensures Valid()
      ensures stopped == Fires(now - lastCommandTime, old(alreadyStopped))
      ensures alreadyStopped == (old(alreadyStopped) || stopped)
      ensures lastCommandTime == old(lastCommandTime)
      ensures stopped && Drives() ==> motors.Status() == AllStopped
      ensures !stopped && motors != null ==> motors.Status() == old(motors.Status())
    {
      stopped := Fires(now - lastCommandTime, alreadyStopped);
      if stopped {
        StopMotors();
        alreadyStopped := true;
      }
    }

    /** `on_emergency_stop`: any data but none drives (0, 0); the latch is left alone. */
    method OnEmergencyStop(data: Payload) returns (acted: bool)
      requires Valid()
      modifies motors
      ensures Valid()
      ensures acted <==> data != Null
      ensures acted && Drives() ==> motors.Status() == AllStopped
      ensures !acted && motors != null ==> motors.Status() == old(motors.Status())
    {
      acted := data != Null;
      if acted {
        StopMotors();
      }
    }

    /** The shutdown path: drive (0, 0), then release the driver. */
    method Shutdown()
      requires Valid()
      modifies motors
      ensures motors != null ==>
        motors.Valid() && motors.Status() == AllStopped && !motors.pwmARunning && !motors.pwmBRunning
    {
      StopMotors();
      if motors != null {
        motors.Cleanup();
      }
    }
  }
}
