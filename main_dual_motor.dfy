/**
 * The L298N dual-motor driver of main_dual_motor.py: two H-bridges, each
 * with two direction inputs and one PWM enable pin. Every method writes the
 * direction inputs, sets the PWM duty cycle and records speed and direction
 * in the object's fields. GPIO is replaced by the pin map `pins` and the
 * duty-cycle fields `dutyA`/`dutyB`.
 */
module MainDualMotor {
  import opened Motion
  import opened HBridge
  import opened Wrappers
  import Mixer

  class L298NDualMotor {
    // Pin assignment (IN1, IN2, ENA) of motor A and (IN3, IN4, ENB) of motor B.
    const in1: int
    const in2: int
    const ena: int
    const in3: int
    const in4: int
    const enb: int

    var motorASpeed: int
    var motorADirection: Direction
    var motorBSpeed: int
    var motorBDirection: Direction

    /** GPIO output levels written so far. */
    var pins: PinMap
    /** Last duty cycle given to each PWM channel. */
    var dutyA: int
    var dutyB: int
    /** Whether each PWM channel is running. */
    var pwmARunning: bool
    var pwmBRunning: bool

    /**
     * The driver's invariant: the six pins are distinct, speeds are
     * percentages equal to the duty cycle written, and the direction inputs
     * agree with the recorded direction, so neither bridge has both inputs HIGH.
     */
    ghost predicate Valid()
      reads this
    {
      && |{in1, in2, ena, in3, in4, enb}| == 6
      && 0 <= motorASpeed <= 100 && dutyA == motorASpeed
      && 0 <= motorBSpeed <= 100 && dutyB == motorBSpeed
      && Agrees(pins, in1, in2, motorADirection)
      && Agrees(pins, in3, in4, motorBDirection)
    }

    /** `get_status()`. */
    function Status(): (s: MotorState)
      reads this
      requires Valid()
      ensures 0 <= s.motorA.speed <= 100 && 0 <= s.motorB.speed <= 100
    {
      MotorState(MotorStatus(motorADirection, motorASpeed), MotorStatus(motorBDirection, motorBSpeed))
    }

    /** No bridge has both direction inputs HIGH in any valid state. */
    lemma NeverBothHigh()
      requires Valid()
      ensures !BothHigh(pins, in1, in2) && !BothHigh(pins, in3, in4)
    {
      AgreesNotBothHigh(pins, in1, in2, motorADirection);
      AgreesNotBothHigh(pins, in3, in4, motorBDirection);
    }

    constructor (in1: int := GpioIn1Pin, in2: int := GpioIn2Pin, ena: int := GpioEnaPin,
                 in3: int := GpioIn3Pin, in4: int := GpioIn4Pin, enb: int := GpioEnbPin)
      requires |{in1, in2, ena, in3, in4, enb}| == 6
      ensures Valid()
      ensures Status() == AllStopped
      ensures pins == map[] && dutyA == 0 && dutyB == 0 && pwmARunning && pwmBRunning
      ensures this.in1 == in1 && this.in2 == in2 && this.ena == ena
      ensures this.in3 == in3 && this.in4 == in4 && this.enb == enb
    {
      this.in1, this.in2, this.ena := in1, in2, ena;
      this.in3, this.in4, this.enb := in3, in4, enb;
      motorASpeed, motorADirection := 0, Stop;
      motorBSpeed, motorBDirection := 0, Stop;
      pins := map[];
      dutyA, pwmARunning := 0, true;
      dutyB, pwmBRunning := 0, true;
    }

    // ========== Motor A ==========

    method MotorAForward(speed: int := MotorDefaultSpeed)
      requires Valid()
      modifies this
      ensures Valid()
      ensures motorASpeed == Mixer.Clamp(speed, 0, 100) && dutyA == motorASpeed
      ensures motorADirection == Forward
      ensures pins == Drive(old(pins), in1, in2, High, Low)
      ensures motorBSpeed == old(motorBSpeed) && motorBDirection == old(motorBDirection) && dutyB == old(dutyB)
      ensures pwmARunning == old(pwmARunning) && pwmBRunning == old(pwmBRunning)
    {
      var s := Mixer.Clamp(speed, 0, 100);
      pins := pins[in1 := High];
      pins := pins[in2 := Low];
      dutyA := s;
      motorASpeed := s;
      motorADirection := Forward;
    }

    method MotorABackward(speed: int := MotorDefaultSpeed)
      requires Valid()
      modifies this
      ensures Valid()
      ensures motorASpeed == Mixer.Clamp(speed, 0, 100) && dutyA == motorASpeed
      ensures motorADirection == Backward
      ensures pins == Drive(old(pins), in1, in2, Low, High)
      ensures motorBSpeed == old(motorBSpeed) && motorBDirection == old(motorBDirection) && dutyB == old(dutyB)
      ensures pwmARunning == old(pwmARunning) && pwmBRunning == old(pwmBRunning)
    {
      var s := Mixer.Clamp(speed, 0, 100);
      pins := pins[in1 := Low];
      pins := pins[in2 := High];
      dutyA := s;
      motorASpeed := s;
      motorADirection := Backward;
    }

    method MotorAStop()
      requires Valid()
      modifies this
      ensures Valid()
      ensures motorASpeed == 0 && dutyA == 0 && motorADirection == Stop
      ensures pins == Drive(old(pins), in1, in2, Low, Low)
      ensures motorBSpeed == old(motorBSpeed) && motorBDirection == old(motorBDirection) && dutyB == old(dutyB)
      ensures pwmARunning == old(pwmARunning) && pwmBRunning == old(pwmBRunning)
    {
      pins := pins[in1 := Low];
      pins := pins[in2 := Low];
      dutyA := 0;
      motorASpeed := 0;
      motorADirection := Stop;
    }

    /** Change the speed only: the direction and the pins stay as they are. */
    method MotorASetSpeed(speed: int)
      requires Valid()
      modifies this
      ensures Valid()
      ensures motorASpeed == Mixer.Clamp(speed, 0, 100) && dutyA == motorASpeed
      ensures motorADirection == old(motorADirection) && pins == old(pins)
      ensures motorBSpeed == old(motorBSpeed) && motorBDirection == old(motorBDirection) && dutyB == old(dutyB)
      ensures pwmARunning == old(pwmARunning) && pwmBRunning == old(pwmBRunning)
    {
      var s := Mixer.Clamp(speed, 0, 100);
      dutyA := s;
      motorASpeed := s;
    }

    // ========== Motor B ==========

    method MotorBForward(speed: int := MotorDefaultSpeed)
      requires Valid()
      modifies this
      ensures Valid()
      ensures motorBSpeed == Mixer.Clamp(speed, 0, 100) && dutyB == motorBSpeed
      ensures motorBDirection == Forward
      ensures pins == Drive(old(pins), in3, in4, High, Low)
      ensures motorASpeed == old(motorASpeed) && motorADirection == old(motorADirection) && dutyA == old(dutyA)
      ensures pwmARunning == old(pwmARunning) && pwmBRunning == old(pwmBRunning)
    {
      var s := Mixer.Clamp(speed, 0, 100);
      pins := pins[in3 := High];
      pins := pins[in4 := Low];
      dutyB := s;
      motorBSpeed := s;
      motorBDirection := Forward;
    }

    method MotorBBackward(speed: int := MotorDefaultSpeed)
      requires Valid()
      modifies this
      ensures Valid()
      ensures motorBSpeed == Mixer.Clamp(speed, 0, 100) && dutyB == motorBSpeed
      ensures motorBDirection == Backward
      ensures pins == Drive(old(pins), in3, in4, Low, High)
      ensures motorASpeed == old(motorASpeed) && motorADirection == old(motorADirection) && dutyA == old(dutyA)
      ensures pwmARunning == old(pwmARunning) && pwmBRunning == old(pwmBRunning)
    {
      var s := Mixer.Clamp(speed, 0, 100);
      pins := pins[in3 := Low];
      pins := pins[in4 := High];
      dutyB := s;
      motorBSpeed := s;
      motorBDirection := Backward;
    }

    method MotorBStop()
      requires Valid()
      modifies this
      ensures Valid()
      ensures motorBSpeed == 0 && dutyB == 0 && motorBDirection == Stop
      ensures pins == Drive(old(pins), in3, in4, Low, Low)
      ensures motorASpeed == old(motorASpeed) && motorADirection == old(motorADirection) && dutyA == old(dutyA)
      ensures pwmARunning == old(pwmARunning) && pwmBRunning == old(pwmBRunning)
    {
      pins := pins[in3 := Low];
      pins := pins[in4 := Low];
      dutyB := 0;
      motorBSpeed := 0;
      motorBDirection := Stop;
    }

    method MotorBSetSpeed(speed: int)
      requires Valid()
      modifies this
      ensures Valid()
      ensures motorBSpeed == Mixer.Clamp(speed, 0, 100) && dutyB == motorBSpeed
      ensures motorBDirection == old(motorBDirection) && pins == old(pins)
      ensures motorASpeed == old(motorASpeed) && motorADirection == old(motorADirection) && dutyA == old(dutyA)
      ensures pwmARunning == old(pwmARunning) && pwmBRunning == old(pwmBRunning)
    {
      var s := Mixer.Clamp(speed, 0, 100);
      dutyB := s;
      motorBSpeed := s;
    }

    // ========== Both motors ==========

    method BothForward(speedA: int := MotorDefaultSpeed, speedB: int := MotorDefaultSpeed)
      requires Valid()
      modifies this
      ensures Valid()
      ensures Status() == MotorState(MotorStatus(Forward, Mixer.Clamp(speedA, 0, 100)),
                                     MotorStatus(Forward, Mixer.Clamp(speedB, 0, 100)))
      ensures pwmARunning == old(pwmARunning) && pwmBRunning == old(pwmBRunning)
    {
      MotorAForward(speedA);
      MotorBForward(speedB);
    }

    method BothBackward(speedA: int := MotorDefaultSpeed, speedB: int := MotorDefaultSpeed)
      requires Valid()
      modifies this
      ensures Valid()
      ensures Status() == MotorState(MotorStatus(Backward, Mixer.Clamp(speedA, 0, 100)),
                                     MotorStatus(Backward, Mixer.Clamp(speedB, 0, 100)))
      ensures pwmARunning == old(pwmARunning) && pwmBRunning == old(pwmBRunning)
    {
      MotorABackward(speedA);
      MotorBBackward(speedB);
    }

    method BothStop()
      requires Valid()
      modifies this
      ensures Valid()
      ensures Status() == AllStopped && dutyA == 0 && dutyB == 0
      ensures pins == Drive(Drive(old(pins), in1, in2, Low, Low), in3, in4, Low, Low)
      ensures pwmARunning == old(pwmARunning) && pwmBRunning == old(pwmBRunning)
    {
      MotorAStop();
      MotorBStop();
    }

    /** Turn left: both wheels forward; a missing right-wheel speed means the default speed. */
    method TurnLeft(speedA: int := MotorDefaultSpeed, speedB: Option<int> := None)
      requires Valid()
      modifies this
      ensures Valid()
      ensures Status() == MotorState(MotorStatus(Forward, Mixer.Clamp(speedA, 0, 100)),
                                     MotorStatus(Forward, Mixer.Clamp(speedB.GetOr(MotorDefaultSpeed), 0, 100)))
      ensures pwmARunning == old(pwmARunning) && pwmBRunning == old(pwmBRunning)
    {
      var b := if speedB.None? then MotorDefaultSpeed else speedB.value;
      MotorAForward(speedA);
      MotorBForward(b);
    }

    /** Turn right: both wheels forward; a missing left-wheel speed means the default speed. */
    method TurnRight(speedA: Option<int> := None, speedB: int := MotorDefaultSpeed)
      requires Valid()
      modifies this
      ensures Valid()
      ensures Status() == MotorState(MotorStatus(Forward, Mixer.Clamp(speedA.GetOr(MotorDefaultSpeed), 0, 100)),
                                     MotorStatus(Forward, Mixer.Clamp(speedB, 0, 100)))
      ensures pwmARunning == old(pwmARunning) && pwmBRunning == old(pwmBRunning)
    {
      var a := if speedA.None? then MotorDefaultSpeed else speedA.value;
      MotorAForward(a);
      MotorBForward(speedB);
    }

    /** Stop both motors, then stop both PWM channels. */
    method Cleanup()
      requires Valid()
      modifies this
      ensures Valid()
      ensures Status() == AllStopped && dutyA == 0 && dutyB == 0
      ensures !pwmARunning && !pwmBRunning
    {
      BothStop();
      pwmARunning := false;
      pwmBRunning := false;
    }
  }

  /**
   * The motor calls a joystick handler makes for a mixed state: each wheel
   * forward, backward or stopped according to its direction word.
   */
  method DriveTo(motors: L298NDualMotor, m: MotorState)
    requires motors.Valid()
    requires 0 <= m.motorA.speed <= 100 && 0 <= m.motorB.speed <= 100
    requires m.motorA.direction == Stop ==> m.motorA.speed == 0
    requires m.motorB.direction == Stop ==> m.motorB.speed == 0
    modifies motors
    ensures motors.Valid() && motors.Status() == m
    ensures motors.pwmARunning == old(motors.pwmARunning) && motors.pwmBRunning == old(motors.pwmBRunning)
  {
    match m.motorA.direction {
      case Forward => motors.MotorAForward(m.motorA.speed);
      case Backward => motors.MotorABackward(m.motorA.speed);
      case Stop => motors.MotorAStop();
    }
    match m.motorB.direction {
      case Forward => motors.MotorBForward(m.motorB.speed);
      case Backward => motors.MotorBBackward(m.motorB.speed);
      case Stop => motors.MotorBStop();
    }
  }
}
