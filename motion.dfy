/**
 * Value types shared by the rover's motor, planning and mapping code:
 * the per-motor command reported to clients, and one LiDAR sample.
 */
module Motion {

  /** The three direction words a motor can be in ("forward", "backward", "stop"). */
  datatype Direction = Forward | Backward | Stop

  /** One motor's reported state: a direction and a speed in percent. */
  datatype MotorStatus = MotorStatus(direction: Direction, speed: int)

  /** The `motor_state` record: motor A is the left wheel, motor B the right. */
  datatype MotorState = MotorState(motorA: MotorStatus, motorB: MotorStatus)

  /** Both motors idle: the state a fresh driver and every stop path report. */
  const Idle: MotorStatus := MotorStatus(Stop, 0)
  const AllStopped: MotorState := MotorState(Idle, Idle)

  /** One LiDAR sample: bearing in degrees (-180..180) and range in metres. */
  datatype ScanPoint = ScanPoint(angle: real, distance: real)

  /**
   * The world-frame end point of a sample seen from a pose (x, y, heading):
   * `(x + d*cos(rad(angle) + heading), y + d*sin(rad(angle) + heading))`.
   * Trigonometry is not available, so callers supply this map.
   */
  type Projector = (real, real, real, ScanPoint) -> (real, real)
}
