/**
 * The joystick mixer shared by the Socket.IO server and the Firebase
 * listener: a per-axis dead zone, then differential-drive mixing
 * `left = y + x`, `right = y - x`, each clamped to [-100, 100] and split
 * into a direction word and a non-negative speed.
 */
module Mixer {
  import opened Motion

  /** Axis readings with magnitude below this are treated as 0. */
  const DeadZoneLimit: int := 5

  /** `max(lo, min(hi, v))`. */
  function Clamp(v: int, lo: int, hi: int): (r: int)
    ensures lo <= hi ==> lo <= r <= hi
    ensures lo <= v <= hi ==> r == v
    ensures v < lo ==> r == lo
    ensures lo <= hi < v ==> r == hi
  {
    if lo > (if hi < v then hi else v) then lo else (if hi < v then hi else v)
  }

  function Abs(v: int): nat { if v < 0 then -v else v }

  /** One axis after the dead-zone filter. */
  function DeadZone(v: int): (r: int)
    ensures r == 0 || r == v
    ensures Abs(v) < DeadZoneLimit <==> r == 0
  {
    if Abs(v) < DeadZoneLimit then 0 else v
  }

  /** The direction word for a signed wheel value. */
  function DirectionOf(raw: int): (d: Direction)
    ensures d == Forward <==> raw > 0
    ensures d == Backward <==> raw < 0
  {
    if raw > 0 then Forward else if raw < 0 then Backward else Stop
  }

  /** Split a signed wheel value into direction and speed `abs(raw)`. */
  function Wheel(raw: int): (m: MotorStatus)
    ensures m.direction == Stop <==> m.speed == 0
    ensures Signed(m) == raw
  {
    MotorStatus(DirectionOf(raw), Abs(raw))
  }

  /** The signed value a motor status stands for: its inverse view. */
  function Signed(m: MotorStatus): int
  {
    match m.direction
    case Forward => m.speed
    case Backward => -m.speed
    case Stop => 0
  }

  /** Signed left-wheel (motor A) command before splitting. */
  function LeftRaw(x: int, y: int): (r: int)
    ensures -100 <= r <= 100
    ensures r == RightRaw(-x, y)
  {
    Clamp(DeadZone(y) + DeadZone(x), -100, 100)
  }

  /** Signed right-wheel (motor B) command before splitting. */
  function RightRaw(x: int, y: int): (r: int)
    ensures -100 <= r <= 100
  {
    Clamp(DeadZone(y) - DeadZone(x), -100, 100)
  }

  /** `apply_joystick(x, y)`'s resulting motor state. */
  function Mix(x: int, y: int): (r: MotorState)
    ensures 0 <= r.motorA.speed <= 100 && 0 <= r.motorB.speed <= 100
    ensures r.motorA.direction == Stop <==> r.motorA.speed == 0
    ensures r.motorB.direction == Stop <==> r.motorB.speed == 0
    ensures Abs(x) < DeadZoneLimit && Abs(y) < DeadZoneLimit ==> r == AllStopped
  {
    MotorState(Wheel(LeftRaw(x, y)), Wheel(RightRaw(x, y)))
  }

  /** Splitting a wheel value loses nothing: direction and speed give it back. */
  lemma WheelRoundTrip(raw: int)
    ensures Signed(Wheel(raw)) == raw
  {
  }

  /** Direction words follow the sign of the clamped mixed value. */
  lemma MixDirections(x: int, y: int)
    ensures Mix(x, y).motorA.direction == Forward <==> LeftRaw(x, y) > 0
    ensures Mix(x, y).motorA.direction == Backward <==> LeftRaw(x, y) < 0
    ensures Mix(x, y).motorB.direction == Forward <==> RightRaw(x, y) > 0
    ensures Mix(x, y).motorB.direction == Backward <==> RightRaw(x, y) < 0
    ensures Signed(Mix(x, y).motorA) == LeftRaw(x, y)
    ensures Signed(Mix(x, y).motorB) == RightRaw(x, y)
  {
  }

  /** Each axis is filtered on its own: a small x (or y) acts like 0 whatever the other axis is. */
  lemma DeadZonePerAxis(x: int, y: int)
    ensures Abs(x) < DeadZoneLimit ==> Mix(x, y) == Mix(0, y)
    ensures Abs(y) < DeadZoneLimit ==> Mix(x, y) == Mix(x, 0)
    ensures Abs(x) >= DeadZoneLimit && Abs(y) >= DeadZoneLimit ==>
      LeftRaw(x, y) == Clamp(y + x, -100, 100) && RightRaw(x, y) == Clamp(y - x, -100, 100)
  {
  }

  /** Mirror symmetry: negating the steering axis swaps the two wheels. */
  lemma MixMirror(x: int, y: int)
    ensures Mix(-x, y) == MotorState(Mix(x, y).motorB, Mix(x, y).motorA)
  {
  }

  /** Reversing both axes reverses both wheels at the same speeds. */
  lemma MixReverse(x: int, y: int)
    ensures Signed(Mix(-x, -y).motorA) == -Signed(Mix(x, y).motorA)
    ensures Signed(Mix(-x, -y).motorB) == -Signed(Mix(x, y).motorB)
  {
  }

  /** The reading (0, 0), used on disconnect, action end and emergency stop, idles both motors. */
  lemma ZeroStops()
    ensures Mix(0, 0) == AllStopped
  {
  }

  /** The spin actions: (-100, 0) spins left, (100, 0) spins right, at full speed. */
  lemma Spins()
    ensures Mix(-100, 0) == MotorState(MotorStatus(Backward, 100), MotorStatus(Forward, 100))
    ensures Mix(100, 0) == MotorState(MotorStatus(Forward, 100), MotorStatus(Backward, 100))
  {
  }

  /** Straight driving: a pure throttle reading drives both wheels alike. */
  lemma Straight(y: int)
    ensures Mix(0, y).motorA == Mix(0, y).motorB
    ensures DeadZoneLimit <= y ==> Mix(0, y).motorA == MotorStatus(Forward, if y > 100 then 100 else y)
  {
  }
}
