/**
 * What the two L298N driver classes share: the GPIO pin numbers and
 * default speed of config.py, the level a digital output is driven to, and
 * an abstract map from pin number to the last level written to it (it
 * stands for RPi.GPIO's output state).
 */
module HBridge {
  import opened Motion

  // Pin assignment and speeds from config.py.
  const GpioIn1Pin: int := 17
  const GpioIn2Pin: int := 27
  const GpioEnaPin: int := 22
  const GpioIn3Pin: int := 23
  const GpioIn4Pin: int := 24
  const GpioEnbPin: int := 25
  const MotorMaxSpeed: int := 100
  const MotorDefaultSpeed: int := 70

  datatype Level = Low | High

  /** Levels written so far with `GPIO.output`; a pin that was never written is absent. */
  type PinMap = map<int, Level>

  /** Both inputs of one bridge are HIGH. */
  predicate BothHigh(pins: PinMap, p: int, q: int)
  {
    p in pins && q in pins && pins[p] == High && pins[q] == High
  }

  /** Drive the two inputs of one bridge to the given levels, first `p`, then `q`. */
  function Drive(pins: PinMap, p: int, q: int, lp: Level, lq: Level): (r: PinMap)
    ensures p != q ==> p in r && q in r && r[p] == lp && r[q] == lq
    ensures forall k :: k in pins && k != p && k != q ==> k in r && r[k] == pins[k]
    ensures r.Keys == pins.Keys + {p, q}
  {
    pins[p := lp][q := lq]
  }

  /**
   * The direction word and the input levels of one bridge agree:
   * forward is IN1 HIGH / IN2 LOW, backward is LOW / HIGH, and a stopped
   * bridge has no input HIGH.
   */
  predicate Agrees(pins: PinMap, p: int, q: int, dir: Direction)
  {
    match dir
    case Forward => p in pins && q in pins && pins[p] == High && pins[q] == Low
    case Backward => p in pins && q in pins && pins[p] == Low && pins[q] == High
    case Stop => (p in pins ==> pins[p] == Low) && (q in pins ==> pins[q] == Low)
  }

  /** A bridge whose levels agree with a direction never has both inputs HIGH. */
  lemma AgreesNotBothHigh(pins: PinMap, p: int, q: int, dir: Direction)
    requires Agrees(pins, p, q, dir)
    ensures !BothHigh(pins, p, q)
  {
  }

  /**
   * Between the two writes of a direction change the bridge passes through
   * an intermediate state: going forward from backward, IN1 is raised while
   * IN2 is still HIGH (the L298N's brake state), until IN2 is lowered.
   */
  lemma ForwardAfterBackwardPassesBrake(pins: PinMap, p: int, q: int)
    requires p != q
    requires Agrees(pins, p, q, Backward)
    ensures BothHigh(pins[p := High], p, q)
    ensures !BothHigh(Drive(pins, p, q, High, Low), p, q)
  {
  }
}
