/**
  `bridge_server_forward` as a function: the chain of edits a raw frame goes through, each
  failing open, and the state the bridge keeps between frames.
 */
module Forwarding {
  import opened Options
  import opened Search
  import opened FrameText
  import opened ClockOffset
  import opened MotorInference

  const MAX_RAW := 512
  const MAX_BRIDGED := 1024

  /** What the bridge keeps: the motor pipeline, the offset window, the last payload, and
      whether an ICU client has ever connected. */
  datatype Bridge<S> = Bridge(motor: Motor<S>, window: seq<Sample>, payload: Bytes, listening: bool)

  /** The transfer time of a frame for the estimator; a frame without a sent time counts as 0. */
  function TransferOf(times: Option<Times>): real {
    match times
    case Some(t) => t.transfer
    case None => 0.0
  }

  /** A stamped frame with its corrected transfer time, unless that does not fit. */
  function WithCorrection(stamped: Bytes, corrected: real): Bytes {
    AppendField(stamped, CORRECTED, corrected, MAX_BRIDGED).GetOr(stamped)
  }

  /** The joystick values re-rendered; a failure leaves what it had written by then. */
  function WithJoystick(s: Bytes, j: Option<Joystick>): Bytes {
    match j
    case None => s
    case Some(j) => Reformat(s, j, MAX_BRIDGED).GetOr(FailedReformat(s, j, MAX_BRIDGED))
  }

  /** The motor positions appended, unless they do not fit. */
  function WithMotors(s: Bytes, m: Option<Motors>): Bytes {
    match m
    case None => s
    case Some(m) => AppendMotors(s, m, MAX_BRIDGED).GetOr(s)
  }

  /** Everything that happens to a frame after it was stamped. */
  function Rewrite(stamped: Bytes, corrected: real, j: Option<Joystick>, m: Option<Motors>): Bytes {
    WithMotors(WithJoystick(WithCorrection(stamped, corrected), j), m)
  }

  /** Inference, for a frame that has joystick values. */
  function Infer<S>(rig: Rig<S>, motor: Motor<S>, j: Option<Joystick>): (r: (Motor<S>, Option<Motors>))
    requires motor.Valid()
    ensures r.0.Valid()
  {
    match j
    case None => (motor, None)
    case Some(j) => ComputeMotor(rig, motor, j)
  }

  /** One frame: the new state, and the payload unless the stamp dropped the frame. */
  function Forward<S>(rig: Rig<S>, b: Bridge<S>, raw: Bytes, t1: real, t2: real)
    : (r: (Bridge<S>, Option<Bytes>))
    requires b.motor.Valid()
    ensures r.0.motor.Valid()
  {
    var j := ExtractJoystick(raw);
    var (motor, motors) := Infer(rig, b.motor, j);
    match StampFrame(raw, t1, t2, MAX_BRIDGED)
    case None => (b.(motor := motor), None)
    case Some(stamped) =>
      var s := Sample(t1, TransferOf(FrameTimes(raw, t1, t2)));
      var payload := Rewrite(stamped, CorrectedBy(b.window, s), j, motors);
      (Bridge(motor, Feed(b.window, s), payload, b.listening), Some(payload))
  }

  /** A controller connects: motor pipeline and offset window start afresh. */
  function ResetSession<S>(rig: Rig<S>, b: Bridge<S>): (r: Bridge<S>)
    ensures b.motor.Valid() ==> r.motor.Valid()
  {
    b.(motor := ResetMotor(rig, b.motor), window := [])
  }

  /** The process before anything has connected. */
  function InitialBridge<S>(rig: Rig<S>, npu: bool): (b: Bridge<S>)
    ensures b.motor.Valid()
  {
    Bridge(InitialMotor(rig, npu), [], [], false)
  }
}
