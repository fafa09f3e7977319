/**
  `motor_inference.cpp`: from joystick values to motor positions.

  The neural network is any step function on (interpreter state, quantized window); the angle
  and feature formulas are any function of the clamped joystick values. Resetting the
  interpreter's variable tensors is taken to restore the network's initial state.
 */
module MotorInference {
  import opened Options
  import opened Quantizer
  import opened LowPass
  import opened HistoryWindow
  import opened FrameText

  const SEQ_LEN := 20
  const ANCHOR_DISTANCE := 0.05
  const INPUT_SCALE := 0.4401035010814667
  const INPUT_ZERO_POINT := -7
  const OUTPUT_SCALE := 0.04787081480026245
  const OUTPUT_ZERO_POINT := -128
  const LPF_STAGES := 2
  const TENDONS := 3
  const INSERTION_POSITION := 0.0

  /** The three int8 outputs of the network. */
  datatype Tendons = Tendons(t1: int8, t2: int8, t3: int8)

  datatype Network<!S> = Network(initial: S, invoke: (S, seq<int8>) -> (S, Option<Tendons>))

  /** What is fixed when the process starts. */
  datatype Rig<!S> = Rig(net: Network<S>, features: (real, real) -> Point, dist: Distance, alpha: real) {
    function Window(): Config {
      Config(SEQ_LEN, ANCHOR_DISTANCE, dist)
    }
  }

  /** What changes: the interpreter's state, the history, the filter. */
  datatype Motor<S> = Motor(net: S, history: State, rows: seq<Row>, seeded: bool) {
    ghost predicate Valid() {
      |rows| == LPF_STAGES && IsBank(rows, TENDONS) && |history.hist| < SEQ_LEN
    }
  }

  function Clamp(x: real): real {
    if x < -1.0 then -1.0 else if x > 1.0 then 1.0 else x
  }

  /** The quantized window, u and v by turns. */
  function Inputs(window: seq<Point>): seq<int8> {
    seq(2 * |window|, i requires 0 <= i < 2 * |window| =>
      Quantize(if i % 2 == 0 then window[i / 2].u else window[i / 2].v, INPUT_SCALE, INPUT_ZERO_POINT))
  }

  function Prediction(t: Tendons): (r: Row)
    ensures |r| == TENDONS
  {
    [Dequantize(t.t1, OUTPUT_SCALE, OUTPUT_ZERO_POINT),
     Dequantize(t.t2, OUTPUT_SCALE, OUTPUT_ZERO_POINT),
     Dequantize(t.t3, OUTPUT_SCALE, OUTPUT_ZERO_POINT)]
  }

  /** What the network answers to the next joystick values. */
  function Invoke<S>(rig: Rig<S>, m: Motor<S>, j: Joystick): (S, Option<Tendons>) {
    var p := rig.features(Clamp(j.x), Clamp(j.y));
    rig.net.invoke(m.net, Inputs(WindowOf(rig.Window(), m.history, p)))
  }

  /** The filter is seeded with the first prediction of a session, then stepped. */
  function Filter<S>(rig: Rig<S>, m: Motor<S>, x: Row): (r: seq<Row>)
    requires m.Valid() && |x| == TENDONS
    ensures |r| == LPF_STAGES && IsBank(r, TENDONS)
  {
    Cascade(rig.alpha, if m.seeded then m.rows else Seeded(LPF_STAGES, x), x)
  }

  /** `motor_inference_compute`: the new state, and the motor positions unless inference failed. */
  function ComputeMotor<S>(rig: Rig<S>, m: Motor<S>, j: Joystick): (r: (Motor<S>, Option<Motors>))
    requires m.Valid()
    ensures r.0.Valid()
  {
    var p := rig.features(Clamp(j.x), Clamp(j.y));
    var history := After(rig.Window(), m.history, p);
    var (net, answer) := Invoke(rig, m, j);
    match answer
    case None => (Motor(net, history, m.rows, m.seeded), None)
    case Some(t) =>
      var rows := Filter(rig, m, Prediction(t));
      var f := rows[LPF_STAGES - 1];
      (Motor(net, history, rows, true), Some(Motors(f[0], f[1], f[2], INSERTION_POSITION)))
  }

  /** `motor_inference_reset`; the filter rows and the stale samples stay as they are. */
  function ResetMotor<S>(rig: Rig<S>, m: Motor<S>): (r: Motor<S>)
    ensures m.Valid() ==> r.Valid()
  {
    m.(net := rig.net.initial, history := ResetState(m.history), seeded := false)
  }

  const WARM_UP: seq<int8> := seq(2 * SEQ_LEN, _ => INPUT_ZERO_POINT as int8)

  /** The state `motor_inference_init` leaves; on the NPU a warm-up call has run. */
  function InitialMotor<S>(rig: Rig<S>, npu: bool): (m: Motor<S>)
    ensures m.Valid()
  {
    Motor(if npu then rig.net.invoke(rig.net.initial, WARM_UP).0 else rig.net.initial,
          State([], Point(0.0, 0.0), Point(0.0, 0.0), 0.0, false),
          Seeded(LPF_STAGES, seq(TENDONS, _ => 0.0)), false)
  }

  class MotorInference<S> {
    const rig: Rig<S>
    var net: S
    const history: HistoryWindowBuilder
    const lpf: CascadedEMA
    const inputTensor: array<int8>
    var seeded: bool
    ghost const Repr: set<object>

    ghost predicate Valid()
      reads this, lpf, history
    {
      && Repr == {this, history, lpf, inputTensor}
      && history.config == rig.Window()
      && lpf.dim == TENDONS && lpf.stages == LPF_STAGES && lpf.alpha == rig.alpha && lpf.Valid()
      && |history.hist| < SEQ_LEN
      && inputTensor.Length == 2 * SEQ_LEN
    }

    ghost function View(): (m: Motor<S>)
      reads this, history, lpf
    {
      Motor(net, history.View(), lpf.y, seeded)
    }

    constructor (rig: Rig<S>, npu: bool)
      ensures Valid() && fresh(Repr)
      ensures this.rig == rig && View() == InitialMotor(rig, npu)
    {
      this.rig := rig;
      var window := new HistoryWindowBuilder(rig.Window());
      var filter := new CascadedEMA(TENDONS, LPF_STAGES, rig.alpha);
      var tensor := new int8[2 * SEQ_LEN](_ => INPUT_ZERO_POINT as int8);
      assert tensor[..] == WARM_UP;
      history, lpf, inputTensor := window, filter, tensor;
      net := if npu then rig.net.invoke(rig.net.initial, tensor[..]).0 else rig.net.initial;
      seeded := false;
      Repr := {this, window, filter, tensor};
    }

    method Reset()
      requires Valid()
      modifies Repr
      ensures Valid() && View() == ResetMotor(rig, old(View()))
    {
      net := rig.net.initial;
      history.Reset();
      seeded := false;
    }

    /** Fills the input tensor from the window. */
    method FillInput(window: seq<Point>)
      requires Valid() && |window| == SEQ_LEN
      modifies inputTensor
      ensures inputTensor[..] == Inputs(window)
    {
      for t := 0 to SEQ_LEN
        invariant forall i | 0 <= i < 2 * t :: inputTensor[i] == Inputs(window)[i]
      {
        inputTensor[t * 2 + 0] := Quantize(window[t].u, INPUT_SCALE, INPUT_ZERO_POINT);
        inputTensor[t * 2 + 1] := Quantize(window[t].v, INPUT_SCALE, INPUT_ZERO_POINT);
      }
    }

    /** A failed inference leaves `out` as it was. */
    method Compute(j: Joystick, out: array<real>) returns (ok: bool)
      requires Valid() && out.Length == 4 && out !in Repr
      modifies Repr, out
      ensures Valid()
      ensures var r := ComputeMotor(rig, old(View()), j);
        && View() == r.0
        && ok == r.1.Some?
        && (ok ==> out[..] == [r.1.value.m1, r.1.value.m2, r.1.value.m3, r.1.value.m4])
        && (!ok ==> out[..] == old(out[..]))
    {
      hide After, WindowOf, Cascade, Inputs, Dequantize, Clamp;
      var p := rig.features(Clamp(j.x), Clamp(j.y));
      HistoryStaysShort(rig.Window(), history.View(), p);
      var window := history.Build(p);
      FillInput(window);
      var (next, answer) := rig.net.invoke(net, inputTensor[..]);
      net := next;
      if answer.None? {
        return false;
      }
      var tendon := Prediction(answer.value);
      if !seeded {
        lpf.Reset(tendon);
        seeded := true;
      }
      var filtered := lpf.Step(tendon);
      out[0] := filtered[0];
      out[1] := filtered[1];
      out[2] := filtered[2];
      out[3] := INSERTION_POSITION;
      return true;
    }
  }
}
