/** Bounds on the motor positions of a whole session, for every network. */
module MotorLaws {
  import opened Quantizer
  import opened LowPass
  import opened HistoryWindow
  import opened FrameText
  import opened MotorInference

  function Tendon(m: Motors, d: nat): real
    requires d < TENDONS
  {
    if d == 0 then m.m1 else if d == 1 then m.m2 else m.m3
  }

  /** What the filter of a session holds for tendon d lies between lo and hi. */
  ghost predicate InHull<S>(m: Motor<S>, d: nat, lo: real, hi: real)
    requires m.Valid() && d < TENDONS
  {
    m.seeded ==> Within(lo, Column(m.rows, TENDONS, d), hi)
  }

  lemma FilterStaysInHull<S>(rig: Rig<S>, m: Motor<S>, x: Row, d: nat, lo: real, hi: real)
    requires 0.0 < rig.alpha <= 1.0 && m.Valid() && |x| == TENDONS && d < TENDONS
    requires InHull(m, d, lo, hi) && lo <= x[d] <= hi
    ensures Within(lo, Column(Filter(rig, m, x), TENDONS, d), hi)
  {
    hide Cascade, CascadeColumn;
    var y := if m.seeded then m.rows else Seeded(LPF_STAGES, x);
    ColumnOfCascade(rig.alpha, y, x, d);
    CascadeStaysWithin(rig.alpha, Column(y, TENDONS, d), x[d], lo, hi);
  }

  lemma ComputeStaysInHull<S>(rig: Rig<S>, m: Motor<S>, j: Joystick, d: nat, lo: real, hi: real)
    requires 0.0 < rig.alpha <= 1.0 && m.Valid() && d < TENDONS && InHull(m, d, lo, hi)
    requires Invoke(rig, m, j).1.Some? ==> lo <= Prediction(Invoke(rig, m, j).1.value)[d] <= hi
    ensures var (next, out) := ComputeMotor(rig, m, j);
      && InHull(next, d, lo, hi)
      && (out.Some? ==> lo <= Tendon(out.value, d) <= hi)
  {
    hide Invoke, Filter, After, Prediction, Dequantize;
    var answer := Invoke(rig, m, j).1;
    if answer.Some? {
      var x := Prediction(answer.value);
      FilterStaysInHull(rig, m, x, d, lo, hi);
      var rows := Filter(rig, m, x);
      assert Column(rows, TENDONS, d)[LPF_STAGES - 1] == rows[LPF_STAGES - 1][d];
    }
  }

  // ----- Sessions -----

  /** The network's predictions for the joystick values of a session, failed calls left out. */
  ghost function Predictions<S>(rig: Rig<S>, m: Motor<S>, js: seq<Joystick>): seq<Tendons>
    requires m.Valid()
    decreases |js|
  {
    if js == [] then [] else
    var answer := Invoke(rig, m, js[0]).1;
    (if answer.Some? then [answer.value] else []) + Predictions(rig, ComputeMotor(rig, m, js[0]).0, js[1..])
  }

  /** The motor positions a session produces. */
  ghost function Outputs<S>(rig: Rig<S>, m: Motor<S>, js: seq<Joystick>): seq<Motors>
    requires m.Valid()
    decreases |js|
  {
    if js == [] then [] else
    var (next, out) := ComputeMotor(rig, m, js[0]);
    (if out.Some? then [out.value] else []) + Outputs(rig, next, js[1..])
  }

  ghost predicate AllBetween(ts: seq<Tendons>, d: nat, lo: real, hi: real)
    requires d < TENDONS
  {
    forall i | 0 <= i < |ts| :: lo <= Prediction(ts[i])[d] <= hi
  }

  ghost predicate OutputsBetween(ms: seq<Motors>, d: nat, lo: real, hi: real)
    requires d < TENDONS
  {
    forall i | 0 <= i < |ms| :: lo <= Tendon(ms[i], d) <= hi && ms[i].m4 == INSERTION_POSITION
  }

  lemma {:induction false} OutputsStayInHull<S>(
    rig: Rig<S>, m: Motor<S>, js: seq<Joystick>, d: nat, lo: real, hi: real)
    requires 0.0 < rig.alpha <= 1.0 && m.Valid() && d < TENDONS && InHull(m, d, lo, hi)
    requires AllBetween(Predictions(rig, m, js), d, lo, hi)
    ensures OutputsBetween(Outputs(rig, m, js), d, lo, hi)
    decreases |js|
  {
    if js != [] {
      var answer := Invoke(rig, m, js[0]).1;
      var (next, out) := ComputeMotor(rig, m, js[0]);
      var first := if answer.Some? then [answer.value] else [];
      BetweenCons(first, Predictions(rig, next, js[1..]), d, lo, hi);
      hide ComputeMotor, InHull, AllBetween, OutputsBetween, Invoke;
      ComputeAnswers(rig, m, js[0]);
      ComputeStaysInHull(rig, m, js[0], d, lo, hi);
      OutputsStayInHull(rig, next, js[1..], d, lo, hi);
      OutputsCons(if out.Some? then [out.value] else [], Outputs(rig, next, js[1..]), d, lo, hi);
    }
  }

  lemma ComputeAnswers<S>(rig: Rig<S>, m: Motor<S>, j: Joystick)
    requires m.Valid()
    ensures var (next, out) := ComputeMotor(rig, m, j);
      && (out.Some? <==> Invoke(rig, m, j).1.Some?)
      && (out.Some? ==> out.value.m4 == INSERTION_POSITION)
  {
  }

  lemma BetweenCons(first: seq<Tendons>, rest: seq<Tendons>, d: nat, lo: real, hi: real)
    requires d < TENDONS && AllBetween(first + rest, d, lo, hi)
    ensures AllBetween(rest, d, lo, hi)
    ensures first != [] ==> lo <= Prediction(first[0])[d] <= hi
  {
    hide Prediction;
    var all := first + rest;
    assert forall i | 0 <= i < |rest| :: rest[i] == all[|first| + i];
    assert first != [] ==> all[0] == first[0];
  }

  lemma OutputsCons(first: seq<Motors>, rest: seq<Motors>, d: nat, lo: real, hi: real)
    requires d < TENDONS && OutputsBetween(first, d, lo, hi) && OutputsBetween(rest, d, lo, hi)
    ensures OutputsBetween(first + rest, d, lo, hi)
  {
    hide Tendon;
  }

  /** From a reset on, every tendon position lies between the smallest and the largest value the
      network predicted for it in the same session; the insertion position is constant. */
  lemma SessionStaysInHull<S>(rig: Rig<S>, m: Motor<S>, js: seq<Joystick>, d: nat, lo: real, hi: real)
    requires 0.0 < rig.alpha <= 1.0 && m.Valid() && d < TENDONS
    requires AllBetween(Predictions(rig, ResetMotor(rig, m), js), d, lo, hi)
    ensures OutputsBetween(Outputs(rig, ResetMotor(rig, m), js), d, lo, hi)
  {
    hide Predictions, Outputs, AllBetween, OutputsBetween;
    OutputsStayInHull(rig, ResetMotor(rig, m), js, d, lo, hi);
  }

  const LOWEST := Dequantize(-128, OUTPUT_SCALE, OUTPUT_ZERO_POINT)
  const HIGHEST := Dequantize(127, OUTPUT_SCALE, OUTPUT_ZERO_POINT)

  lemma PredictionsAreInRange(t: Tendons, d: nat)
    requires d < TENDONS
    ensures LOWEST <= Prediction(t)[d] <= HIGHEST
    ensures LOWEST == 0.0 && HIGHEST < 12.3
  {
    DequantizeRange(t.t1, OUTPUT_SCALE, OUTPUT_ZERO_POINT);
    DequantizeRange(t.t2, OUTPUT_SCALE, OUTPUT_ZERO_POINT);
    DequantizeRange(t.t3, OUTPUT_SCALE, OUTPUT_ZERO_POINT);
  }

  /** So every network, in every session, stays in the range its int8 outputs can express. */
  lemma SessionStaysInRange<S>(rig: Rig<S>, m: Motor<S>, js: seq<Joystick>, d: nat)
    requires 0.0 < rig.alpha <= 1.0 && m.Valid() && d < TENDONS
    ensures OutputsBetween(Outputs(rig, ResetMotor(rig, m), js), d, LOWEST, HIGHEST)
  {
    hide Outputs, Predictions, OutputsBetween, ResetMotor, Prediction;
    var ts := Predictions(rig, ResetMotor(rig, m), js);
    forall i | 0 <= i < |ts| ensures LOWEST <= Prediction(ts[i])[d] <= HIGHEST {
      PredictionsAreInRange(ts[i], d);
    }
    SessionStaysInHull(rig, m, js, d, LOWEST, HIGHEST);
  }
}
