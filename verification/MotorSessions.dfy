/**
  A session of the motor pipeline, from the joystick values to the motor positions, without the
  pipeline's own state: what the network is given at each call, what it answers, and what the
  filter makes of its answers.
 */
module MotorSessions {
  import opened Options
  import opened Decimal
  import opened Quantizer
  import opened LowPass
  import H = HistoryWindow
  import opened FrameText
  import opened MotorInference
  import opened MotorLaws

  // ----- One call -----

  /** Clamping goes to the nearest value of [-1, 1], and leaves those as they are. */
  lemma ClampIsNearest(x: real, y: real)
    ensures -1.0 <= Clamp(x) <= 1.0
    ensures -1.0 <= y <= 1.0 ==> Abs(Clamp(x) - x) <= Abs(y - x)
    ensures -1.0 <= x <= 1.0 ==> Clamp(x) == x
  {
  }

  /** The int8 `q` stands for `x` as well as any, and is even where another stands for it as well. */
  ghost predicate Stands(q: int8, x: real) {
    forall k: int8 ::
      && Abs(Dequantize(q, INPUT_SCALE, INPUT_ZERO_POINT) - x) <= Abs(Dequantize(k, INPUT_SCALE, INPUT_ZERO_POINT) - x)
      && (k != q && Abs(Dequantize(q, INPUT_SCALE, INPUT_ZERO_POINT) - x)
                    == Abs(Dequantize(k, INPUT_SCALE, INPUT_ZERO_POINT) - x)
          ==> (q as int - INPUT_ZERO_POINT) % 2 == 0)
  }

  /** The tensor holds u and v of every element of the window, by turns. */
  ghost predicate Encodes(tensor: seq<int8>, window: seq<H.Point>) {
    && |tensor| == 2 * |window|
    && forall t: nat | t < |window| :: Stands(tensor[2 * t], window[t].u) && Stands(tensor[2 * t + 1], window[t].v)
  }

  lemma QuantizedStands(x: real)
    ensures Stands(Quantize(x, INPUT_SCALE, INPUT_ZERO_POINT), x)
  {
    hide Quantize, Dequantize;
    forall k: int8
      ensures var q := Quantize(x, INPUT_SCALE, INPUT_ZERO_POINT);
        && Abs(Dequantize(q, INPUT_SCALE, INPUT_ZERO_POINT) - x)
           <= Abs(Dequantize(k, INPUT_SCALE, INPUT_ZERO_POINT) - x)
        && (k != q && Abs(Dequantize(q, INPUT_SCALE, INPUT_ZERO_POINT) - x)
                      == Abs(Dequantize(k, INPUT_SCALE, INPUT_ZERO_POINT) - x)
            ==> (q as int - INPUT_ZERO_POINT) % 2 == 0)
    {
      QuantizeIsNearest(x, INPUT_SCALE, INPUT_ZERO_POINT, k);
      QuantizeTiesToEven(x, INPUT_SCALE, INPUT_ZERO_POINT, k);
    }
  }

  lemma InputsEncode(window: seq<H.Point>)
    ensures Encodes(Inputs(window), window)
  {
    hide Quantize, Stands, Inputs;
    InputsLength(window);
    forall t: nat | t < |window|
      ensures Stands(Inputs(window)[2 * t], window[t].u) && Stands(Inputs(window)[2 * t + 1], window[t].v)
    {
      InputsAt(window, t);
      QuantizedStands(window[t].u);
      QuantizedStands(window[t].v);
    }
  }

  lemma InputsLength(window: seq<H.Point>)
    ensures |Inputs(window)| == 2 * |window|
  {
    hide Quantize;
  }

  lemma InputsAt(window: seq<H.Point>, t: nat)
    requires t < |window|
    ensures |Inputs(window)| == 2 * |window|
    ensures Inputs(window)[2 * t] == Quantize(window[t].u, INPUT_SCALE, INPUT_ZERO_POINT)
    ensures Inputs(window)[2 * t + 1] == Quantize(window[t].v, INPUT_SCALE, INPUT_ZERO_POINT)
  {
    hide Quantize;
    assert 2 * t / 2 == t && (2 * t + 1) / 2 == t && 2 * t % 2 == 0 && (2 * t + 1) % 2 == 1;
  }

  /** Start-up leaves everything as a reset does; on the NPU the network alone has moved, by one
      call on a tensor of 40 zero points. */
  lemma StartUp<S>(rig: Rig<S>, npu: bool)
    ensures var m := InitialMotor(rig, npu);
      && m == ResetMotor(rig, m).(net := m.net)
      && m.history.hist == [] && !m.seeded
      && m.net == (if npu then rig.net.invoke(rig.net.initial, seq(40, _ => -7)).0 else rig.net.initial)
  {
    assert WARM_UP == seq(40, _ => -7);
  }

  // ----- What the network sees -----

  /** The features of the joystick values of a session. */
  function Points<S>(rig: Rig<S>, js: seq<Joystick>): (r: seq<H.Point>)
    ensures |r| == |js|
  {
    seq(|js|, i requires 0 <= i < |js| => rig.features(Clamp(js[i].x), Clamp(js[i].y)))
  }

  /** The samples shown at the last call: those at the indices `Shown` names. */
  ghost function WindowAt<S>(rig: Rig<S>, js: seq<Joystick>): (r: seq<H.Point>)
    requires js != []
    ensures |r| == SEQ_LEN
  {
    H.Pick(Points(rig, js), H.Shown(rig.Window(), Points(rig, js[..|js| - 1])))
  }

  /** One tensor a call, each the encoding of the window shown at that call. */
  ghost predicate IsTrace<S>(rig: Rig<S>, js: seq<Joystick>, tensors: seq<seq<int8>>) {
    |tensors| == |js| && forall i | 0 <= i < |js| :: Encodes(tensors[i], WindowAt(rig, js[..i + 1]))
  }

  /** The network's state and its answers, from its initial state on. */
  ghost function NetState<S>(net: Network<S>, tensors: seq<seq<int8>>): S {
    if tensors == [] then net.initial
    else net.invoke(NetState(net, tensors[..|tensors| - 1]), tensors[|tensors| - 1]).0
  }

  ghost function Answers<S>(net: Network<S>, tensors: seq<seq<int8>>): (r: seq<Option<Tendons>>)
    ensures |r| == |tensors|
  {
    if tensors == [] then [] else
    var init := tensors[..|tensors| - 1];
    Answers(net, init) + [net.invoke(NetState(net, init), tensors[|tensors| - 1]).1]
  }

  // ----- What the filter makes of the answers -----

  /** Output d of the network, dequantized: the position it asks of tendon d. */
  function Asked(t: Tendons, d: nat): real
    requires d < TENDONS
  {
    Dequantize(if d == 0 then t.t1 else if d == 1 then t.t2 else t.t3, OUTPUT_SCALE, OUTPUT_ZERO_POINT)
  }

  /** The positions asked of tendon d, failed calls left out. */
  function AllAsked(answers: seq<Option<Tendons>>, d: nat): seq<real>
    requires d < TENDONS
  {
    if answers == [] then [] else
    var last := answers[|answers| - 1];
    AllAsked(answers[..|answers| - 1], d) + if last.Some? then [Asked(last.value, d)] else []
  }

  /** Two stages that start at the first position asked and follow all of them. */
  function Smoothed(alpha: real, asked: seq<real>): (r: seq<real>)
    requires asked != []
    ensures |r| == 2
  {
    var last := asked[|asked| - 1];
    if |asked| == 1 then CascadeColumn(alpha, [last, last], last)
    else CascadeColumn(alpha, Smoothed(alpha, asked[..|asked| - 1]), last)
  }

  // ----- The pipeline -----

  /** The state of the pipeline after a session, and what its last call returned. */
  ghost function Driven<S>(rig: Rig<S>, m: Motor<S>, js: seq<Joystick>): (r: Motor<S>)
    requires m.Valid()
    ensures r.Valid()
  {
    if js == [] then ResetMotor(rig, m)
    else ComputeMotor(rig, Driven(rig, m, js[..|js| - 1]), js[|js| - 1]).0
  }

  ghost function Returned<S>(rig: Rig<S>, m: Motor<S>, js: seq<Joystick>): Option<Motors>
    requires m.Valid() && js != []
  {
    ComputeMotor(rig, Driven(rig, m, js[..|js| - 1]), js[|js| - 1]).1
  }

  /** The tensors of a session. */
  ghost function Tensors<S>(rig: Rig<S>, js: seq<Joystick>): (r: seq<seq<int8>>)
    ensures |r| == |js|
  {
    if js == [] then [] else Tensors(rig, js[..|js| - 1]) + [Inputs(WindowAt(rig, js))]
  }

  lemma {:induction false} TensorsAt<S>(rig: Rig<S>, js: seq<Joystick>, i: nat)
    requires i < |js|
    ensures Tensors(rig, js)[i] == Inputs(WindowAt(rig, js[..i + 1]))
  {
    hide Inputs, WindowAt;
    var init := js[..|js| - 1];
    if i < |init| {
      assert init[..i + 1] == js[..i + 1];
      TensorsAt(rig, init, i);
    } else {
      assert js[..i + 1] == js;
    }
  }

  lemma TensorsTrace<S>(rig: Rig<S>, js: seq<Joystick>)
    ensures IsTrace(rig, js, Tensors(rig, js))
  {
    hide Inputs, WindowAt, Tensors, Encodes;
    forall i | 0 <= i < |js| ensures Encodes(Tensors(rig, js)[i], WindowAt(rig, js[..i + 1])) {
      TensorsAt(rig, js, i);
      InputsEncode(WindowAt(rig, js[..i + 1]));
    }
  }

  /** The filter holds the smoothed positions of tendon d, once there are any. */
  ghost predicate HoldsAt<S>(rig: Rig<S>, m: Motor<S>, answers: seq<Option<Tendons>>, d: nat)
    requires m.Valid() && d < TENDONS
  {
    && (m.seeded <==> AllAsked(answers, d) != [])
    && (m.seeded ==> Column(m.rows, TENDONS, d) == Smoothed(rig.alpha, AllAsked(answers, d)))
  }

  ghost predicate Holds<S>(rig: Rig<S>, m: Motor<S>, answers: seq<Option<Tendons>>)
    requires m.Valid()
  {
    forall d: nat | d < TENDONS :: HoldsAt(rig, m, answers, d)
  }

  /** The position returned for tendon d is the smoothed one. */
  ghost predicate IsSmoothed(alpha: real, out: Motors, answers: seq<Option<Tendons>>, d: nat)
    requires d < TENDONS
  {
    AllAsked(answers, d) != [] && Tendon(out, d) == Smoothed(alpha, AllAsked(answers, d))[1]
  }

  /** A call returns what the filter makes of the answers so far, or fails with the network. */
  ghost predicate IsAnswered(alpha: real, out: Option<Motors>, answers: seq<Option<Tendons>>)
    requires answers != []
  {
    && (out.Some? <==> answers[|answers| - 1].Some?)
    && (out.Some? ==> out.value.m4 == INSERTION_POSITION)
    && (out.Some? ==> forall d: nat | d < TENDONS :: IsSmoothed(alpha, out.value, answers, d))
  }

  lemma PredictionIs(t: Tendons, d: nat)
    requires d < TENDONS
    ensures Prediction(t)[d] == Asked(t, d)
  {
  }

  /** One call, in the terms above. */
  lemma CallIs<S>(rig: Rig<S>, m: Motor<S>, j: Joystick, window: seq<H.Point>, answers: seq<Option<Tendons>>)
    requires m.Valid() && Holds(rig, m, answers)
    requires H.WindowOf(rig.Window(), m.history, rig.features(Clamp(j.x), Clamp(j.y))) == window
    ensures var (net, answer) := rig.net.invoke(m.net, Inputs(window));
      var (next, out) := ComputeMotor(rig, m, j);
      && next.net == net
      && next.history == H.After(rig.Window(), m.history, rig.features(Clamp(j.x), Clamp(j.y)))
      && Holds(rig, next, answers + [answer])
      && IsAnswered(rig.alpha, out, answers + [answer])
  {
    var (net, answer) := rig.net.invoke(m.net, Inputs(window));
    var (next, out) := ComputeMotor(rig, m, j);
    hide Inputs, Clamp, H.After, H.WindowOf, Filter, Prediction, AllAsked, Smoothed, Column;
    forall d: nat | d < TENDONS
      ensures HoldsAt(rig, next, answers + [answer], d)
      ensures out.Some? ==> IsSmoothed(rig.alpha, out.value, answers + [answer], d)
    {
      assert HoldsAt(rig, m, answers, d);
      AskedSnoc(answers, answer, d);
      if answer.Some? {
        FilterIs(rig, m, answer.value, AllAsked(answers, d), d);
        ColumnAt(Filter(rig, m, Prediction(answer.value)), d);
        assert Tendon(out.value, d) == Filter(rig, m, Prediction(answer.value))[LPF_STAGES - 1][d];
        assert AllAsked(answers + [answer], d) == AllAsked(answers, d) + [Asked(answer.value, d)];
        assert AllAsked(answers + [answer], d) != [];
      } else {
        assert AllAsked(answers, d) + [] == AllAsked(answers, d);
      }
    }
  }

  lemma AskedSnoc(answers: seq<Option<Tendons>>, answer: Option<Tendons>, d: nat)
    requires d < TENDONS
    ensures AllAsked(answers + [answer], d)
         == AllAsked(answers, d) + if answer.Some? then [Asked(answer.value, d)] else []
  {
    assert (answers + [answer])[..|answers|] == answers;
  }

  lemma ColumnAt(rows: seq<Row>, d: nat)
    requires |rows| == LPF_STAGES && IsBank(rows, TENDONS) && d < TENDONS
    ensures rows[LPF_STAGES - 1][d] == Column(rows, TENDONS, d)[1]
  {
  }

  lemma FilterIs<S>(rig: Rig<S>, m: Motor<S>, t: Tendons, asked: seq<real>, d: nat)
    requires m.Valid() && d < TENDONS && (m.seeded <==> asked != [])
    requires m.seeded ==> Column(m.rows, TENDONS, d) == Smoothed(rig.alpha, asked)
    ensures Column(Filter(rig, m, Prediction(t)), TENDONS, d) == Smoothed(rig.alpha, asked + [Asked(t, d)])
  {
    hide CascadeColumn, Cascade, Asked, Prediction;
    PredictionIs(t, d);
    var x := Prediction(t);
    var y := if m.seeded then m.rows else Seeded(LPF_STAGES, x);
    ColumnOfCascade(rig.alpha, y, x, d);
    assert (asked + [x[d]])[..|asked|] == asked;
    if !m.seeded { SeededColumn(x, d); }
  }

  lemma SeededColumn(x: Row, d: nat)
    requires |x| == TENDONS && d < TENDONS
    ensures Column(Seeded(LPF_STAGES, x), TENDONS, d) == [x[d], x[d]]
  {
  }

  /** What the pipeline holds after a session. */
  lemma {:induction false} StateOfSession<S>(rig: Rig<S>, m: Motor<S>, js: seq<Joystick>)
    requires m.Valid()
    ensures var s := Driven(rig, m, js);
      && s.net == NetState(rig.net, Tensors(rig, js))
      && s.history == H.Run(rig.Window(), m.history, Points(rig, js))
      && Holds(rig, s, Answers(rig.net, Tensors(rig, js)))
  {
    if js != [] {
      var (init, j) := (js[..|js| - 1], js[|js| - 1]);
      StateOfSession(rig, m, init);
      SessionStep(rig, m, js);
      hide Driven, H.Run, Holds, ComputeMotor, Answers, NetState, Tensors, Points, Inputs, WindowAt;
    }
  }

  lemma LastCall<S>(rig: Rig<S>, m: Motor<S>, js: seq<Joystick>)
    requires m.Valid() && js != []
    ensures var (init, j) := (js[..|js| - 1], js[|js| - 1]);
      var p := rig.features(Clamp(j.x), Clamp(j.y));
      && Points(rig, js) == Points(rig, init) + [p]
      && H.WindowOf(rig.Window(), H.Run(rig.Window(), m.history, Points(rig, init)), p) == WindowAt(rig, js)
      && H.Run(rig.Window(), m.history, Points(rig, js))
         == H.After(rig.Window(), H.Run(rig.Window(), m.history, Points(rig, init)), p)
  {
    var (init, j) := (js[..|js| - 1], js[|js| - 1]);
    var p := rig.features(Clamp(j.x), Clamp(j.y));
    hide Clamp, H.WindowOf, H.Run, H.After, H.Shown, H.Pick;
    assert Points(rig, js) == Points(rig, init) + [p];
    H.WindowIsHistory(rig.Window(), m.history, Points(rig, init), p);
    H.RunStep(rig.Window(), m.history, Points(rig, js));
    assert Points(rig, js)[..|js| - 1] == Points(rig, init);
  }

  lemma TensorsStep<S>(rig: Rig<S>, js: seq<Joystick>)
    requires js != []
    ensures var (before, w) := (Tensors(rig, js[..|js| - 1]), Inputs(WindowAt(rig, js)));
      && Tensors(rig, js) == before + [w]
      && NetState(rig.net, Tensors(rig, js)) == rig.net.invoke(NetState(rig.net, before), w).0
      && Answers(rig.net, Tensors(rig, js))
         == Answers(rig.net, before) + [rig.net.invoke(NetState(rig.net, before), w).1]
  {
    hide Inputs, WindowAt;
    var (before, w) := (Tensors(rig, js[..|js| - 1]), Inputs(WindowAt(rig, js)));
    assert (before + [w])[..|before|] == before;
  }

  lemma SessionStep<S>(rig: Rig<S>, m: Motor<S>, js: seq<Joystick>)
    requires m.Valid() && js != []
    requires var (init, s) := (js[..|js| - 1], Driven(rig, m, js[..|js| - 1]));
      && s.net == NetState(rig.net, Tensors(rig, init))
      && s.history == H.Run(rig.Window(), m.history, Points(rig, init))
      && Holds(rig, s, Answers(rig.net, Tensors(rig, init)))
    ensures var (next, out) := ComputeMotor(rig, Driven(rig, m, js[..|js| - 1]), js[|js| - 1]);
      var answers := Answers(rig.net, Tensors(rig, js));
      && next.net == NetState(rig.net, Tensors(rig, js))
      && next.history == H.Run(rig.Window(), m.history, Points(rig, js))
      && Holds(rig, next, answers)
      && IsAnswered(rig.alpha, out, answers)
  {
    hide *;
    var (init, j) := (js[..|js| - 1], js[|js| - 1]);
    LastCall(rig, m, js);
    TensorsStep(rig, js);
    CallIs(rig, Driven(rig, m, init), j, WindowAt(rig, js), Answers(rig.net, Tensors(rig, init)));
  }

  /** A session of the pipeline, whatever came before the reset: there are tensors, each the best
      int8 encoding of the window of that call; the network runs on them from its initial state;
      and every call returns the last stage of a cascade over all positions asked so far, seeded
      with the first, or fails if the network does. */
  lemma SessionOutput<S>(rig: Rig<S>, m: Motor<S>, js: seq<Joystick>)
    requires m.Valid() && js != []
    ensures exists tensors ::
      IsTrace(rig, js, tensors) && IsAnswered(rig.alpha, Returned(rig, m, js), Answers(rig.net, tensors))
  {
    hide Driven, Answers, Tensors, IsTrace, IsAnswered, Holds, H.Run, Points;
    StateOfSession(rig, m, js[..|js| - 1]);
    SessionStep(rig, m, js);
    TensorsTrace(rig, js);
    var tensors := Tensors(rig, js);
    assert IsTrace(rig, js, tensors) && IsAnswered(rig.alpha, Returned(rig, m, js), Answers(rig.net, tensors));
  }

  // ----- A step -----

  /** Asked for x0 first and for c from then on, a tendon approaches c exactly so. */
  lemma StepResponse(alpha: real, x0: real, c: real, n: nat)
    ensures var asked := [x0] + seq(n, _ => c);
      Smoothed(alpha, asked)[1] == c + SecondError(Pow(1.0 - alpha, n), x0 - c, x0 - c, alpha, n as real)
  {
    SmoothedIterates(alpha, x0, c, n);
    TwoStagesConverge(alpha, c, x0 - c, x0 - c, n);
    hide Smoothed, Iterate, Pow, FirstError, SecondError;
    assert c + (x0 - c) == x0;
  }

  lemma {:induction false} SmoothedIterates(alpha: real, x0: real, c: real, n: nat)
    ensures Smoothed(alpha, [x0] + seq(n, _ => c)) == Iterate(alpha, [x0, x0], c, n)
  {
    var asked := [x0] + seq(n, _ => c);
    if n == 0 {
      assert asked == [x0];
      FixedColumn(alpha, x0);
    } else {
      assert asked[..n] == [x0] + seq(n - 1, _ => c);
      SmoothedIterates(alpha, x0, c, n - 1);
      IterateStep(alpha, [x0, x0], c, n);
      hide CascadeColumn, Iterate;
    }
  }

  lemma FixedColumn(alpha: real, x: real)
    ensures CascadeColumn(alpha, [x, x], x) == [x, x]
  {
    CascadeOfTwo(alpha, x, x, x);
    assert Toward(alpha, x, x) == x;
  }
}
