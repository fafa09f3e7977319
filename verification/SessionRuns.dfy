/**
  The laws of the estimator and of the motor pipeline, on runs of the process: what is in the
  window and in the filter after any sequence of events belongs to the session since the last
  connect.
 */
module SessionRuns {
  import opened Options
  import opened Search
  import opened FrameText
  import opened ClockOffset
  import opened MotorInference
  import opened MotorLaws
  import opened MotorSessions
  import opened Forwarding
  import opened Reassembly
  import opened Process
  import opened Broadcast

  /** The message an event completes. */
  function Whole<S>(s: State<S>, e: Event): Option<Bytes> {
    match e
    case Fragment(bytes, first, final, _, _) => Receive(s.collected, bytes, first, final).1
    case _ => None
  }

  // ----- The offset window -----

  /** The sample a frame feeds to the estimator. */
  function SampleOf(raw: Bytes, t1: real, t2: real): Sample {
    Sample(t1, TransferOf(FrameTimes(raw, t1, t2)))
  }

  /** The samples of the frames forwarded since the last connect. */
  ghost function Samples<S>(rig: Rig<S>, npu: bool, es: seq<Event>): seq<Sample> {
    if es == [] then [] else
    var (init, e) := (es[..|es| - 1], es[|es| - 1]);
    var s := After(rig, npu, init);
    match e
    case ControllerConnect => []
    case Fragment(_, _, _, t1, t2) =>
      if Step(rig, s, e).1.Forwarded? then Samples(rig, npu, init) + [SampleOf(Whole(s, e).GetOr([]), t1, t2)]
      else Samples(rig, npu, init)
    case _ => Samples(rig, npu, init)
  }

  lemma StepWindow<S>(rig: Rig<S>, s: State<S>, e: Event)
    requires s.Valid()
    ensures var (next, out) := Step(rig, s, e);
      && (e.ControllerConnect? ==> next.bridge.window == [])
      && (out.Forwarded? ==> e.Fragment? && Whole(s, e).Some?)
      && (!e.ControllerConnect? && !out.Forwarded? ==> next.bridge.window == s.bridge.window)
      && (out.Forwarded? ==> next.bridge.window == Feed(s.bridge.window, SampleOf(Whole(s, e).value, e.t1, e.t2)))
  {
    hide Receive, StampFrame, FrameTimes, ExtractJoystick, Infer, Feed, Rewrite, CorrectedBy, ResetMotor;
  }

  /** After any run the window is that of the samples of the session. */
  lemma {:induction false} WindowOfRun<S>(rig: Rig<S>, npu: bool, es: seq<Event>)
    ensures After(rig, npu, es).bridge.window == Window(Samples(rig, npu, es))
  {
    if es != [] {
      var (init, e) := (es[..|es| - 1], es[|es| - 1]);
      var s := After(rig, npu, init);
      WindowOfRun(rig, npu, init);
      RunStep(rig, Start(rig, npu), es);
      StepWindow(rig, s, e);
      hide Step, Run, Frames, Feed, Whole, SampleOf;
      if e.Fragment? && Step(rig, s, e).1.Forwarded? {
        WindowSnoc(Samples(rig, npu, init), SampleOf(Whole(s, e).value, e.t1, e.t2));
      }
    }
  }

  lemma WindowSnoc(h: seq<Sample>, s: Sample)
    ensures Window(h + [s]) == Feed(Window(h), s)
    ensures Corrected(h + [s]) == CorrectedBy(Window(h), s)
  {
    var g := h + [s];
    assert g[..|g| - 1] == h;
    hide Feed, MinTransfer;
  }

  /** So the corrected time the next frame gets is that of the session's samples with its own. */
  lemma CorrectedTimeOnARun<S>(rig: Rig<S>, npu: bool, es: seq<Event>, raw: Bytes, t1: real, t2: real)
    ensures var b := After(rig, npu, es).bridge;
      var stamped := StampFrame(raw, t1, t2, MAX_BRIDGED);
      var j := ExtractJoystick(raw);
      Forward(rig, b, raw, t1, t2).1 ==
      if stamped.None? then None
      else Some(Rewrite(stamped.value, Corrected(Samples(rig, npu, es) + [SampleOf(raw, t1, t2)]), j,
                        Infer(rig, b.motor, j).1))
  {
    hide Run, Samples, StampFrame, ExtractJoystick, Infer, Rewrite, FrameTimes, CorrectedBy, Corrected, Window, Feed;
    WindowOfRun(rig, npu, es);
    WindowSnoc(Samples(rig, npu, es), SampleOf(raw, t1, t2));
  }

  /** The sample of a frame: T1 minus the number after its sent-time key, or 0 where it has none. */
  lemma SampleOfIs(raw: Bytes, t1: real, t2: real)
    ensures SentName(raw).None? ==> SampleOf(raw, t1, t2) == Sample(t1, 0.0)
    ensures SentName(raw).Some? ==>
              && ValueText(raw, Key(SentName(raw).value)).Some?
              && SampleOf(raw, t1, t2)
                 == Sample(t1, t1 - ParseSpan(ValueText(raw, Key(SentName(raw).value)).value))
  {
    hide Find, Key, CutTail, ParseSpan;
  }

  /** A frame without a sent time, on any run: the estimator is fed 0 for it, and with a clock
      that does not run backwards the corrected time it gets is 0 minus the least of 0 and the
      transfer times of the session that are at most 30 s old. */
  lemma NoSentTimeOnARun<S>(rig: Rig<S>, npu: bool, es: seq<Event>, raw: Bytes, t1: real, t2: real, m: real)
    requires SentName(raw).None? && |raw| <= MAX_RAW
    ensures var b := After(rig, npu, es).bridge;
      var h := Samples(rig, npu, es);
      var (next, out) := Forward(rig, b, raw, t1, t2);
      && next.window == Feed(b.window, Sample(t1, 0.0))
      && out.Some?
      && (Ordered(h + [Sample(t1, 0.0)]) && IsLeastRecent(m, h, t1) ==>
            out.value == Rewrite(raw, 0.0 - m, ExtractJoystick(raw), Infer(rig, b.motor, ExtractJoystick(raw)).1))
  {
    PassesUnstamped(raw, t1, t2);
    ForwardFeeds(rig, After(rig, npu, es).bridge, raw, t1, t2);
    CorrectedTimeOnARun(rig, npu, es, raw, t1, t2);
    SampleOfIs(raw, t1, t2);
    var h := Samples(rig, npu, es);
    if Ordered(h + [Sample(t1, 0.0)]) && IsLeastRecent(m, h, t1) {
      LeastRecentIs(h, t1, m);
    }
    hide *;
  }

  /** The least of 0 and the transfer times at most 30 s old at `t1`. */
  ghost predicate IsLeastRecent(m: real, h: seq<Sample>, t1: real) {
    && m <= 0.0
    && (forall i | 0 <= i < |h| && t1 - h[i].now <= 30.0 :: m <= h[i].transfer)
    && (m == 0.0 || exists i :: 0 <= i < |h| && t1 - h[i].now <= 30.0 && h[i].transfer == m)
  }

  lemma LeastRecentIs(h: seq<Sample>, t1: real, m: real)
    requires Ordered(h + [Sample(t1, 0.0)]) && IsLeastRecent(m, h, t1)
    ensures Corrected(h + [Sample(t1, 0.0)]) == 0.0 - m
  {
    var g := h + [Sample(t1, 0.0)];
    assert forall i | 0 <= i < |h| :: g[i] == h[i];
    assert g[|h|] == Sample(t1, 0.0);
    assert exists i :: 0 <= i < |g| && Recent(g, i) && g[i].transfer == m by {
      if m == 0.0 {
        assert Recent(g, |h|);
      } else {
        var i :| 0 <= i < |h| && t1 - h[i].now <= 30.0 && h[i].transfer == m;
        assert Recent(g, i);
      }
    }
    CorrectedIsRollingMinimum(g, m);
  }

  lemma PassesUnstamped(raw: Bytes, t1: real, t2: real)
    requires SentName(raw).None? && |raw| <= MAX_RAW
    ensures StampFrame(raw, t1, t2, MAX_BRIDGED) == Some(raw)
  {
    hide SentName;
  }

  lemma ForwardFeeds<S>(rig: Rig<S>, b: Bridge<S>, raw: Bytes, t1: real, t2: real)
    requires b.motor.Valid() && StampFrame(raw, t1, t2, MAX_BRIDGED).Some?
    ensures Forward(rig, b, raw, t1, t2).0.window == Feed(b.window, SampleOf(raw, t1, t2))
  {
    hide StampFrame, FrameTimes, Infer, ExtractJoystick, Feed, Rewrite, CorrectedBy;
  }

  // ----- The motor pipeline -----

  /** The prediction an event makes, if it makes one. */
  ghost function PredictionOf<S>(rig: Rig<S>, s: State<S>, e: Event): Option<Tendons> {
    match Whole(s, e)
    case None => None
    case Some(raw) =>
      match ExtractJoystick(raw)
      case None => None
      case Some(j) => Invoke(rig, s.bridge.motor, j).1
  }

  /** The network's predictions since the last connect. */
  ghost function Predicted<S>(rig: Rig<S>, npu: bool, es: seq<Event>): seq<Tendons> {
    if es == [] then [] else
    var (init, e) := (es[..|es| - 1], es[|es| - 1]);
    if e.ControllerConnect? then []
    else
      var t := PredictionOf(rig, After(rig, npu, init), e);
      Predicted(rig, npu, init) + if t.Some? then [t.value] else []
  }

  lemma StepMotor<S>(rig: Rig<S>, s: State<S>, e: Event)
    requires s.Valid()
    ensures var next := Step(rig, s, e).0;
      && (e.ControllerConnect? ==> !next.bridge.motor.seeded)
      && (Whole(s, e).None? && !e.ControllerConnect? ==> next.bridge.motor == s.bridge.motor)
      && (Whole(s, e).Some? ==>
            next.bridge.motor == Infer(rig, s.bridge.motor, ExtractJoystick(Whole(s, e).value)).0)
  {
    hide Receive, StampFrame, FrameTimes, ExtractJoystick, Infer, Feed, Rewrite, CorrectedBy;
  }

  lemma StepStaysInHull<S>(rig: Rig<S>, s: State<S>, e: Event, d: nat, lo: real, hi: real)
    requires 0.0 < rig.alpha <= 1.0 && s.Valid() && d < TENDONS
    requires e.ControllerConnect? || InHull(s.bridge.motor, d, lo, hi)
    requires var t := PredictionOf(rig, s, e); t.Some? ==> lo <= Prediction(t.value)[d] <= hi
    ensures InHull(Step(rig, s, e).0.bridge.motor, d, lo, hi)
  {
    StepMotor(rig, s, e);
    hide Step, ExtractJoystick, Prediction, Invoke, ComputeMotor, Tendon;
    if Whole(s, e).Some? && ExtractJoystick(Whole(s, e).value).Some? {
      var j := ExtractJoystick(Whole(s, e).value).value;
      ComputeStaysInHull(rig, s.bridge.motor, j, d, lo, hi);
    }
  }

  lemma BetweenSnoc(ts: seq<Tendons>, more: seq<Tendons>, d: nat, lo: real, hi: real)
    requires d < TENDONS && AllBetween(ts + more, d, lo, hi)
    ensures AllBetween(ts, d, lo, hi)
    ensures more != [] ==> lo <= Prediction(more[0])[d] <= hi
  {
    hide Prediction;
    assert forall i | 0 <= i < |ts| :: (ts + more)[i] == ts[i];
    assert more != [] ==> (ts + more)[|ts|] == more[0];
  }

  /** After any run the filter holds nothing outside the hull of the session's predictions. */
  lemma {:induction false} RunStaysInHull<S>(rig: Rig<S>, npu: bool, es: seq<Event>, d: nat, lo: real, hi: real)
    requires 0.0 < rig.alpha <= 1.0 && d < TENDONS && AllBetween(Predicted(rig, npu, es), d, lo, hi)
    ensures InHull(After(rig, npu, es).bridge.motor, d, lo, hi)
  {
    if es != [] {
      var (init, e) := (es[..|es| - 1], es[|es| - 1]);
      var s := After(rig, npu, init);
      RunStep(rig, Start(rig, npu), es);
      hide Step, Run, Frames, InHull, AllBetween, Prediction, PredictionOf;
      var t := PredictionOf(rig, s, e);
      if e.ControllerConnect? {
        NoPrediction(rig, s, e);
      } else {
        BetweenSnoc(Predicted(rig, npu, init), if t.Some? then [t.value] else [], d, lo, hi);
        RunStaysInHull(rig, npu, init, d, lo, hi);
      }
      StepStaysInHull(rig, s, e, d, lo, hi);
    }
  }

  lemma NoPrediction<S>(rig: Rig<S>, s: State<S>, e: Event)
    requires e.ControllerConnect?
    ensures PredictionOf(rig, s, e).None?
  {
  }

  /** The motor positions written to a frame lie in the hull of the session's predictions, its own
      one included; the insertion position is the constant. */
  lemma MotorsOnARun<S>(rig: Rig<S>, npu: bool, es: seq<Event>, e: Event, d: nat, lo: real, hi: real)
    requires 0.0 < rig.alpha <= 1.0 && d < TENDONS && AllBetween(Predicted(rig, npu, es + [e]), d, lo, hi)
    ensures var s := After(rig, npu, es);
      Whole(s, e).Some? ==>
        var m := Infer(rig, s.bridge.motor, ExtractJoystick(Whole(s, e).value)).1;
        m.Some? ==> lo <= Tendon(m.value, d) <= hi && m.value.m4 == INSERTION_POSITION
  {
    var s := After(rig, npu, es);
    var all := es + [e];
    assert all[..|all| - 1] == es && all[|all| - 1] == e;
    var t := PredictionOf(rig, s, e);
    if Whole(s, e).Some? && ExtractJoystick(Whole(s, e).value).Some? {
      assert !e.ControllerConnect?;
      hide Step, Run, Frames, InHull, AllBetween, Prediction, ExtractJoystick, Invoke, ComputeMotor, Tendon, Whole;
      var j := ExtractJoystick(Whole(s, e).value).value;
      BetweenSnoc(Predicted(rig, npu, es), if t.Some? then [t.value] else [], d, lo, hi);
      RunStaysInHull(rig, npu, es, d, lo, hi);
      ComputeAnswers(rig, s.bridge.motor, j);
      ComputeStaysInHull(rig, s.bridge.motor, j, d, lo, hi);
    }
  }

  // ----- Whole sessions of the motor pipeline -----

  /** The joystick values of the messages since the last connect, whatever became of the frames;
      None before the first connect. */
  ghost function Joysticks<S>(rig: Rig<S>, npu: bool, es: seq<Event>): Option<seq<Joystick>> {
    if es == [] then None else
    var (init, e) := (es[..|es| - 1], es[|es| - 1]);
    if e.ControllerConnect? then Some([])
    else
      var j := JoystickOf(After(rig, npu, init), e);
      match Joysticks(rig, npu, init)
      case None => None
      case Some(js) => Some(if j.Some? then js + [j.value] else js)
  }

  function JoystickOf<S>(s: State<S>, e: Event): Option<Joystick> {
    match Whole(s, e)
    case None => None
    case Some(raw) => ExtractJoystick(raw)
  }

  lemma StepCalls<S>(rig: Rig<S>, s: State<S>, e: Event)
    requires s.Valid()
    ensures var (next, j) := (Step(rig, s, e).0.bridge.motor, JoystickOf(s, e));
      && (e.ControllerConnect? ==> next == ResetMotor(rig, s.bridge.motor))
      && (!e.ControllerConnect? && j.None? ==> next == s.bridge.motor)
      && (!e.ControllerConnect? && j.Some? ==> next == ComputeMotor(rig, s.bridge.motor, j.value).0)
  {
    StepMotor(rig, s, e);
    ConnectResets(rig, s);
    hide Step, ExtractJoystick, ComputeMotor, ResetMotor;
  }

  lemma ConnectResets<S>(rig: Rig<S>, s: State<S>)
    requires s.Valid()
    ensures Step(rig, s, ControllerConnect).0.bridge.motor == ResetMotor(rig, s.bridge.motor)
  {
    hide ResetMotor;
  }

  /** After any run with a connect the motor pipeline is that of a session, from the joystick
      values since. */
  lemma {:induction false} MotorOfRun<S>(rig: Rig<S>, npu: bool, es: seq<Event>) returns (m: Motor<S>)
    requires Joysticks(rig, npu, es).Some?
    ensures m.Valid()
    ensures After(rig, npu, es).bridge.motor == Driven(rig, m, Joysticks(rig, npu, es).value)
  {
    var (init, e) := (es[..|es| - 1], es[|es| - 1]);
    var s := After(rig, npu, init);
    RunStep(rig, Start(rig, npu), es);
    StepCalls(rig, s, e);
    hide Step, Run, Frames, ComputeMotor, ResetMotor, JoystickOf;
    if e.ControllerConnect? {
      m := s.bridge.motor;
      assert Driven(rig, m, []) == ResetMotor(rig, m);
    } else {
      m := MotorOfRun(rig, npu, init);
      var j := JoystickOf(s, e);
      if j.Some? { DrivenOn(rig, m, Joysticks(rig, npu, init).value, j.value); }
    }
  }

  lemma DrivenOn<S>(rig: Rig<S>, m: Motor<S>, js: seq<Joystick>, j: Joystick)
    requires m.Valid()
    ensures Driven(rig, m, js + [j]) == ComputeMotor(rig, Driven(rig, m, js), j).0
    ensures Returned(rig, m, js + [j]) == ComputeMotor(rig, Driven(rig, m, js), j).1
  {
    var all := js + [j];
    assert all[..|all| - 1] == js && all[|all| - 1] == j;
    hide ComputeMotor;
  }

  /** On any run with a connect, the motor positions the next frame gets: the network is run, from
      its initial state, on encodings of the windows of all calls since the connect, and every
      position is the smoothed one; or there are none because the network fails. */
  lemma PositionsOnARun<S>(rig: Rig<S>, npu: bool, es: seq<Event>, j: Joystick)
    requires Joysticks(rig, npu, es).Some?
    ensures var js := Joysticks(rig, npu, es).value + [j];
      exists tensors ::
        && IsTrace(rig, js, tensors)
        && IsAnswered(rig.alpha, Infer(rig, After(rig, npu, es).bridge.motor, Some(j)).1, Answers(rig.net, tensors))
  {
    var m := MotorOfRun(rig, npu, es);
    var js := Joysticks(rig, npu, es).value;
    DrivenOn(rig, m, js, j);
    SessionOutput(rig, m, js + [j]);
    hide Driven, Returned, Run, ComputeMotor, IsTrace, IsAnswered, Answers, Joysticks;
  }
}
