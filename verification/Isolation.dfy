/**
  Session isolation, a property of two runs: what a controller session forwards does not depend
  on anything that happened before its controller connected. The stale samples of the history and
  the old filter rows are still there and never show in a forwarded frame. The old payload is still
  there, too, and ICU clients are written it until the session has forwarded a frame of its own.
 */
module Isolation {
  import opened Search
  import opened FrameText
  import H = HistoryWindow
  import opened MotorInference
  import opened Forwarding
  import opened Reassembly
  import opened Process
  import opened Broadcast

  // ----- States that no controller event can tell apart -----

  ghost predicate SameHistory(a: H.State, b: H.State) {
    && a.hist == b.hist && a.accum == b.accum && a.hasFirst == b.hasFirst
    && (a.hasFirst ==> a.first == b.first && a.prev == b.prev)
  }

  ghost predicate SameMotor<S>(a: Motor<S>, b: Motor<S>) {
    && a.Valid() && b.Valid()
    && a.net == b.net && SameHistory(a.history, b.history)
    && a.seeded == b.seeded && (a.seeded ==> a.rows == b.rows)
  }

  ghost predicate SameSession<S>(a: State<S>, b: State<S>) {
    && a.Valid() && b.Valid()
    && a.collected == b.collected
    && SameMotor(a.bridge.motor, b.bridge.motor)
    && a.bridge.window == b.bridge.window
  }

  lemma SameHistorySameWindow(c: H.Config, a: H.State, b: H.State, cur: H.Point)
    requires SameHistory(a, b)
    ensures H.WindowOf(c, a, cur) == H.WindowOf(c, b, cur)
    ensures SameHistory(H.After(c, a, cur), H.After(c, b, cur))
  {
  }

  lemma SameMotorSameOutput<S>(rig: Rig<S>, a: Motor<S>, b: Motor<S>, j: Joystick)
    requires SameMotor(a, b)
    ensures ComputeMotor(rig, a, j).1 == ComputeMotor(rig, b, j).1
    ensures SameMotor(ComputeMotor(rig, a, j).0, ComputeMotor(rig, b, j).0)
  {
    hide SameHistory, Clamp, Prediction, Inputs;
    var p := rig.features(Clamp(j.x), Clamp(j.y));
    SameHistorySameWindow(rig.Window(), a.history, b.history, p);
    hide H.After, H.WindowOf;
  }

  lemma SameBridgeSameForward<S>(rig: Rig<S>, a: Bridge<S>, b: Bridge<S>, raw: Bytes, t1: real, t2: real)
    requires SameMotor(a.motor, b.motor) && a.window == b.window
    ensures var (a', fa) := Forward(rig, a, raw, t1, t2);
      var (b', fb) := Forward(rig, b, raw, t1, t2);
      fa == fb && SameMotor(a'.motor, b'.motor) && a'.window == b'.window
  {
    hide SameMotor, ComputeMotor, StampFrame, FrameTimes, ExtractJoystick, Rewrite;
    var j := ExtractJoystick(raw);
    if j.Some? {
      SameMotorSameOutput(rig, a.motor, b.motor, j.value);
    }
  }

  /** One event keeps two such states together and shows the same frame. */
  lemma SameSessionSameStep<S>(rig: Rig<S>, a: State<S>, b: State<S>, e: Event)
    requires SameSession(a, b)
    ensures SameSession(Step(rig, a, e).0, Step(rig, b, e).0)
    ensures var (fa, fb) := (Step(rig, a, e).1, Step(rig, b, e).1);
      (fa.Forwarded? || fb.Forwarded?) ==> fa == fb
  {
    hide Forward, Receive;
    match e
    case Fragment(bytes, first, final, t1, t2) =>
      hide SameMotor;
      var message := Receive(a.collected, bytes, first, final).1;
      if message.Some? {
        SameBridgeSameForward(rig, a.bridge, b.bridge, message.value, t1, t2);
      }
    case _ =>
  }

  lemma {:induction false} SameSessionSameFrames<S>(rig: Rig<S>, a: State<S>, b: State<S>, es: seq<Event>)
    requires SameSession(a, b)
    ensures SameSession(Run(rig, a, es), Run(rig, b, es))
    ensures Frames(rig, a, es) == Frames(rig, b, es)
  {
    if es != [] {
      var init := es[..|es| - 1];
      SameSessionSameFrames(rig, a, b, init);
      SameSessionSameStep(rig, Run(rig, a, init), Run(rig, b, init), es[|es| - 1]);
      RunStep(rig, a, es);
      RunStep(rig, b, es);
      hide SameSession, Step, Run, Frames;
    }
  }

  /** After a controller connects, any two processes forward the same frames from then on. */
  lemma ConnectForgets<S>(rig: Rig<S>, a: State<S>, b: State<S>, es: seq<Event>)
    requires a.Valid() && b.Valid()
    ensures Frames(rig, Step(rig, a, ControllerConnect).0, es)
         == Frames(rig, Step(rig, b, ControllerConnect).0, es)
  {
    SameSessionSameFrames(rig, Step(rig, a, ControllerConnect).0, Step(rig, b, ControllerConnect).0, es);
  }

  /** So, whatever a process has been through, and whether or not the NPU warm-up ran, after a
      controller connects it forwards exactly what a freshly started process forwards. */
  lemma SessionsAreIsolated<S>(rig: Rig<S>, npu: bool, past: seq<Event>, es: seq<Event>)
    ensures var used, newly := Run(rig, Start(rig, npu), past), Start(rig, false);
      Frames(rig, Step(rig, used, ControllerConnect).0, es)
      == Frames(rig, Step(rig, newly, ControllerConnect).0, es)
  {
    ConnectForgets(rig, Run(rig, Start(rig, npu), past), Start(rig, false), es);
  }

  // ----- What clients are written after a controller connected -----

  /** A client is written the latest frame of the session, or the last payload from before the
      session until there is one. */
  lemma WritesAfterConnect<S>(rig: Rig<S>, s: State<S>, es: seq<Event>, e: Event)
    requires s.Valid()
    ensures var c := Step(rig, s, ControllerConnect).0;
      var fs := Frames(rig, c, es);
      var out := Step(rig, Run(rig, c, es), e).1;
      out.Written? ==> out.frame == if fs == [] then s.bridge.payload else fs[|fs| - 1]
  {
    hide Run, Frames;
    PayloadSince(rig, Step(rig, s, ControllerConnect).0, es);
  }

  /** The old payload does show: a client whose callback comes after the connect is written it. */
  lemma OldPayloadIsWritten<S>(rig: Rig<S>, s: State<S>, id: nat)
    requires s.Valid() && id in s.clients && s.bridge.payload != []
    ensures var c := Step(rig, s, ControllerConnect).0;
      Step(rig, c, IcuWriteable(id, true)).1 == Written(id, s.bridge.payload)
  {
  }
}
