/** `bridge_server.cpp` as a class over its payload buffer, proved against `Forwarding`. */
module BridgeServer {
  import opened Options
  import opened Search
  import opened FrameText
  import opened FrameBridge
  import opened ClockOffset
  import opened MotorInference
  import opened Forwarding

  class Server<S> {
    const rig: Rig<S>
    const motor: MotorInference<S>
    const clock: Estimator
    const payload: array<char>
    var payloadLen: nat
    var listening: bool
    ghost const Repr: set<object>

    ghost predicate Valid()
      reads this, motor, motor.lpf, motor.history
    {
      && Repr == {this, clock, payload} + motor.Repr
      && motor.Valid() && motor.rig == rig
      && this !in motor.Repr && clock !in motor.Repr && payload !in motor.Repr
      && payload.Length == MAX_BRIDGED && payloadLen <= MAX_BRIDGED
    }

    ghost function View(): (b: Bridge<S>)
      requires payloadLen <= payload.Length
      reads this, motor, motor.lpf, motor.history, clock, payload
    {
      Bridge(motor.View(), clock.samples, payload[..payloadLen], listening)
    }

    constructor (rig: Rig<S>, npu: bool)
      ensures Valid() && fresh(Repr)
      ensures this.rig == rig && View() == InitialBridge(rig, npu)
    {
      this.rig := rig;
      var m := new MotorInference(rig, npu);
      var c := new Estimator();
      var p := new char[MAX_BRIDGED];
      motor, clock, payload := m, c, p;
      payloadLen, listening := 0, false;
      Repr := {this, c, p} + m.Repr;
    }

    /** A controller connected. */
    method ResetSession()
      requires Valid()
      modifies Repr
      ensures Valid() && View() == Forwarding.ResetSession(rig, old(View()))
    {
      motor.Reset();
      clock.Reset();
    }

    /** One frame: stage by stage in the payload buffer, `n` being the length so far. The result
        says whether the frame was forwarded. */
    method Forward(raw: array<char>, rawLen: nat, t1: real, t2: real) returns (forwarded: bool)
      requires Valid() && raw !in Repr && rawLen <= raw.Length
      modifies Repr
      ensures Valid()
      ensures var r := Forwarding.Forward(rig, old(View()), raw[..rawLen], t1, t2);
        View() == r.0 && forwarded == r.1.Some?
    {
      hide Infer, ExtractJoystick, Rewrite, StampFrame, FrameTimes, Feed, CorrectedBy;
      var joystick, motors := InferMotors(raw, rawLen);
      forwarded := Emit(raw, rawLen, t1, t2, joystick, motors);
    }

    /** Extraction and inference, which come before any text is touched. */
    method InferMotors(raw: array<char>, rawLen: nat)
      returns (joystick: Option<Joystick>, motors: Option<Motors>)
      requires Valid() && raw !in Repr && rawLen <= raw.Length
      modifies motor.Repr
      ensures Valid()
      ensures joystick == ExtractJoystick(raw[..rawLen])
      ensures (motor.View(), motors) == Infer(rig, old(motor.View()), joystick)
    {
      hide ExtractJoystick, ComputeMotor;
      joystick := BridgeExtractJoystick(raw, rawLen);
      motors := None;
      if joystick.Some? {
        var out := new real[4](_ => 0.0);
        var haveMotor := motor.Compute(joystick.value, out);
        if haveMotor {
          motors := Some(Motors(out[..][0], out[..][1], out[..][2], out[..][3]));
        }
      }
    }

    /** The text work of `Forward`, after inference. */
    method Emit(raw: array<char>, rawLen: nat, t1: real, t2: real,
                joystick: Option<Joystick>, motors: Option<Motors>) returns (forwarded: bool)
      requires Valid() && raw !in Repr && rawLen <= raw.Length
      modifies this, clock, payload
      ensures Valid() && motor.View() == old(motor.View()) && listening == old(listening)
      ensures match StampFrame(raw[..rawLen], t1, t2, MAX_BRIDGED)
              case None => !forwarded && View() == old(View())
              case Some(stamped) =>
                var s := Sample(t1, TransferOf(FrameTimes(raw[..rawLen], t1, t2)));
                && forwarded
                && clock.samples == Feed(old(clock.samples), s)
                && payload[..payloadLen] == Rewrite(stamped, CorrectedBy(old(clock.samples), s), joystick, motors)
    {
      hide StampFrame, WithCorrection, WithJoystick, WithMotors, Feed, CorrectedBy, FrameTimes;
      var stampedLen, times := BridgeStampFrame(raw, rawLen, t1, t2, payload, MAX_BRIDGED);
      if stampedLen.None? {
        return false;
      }
      var corrected := clock.Correct(TransferOf(times), t1);
      var n := AddCorrection(stampedLen.value, corrected);
      n := AddJoystick(n, joystick);
      n := AddMotors(n, motors);
      payloadLen := n;
      forwarded := true;
    }

    method AddCorrection(len: nat, corrected: real) returns (n: nat)
      requires len <= payload.Length == MAX_BRIDGED
      modifies payload
      ensures n <= MAX_BRIDGED && payload[..n] == WithCorrection(old(payload[..len]), corrected)
    {
      hide AppendField;
      n := len;
      var withCorrection := BridgeAppendField(payload, n, MAX_BRIDGED, CORRECTED, corrected);
      if withCorrection.Some? {
        n := withCorrection.value;
      }
    }

    method AddJoystick(len: nat, joystick: Option<Joystick>) returns (n: nat)
      requires len <= payload.Length == MAX_BRIDGED
      modifies payload
      ensures n <= MAX_BRIDGED && payload[..n] == WithJoystick(old(payload[..len]), joystick)
    {
      hide Reformat, FailedReformat;
      n := len;
      if joystick.Some? {
        var reformatted := BridgeReformatJoystick(payload, n, MAX_BRIDGED, joystick.value);
        if reformatted.Some? {
          n := reformatted.value;
        }
      }
    }

    method AddMotors(len: nat, motors: Option<Motors>) returns (n: nat)
      requires len <= payload.Length == MAX_BRIDGED
      modifies payload
      ensures n <= MAX_BRIDGED && payload[..n] == WithMotors(old(payload[..len]), motors)
    {
      hide AppendMotors;
      n := len;
      if motors.Some? {
        var withMotor := BridgeAppendMotorFields(payload, n, MAX_BRIDGED, motors.value);
        if withMotor.Some? {
          n := withMotor.value;
        }
      }
    }

    /** An ICU client connected. */
    method Established()
      requires Valid()
      modifies this`listening
      ensures Valid() && View() == old(View()).(listening := true)
    {
      listening := true;
    }

    /** What is handed to `lws_write` when a client may be written to; an empty payload is not. */
    method Writeable() returns (bytes: Option<Bytes>)
      requires Valid()
      ensures bytes == if View().payload == [] then None else Some(View().payload)
    {
      if payloadLen > 0 {
        return Some(payload[..payloadLen]);
      }
      return None;
    }
  }
}
