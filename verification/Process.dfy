/**
  The whole bridge as a state machine: controller callbacks, ICU callbacks, and the broadcast
  that libwebsockets carries out between them. The project assumes one controller session at a
  time, and so does this machine.
 */
module Process {
  import opened Search
  import opened MotorInference
  import opened Forwarding
  import opened Reassembly
  import opened BridgeServer

  datatype Event =
    | ControllerConnect
    | Fragment(bytes: Bytes, first: bool, final: bool, t1: real, t2: real)
    | ControllerClose
    | IcuConnect(id: nat)
    | IcuWriteable(id: nat, complete: bool)
    | IcuClose(id: nat)

  /** What an event makes visible: a frame forwarded or dropped, a payload handed to lws_write. */
  datatype Output = Quiet | Forwarded(frame: Bytes) | Dropped | Written(id: nat, frame: Bytes)

  /** Connected clients, and those with a writable callback requested, are kept by the library. */
  datatype State<S> = State(collected: Bytes, bridge: Bridge<S>, clients: set<nat>, pending: set<nat>) {
    ghost predicate Valid() {
      bridge.motor.Valid() && |collected| <= MAX_RAW
    }
  }

  /** `callback_controller` on a received fragment. */
  function ReceiveFragment<S>(rig: Rig<S>, collected: Bytes, b: Bridge<S>,
                              bytes: Bytes, first: bool, final: bool, t1: real, t2: real)
    : (r: (Bytes, Bridge<S>, Output))
    requires b.motor.Valid()
    ensures r.1.motor.Valid()
  {
    var (next, message) := Receive(collected, bytes, first, final);
    match message
    case None => (next, b, Quiet)
    case Some(raw) =>
      var (b', payload) := Forward(rig, b, raw, t1, t2);
      (next, b', if payload.Some? then Forwarded(payload.value) else Dropped)
  }

  /** One event. A forwarded frame requests a callback for every connected client, once any
      client has ever connected; a truncated write closes the connection. */
  function Step<S>(rig: Rig<S>, s: State<S>, e: Event): (r: (State<S>, Output))
    requires s.Valid()
    ensures r.0.Valid()
  {
    match e
    case ControllerConnect => (s.(collected := [], bridge := ResetSession(rig, s.bridge)), Quiet)
    case Fragment(bytes, first, final, t1, t2) =>
      var (collected, b, out) := ReceiveFragment(rig, s.collected, s.bridge, bytes, first, final, t1, t2);
      var pending := if out.Forwarded? && b.listening then s.clients else s.pending;
      (State(collected, b, s.clients, pending), out)
    case ControllerClose => (s, Quiet)
    case IcuConnect(id) =>
      (s.(bridge := s.bridge.(listening := true), clients := s.clients + {id}), Quiet)
    case IcuWriteable(id, complete) =>
      if id !in s.clients then (s, Quiet)
      else
        var clients := if complete || s.bridge.payload == [] then s.clients else s.clients - {id};
        (s.(clients := clients, pending := s.pending - {id}),
         if s.bridge.payload == [] then Quiet else Written(id, s.bridge.payload))
    case IcuClose(id) => (s.(clients := s.clients - {id}, pending := s.pending - {id}), Quiet)
  }

  function Start<S>(rig: Rig<S>, npu: bool): (s: State<S>)
    ensures s.Valid()
  {
    State([], InitialBridge(rig, npu), {}, {})
  }

  // ----- Runs -----

  /** The state after a sequence of events. */
  ghost function Run<S>(rig: Rig<S>, s: State<S>, es: seq<Event>): (r: State<S>)
    requires s.Valid()
    ensures r.Valid()
  {
    if es == [] then s else Step(rig, Run(rig, s, es[..|es| - 1]), es[|es| - 1]).0
  }

  /** The frames forwarded on the way. */
  ghost function Frames<S>(rig: Rig<S>, s: State<S>, es: seq<Event>): seq<Bytes>
    requires s.Valid()
  {
    if es == [] then [] else
    var init := es[..|es| - 1];
    var out := Step(rig, Run(rig, s, init), es[|es| - 1]).1;
    Frames(rig, s, init) + if out.Forwarded? then [out.frame] else []
  }

  lemma RunStep<S>(rig: Rig<S>, s: State<S>, es: seq<Event>)
    requires s.Valid() && es != []
    ensures var init, e := es[..|es| - 1], es[|es| - 1];
      var (next, out) := Step(rig, Run(rig, s, init), e);
      && Run(rig, s, es) == next
      && Frames(rig, s, es) == Frames(rig, s, init) + if out.Forwarded? then [out.frame] else []
  {
  }

  // ----- The two callbacks as methods -----

  class Callbacks<S> {
    const session: Session
    const server: Server<S>
    ghost const Repr: set<object>

    ghost predicate Valid()
      reads this, session, server, server.motor, server.motor.lpf, server.motor.history
    {
      && Repr == {this, session, session.buf} + server.Repr
      && session.Valid() && server.Valid()
      && this !in server.Repr && session !in server.Repr && session.buf !in server.Repr
    }

    constructor (rig: Rig<S>, npu: bool)
      ensures Valid() && fresh(Repr)
      ensures session.Collected() == [] && server.rig == rig && server.View() == InitialBridge(rig, npu)
    {
      var c := new Session();
      var s := new Server(rig, npu);
      session, server := c, s;
      Repr := {this, c, c.buf} + s.Repr;
    }

    /** LWS_CALLBACK_ESTABLISHED on the controller side. */
    method ControllerEstablished()
      requires Valid()
      modifies Repr
      ensures Valid()
      ensures session.Collected() == [] && server.View() == ResetSession(server.rig, old(server.View()))
    {
      session.Established();
      server.ResetSession();
    }

    /** LWS_CALLBACK_RECEIVE on the controller side; T1 and T2 are clock readings. The result
        says whether a frame was handed on and not dropped. */
    method ControllerReceive(fragment: Bytes, first: bool, final: bool, t1: real, t2: real)
      returns (forwarded: bool)
      requires Valid()
      modifies Repr
      ensures Valid()
      ensures var r := ReceiveFragment(server.rig, old(session.Collected()), old(server.View()),
                                       fragment, first, final, t1, t2);
        && session.Collected() == r.0
        && server.View() == r.1
        && forwarded == r.2.Forwarded?
        && (forwarded ==> server.View().payload == r.2.frame)
    {
      hide Receive, Forward;
      var complete := session.Accumulate(fragment, first, final);
      forwarded := false;
      ReceiveEnds(old(session.Collected()), fragment, first, final);
      if complete {
        ForwardShows(server.rig, server.View(), session.Collected(), t1, t2);
        forwarded := server.Forward(session.buf, session.len, t1, t2);
        session.Established();
      }
    }
  }

  lemma ReceiveEnds(collected: Bytes, fragment: Bytes, first: bool, final: bool)
    ensures var r := Receive(collected, fragment, first, final);
      r.1.Some? ==> r.0 == []
  {
  }

  /** A forwarded frame is the payload that stays. */
  lemma ForwardShows<S>(rig: Rig<S>, b: Bridge<S>, raw: Bytes, t1: real, t2: real)
    requires b.motor.Valid()
    ensures var (next, payload) := Forward(rig, b, raw, t1, t2);
      && next.payload == payload.GetOr(b.payload)
      && (payload.None? ==> next.window == b.window)
      && next.listening == b.listening
  {
  }
}
