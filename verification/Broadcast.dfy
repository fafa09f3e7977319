/**
  Last-frame-wins broadcast over all runs: what is written to an ICU client, and in what order.
 */
module Broadcast {
  import opened Search
  import opened MotorInference
  import opened Forwarding
  import opened Process
  import Reassembly

  /** The process after `es`. */
  ghost function After<S>(rig: Rig<S>, npu: bool, es: seq<Event>): (s: State<S>)
    ensures s.Valid()
  {
    Run(rig, Start(rig, npu), es)
  }

  /** The frames forwarded so far; its length is the index of the latest frame. */
  ghost function Sent<S>(rig: Rig<S>, npu: bool, es: seq<Event>): seq<Bytes> {
    Frames(rig, Start(rig, npu), es)
  }

  /** From any state, the payload is the latest frame forwarded since, or the old one. */
  lemma {:induction false} PayloadSince<S>(rig: Rig<S>, s: State<S>, es: seq<Event>)
    requires s.Valid()
    ensures var fs := Frames(rig, s, es);
      Run(rig, s, es).bridge.payload == if fs == [] then s.bridge.payload else fs[|fs| - 1]
  {
    if es != [] {
      var init, e := es[..|es| - 1], es[|es| - 1];
      PayloadSince(rig, s, init);
      RunStep(rig, s, es);
      StepPayload(rig, Run(rig, s, init), e);
      hide Step, Run, Frames;
    }
  }

  /** The payload is always the complete latest frame: a dropped frame leaves it as it was. */
  lemma PayloadIsLatest<S>(rig: Rig<S>, npu: bool, es: seq<Event>)
    ensures var sent := Sent(rig, npu, es);
      After(rig, npu, es).bridge.payload == if sent == [] then [] else sent[|sent| - 1]
  {
    hide Run, Frames;
    PayloadSince(rig, Start(rig, npu), es);
  }

  lemma StepPayload<S>(rig: Rig<S>, s: State<S>, e: Event)
    requires s.Valid()
    ensures var (next, out) := Step(rig, s, e);
      next.bridge.payload == if out.Forwarded? then out.frame else s.bridge.payload
  {
    hide Forward;
    if e.Fragment? {
      var message := Reassembly.Receive(s.collected, e.bytes, e.first, e.final).1;
      if message.Some? {
        ForwardShows(rig, s.bridge, message.value, e.t1, e.t2);
      }
    }
  }

  /** Every write hands over the latest frame, complete; nothing is written before the first. */
  lemma WritesTheLatestFrame<S>(rig: Rig<S>, npu: bool, es: seq<Event>, e: Event)
    ensures var s := After(rig, npu, es);
      var sent := Sent(rig, npu, es);
      var out := Step(rig, s, e).1;
      out.Written? ==>
        && e == IcuWriteable(out.id, e.complete) && out.id in s.clients
        && sent != [] && out.frame == sent[|sent| - 1] && out.frame != []
  {
    hide Run, Frames;
    PayloadIsLatest(rig, npu, es);
  }

  // ----- Order -----

  ghost predicate SentGrows<S>(rig: Rig<S>, npu: bool, es: seq<Event>, i: nat)
    requires i <= |es|
  {
    Sent(rig, npu, es[..i]) <= Sent(rig, npu, es)
  }

  /** Frame indices never decrease, whoever is written to. */
  lemma {:induction false} IndicesNeverDecrease<S>(rig: Rig<S>, npu: bool, es: seq<Event>, i: nat)
    requires i <= |es|
    ensures SentGrows(rig, npu, es, i)
  {
    if i < |es| {
      var init := es[..|es| - 1];
      IndicesNeverDecrease(rig, npu, init, i);
      RunStep(rig, Start(rig, npu), es);
      hide Step, Run, Frames;
      assert init[..i] == es[..i];
    } else {
      assert es[..i] == es;
    }
  }

  /** Writable callbacks come only from requests. */
  ghost predicate RequestDriven<S>(rig: Rig<S>, npu: bool, es: seq<Event>) {
    forall k | 0 <= k < |es| :: es[k].IcuWriteable? ==> es[k].id in After(rig, npu, es[..k]).pending
  }

  /** Only connected clients have requests, and nobody is connected before somebody connects. */
  ghost predicate Consistent<S>(s: State<S>) {
    s.pending <= s.clients && (s.clients != {} ==> s.bridge.listening)
  }

  lemma {:induction false} AlwaysConsistent<S>(rig: Rig<S>, npu: bool, es: seq<Event>)
    ensures Consistent(After(rig, npu, es))
  {
    if es != [] {
      var init, e := es[..|es| - 1], es[|es| - 1];
      AlwaysConsistent(rig, npu, init);
      RunStep(rig, Start(rig, npu), es);
      StepIsConsistent(rig, After(rig, npu, init), e);
      hide Step, Run, Frames, Consistent;
    }
  }

  lemma StepIsConsistent<S>(rig: Rig<S>, s: State<S>, e: Event)
    requires s.Valid() && Consistent(s)
    ensures Consistent(Step(rig, s, e).0)
    ensures Step(rig, s, e).1.Forwarded? ==> Step(rig, s, e).0.pending == Step(rig, s, e).0.clients
  {
    hide Forward;
    if e.Fragment? {
      var message := Reassembly.Receive(s.collected, e.bytes, e.first, e.final).1;
      if message.Some? {
        ForwardShows(rig, s.bridge, message.value, e.t1, e.t2);
      }
    }
  }

  /** Every forwarded frame requests a callback for exactly the connected clients. */
  lemma EveryClientIsAsked<S>(rig: Rig<S>, npu: bool, es: seq<Event>, e: Event)
    ensures var (next, out) := Step(rig, After(rig, npu, es), e);
      out.Forwarded? ==> next.pending == next.clients
  {
    hide Step, Run;
    AlwaysConsistent(rig, npu, es);
    StepIsConsistent(rig, After(rig, npu, es), e);
  }

  /** Between frames a client without a request does not get one. */
  lemma StepAsksNobody<S>(rig: Rig<S>, s: State<S>, e: Event, id: nat)
    requires s.Valid() && id !in s.pending
    ensures id in Step(rig, s, e).0.pending ==> Step(rig, s, e).1.Forwarded?
  {
    hide Forward;
  }

  lemma {:induction false} NoFrameNoRequest<S>(rig: Rig<S>, npu: bool, es: seq<Event>, i: nat, id: nat)
    requires i <= |es| && id !in After(rig, npu, es[..i]).pending
    requires |Sent(rig, npu, es[..i])| == |Sent(rig, npu, es)|
    ensures id !in After(rig, npu, es).pending
  {
    if i == |es| {
      assert es[..i] == es;
    } else {
      var init, e := es[..|es| - 1], es[|es| - 1];
      RunStep(rig, Start(rig, npu), es);
      hide Step, Run, Frames;
      assert init[..i] == es[..i];
      IndicesNeverDecrease(rig, npu, init, i);
      NoFrameNoRequest(rig, npu, init, i, id);
      StepAsksNobody(rig, After(rig, npu, init), e, id);
    }
  }

  /** A served request is gone, and serving it forwards nothing. */
  lemma ServedOnce<S>(rig: Rig<S>, s: State<S>, id: nat, complete: bool)
    requires s.Valid() && Consistent(s)
    ensures var (next, out) := Step(rig, s, IcuWriteable(id, complete));
      id !in next.pending && !out.Forwarded?
  {
  }

  /** When writable callbacks come only from requests, one client is never written to twice with
      the same frame: from one of its callbacks to the next the frame index strictly grows. */
  lemma IndicesStrictlyIncrease<S>(rig: Rig<S>, npu: bool, es: seq<Event>, i: nat, j: nat)
    requires i < j < |es| && RequestDriven(rig, npu, es)
    requires es[i].IcuWriteable? && es[j].IcuWriteable? && es[i].id == es[j].id
    ensures |Sent(rig, npu, es[..i])| < |Sent(rig, npu, es[..j])|
  {
    var id := es[i].id;
    var past, served, before := es[..i], es[..i + 1], es[..j];
    assert id in After(rig, npu, before).pending;
    hide Run, Frames, RequestDriven;
    AlwaysConsistent(rig, npu, past);
    assert served[..i] == past && before[..i + 1] == served && before[..i] == past;
    RunStep(rig, Start(rig, npu), served);
    ServedOnce(rig, After(rig, npu, past), id, es[i].complete);
    hide Step;
    IndicesNeverDecrease(rig, npu, before, i);
    if |Sent(rig, npu, past)| == |Sent(rig, npu, before)| {
      NoFrameNoRequest(rig, npu, before, i + 1, id);
    }
  }

  /** What the event at index `i` of a run makes visible. */
  ghost function OutputAt<S>(rig: Rig<S>, npu: bool, es: seq<Event>, i: nat): Output
    requires i < |es|
  {
    Step(rig, After(rig, npu, es[..i]), es[i]).1
  }

  /** Whatever a client is written, and whenever it is written to again: the second frame is not
      an older one than the first, and it is a later one when callbacks come only from requests. */
  lemma ClientsNeverGoBack<S>(rig: Rig<S>, npu: bool, es: seq<Event>, i: nat, j: nat)
    requires i < j < |es|
    ensures var sent := Sent(rig, npu, es);
      var (a, b) := (OutputAt(rig, npu, es, i), OutputAt(rig, npu, es, j));
      a.Written? && b.Written? && a.id == b.id ==>
        var (p, q) := (|Sent(rig, npu, es[..i])| - 1, |Sent(rig, npu, es[..j])| - 1);
        && 0 <= p <= q < |sent| && a.frame == sent[p] && b.frame == sent[q]
        && (RequestDriven(rig, npu, es) ==> p < q)
  {
    hide Step, Run, Frames, RequestDriven, After;
    IndicesNeverDecrease(rig, npu, es, i);
    IndicesNeverDecrease(rig, npu, es, j);
    IndicesNeverDecrease(rig, npu, es[..j], i);
    assert es[..j][..i] == es[..i];
    WritesTheLatestFrame(rig, npu, es[..i], es[i]);
    WritesTheLatestFrame(rig, npu, es[..j], es[j]);
    var (a, b) := (OutputAt(rig, npu, es, i), OutputAt(rig, npu, es, j));
    if a.Written? && b.Written? && a.id == b.id && RequestDriven(rig, npu, es) {
      IndicesStrictlyIncrease(rig, npu, es, i, j);
    }
  }
}
