/**
  Who is connected and who is asked for a write, from the log of events alone; and so, who is
  written what.
 */
module Delivery {
  import opened MotorInference
  import opened Forwarding
  import Reassembly
  import opened Process
  import opened Broadcast

  /** There is a payload to write: a frame was forwarded, and the latest is not empty. */
  ghost predicate HasPayload<S>(rig: Rig<S>, npu: bool, es: seq<Event>) {
    var sent := Sent(rig, npu, es);
    sent != [] && sent[|sent| - 1] != []
  }

  // ----- Connected clients -----

  /** At index k the client goes: it closes, or a write to it is truncated. */
  ghost predicate LeavesAt<S>(rig: Rig<S>, npu: bool, es: seq<Event>, id: nat, k: nat)
    requires k < |es|
  {
    es[k] == IcuClose(id) || (es[k] == IcuWriteable(id, false) && HasPayload(rig, npu, es[..k]))
  }

  /** The client connected, and has not gone since. */
  ghost predicate IsConnected<S>(rig: Rig<S>, npu: bool, es: seq<Event>, id: nat) {
    exists i :: 0 <= i < |es| && es[i] == IcuConnect(id) && StaysFrom(rig, npu, es, id, i + 1)
  }

  ghost predicate StaysFrom<S>(rig: Rig<S>, npu: bool, es: seq<Event>, id: nat, i: nat) {
    forall k | i <= k < |es| :: !LeavesAt(rig, npu, es, id, k)
  }

  lemma LeavesSnoc<S>(rig: Rig<S>, npu: bool, init: seq<Event>, e: Event, id: nat, k: nat)
    requires k < |init|
    ensures LeavesAt(rig, npu, init + [e], id, k) <==> LeavesAt(rig, npu, init, id, k)
  {
    hide HasPayload;
    assert (init + [e])[..k] == init[..k];
  }

  lemma StaysSnoc<S>(rig: Rig<S>, npu: bool, init: seq<Event>, e: Event, id: nat, i: nat)
    requires i <= |init|
    ensures StaysFrom(rig, npu, init + [e], id, i) <==>
            StaysFrom(rig, npu, init, id, i) && !LeavesAt(rig, npu, init + [e], id, |init|)
  {
    var es := init + [e];
    hide LeavesAt;
    forall k | 0 <= k < |init| ensures LeavesAt(rig, npu, es, id, k) <==> LeavesAt(rig, npu, init, id, k) {
      LeavesSnoc(rig, npu, init, e, id, k);
    }
  }

  /** One more event. */
  lemma ConnectedSnoc<S>(rig: Rig<S>, npu: bool, init: seq<Event>, e: Event, id: nat)
    ensures IsConnected(rig, npu, init + [e], id) <==>
            e == IcuConnect(id)
            || (IsConnected(rig, npu, init, id) && !LeavesAt(rig, npu, init + [e], id, |init|))
  {
    var es := init + [e];
    hide LeavesAt, StaysFrom;
    forall i | 0 <= i < |init|
      ensures es[i] == init[i]
      ensures StaysFrom(rig, npu, es, id, i + 1) <==>
              StaysFrom(rig, npu, init, id, i + 1) && !LeavesAt(rig, npu, es, id, |init|)
    {
      StaysSnoc(rig, npu, init, e, id, i + 1);
    }
    NothingLater(rig, npu, es, id);
    assert es[|init|] == e;
    if e == IcuConnect(id) {
      assert StaysFrom(rig, npu, es, id, |init| + 1);
    } else if IsConnected(rig, npu, es, id) {
      var i :| 0 <= i < |es| && es[i] == IcuConnect(id) && StaysFrom(rig, npu, es, id, i + 1);
      assert i < |init| && init[i] == IcuConnect(id);
    } else if IsConnected(rig, npu, init, id) {
      var i :| 0 <= i < |init| && init[i] == IcuConnect(id) && StaysFrom(rig, npu, init, id, i + 1);
      assert es[i] == IcuConnect(id);
    }
  }

  lemma NothingLater<S>(rig: Rig<S>, npu: bool, es: seq<Event>, id: nat)
    ensures StaysFrom(rig, npu, es, id, |es|)
  {
  }

  lemma StepClients<S>(rig: Rig<S>, s: State<S>, e: Event, id: nat)
    requires s.Valid()
    ensures id in Step(rig, s, e).0.clients <==>
            e == IcuConnect(id)
            || (id in s.clients && e != IcuClose(id) && !(e == IcuWriteable(id, false) && s.bridge.payload != []))
  {
    hide Forward;
  }

  lemma LastLeaves<S>(rig: Rig<S>, npu: bool, init: seq<Event>, e: Event, id: nat)
    ensures LeavesAt(rig, npu, init + [e], id, |init|) <==>
            e == IcuClose(id)
            || (e == IcuWriteable(id, false) && After(rig, npu, init).bridge.payload != [])
  {
    PayloadIsLatest(rig, npu, init);
    hide Run, Frames, Step, After, Sent;
    assert (init + [e])[..|init|] == init && (init + [e])[|init|] == e;
  }

  /** The connected clients are those that connected and have not gone since. */
  lemma {:induction false} ClientsAre<S>(rig: Rig<S>, npu: bool, es: seq<Event>, id: nat)
    ensures id in After(rig, npu, es).clients <==> IsConnected(rig, npu, es, id)
  {
    if es != [] {
      var (init, e) := (es[..|es| - 1], es[|es| - 1]);
      var s := After(rig, npu, init);
      ClientsAre(rig, npu, init, id);
      RunStep(rig, Start(rig, npu), es);
      StepClients(rig, s, e, id);
      ConnectedSnoc(rig, npu, init, e, id);
      LastLeaves(rig, npu, init, e, id);
      assert es == init + [e];
      hide Step, Run, Frames, IsConnected, LeavesAt;
    }
  }

  lemma StepListens<S>(rig: Rig<S>, s: State<S>, e: Event)
    requires s.Valid()
    ensures Step(rig, s, e).0.bridge.listening <==> s.bridge.listening || e.IcuConnect?
  {
    hide Forward;
    if e.Fragment? {
      var message := Reassembly.Receive(s.collected, e.bytes, e.first, e.final).1;
      if message.Some? {
        ForwardShows(rig, s.bridge, message.value, e.t1, e.t2);
      }
    }
  }

  /** The protocol pointer is captured when the first client connects, and kept. */
  lemma {:induction false} ListensOnceConnected<S>(rig: Rig<S>, npu: bool, es: seq<Event>)
    ensures After(rig, npu, es).bridge.listening <==> exists i :: 0 <= i < |es| && es[i].IcuConnect?
  {
    if es != [] {
      var (init, e) := (es[..|es| - 1], es[|es| - 1]);
      ListensOnceConnected(rig, npu, init);
      RunStep(rig, Start(rig, npu), es);
      StepListens(rig, After(rig, npu, init), e);
      hide Step, Run, Frames;
      assert forall i | 0 <= i < |init| :: init[i] == es[i];
    }
  }

  // ----- Requests -----

  /** At index i a frame was forwarded while the client was connected, and neither a callback nor
      a close of the client came since. */
  ghost predicate IsAskedAt<S>(rig: Rig<S>, npu: bool, es: seq<Event>, id: nat, i: nat)
    requires i < |es|
  {
    && OutputAt(rig, npu, es, i).Forwarded?
    && IsConnected(rig, npu, es[..i + 1], id)
    && forall k | i < k < |es| :: !Answers(es[k], id)
  }

  predicate Answers(e: Event, id: nat) {
    e == IcuClose(id) || (e.IcuWriteable? && e.id == id)
  }

  ghost predicate IsAsked<S>(rig: Rig<S>, npu: bool, es: seq<Event>, id: nat) {
    exists i :: 0 <= i < |es| && IsAskedAt(rig, npu, es, id, i)
  }

  lemma AskedSnoc<S>(rig: Rig<S>, npu: bool, init: seq<Event>, e: Event, id: nat)
    ensures var es := init + [e];
      IsAsked(rig, npu, es, id) <==>
        || (OutputAt(rig, npu, es, |init|).Forwarded? && IsConnected(rig, npu, es, id))
        || (IsAsked(rig, npu, init, id) && !Answers(e, id))
  {
    var es := init + [e];
    hide OutputAt, IsConnected, Answers;
    assert es[..|init| + 1] == es;
    forall i | 0 <= i < |init|
      ensures IsAskedAt(rig, npu, es, id, i) <==> IsAskedAt(rig, npu, init, id, i) && !Answers(e, id)
    {
      AskedAtSnoc(rig, npu, init, e, id, i);
    }
    assert IsAskedAt(rig, npu, es, id, |init|) <==>
           OutputAt(rig, npu, es, |init|).Forwarded? && IsConnected(rig, npu, es, id);
    var last := OutputAt(rig, npu, es, |init|).Forwarded? && IsConnected(rig, npu, es, id);
    assert |es| == |init| + 1;
    hide IsAskedAt;
    if IsAsked(rig, npu, es, id) {
      var i :| 0 <= i < |es| && IsAskedAt(rig, npu, es, id, i);
      assert i < |init| ==> IsAskedAt(rig, npu, init, id, i);
      assert i == |init| ==> last;
    }
    if last { assert IsAskedAt(rig, npu, es, id, |init|); }
    if IsAsked(rig, npu, init, id) && !Answers(e, id) {
      var i :| 0 <= i < |init| && IsAskedAt(rig, npu, init, id, i);
      assert IsAskedAt(rig, npu, es, id, i);
    }
  }

  lemma AskedAtSnoc<S>(rig: Rig<S>, npu: bool, init: seq<Event>, e: Event, id: nat, i: nat)
    requires i < |init|
    ensures IsAskedAt(rig, npu, init + [e], id, i) <==> IsAskedAt(rig, npu, init, id, i) && !Answers(e, id)
  {
    var es := init + [e];
    assert es[..i] == init[..i] && es[..i + 1] == init[..i + 1];
    assert forall k | 0 <= k < |init| :: es[k] == init[k];
    assert es[|init|] == e;
    SameOutput(rig, npu, init, e, i);
    hide OutputAt, IsConnected, Answers;
  }

  lemma SameOutput<S>(rig: Rig<S>, npu: bool, init: seq<Event>, e: Event, i: nat)
    requires i < |init|
    ensures OutputAt(rig, npu, init + [e], i) == OutputAt(rig, npu, init, i)
  {
    hide Step, After;
    assert (init + [e])[..i] == init[..i] && (init + [e])[i] == init[i];
  }

  lemma StepPending<S>(rig: Rig<S>, s: State<S>, e: Event, id: nat)
    requires s.Valid() && Consistent(s)
    ensures var (next, out) := Step(rig, s, e);
      id in next.pending <==>
        || (out.Forwarded? && id in next.clients)
        || (id in s.pending && !Answers(e, id))
  {
    hide Forward;
    if e.Fragment? {
      var message := Reassembly.Receive(s.collected, e.bytes, e.first, e.final).1;
      if message.Some? {
        ForwardShows(rig, s.bridge, message.value, e.t1, e.t2);
      }
    }
  }

  /** The clients with a request are those connected when some frame was forwarded and neither
      served nor closed since. */
  lemma {:induction false} RequestsAre<S>(rig: Rig<S>, npu: bool, es: seq<Event>, id: nat)
    ensures id in After(rig, npu, es).pending <==> IsAsked(rig, npu, es, id)
  {
    if es != [] {
      var (init, e) := (es[..|es| - 1], es[|es| - 1]);
      var s := After(rig, npu, init);
      RequestsAre(rig, npu, init, id);
      AlwaysConsistent(rig, npu, init);
      RunStep(rig, Start(rig, npu), es);
      StepPending(rig, s, e, id);
      ClientsAre(rig, npu, es, id);
      assert es == init + [e] && es[..|init|] == init;
      AskedSnoc(rig, npu, init, e, id);
      hide Step, Run, Frames, IsConnected, IsAsked, Answers, Consistent;
    }
  }

  // ----- Delivery -----

  /** A client that connected and has not gone is written the latest frame at its next callback,
      and no other client is; whether that write completes or not. */
  lemma CallbackDelivers<S>(rig: Rig<S>, npu: bool, es: seq<Event>, id: nat, complete: bool)
    ensures var sent := Sent(rig, npu, es);
      Step(rig, After(rig, npu, es), IcuWriteable(id, complete)).1
      == if IsConnected(rig, npu, es, id) && HasPayload(rig, npu, es) then Written(id, sent[|sent| - 1]) else Quiet
  {
    PayloadIsLatest(rig, npu, es);
    ClientsAre(rig, npu, es, id);
    hide Run, Frames, IsConnected;
  }

  /** A forwarded frame asks for a callback for exactly those clients. */
  lemma FrameIsAnnounced<S>(rig: Rig<S>, npu: bool, es: seq<Event>, e: Event, id: nat)
    ensures var all := es + [e];
      Step(rig, After(rig, npu, es), e).1.Forwarded? ==>
        (id in After(rig, npu, all).pending <==> IsConnected(rig, npu, all, id))
  {
    var all := es + [e];
    assert all[..|all| - 1] == es && all[|all| - 1] == e;
    RunStep(rig, Start(rig, npu), all);
    EveryClientIsAsked(rig, npu, es, e);
    ClientsAre(rig, npu, all, id);
    hide Step, Run, IsConnected;
  }
}
