/**
  Reassembly in the running process: a message whose fragments come between events of ICU clients.
 */
module MessageRuns {
  import opened Search
  import opened MotorInference
  import opened Forwarding
  import opened Reassembly
  import opened Process

  /** The events carry the fragments of one message from there on, and besides them only events
      of ICU clients and a controller's close; `t1` and `t2` are the clock readings of the final
      fragment. */
  ghost predicate Carries(es: seq<Event>, fragments: seq<Bytes>, first: bool, t1: real, t2: real)
    decreases |es|
  {
    if es == [] then fragments == []
    else match es[0]
      case Fragment(bytes, isFirst, isFinal, u1, u2) =>
        && fragments != [] && bytes == fragments[0]
        && isFirst == first && isFinal == (|fragments| == 1)
        && (isFinal ==> u1 == t1 && u2 == t2)
        && Carries(es[1..], fragments[1..], false, t1, t2)
      case ControllerConnect => false
      case _ => Carries(es[1..], fragments, first, t1, t2)
  }

  /** Two bridges that differ at most in whether an ICU client has ever connected. */
  ghost predicate SameButListening<S>(a: Bridge<S>, b: Bridge<S>) {
    a == b.(listening := a.listening)
  }

  /** The first event of a run, and then the others. */
  lemma {:induction false} RunFrom<S>(rig: Rig<S>, s: State<S>, es: seq<Event>)
    requires s.Valid() && es != []
    ensures var (next, out) := Step(rig, s, es[0]);
      && Run(rig, s, es) == Run(rig, next, es[1..])
      && Frames(rig, s, es) == (if out.Forwarded? then [out.frame] else []) + Frames(rig, next, es[1..])
    decreases |es|
  {
    RunStep(rig, s, es);
    if |es| > 1 {
      var (init, rest) := (es[..|es| - 1], es[1..]);
      assert init[1..] == rest[..|rest| - 1];
      RunFrom(rig, s, init);
      RunStep(rig, Step(rig, s, es[0]).0, rest);
      hide Step, Run, Frames;
    } else {
      assert es[..0] == [] && es[1..] == [];
    }
  }

  /** What a message comes to: the state it leaves, and the frames it forwards. */
  ghost predicate Comes<S>(rig: Rig<S>, before: Bridge<S>, out: seq<Bytes>, t1: real, t2: real,
                           after: Bridge<S>, frames: seq<Bytes>)
    requires before.motor.Valid()
  {
    if out == [] then frames == [] && SameButListening(after, before)
    else
      var (b, payload) := Forward(rig, before, out[0], t1, t2);
      && |out| == 1 && SameButListening(after, b)
      && frames == if payload.Some? then [payload.value] else []
  }

  lemma ForwardIgnoresListening<S>(rig: Rig<S>, a: Bridge<S>, b: Bridge<S>, raw: Bytes, t1: real, t2: real)
    requires a.motor.Valid() && SameButListening(a, b)
    ensures Forward(rig, a, raw, t1, t2).1 == Forward(rig, b, raw, t1, t2).1
    ensures SameButListening(Forward(rig, a, raw, t1, t2).0, Forward(rig, b, raw, t1, t2).0)
  {
  }

  /** Listening matters to no message. */
  lemma ComesFrom<S>(rig: Rig<S>, a: Bridge<S>, b: Bridge<S>, out: seq<Bytes>, t1: real, t2: real,
                     after: Bridge<S>, frames: seq<Bytes>)
    requires a.motor.Valid() && SameButListening(a, b) && Comes(rig, a, out, t1, t2, after, frames)
    ensures Comes(rig, b, out, t1, t2, after, frames)
  {
    if out != [] { ForwardIgnoresListening(rig, a, b, out[0], t1, t2); }
    hide Forward;
  }

  /** Events of ICU clients and a controller's close leave a message as it is. */
  lemma OtherStep<S>(rig: Rig<S>, s: State<S>, e: Event)
    requires s.Valid() && !e.Fragment? && !e.ControllerConnect?
    ensures var (next, out) := Step(rig, s, e);
      next.collected == s.collected && SameButListening(next.bridge, s.bridge) && !out.Forwarded?
  {
  }

  /** A fragment does what reassembly says, and the message it completes is rewritten. */
  lemma FragmentStep<S>(rig: Rig<S>, s: State<S>, e: Event)
    requires s.Valid() && e.Fragment?
    ensures var (next, out) := Step(rig, s, e);
      var (collected, whole) := Receive(s.collected, e.bytes, e.first, e.final);
      && next.collected == collected
      && match whole
         case None => next.bridge == s.bridge && !out.Forwarded?
         case Some(raw) =>
           var (b, payload) := Forward(rig, s.bridge, raw, e.t1, e.t2);
           next.bridge == b && out == if payload.Some? then Forwarded(payload.value) else Dropped
  {
    hide Receive, Forward;
  }

  lemma MessageFirst(collected: Bytes, fragments: seq<Bytes>, first: bool)
    requires fragments != []
    ensures var (next, whole) := Receive(collected, fragments[0], first, |fragments| == 1);
      var (end, later) := Message(next, fragments[1..], false);
      && Message(collected, fragments, first).0 == end
      && Message(collected, fragments, first).1 == (if whole.Some? then [whole.value] + later else later)
      && (|fragments| > 1 ==> whole.None?)
      && (|fragments| == 1 ==> end == next && later == [])
  {
  }

  lemma {:induction false} FromHere<S>(rig: Rig<S>, s: State<S>, es: seq<Event>, fragments: seq<Bytes>,
                                       first: bool, t1: real, t2: real)
    requires s.Valid() && Carries(es, fragments, first, t1, t2)
    ensures Run(rig, s, es).collected == Message(s.collected, fragments, first).0
    ensures Comes(rig, s.bridge, Message(s.collected, fragments, first).1, t1, t2,
                  Run(rig, s, es).bridge, Frames(rig, s, es))
    decreases |es|
  {
    if es != [] {
      RunFrom(rig, s, es);
      var next := Step(rig, s, es[0]).0;
      var (b, frames) := (Run(rig, next, es[1..]).bridge, Frames(rig, next, es[1..]));
      assert [] + frames == frames;
      if es[0].Fragment? {
        FragmentStep(rig, s, es[0]);
        MessageFirst(s.collected, fragments, first);
        FromHere(rig, next, es[1..], fragments[1..], false, t1, t2);
        hide Step, Run, Frames, Message, Receive, Forward, Carries;
      } else {
        OtherStep(rig, s, es[0]);
        FromHere(rig, next, es[1..], fragments, first, t1, t2);
        hide Step, Run, Frames, Message, Forward, Carries;
        ComesFrom(rig, next.bridge, s.bridge, Message(s.collected, fragments, first).1, t1, t2, b, frames);
      }
    }
  }

  /** In any run, from any state, a message whose fragments come between ICU events hands to the
      rewriter what reassembly delivers of it, once, and nothing else. */
  lemma MessageOnARun<S>(rig: Rig<S>, s: State<S>, es: seq<Event>, fragments: seq<Bytes>, t1: real, t2: real)
    requires s.Valid() && fragments != [] && Carries(es, fragments, true, t1, t2)
    ensures Run(rig, s, es).collected == []
    ensures Comes(rig, s.bridge, Delivered(fragments), t1, t2, Run(rig, s, es).bridge, Frames(rig, s, es))
  {
    hide Run, Frames, Carries, Comes, Message;
    FromHere(rig, s, es, fragments, true, t1, t2);
    MessageDelivers(s.collected, fragments);
  }
}
