/**
  Fragment reassembly in `callback_controller`: messages arrive in fragments (section 5.4 of
  RFC 6455) and are collected in a 512-byte buffer.
 */
module Reassembly {
  import opened Options
  import opened Search
  import opened Forwarding

  /** One receive callback: what is collected afterwards, and the message if it is complete. An
      overflow empties the buffer and ends the callback, whatever the flags say. */
  function Receive(collected: Bytes, fragment: Bytes, first: bool, final: bool): (r: (Bytes, Option<Bytes>))
    ensures |r.0| <= MAX_RAW
    ensures r.1.Some? ==> |r.1.value| <= MAX_RAW && r.0 == []
  {
    var start := if first then [] else collected;
    if |start| + |fragment| > MAX_RAW then ([], None)
    else if final then ([], Some(start + fragment))
    else (start + fragment, None)
  }

  /** The per-connection struct. */
  class Session {
    const buf: array<char>
    var len: nat

    ghost predicate Valid()
      reads this
    {
      buf.Length == MAX_RAW && len <= MAX_RAW
    }

    ghost function Collected(): Bytes
      requires Valid()
      reads this, buf
    {
      buf[..len]
    }

    constructor ()
      ensures Valid() && fresh(buf) && Collected() == []
    {
      buf := new char[MAX_RAW];
      len := 0;
    }

    method Established()
      requires Valid()
      modifies this`len
      ensures Valid() && Collected() == []
    {
      len := 0;
    }

    /** The part of the callback before the hand-off; a complete message stays in buf[..len]. */
    method Accumulate(fragment: Bytes, first: bool, final: bool) returns (complete: bool)
      requires Valid()
      modifies this`len, buf
      ensures Valid()
      ensures var r := Receive(old(Collected()), fragment, first, final);
        && complete == r.1.Some?
        && Collected() == if complete then r.1.value else r.0
    {
      if first {
        len := 0;
      }
      if len + |fragment| > MAX_RAW {
        len := 0;
        return false;
      }
      ghost var start := buf[..len];
      forall i | 0 <= i < |fragment| {
        buf[len + i] := fragment[i];
      }
      len := len + |fragment|;
      assert buf[..len] == start + fragment;
      return final;
    }
  }

  // ----- Messages -----

  /** The fragments of one message in turn; `first` says whether the message starts here. */
  ghost function Message(collected: Bytes, fragments: seq<Bytes>, first: bool): (r: (Bytes, seq<Bytes>))
    decreases |fragments|
  {
    if fragments == [] then (collected, []) else
    var (next, whole) := Receive(collected, fragments[0], first, |fragments| == 1);
    var (end, later) := Message(next, fragments[1..], false);
    (end, if whole.Some? then [whole.value] + later else later)
  }

  ghost function Concat(fragments: seq<Bytes>): Bytes {
    if fragments == [] then [] else fragments[0] + Concat(fragments[1..])
  }

  /** How many fragments there are up to and including the last that overflowed. */
  ghost function Resume(len: nat, fragments: seq<Bytes>): (r: nat)
    ensures r <= |fragments|
    decreases |fragments|
  {
    if fragments == [] then 0
    else if len + |fragments[0]| > MAX_RAW then 1 + Resume(0, fragments[1..])
    else
      var r := Resume(len + |fragments[0]|, fragments[1..]);
      if r == 0 then 0 else 1 + r
  }

  lemma {:induction false} ResumeIffOversized(len: nat, fragments: seq<Bytes>)
    ensures len <= MAX_RAW ==> (Resume(len, fragments) == 0 <==> len + |Concat(fragments)| <= MAX_RAW)
    ensures |Concat(fragments[Resume(len, fragments)..])| <= MAX_RAW
         || (Resume(len, fragments) == 0 && len + |Concat(fragments)| > MAX_RAW)
    decreases |fragments|
  {
    if fragments != [] {
      var rest := fragments[1..];
      if len + |fragments[0]| > MAX_RAW {
        ResumeIffOversized(0, rest);
        assert fragments[Resume(len, fragments)..] == rest[Resume(0, rest)..];
      } else {
        ResumeIffOversized(len + |fragments[0]|, rest);
        var r := Resume(len + |fragments[0]|, rest);
        if r > 0 {
          assert fragments[1 + r..] == rest[r..];
        }
      }
    }
  }

  /** The fragments that ended at a resumption did not fit together. */
  lemma {:induction false} ResumeOverflowed(len: nat, fragments: seq<Bytes>)
    requires Resume(len, fragments) > 0
    ensures exists q :: OverflowsFrom(len, fragments, q, Resume(len, fragments))
    decreases |fragments|
  {
    var f, rest := fragments[0], fragments[1..];
    var r := Resume(len, fragments);
    var n := if len + |f| > MAX_RAW then 0 else len + |f|;
    ResumeStep(len, fragments);
    hide Resume, Concat;
    if Resume(n, rest) == 0 {
      assert fragments[0..1] == [f];
      ConcatStep([f]);
      assert OverflowsFrom(len, fragments, 0, r);
    } else {
      ResumeOverflowed(n, rest);
      var q: nat :| OverflowsFrom(n, rest, q, r - 1);
      OverflowsEarlier(len, n, fragments, q, r);
    }
  }

  lemma OverflowsEarlier(len: nat, n: nat, fragments: seq<Bytes>, q: nat, r: nat)
    requires fragments != [] && r > 0 && OverflowsFrom(n, fragments[1..], q, r - 1)
    requires n == 0 || n == len + |fragments[0]|
    ensures OverflowsFrom(len, fragments, if q == 0 && n > 0 then 0 else q + 1, r)
  {
    hide Concat;
    var rest := fragments[1..];
    var (u, w) := (fragments[q + 1..r], rest[q..r - 1]);
    assert |u| == |w| && forall i | 0 <= i < |u| :: u[i] == fragments[q + 1 + i] == rest[q + i] == w[i];
    assert u == w;
    if q == 0 && n > 0 {
      ConcatStep(fragments[0..r]);
      assert fragments[0..r][1..] == rest[0..r - 1];
    }
  }

  /** The fragments from q up to r, after what was collected before them, exceed the buffer. */
  ghost predicate OverflowsFrom(len: nat, fragments: seq<Bytes>, q: nat, r: nat) {
    q < r <= |fragments| && (if q == 0 then len else 0) + |Concat(fragments[q..r])| > MAX_RAW
  }

  /** What a message yields, whatever was collected before it: the fragments after the last
      overflow, or nothing when the final fragment overflowed. */
  ghost function Delivered(fragments: seq<Bytes>): seq<Bytes> {
    var r := Resume(0, fragments);
    if r == |fragments| then [] else [Concat(fragments[r..])]
  }

  lemma MessageOfOne(collected: Bytes, f: Bytes)
    ensures Message(collected, [f], false) ==
            ([], if |collected| + |f| > MAX_RAW then [] else [collected + f])
  {
    assert [f][1..] == [];
    assert Message([], [f][1..], false) == ([], []);
    assert [collected + f] + [] == [collected + f];
  }

  lemma MessageStep(collected: Bytes, fragments: seq<Bytes>)
    requires |fragments| > 1
    ensures var n := |collected| + |fragments[0]|;
      Message(collected, fragments, false) ==
      Message(if n > MAX_RAW then [] else collected + fragments[0], fragments[1..], false)
  {
    var n := |collected| + |fragments[0]|;
    assert Receive(collected, fragments[0], false, false)
        == (if n > MAX_RAW then [] else collected + fragments[0], None);
    var later := Message(if n > MAX_RAW then [] else collected + fragments[0], fragments[1..], false);
    assert later == (later.0, later.1);
  }

  lemma ResumeStep(len: nat, fragments: seq<Bytes>)
    requires fragments != []
    ensures var n := len + |fragments[0]|;
      && (n > MAX_RAW ==> Resume(len, fragments) == 1 + Resume(0, fragments[1..]))
      && (n <= MAX_RAW && Resume(n, fragments[1..]) == 0 ==> Resume(len, fragments) == 0)
      && (n <= MAX_RAW && Resume(n, fragments[1..]) > 0 ==>
            Resume(len, fragments) == 1 + Resume(n, fragments[1..]))
    ensures forall n: nat :: Resume(n, []) == 0
  {
  }

  lemma ConcatStep(fragments: seq<Bytes>)
    requires fragments != []
    ensures Concat(fragments) == fragments[0] + Concat(fragments[1..])
    ensures |fragments| == 1 ==> Concat(fragments) == fragments[0]
  {
    if |fragments| == 1 {
      assert fragments[1..] == [];
      assert fragments[0] + [] == fragments[0];
    }
  }

  lemma {:induction false} MessageFrom(collected: Bytes, fragments: seq<Bytes>)
    requires fragments != []
    ensures var r := Resume(|collected|, fragments);
      Message(collected, fragments, false) ==
      ([], if r == |fragments| then []
           else if r == 0 then [collected + Concat(fragments)]
           else [Concat(fragments[r..])])
    decreases |fragments|
  {
    var f, rest := fragments[0], fragments[1..];
    ConcatStep(fragments);
    if rest == [] {
      assert fragments == [f];
      MessageOfOne(collected, f);
    } else {
      MessageStep(collected, fragments);
      hide Message, Concat;
      ResumeStep(|collected|, fragments);
      hide Resume;
      var fits := |collected| + |f| <= MAX_RAW;
      var next := if fits then collected + f else [];
      MessageFrom(next, rest);
      var r := Resume(|next|, rest);
      assert collected + (f + Concat(rest)) == (collected + f) + Concat(rest);
      assert fragments[1 + r..] == rest[r..];
      assert rest[0..] == rest;
      assert [] + Concat(rest) == Concat(rest);
    }
  }

  /** Reassembly of one message, of any size, however fragmented, after anything: it forwards
      what is after the last overflow; the message itself if and only if it fits. */
  lemma MessageDelivers(collected: Bytes, fragments: seq<Bytes>)
    requires fragments != []
    ensures Message(collected, fragments, true) == ([], Delivered(fragments))
    ensures |Concat(fragments)| <= MAX_RAW <==> Delivered(fragments) == [Concat(fragments)]
    ensures forall i | 0 <= i < |Delivered(fragments)| :: |Delivered(fragments)[i]| <= MAX_RAW
  {
    MessageStarts(collected, fragments);
    hide Message, Resume, Concat;
    MessageFrom([], fragments);
    ResumeIffOversized(0, fragments);
    var r := Resume(0, fragments);
    assert fragments[0..] == fragments;
    assert [] + Concat(fragments) == Concat(fragments);
  }

  lemma MessageStarts(collected: Bytes, fragments: seq<Bytes>)
    requires fragments != []
    ensures Message(collected, fragments, true) == Message([], fragments, false)
  {
  }

  /** What is collected after fragments none of which is the first or the final one. */
  ghost function Collect(collected: Bytes, fragments: seq<Bytes>): Bytes
    decreases |fragments|
  {
    if fragments == [] then collected
    else Collect(Receive(collected, fragments[0], false, false).0, fragments[1..])
  }

  /** The fragments after the last overflow, behind what was there before when there was none. */
  ghost function LastStretch(collected: Bytes, fragments: seq<Bytes>): Bytes {
    var r := Resume(|collected|, fragments);
    if r == 0 then collected + Concat(fragments) else Concat(fragments[r..])
  }

  /** What is collected are the fragments after the last overflow, behind what was collected
      before when there was none. */
  lemma {:induction false} CollectIs(collected: Bytes, fragments: seq<Bytes>)
    ensures Collect(collected, fragments) == LastStretch(collected, fragments)
    decreases |fragments|
  {
    if fragments == [] {
      assert collected + [] == collected;
    } else {
      hide LastStretch;
      var f, rest := fragments[0], fragments[1..];
      var next := if |collected| + |f| > MAX_RAW then [] else collected + f;
      assert Collect(collected, fragments) == Collect(next, rest);
      hide Collect, Concat, Receive, Resume;
      CollectIs(next, rest);
      LastStretchStep(collected, fragments);
    }
  }

  lemma LastStretchStep(collected: Bytes, fragments: seq<Bytes>)
    requires fragments != []
    ensures var n := |collected| + |fragments[0]|;
      LastStretch(collected, fragments)
      == LastStretch(if n > MAX_RAW then [] else collected + fragments[0], fragments[1..])
  {
    var f, rest := fragments[0], fragments[1..];
    ConcatStep(fragments);
    ResumeStep(|collected|, fragments);
    hide Resume, Concat;
    Assoc(collected, f, Concat(rest));
    assert [] + Concat(rest) == Concat(rest);
    DropRest(fragments, if |collected| + |f| > MAX_RAW then Resume(0, rest) else Resume(|collected| + |f|, rest));
  }

  lemma DropRest(fragments: seq<Bytes>, r: nat)
    requires r < |fragments|
    ensures fragments[1 + r..] == fragments[1..][r..] && fragments[1..][0..] == fragments[1..]
  {
  }

  /** The fragments of a message that come before the final one, and then the final one. */
  lemma {:induction false} MessageEnds(collected: Bytes, init: seq<Bytes>, f: Bytes)
    ensures Message(collected, init + [f], false).1
         == if |Collect(collected, init)| + |f| > MAX_RAW then [] else [Collect(collected, init) + f]
    decreases |init|
  {
    var fragments := init + [f];
    if init == [] {
      assert fragments == [f];
      MessageOfOne(collected, f);
    } else {
      var next := Receive(collected, init[0], false, false).0;
      assert fragments[0] == init[0] && fragments[1..] == init[1..] + [f];
      MessageStep(collected, fragments);
      MessageEnds(next, init[1..], f);
      hide Message;
    }
  }

  /** Nothing of a message is forwarded if and only if its final fragment does not fit behind
      what the fragments before it have collected, its first one having started afresh; only an
      oversized message can come to that. */
  lemma NothingDeliveredIff(collected: Bytes, fragments: seq<Bytes>)
    requires fragments != []
    ensures var n := |fragments| - 1;
      && (Message(collected, fragments, true).1 == [] <==>
          |Collect([], fragments[..n])| + |fragments[n]| > MAX_RAW)
      && (Delivered(fragments) == [] <==> |Collect([], fragments[..n])| + |fragments[n]| > MAX_RAW)
    ensures Delivered(fragments) == [] ==> |Concat(fragments)| > MAX_RAW
  {
    var n := |fragments| - 1;
    var init := fragments[..n];
    assert fragments == init + [fragments[n]];
    MessageStarts(collected, fragments);
    hide Message, Collect, Resume, Concat;
    MessageEnds([], init, fragments[n]);
    MessageDelivers(collected, fragments);
    ResumeIffOversized(0, fragments);
  }

  // ----- Connections -----

  /** All messages of a connection, in turn. */
  ghost function Connection(collected: Bytes, messages: seq<seq<Bytes>>): seq<Bytes>
    decreases |messages|
  {
    if messages == [] then [] else
    var (next, out) := Message(collected, messages[0], true);
    out + Connection(next, messages[1..])
  }

  /** On a connection whose messages all fit, however they are fragmented, exactly those
      messages are forwarded, in order. */
  lemma {:induction false} ConnectionDelivers(collected: Bytes, messages: seq<seq<Bytes>>)
    requires forall i | 0 <= i < |messages| :: messages[i] != [] && |Concat(messages[i])| <= MAX_RAW
    ensures Connection(collected, messages) == seq(|messages|, i requires 0 <= i < |messages| => Concat(messages[i]))
    decreases |messages|
  {
    if messages != [] {
      MessageDelivers(collected, messages[0]);
      ConnectionDelivers([], messages[1..]);
    }
  }

  /** An oversized message is not always dropped whole: of 300, 300 and 100 bytes, the last 100
      are forwarded. */
  lemma OversizedTailIsForwarded(a: Bytes, b: Bytes, c: Bytes)
    requires |a| == 300 && |b| == 300 && |c| == 100
    ensures Message([], [a, b, c], true) == ([], [c])
  {
    var fs := [a, b, c];
    assert fs[1..] == [b, c] && [b, c][1..] == [c] && [c][1..] == [];
    assert Resume(0, [c]) == 0;
    assert Resume(300, [b, c]) == 1;
    MessageDelivers([], fs);
    assert fs[2..] == [c];
    assert Concat([c]) == c + Concat([]) == c;
  }
}
