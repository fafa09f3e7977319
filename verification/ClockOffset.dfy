/**
  `clock_offset.cpp`: the rolling-minimum estimator of the controller's clock offset, as a
  class over its deque of samples, and what it promises over whole sessions.
 */
module ClockOffset {
  const WINDOW_SECONDS := 30.0

  /** One sample: this process's time, and the frame transfer time measured then. */
  datatype Sample = Sample(now: real, transfer: real)

  // ----- One call -----

  /** Samples leave at the front while the front one is too old. */
  function Expire(samples: seq<Sample>, now: real): (r: seq<Sample>)
    ensures |r| <= |samples|
  {
    if samples != [] && now - samples[0].now > WINDOW_SECONDS then Expire(samples[1..], now) else samples
  }

  /** The smallest transfer time among the samples. */
  function MinTransfer(samples: seq<Sample>): real
    requires samples != []
  {
    if |samples| == 1 then samples[0].transfer
    else
      var m := MinTransfer(samples[..|samples| - 1]);
      var last := samples[|samples| - 1].transfer;
      if last < m then last else m
  }

  ghost predicate IsMin(m: real, samples: seq<Sample>) {
    && (forall i | 0 <= i < |samples| :: m <= samples[i].transfer)
    && (exists i | 0 <= i < |samples| :: samples[i].transfer == m)
  }

  lemma {:induction false} MinIsMin(samples: seq<Sample>)
    requires samples != []
    ensures IsMin(MinTransfer(samples), samples)
  {
    var init := samples[..|samples| - 1];
    if |samples| > 1 {
      MinIsMin(init);
      var i :| 0 <= i < |init| && init[i].transfer == MinTransfer(init);
      assert samples[i] == init[i];
      assert forall j | 0 <= j < |init| :: samples[j] == init[j];
    }
  }

  lemma MinIsUnique(m: real, n: real, samples: seq<Sample>)
    requires IsMin(m, samples) && IsMin(n, samples)
    ensures m == n
  {
  }

  /** The window after one more sample. */
  function Feed(window: seq<Sample>, s: Sample): (r: seq<Sample>)
    ensures r != [] && r[|r| - 1] == s
  {
    ExpireKeepsNewest(window, s);
    Expire(window + [s], s.now)
  }

  lemma {:induction false} ExpireKeepsNewest(window: seq<Sample>, s: Sample)
    ensures var r := Expire(window + [s], s.now);
      r != [] && r[|r| - 1] == s
  {
    if window != [] {
      assert (window + [s])[1..] == window[1..] + [s];
      ExpireKeepsNewest(window[1..], s);
    }
  }

  /** What a call returns: the sample less the smallest transfer time in the new window. */
  function CorrectedBy(window: seq<Sample>, s: Sample): real {
    s.transfer - MinTransfer(Feed(window, s))
  }

  /** The state of `clock_offset.cpp`. */
  class Estimator {
    var samples: seq<Sample>

    constructor ()
      ensures samples == []
    {
      samples := [];
    }

    method Reset()
      modifies this
      ensures samples == []
    {
      samples := [];
    }

    method Correct(transfer: real, now: real) returns (corrected: real)
      modifies this
      ensures samples == Feed(old(samples), Sample(now, transfer))
      ensures corrected == CorrectedBy(old(samples), Sample(now, transfer))
    {
      samples := samples + [Sample(now, transfer)];
      while samples != [] && now - samples[0].now > WINDOW_SECONDS
        invariant Expire(samples, now) == Feed(old(samples), Sample(now, transfer))
        decreases |samples|
      {
        samples := samples[1..];
      }

      var rollingMin := RollingMin(samples);
      return transfer - rollingMin;
    }
  }

  /** A linear scan for the minimum. */
  method RollingMin(samples: seq<Sample>) returns (rollingMin: real)
    requires samples != []
    ensures rollingMin == MinTransfer(samples)
  {
    rollingMin := samples[0].transfer;
    for i := 0 to |samples|
      invariant i > 0 ==> rollingMin == MinTransfer(samples[..i])
      invariant i == 0 ==> rollingMin == samples[0].transfer
    {
      assert samples[..i + 1][..i] == samples[..i];
      if samples[i].transfer < rollingMin {
        rollingMin := samples[i].transfer;
      }
    }
    assert samples[..|samples|] == samples;
  }

  // ----- Whole sessions -----

  /** The window after a session's samples, oldest first. */
  ghost function Window(h: seq<Sample>): seq<Sample> {
    if h == [] then [] else Feed(Window(h[..|h| - 1]), h[|h| - 1])
  }

  /** What the call for the newest sample returned. */
  ghost function Corrected(h: seq<Sample>): real
    requires h != []
  {
    CorrectedBy(Window(h[..|h| - 1]), h[|h| - 1])
  }

  lemma CorrectedIs(h: seq<Sample>)
    requires h != []
    ensures Window(h) != [] && Corrected(h) == h[|h| - 1].transfer - MinTransfer(Window(h))
  {
  }

  lemma WindowStep(h: seq<Sample>)
    ensures h == [] ==> Window(h) == []
    ensures h != [] ==>
              && Window(h) == Expire(Window(h[..|h| - 1]) + [h[|h| - 1]], h[|h| - 1].now)
              && Window(h) != []
  {
  }

  /** `w` is the end of `h`. */
  ghost predicate IsSuffix(w: seq<Sample>, h: seq<Sample>) {
    |w| <= |h| && forall i | |h| - |w| <= i < |h| :: h[i] == w[i - (|h| - |w|)]
  }

  lemma {:induction false} ExpireIsSuffix(w: seq<Sample>, now: real)
    ensures IsSuffix(Expire(w, now), w)
  {
    if w != [] && now - w[0].now > WINDOW_SECONDS {
      var t := w[1..];
      ExpireIsSuffix(t, now);
      assert forall i | 1 <= i < |w| :: w[i] == t[i - 1];
    }
  }

  lemma SuffixOfSuffix(u: seq<Sample>, w: seq<Sample>, h: seq<Sample>, s: Sample)
    requires IsSuffix(w, h) && IsSuffix(u, w + [s])
    ensures IsSuffix(u, h + [s])
  {
    var d := |h| - |w|;
    forall i | |h| + 1 - |u| <= i < |h| + 1 ensures (h + [s])[i] == u[i - (|h| + 1 - |u|)] {
      assert (w + [s])[i - d] == (h + [s])[i];
    }
  }

  /** Whatever the clock does, the window is a non-empty end of the history. */
  lemma {:induction false} WindowIsSuffix(h: seq<Sample>)
    ensures IsSuffix(Window(h), h)
    ensures h != [] ==> Window(h) != []
  {
    WindowStep(h);
    if h == [] {
    } else {
      hide Window, Expire, IsSuffix;
      var init, last := h[..|h| - 1], h[|h| - 1];
      WindowIsSuffix(init);
      ExpireIsSuffix(Window(init) + [last], last.now);
      SuffixOfSuffix(Window(h), Window(init), init, last);
      assert init + [last] == h;
    }
  }

  /** So no result is ever negative, and it is 0 exactly when no sample in the window is smaller. */
  lemma CorrectedIsNeverNegative(h: seq<Sample>)
    requires h != []
    ensures Corrected(h) >= 0.0
    ensures Corrected(h) == 0.0 <==> forall i | 0 <= i < |Window(h)| :: h[|h| - 1].transfer <= Window(h)[i].transfer
  {
    hide Window, Corrected;
    CorrectedIs(h);
    WindowIsSuffix(h);
    var w := Window(h);
    MinIsMin(w);
    assert h[|h| - 1] == w[|w| - 1];
  }

  // ----- A clock that does not run backwards -----

  ghost predicate Ordered(h: seq<Sample>) {
    forall i, j | 0 <= i <= j < |h| :: h[i].now <= h[j].now
  }

  /** Not older than the window when the newest sample of `h` arrives. */
  ghost predicate Recent(h: seq<Sample>, i: nat)
    requires i < |h|
  {
    h[|h| - 1].now - h[i].now <= WINDOW_SECONDS
  }

  lemma {:induction false} ExpireOrdered(w: seq<Sample>, now: real)
    requires Ordered(w)
    ensures forall i | 0 <= i < |w| ::
              i >= |w| - |Expire(w, now)| <==> now - w[i].now <= WINDOW_SECONDS
  {
    if w != [] && now - w[0].now > WINDOW_SECONDS {
      var t := w[1..];
      ExpireOrdered(t, now);
      assert forall i | 1 <= i < |w| :: w[i] == t[i - 1];
    }
  }

  /** The window is then exactly the recent part of the history. */
  lemma {:induction false} WindowIsRecent(h: seq<Sample>)
    requires Ordered(h) && h != []
    ensures |Window(h)| <= |h|
    ensures forall i | 0 <= i < |h| :: i >= |h| - |Window(h)| <==> Recent(h, i)
  {
    WindowStep(h);
    hide Window, Expire;
    var init, last := h[..|h| - 1], h[|h| - 1];
    var fed := Window(init) + [last];
    WindowIsSuffix(init);
    if init != [] { WindowIsRecent(init); }
    var k := |h| - |fed|;
    assert forall i | 0 <= i < |fed| :: fed[i] == h[k + i] by {
      hide Recent, Ordered;
      assert forall i | 0 <= i < |Window(init)| :: init[k + i] == Window(init)[i];
    }
    ExpireOrdered(fed, last.now);
    forall i | 0 <= i < |h| ensures i >= |h| - |Window(h)| <==> Recent(h, i) {
      if i >= k {
        assert h[i] == fed[i - k];
      } else {
        assert !Recent(init, i) && init[|init| - 1] == h[|h| - 2];
      }
    }
  }

  /** The result is the sample less the minimum over all samples of the last 30 seconds. */
  lemma CorrectedIsRollingMinimum(h: seq<Sample>, m: real)
    requires Ordered(h) && h != []
    requires forall i | 0 <= i < |h| && Recent(h, i) :: m <= h[i].transfer
    requires exists i :: 0 <= i < |h| && Recent(h, i) && h[i].transfer == m
    ensures Corrected(h) == h[|h| - 1].transfer - m
  {
    hide Window, Corrected, Recent, Ordered;
    WindowIsRecent(h);
    WindowIsSuffix(h);
    CorrectedIs(h);
    var w := Window(h);
    var k := |h| - |w|;
    forall i | 0 <= i < |w| ensures m <= w[i].transfer {
      assert h[k + i] == w[i] && Recent(h, k + i);
    }
    var i :| 0 <= i < |h| && Recent(h, i) && h[i].transfer == m;
    assert w[i - k].transfer == m;
    MinIsMin(w);
    MinIsUnique(m, MinTransfer(w), w);
  }

  // ----- Two sessions with the same process times -----

  ghost predicate SameTimes(g: seq<Sample>, h: seq<Sample>) {
    |g| == |h| && forall i | 0 <= i < |h| :: g[i].now == h[i].now
  }

  lemma {:induction false} ExpireSameTimes(g: seq<Sample>, h: seq<Sample>, now: real)
    requires SameTimes(g, h)
    ensures |Expire(g, now)| == |Expire(h, now)|
  {
    if h != [] {
      assert SameTimes(g[1..], h[1..]);
      ExpireSameTimes(g[1..], h[1..], now);
    }
  }

  /** Transfer times play no part in what the window holds. */
  lemma {:induction false} WindowSameTimes(g: seq<Sample>, h: seq<Sample>)
    requires SameTimes(g, h)
    ensures |Window(g)| == |Window(h)|
  {
    WindowStep(g);
    WindowStep(h);
    hide Window, Expire;
    if h != [] {
      var g', h' := g[..|g| - 1], h[..|h| - 1];
      WindowSameTimes(g', h');
      WindowIsSuffix(g');
      WindowIsSuffix(h');
      var wg, wh := Window(g'), Window(h');
      var k := |h'| - |wh|;
      forall i | 0 <= i < |wh| ensures wg[i].now == wh[i].now {
        assert g'[k + i] == wg[i] && h'[k + i] == wh[i];
      }
      ExpireSameTimes(wg + [g[|g| - 1]], wh + [h[|h| - 1]], h[|h| - 1].now);
    }
  }

  /** If the samples in the window of `g` are those of `h` moved by between `a` and `b`, and the
      newest by exactly `c`, then the result moves by between c - b and c - a. */
  lemma ResultMoves(g: seq<Sample>, h: seq<Sample>, a: real, b: real, c: real)
    requires SameTimes(g, h) && h != []
    requires g[|h| - 1].transfer == h[|h| - 1].transfer + c
    requires forall i | |h| - |Window(h)| <= i < |h| && 0 <= i ::
               h[i].transfer + a <= g[i].transfer <= h[i].transfer + b
    ensures c - b <= Corrected(g) - Corrected(h) <= c - a
  {
    hide Window, Corrected;
    WindowSameTimes(g, h);
    WindowIsSuffix(g);
    WindowIsSuffix(h);
    CorrectedIs(g);
    CorrectedIs(h);
    var k := |h| - |Window(h)|;
    forall i | 0 <= i < |Window(h)|
      ensures Window(h)[i].transfer + a <= Window(g)[i].transfer <= Window(h)[i].transfer + b
    {
      assert h[k + i] == Window(h)[i] && g[k + i] == Window(g)[i];
    }
    MinMoves(Window(g), Window(h), a, b);
  }

  lemma MinMoves(v: seq<Sample>, w: seq<Sample>, a: real, b: real)
    requires |v| == |w| && w != []
    requires forall i | 0 <= i < |w| :: w[i].transfer + a <= v[i].transfer <= w[i].transfer + b
    ensures MinTransfer(w) + a <= MinTransfer(v) <= MinTransfer(w) + b
  {
    hide MinTransfer;
    MinIsMin(v);
    MinIsMin(w);
    var i :| 0 <= i < |w| && w[i].transfer == MinTransfer(w);
    var j :| 0 <= j < |v| && v[j].transfer == MinTransfer(v);
    assert MinTransfer(v) <= v[i].transfer;
    assert MinTransfer(w) <= w[j].transfer;
  }

  /** `h` with the clock offset changed by `jump` from sample `at` on. */
  ghost function Jumped(h: seq<Sample>, at: nat, jump: real): (g: seq<Sample>)
    ensures SameTimes(g, h)
  {
    seq(|h|, i requires 0 <= i < |h| => if i >= at then h[i].(transfer := h[i].transfer + jump) else h[i])
  }

  /** Adding one constant to every transfer time of a session changes no result: the unknown
      clock offset cancels out. */
  lemma OffsetCancels(h: seq<Sample>, offset: real)
    requires h != []
    ensures Corrected(Jumped(h, 0, offset)) == Corrected(h)
  {
    hide Corrected, Window;
    ResultMoves(Jumped(h, 0, offset), h, offset, offset, offset);
  }

  /** After an upward jump the result is at most that much too large, and never too small. */
  lemma UpwardJump(h: seq<Sample>, at: nat, jump: real)
    requires at < |h| && jump >= 0.0
    ensures Corrected(h) <= Corrected(Jumped(h, at, jump)) <= Corrected(h) + jump
  {
    hide Corrected, Window;
    ResultMoves(Jumped(h, at, jump), h, 0.0, jump, jump);
  }

  /** After a downward jump the result is never too large, and still not negative. */
  lemma DownwardJump(h: seq<Sample>, at: nat, jump: real)
    requires at < |h| && jump <= 0.0
    ensures 0.0 <= Corrected(Jumped(h, at, jump)) <= Corrected(h)
  {
    hide Corrected, Window;
    ResultMoves(Jumped(h, at, jump), h, jump, 0.0, jump);
    CorrectedIsNeverNegative(Jumped(h, at, jump));
  }

  /** Once every sample from before the jump is more than 30 seconds old, the jump is forgotten. */
  lemma JumpIsForgotten(h: seq<Sample>, at: nat, jump: real)
    requires Ordered(h) && at < |h|
    requires forall i | 0 <= i < at :: !Recent(h, i)
    ensures Corrected(Jumped(h, at, jump)) == Corrected(h)
  {
    hide Corrected, Window, Recent, Ordered;
    WindowIsRecent(h);
    var g := Jumped(h, at, jump);
    forall i | |h| - |Window(h)| <= i < |h| && 0 <= i ensures g[i].transfer == h[i].transfer + jump {
      assert Recent(h, i);
    }
    ResultMoves(g, h, jump, jump, jump);
  }
}
