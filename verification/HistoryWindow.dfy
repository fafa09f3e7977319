/**
  `HistoryWindowBuilder` of `controller_pipeline.hpp`: the bounded deque of motion anchors as a
  class, and what it holds as a function of the whole session.

  Distance is any metric; the Euclidean one of the source is a metric (`Metric`).
 */
module HistoryWindow {
  datatype Point = Point(u: real, v: real)

  type Distance = (Point, Point) -> real

  ghost predicate IsMetric(dist: Distance) {
    && (forall p, q :: dist(p, q) >= 0.0)
    && (forall p :: dist(p, p) == 0.0)
    && (forall p, q, r :: dist(p, r) <= dist(p, q) + dist(q, r))
  }

  /** The parameters of a builder. */
  datatype Config = Config(seqLen: nat, anchorDistance: real, dist: Distance)

  /** The mutable part of a builder. */
  datatype State = State(hist: seq<Point>, first: Point, prev: Point, accum: real, hasFirst: bool)

  // ----- One call -----

  function Repeat(p: Point, n: nat): (r: seq<Point>)
    ensures |r| == n
  {
    seq(n, _ => p)
  }

  /** The window a call returns: padding, the stored anchors, the current sample. */
  function WindowOf(c: Config, s: State, cur: Point): seq<Point> {
    var needed := c.seqLen - 1;
    var first := if s.hasFirst then s.first else cur;
    var pad := if |s.hist| < needed then needed - |s.hist| else 0;
    Repeat(first, pad) + s.hist + [cur]
  }

  /** The motion since the last anchor, with the step to `cur`. */
  function Reach(c: Config, s: State, cur: Point): real {
    s.accum + c.dist(if s.hasFirst then s.prev else cur, cur)
  }

  /** The state after a call: the sample becomes an anchor once the motion reaches the distance. */
  function After(c: Config, s: State, cur: Point): State {
    var first := if s.hasFirst then s.first else cur;
    var reach := Reach(c, s, cur);
    if reach >= c.anchorDistance then
      var pushed := s.hist + [cur];
      State(if |pushed| > c.seqLen - 1 then pushed[1..] else pushed, first, cur, 0.0, true)
    else
      State(s.hist, first, cur, reach, true)
  }

  /** The deque never holds a whole window, and a window always has its full length. */
  lemma HistoryStaysShort(c: Config, s: State, cur: Point)
    requires |s.hist| < c.seqLen
    ensures |After(c, s, cur).hist| < c.seqLen && |WindowOf(c, s, cur)| == c.seqLen
  {
  }

  /** A reset forgets the anchors and re-arms the padding; the stale samples stay. */
  function ResetState(s: State): State {
    s.(hist := [], hasFirst := false, accum := 0.0)
  }

  class HistoryWindowBuilder {
    const config: Config
    var hist: seq<Point>
    var first: Point
    var prev: Point
    var accum: real
    var hasFirst: bool

    function View(): State
      reads this
    {
      State(hist, first, prev, accum, hasFirst)
    }

    constructor (config: Config)
      ensures this.config == config
      ensures View() == State([], Point(0.0, 0.0), Point(0.0, 0.0), 0.0, false)
    {
      this.config := config;
      hist, accum, hasFirst := [], 0.0, false;
      first, prev := Point(0.0, 0.0), Point(0.0, 0.0);
    }

    method Build(cur: Point) returns (window: seq<Point>)
      modifies this
      ensures window == WindowOf(config, old(View()), cur)
      ensures View() == After(config, old(View()), cur)
    {
      if !hasFirst {
        first := cur;
        prev := cur;
        hasFirst := true;
      }

      var needed := config.seqLen - 1;
      window := [];
      if |hist| < needed {
        var padCount := needed - |hist|;
        for i := 0 to padCount
          invariant window == Repeat(first, i)
        {
          window := window + [first];
        }
        window := window + hist;
      } else {
        window := window + hist;
      }
      window := window + [cur];

      accum := accum + config.dist(prev, cur);
      prev := cur;
      if accum >= config.anchorDistance {
        hist := hist + [cur];
        if |hist| > needed {
          hist := hist[1..];
        }
        accum := 0.0;
      }
    }

    method Reset()
      modifies this
      ensures View() == ResetState(old(View()))
    {
      hist := [];
      hasFirst := false;
      accum := 0.0;
    }
  }

  // ----- A whole session -----

  /** The state after the samples `xs`, from a state that was just reset. */
  ghost function Run(c: Config, s: State, xs: seq<Point>): State {
    if xs == [] then ResetState(s) else After(c, Run(c, s, xs[..|xs| - 1]), xs[|xs| - 1])
  }

  // The specification: everything below is a function of the samples alone.

  /** The last step of a session; a session starts where its first sample is. */
  ghost function LastStep(c: Config, xs: seq<Point>): real
    requires xs != []
  {
    var n := |xs|;
    c.dist(if n == 1 then xs[0] else xs[n - 2], xs[n - 1])
  }

  /** The motion since the last anchor before the last sample, with the last step. */
  ghost function Travel(c: Config, xs: seq<Point>): real
    requires xs != []
  {
    (if |xs| == 1 then 0.0 else
     var t := Travel(c, xs[..|xs| - 1]);
     if t >= c.anchorDistance then 0.0 else t) + LastStep(c, xs)
  }

  /** The last sample of `xs` is an anchor: the motion reached the anchor distance there. */
  ghost predicate Arrives(c: Config, xs: seq<Point>)
    requires xs != []
  {
    Travel(c, xs) >= c.anchorDistance
  }

  /** The motion since the latest anchor. */
  ghost function Since(c: Config, xs: seq<Point>): real {
    if xs == [] || Arrives(c, xs) then 0.0 else Travel(c, xs)
  }

  /** The indices of all anchors ever chosen. */
  ghost function Anchors(c: Config, xs: seq<Point>): (ids: seq<nat>)
    ensures forall k | 0 <= k < |ids| :: ids[k] < |xs|
  {
    if xs == [] then []
    else Anchors(c, xs[..|xs| - 1]) + if Arrives(c, xs) then [|xs| - 1] else []
  }

  ghost function Pick(xs: seq<Point>, ids: seq<nat>): (r: seq<Point>)
    requires forall k | 0 <= k < |ids| :: ids[k] < |xs|
    ensures |r| == |ids|
  {
    seq(|ids|, k requires 0 <= k < |ids| => xs[ids[k]])
  }

  /** The anchors of a session, in order. */
  ghost function AnchorPoints(c: Config, xs: seq<Point>): seq<Point> {
    Pick(xs, Anchors(c, xs))
  }

  /** The last `n` elements, or all of them. */
  ghost function Last<T>(s: seq<T>, n: nat): seq<T> {
    if |s| <= n then s else s[|s| - n..]
  }

  // ----- The deque is a function of the session -----

  /** One more sample, at the end of a session. */
  lemma Snoc(c: Config, xs: seq<Point>, cur: Point)
    ensures var ys := xs + [cur];
      && Travel(c, ys) == Since(c, xs) + c.dist(if xs == [] then cur else xs[|xs| - 1], cur)
      && AnchorPoints(c, ys) == if Arrives(c, ys) then AnchorPoints(c, xs) + [cur] else AnchorPoints(c, xs)
  {
    var ys := xs + [cur];
    assert ys[..|ys| - 1] == xs;
    var ids := Anchors(c, xs);
    assert Pick(ys, ids) == Pick(xs, ids);
    if Arrives(c, ys) {
      assert Pick(ys, ids + [|xs|]) == Pick(ys, ids) + [cur];
    }
  }

  lemma LastOfSnoc(s: seq<Point>, p: Point, n: nat)
    ensures var pushed := Last(s, n) + [p];
      Last(s + [p], n) == if |pushed| > n then pushed[1..] else pushed
  {
  }

  /** The samples a builder remembers: the first of the session and the latest. */
  lemma {:induction false} RunSamples(c: Config, s: State, xs: seq<Point>)
    ensures var st := Run(c, s, xs);
      && st.hasFirst == (xs != [])
      && (xs != [] ==> st.first == xs[0] && st.prev == xs[|xs| - 1])
  {
    if xs != [] {
      RunStep(c, s, xs);
      RunSamples(c, s, xs[..|xs| - 1]);
      hide Run;
    }
  }

  /** One call against the specification of the session so far. */
  lemma AfterIs(c: Config, s: State, init: seq<Point>, cur: Point, st: State)
    requires c.seqLen >= 1 && st == Run(c, s, init)
    requires st.hist == Last(AnchorPoints(c, init), c.seqLen - 1) && st.accum == Since(c, init)
    ensures var xs := init + [cur];
      && After(c, st, cur).hist == Last(AnchorPoints(c, xs), c.seqLen - 1)
      && After(c, st, cur).accum == Since(c, xs)
  {
    RunSamples(c, s, init);
    Snoc(c, init, cur);
    LastOfSnoc(AnchorPoints(c, init), cur, c.seqLen - 1);
    hide Run, AnchorPoints, Travel, Last, Anchors;
    assert Reach(c, st, cur) == Travel(c, init + [cur]);
    hide Reach;
  }

  /** The state of a builder is determined by the samples since the reset: its stale samples
      never show. */
  lemma {:induction false} RunIs(c: Config, s: State, xs: seq<Point>)
    requires c.seqLen >= 1
    ensures var st := Run(c, s, xs);
      && st.hist == Last(AnchorPoints(c, xs), c.seqLen - 1)
      && st.accum == Since(c, xs)
      && st.hasFirst == (xs != [])
      && (xs != [] ==> st.first == xs[0] && st.prev == xs[|xs| - 1])
  {
    RunSamples(c, s, xs);
    if xs == [] {
      assert AnchorPoints(c, []) == [];
    } else {
      RunStep(c, s, xs);
      hide After, Run, AnchorPoints, Since, Last;
      var init, cur := xs[..|xs| - 1], xs[|xs| - 1];
      assert xs == init + [cur];
      RunIs(c, s, init);
      AfterIs(c, s, init, cur, Run(c, s, init));
    }
  }

  lemma RunStep(c: Config, s: State, xs: seq<Point>)
    requires xs != []
    ensures Run(c, s, xs) == After(c, Run(c, s, xs[..|xs| - 1]), xs[|xs| - 1])
  {
  }

  /** The indices of the samples a window shows: for padding the first sample's, then the
      latest anchors', then the current sample's. */
  ghost function Shown(c: Config, xs: seq<Point>): (ids: seq<nat>)
    requires c.seqLen >= 1
    ensures |ids| == c.seqLen
    ensures forall k | 0 <= k < |ids| :: ids[k] <= |xs|
  {
    Last(seq(c.seqLen - 1, _ => 0) + Anchors(c, xs), c.seqLen - 1) + [|xs|]
  }

  /** Every window is the end of: the first sample repeated, then the anchors chosen at earlier
      calls, then the current sample. */
  lemma WindowIsHistory(c: Config, s: State, xs: seq<Point>, cur: Point)
    requires c.seqLen >= 1
    ensures var origin := if xs == [] then cur else xs[0];
      && WindowOf(c, Run(c, s, xs), cur)
         == Last(Repeat(origin, c.seqLen - 1) + AnchorPoints(c, xs) + [cur], c.seqLen)
      && |WindowOf(c, Run(c, s, xs), cur)| == c.seqLen
      && WindowOf(c, Run(c, s, xs), cur) == Pick(xs + [cur], Shown(c, xs))
  {
    hide Anchors, Run, AnchorPoints, Since, Shown;
    RunIs(c, s, xs);
    var origin := if xs == [] then cur else xs[0];
    PaddedLast(origin, AnchorPoints(c, xs), cur, c.seqLen - 1);
    PickShown(c, xs, cur);
  }

  lemma PickShown(c: Config, xs: seq<Point>, cur: Point)
    requires c.seqLen >= 1
    ensures var origin := if xs == [] then cur else xs[0];
      Last(Repeat(origin, c.seqLen - 1) + AnchorPoints(c, xs) + [cur], c.seqLen) == Pick(xs + [cur], Shown(c, xs))
  {
    hide Anchors;
  }

  lemma {:induction false} AnchorsIncrease(c: Config, xs: seq<Point>)
    ensures forall j, k | 0 <= j < k < |Anchors(c, xs)| :: Anchors(c, xs)[j] < Anchors(c, xs)[k]
  {
    if xs != [] {
      AnchorsIncrease(c, xs[..|xs| - 1]);
      hide Arrives;
    }
  }

  lemma PaddedLast(p: Point, anchors: seq<Point>, cur: Point, n: nat)
    ensures var hist := Last(anchors, n);
      Repeat(p, n - |hist|) + hist + [cur] == Last(Repeat(p, n) + anchors + [cur], n + 1)
  {
  }

  // ----- Motion is conserved -----

  ghost function PathLength(c: Config, xs: seq<Point>): real {
    if xs == [] then 0.0 else PathLength(c, xs[..|xs| - 1]) + LastStep(c, xs)
  }

  /** The lengths that were reached at the anchors. */
  ghost function Banked(c: Config, xs: seq<Point>): real {
    if xs == [] then 0.0
    else Banked(c, xs[..|xs| - 1]) + if Arrives(c, xs) then Travel(c, xs) else 0.0
  }

  /** The latest anchor, or the first sample before there is one. */
  ghost function Origin(c: Config, xs: seq<Point>): Point
    requires xs != []
  {
    var ids := Anchors(c, xs);
    if ids == [] then xs[0] else xs[ids[|ids| - 1]]
  }

  lemma {:induction false} SinceIsBounded(c: Config, xs: seq<Point>)
    requires IsMetric(c.dist) && c.anchorDistance > 0.0
    ensures 0.0 <= Since(c, xs) < c.anchorDistance
  {
    if xs != [] {
      SinceIsBounded(c, xs[..|xs| - 1]);
      TravelStep(c, xs);
    }
  }

  lemma {:induction false} PathIsBanked(c: Config, xs: seq<Point>)
    ensures PathLength(c, xs) == Banked(c, xs) + Since(c, xs)
  {
    if xs != [] {
      PathIsBanked(c, xs[..|xs| - 1]);
      TravelStep(c, xs);
      hide Travel;
    }
  }

  lemma {:induction false} AnchorsAreBanked(c: Config, xs: seq<Point>)
    ensures |Anchors(c, xs)| as real * c.anchorDistance <= Banked(c, xs)
  {
    if xs != [] {
      AnchorsAreBanked(c, xs[..|xs| - 1]);
      hide Travel;
      CountStep(|Anchors(c, xs[..|xs| - 1])|, c.anchorDistance);
    }
  }

  /** After every call: the accumulated motion is below the anchor distance, the path walked is
      what was banked at the anchors plus what is accumulated, and each anchor banked at least
      the anchor distance. */
  lemma {:induction false} MotionIsConserved(c: Config, xs: seq<Point>)
    requires IsMetric(c.dist) && c.anchorDistance > 0.0
    ensures 0.0 <= Since(c, xs) < c.anchorDistance
    ensures PathLength(c, xs) == Banked(c, xs) + Since(c, xs)
    ensures |Anchors(c, xs)| as real * c.anchorDistance <= Banked(c, xs) <= PathLength(c, xs)
  {
    hide Since, Banked, PathLength, Anchors;
    SinceIsBounded(c, xs);
    PathIsBanked(c, xs);
    AnchorsAreBanked(c, xs);
  }

  lemma TravelStep(c: Config, xs: seq<Point>)
    requires xs != []
    ensures Travel(c, xs) == Since(c, xs[..|xs| - 1]) + LastStep(c, xs)
  {
  }

  lemma CountStep(n: nat, d: real)
    ensures (n + 1) as real * d == n as real * d + d
  {
  }

  /** The current sample is never as far as the anchor distance from the latest anchor. */
  lemma {:induction false} AnchorsCover(c: Config, xs: seq<Point>)
    requires IsMetric(c.dist) && c.anchorDistance > 0.0 && xs != []
    ensures c.dist(Origin(c, xs), xs[|xs| - 1]) <= Since(c, xs) < c.anchorDistance
  {
    var init := xs[..|xs| - 1];
    MotionIsConserved(c, xs);
    if init != [] {
      AnchorsCover(c, init);
      assert Travel(c, xs) == Since(c, init) + LastStep(c, xs);
      if !Arrives(c, xs) {
        assert Anchors(c, xs) == Anchors(c, init);
        assert Origin(c, xs) == Origin(c, init);
        assert c.dist(Origin(c, xs), xs[|xs| - 1])
            <= c.dist(Origin(c, xs), init[|init| - 1]) + c.dist(init[|init| - 1], xs[|xs| - 1]);
      }
    }
  }

  /** The current sample ends the window and stands nowhere else in it, except as the padding of
      the first call of a session; and no anchor is shown twice. */
  lemma CurrentIsNotShown(c: Config, s: State, xs: seq<Point>, cur: Point, k: nat)
    requires k < c.seqLen - 1
    ensures var ids := Shown(c, xs);
      && WindowOf(c, Run(c, s, xs), cur)[k] == (xs + [cur])[ids[k]]
      && ids[c.seqLen - 1] == |xs|
      && (ids[k] < |xs| <==> xs != [])
      && (ids[k] > 0 ==> forall i | k < i < c.seqLen :: ids[k] < ids[i])
  {
    ShownIncrease(c, xs, k);
    WindowIsHistory(c, s, xs, cur);
    hide Anchors, Run, WindowOf, Shown, AnchorPoints, Last;
  }

  lemma ShownIncrease(c: Config, xs: seq<Point>, k: nat)
    requires k < c.seqLen - 1
    ensures var ids := Shown(c, xs);
      && ids[c.seqLen - 1] == |xs|
      && (ids[k] < |xs| <==> xs != [])
      && (ids[k] > 0 ==> forall i | k < i < c.seqLen :: ids[k] < ids[i])
  {
    AnchorsIncrease(c, xs);
    hide Anchors;
  }
}
