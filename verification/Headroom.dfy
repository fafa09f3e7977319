/**
  The payload buffer is always large enough: on every run, no edit of a frame ever fails for
  lack of space, and no payload is longer than 997 of its 1024 bytes.
 */
module Headroom {
  import opened Options
  import opened Search
  import opened Decimal
  import opened FrameText
  import opened FrameLaws
  import opened ClockOffset
  import opened MotorInference
  import opened MotorLaws
  import opened Forwarding
  import opened Process
  import opened Broadcast
  import Reassembly

  // ----- How long printed numbers are -----

  /** A number that renders in 31 characters with six places is below 10^24. */
  lemma RenderedIsBounded(x: real)
    requires RendersIn(x, 6)
    ensures Scaled(x, 6) < Pow10(30) as real
  {
    hide Print, Units, Pow10, Scaled;
    PrintLength(x, 6, 23);
    PrintLength(x, 6, 24);
    Pow10Monotone(29, 30);
    UnitsAreClose(x, 6);
    assert Units(x, 6) + 1 <= Pow10(30);
    assert Units(x, 6) as real + 1.0 <= Pow10(30) as real;
  }

  lemma PowersOfThirty()
    ensures Pow10(31) == 10 * Pow10(30) && Pow10(30) > 1 && Pow10(6) == 1000000
  {
    assert Pow10(30) == 10 * Pow10(29);
  }

  lemma DifferenceScales(x: real, m: real, k: nat)
    requires x >= m
    ensures Scaled(x - m, k) <= Scaled(x, k) + Scaled(m, k)
  {
    hide Pow10;
    var p := Pow10(k) as real;
    NonNegativeProduct(Abs(x) + Abs(m) - (x - m), p);
    assert (Abs(x) + Abs(m) - (x - m)) * p == Abs(x) * p + Abs(m) * p - (x - m) * p;
  }

  /** The difference of two such numbers, if not negative, needs one character more at most. */
  lemma DifferenceRenders(x: real, m: real)
    requires RendersIn(x, 6) && RendersIn(m, 6) && x >= m
    ensures |Print(x - m, 6)| <= 32
  {
    hide Print, Units, Pow10, Scaled;
    RenderedIsBounded(x);
    RenderedIsBounded(m);
    PowersOfThirty();
    DifferenceScales(x, m, 6);
    UnitsAreClose(x - m, 6);
    PrintLength(x - m, 6, 25);
  }

  /** A motor position between 0 and 12.3 prints in nine characters, zero in eight. */
  lemma PositionRenders(x: real)
    requires 0.0 <= x < 12.3
    ensures |Print(x, 6)| <= 9 && (x == 0.0 ==> |Print(x, 6)| <= 8)
  {
    hide Print, Units, Pow10;
    PowersForPositions();
    UnitsAreClose(x, 6);
    PrintLength(x, 6, 2);
    PrintLength(x, 6, 1);
  }

  lemma PowersForPositions()
    ensures Pow10(6) == 1000000 && Pow10(7) == 10000000 && Pow10(8) == 100000000
  {
    assert Pow10(7) == 10 * Pow10(6);
    assert Pow10(8) == 10 * Pow10(7);
  }

  // ----- Lengths, stage by stage -----

  lemma TimingSize(t1: real, t2: real, times: Times)
    requires StampRenders(t1, t2, times)
    ensures |Members(TimingMembers(t1, t2, times))| <= 239
  {
    hide Print;
    NameLengths();
    var ms := TimingMembers(t1, t2, times);
    MembersLength(ms);
    SizeOfFour(ms);
  }

  lemma SizeOfFour(ms: seq<Added>)
    requires |ms| == 4
    ensures MembersSize(ms) == 16 + |ms[0].name| + |ms[0].text| + |ms[1].name| + |ms[1].text|
                                  + |ms[2].name| + |ms[2].text| + |ms[3].name| + |ms[3].text|
  {
    assert ms[1..][1..] == ms[2..] && ms[2..][1..] == ms[3..] && ms[3..][1..] == [];
    assert MembersSize(ms[3..]) == 4 + |ms[3].name| + |ms[3].text|;
    assert MembersSize(ms[2..]) == 4 + |ms[2].name| + |ms[2].text| + MembersSize(ms[3..]);
  }

  /** A stamp adds at most 255 bytes. */
  lemma StampGrowth(raw: Bytes, t1: real, t2: real)
    requires SentName(raw).Some?
    requires StampRenders(t1, t2, FrameTimes(raw, t1, t2).value)
    ensures |StampText(Locate(raw, Key(SentName(raw).value)).value,
                       TimingMembers(t1, t2, FrameTimes(raw, t1, t2).value))| <= |raw| + 255
  {
    hide Find, CutTail, Print, ParseSpan, Members, TimingMembers;
    var name := SentName(raw).value;
    var f := Locate(raw, Key(name)).value;
    FieldSplits(raw, name, f);
    TimingSize(t1, t2, FrameTimes(raw, t1, t2).value);
    NameLengths();
  }

  /** A raw frame is dropped if and only if one of its times does not render: never for space. */
  lemma StampDropsIff(raw: Bytes, t1: real, t2: real)
    requires |raw| <= MAX_RAW
    ensures StampFrame(raw, t1, t2, MAX_BRIDGED).None? <==>
            SentName(raw).Some? && !StampRenders(t1, t2, FrameTimes(raw, t1, t2).value)
    ensures StampFrame(raw, t1, t2, MAX_BRIDGED).Some? ==>
            |StampFrame(raw, t1, t2, MAX_BRIDGED).value| <= 767
  {
    hide SentName, StampRenders, StampText, TimingMembers, Locate, ParseSpan, Key;
    if SentName(raw).Some? {
      if StampRenders(t1, t2, FrameTimes(raw, t1, t2).value) {
        StampGrowth(raw, t1, t2);
      }
    }
  }

  lemma BraceIsFound(s: Bytes)
    requires '}' in s
    ensures LastBrace(s).Some?
  {
    hide LastBrace;
  }

  lemma InsertLength(s: Bytes, text: Bytes, cap: nat)
    ensures InsertBeforeBrace(s, text, cap).None? <==> LastBrace(s).None? || |s| + |text| > cap
    ensures InsertBeforeBrace(s, text, cap).Some? ==>
            |InsertBeforeBrace(s, text, cap).value| == |s| + |text|
  {
    hide LastBrace;
  }

  /** The correction fails only for a frame without a closing brace. */
  lemma CorrectionFits(stamped: Bytes, corrected: real)
    requires |stamped| <= 767 && |Print(corrected, 6)| <= 32
    ensures AppendField(stamped, CORRECTED, corrected, MAX_BRIDGED).None? <==> LastBrace(stamped).None?
    ensures |WithCorrection(stamped, corrected)| <= 832
  {
    hide Print, LastBrace, InsertBeforeBrace;
    NameLengths();
    var ms := [Added(CORRECTED, Print(corrected, 6))];
    MembersLength(ms);
    assert ms[1..] == [];
    InsertLength(stamped, Members(ms), MAX_BRIDGED);
  }

  lemma ReplaceGrowth(s: Bytes, name: Bytes, x: real)
    requires |s| + 30 <= MAX_BRIDGED
    requires ValueText(s, Key(name)).Some? && ValueText(s, Key(name)).value != []
    ensures ReplaceValue(s, name, x, MAX_BRIDGED).None? <==> !RendersIn(x, 8)
    ensures ReplaceValue(s, name, x, MAX_BRIDGED).Some? ==>
            |ReplaceValue(s, name, x, MAX_BRIDGED).value| <= |s| + 30
  {
    hide Find, CutTail, Print, Key;
    var f := Locate(s, Key(name)).value;
    FieldSplits(s, name, f);
    var t := Print(x, 8);
    assert |s| == |f.before| + (|Key(name)| + |f.tail.blanks| + |f.tail.value| + |f.tail.after|);
    assert |ReplaceText(f, name, t)| == |f.before| + (|Key(name)| + |f.tail.blanks| + |t| + |f.tail.after|);
  }

  lemma ExtractedValues(s: Bytes)
    requires ExtractJoystick(s).Some?
    ensures ValueText(s, Key(JOYSTICK_X)).Some? && ValueText(s, Key(JOYSTICK_X)).value != []
    ensures ValueText(s, Key(JOYSTICK_Y)).Some? && ValueText(s, Key(JOYSTICK_Y)).value != []
  {
    hide ValueText, ParseSpan;
  }

  /** The reformat fails only for a value that does not render. */
  lemma JoystickFits(s: Bytes, j: Joystick)
    requires |s| <= 832 && ExtractJoystick(s).Some?
    ensures Reformat(s, j, MAX_BRIDGED).None? <==> !RendersIn(j.x, 8) || !RendersIn(j.y, 8)
    ensures |WithJoystick(s, Some(j))| <= 892
  {
    hide ValueText, ExtractJoystick, ReplaceValue, RendersIn, IsName;
    ExtractedValues(s);
    NamesAreNames();
    JoystickNamesAreUntouched(JOYSTICK_X);
    ReplaceGrowth(s, JOYSTICK_X, j.x);
    if ReplaceValue(s, JOYSTICK_X, j.x, MAX_BRIDGED).Some? {
      ReplaceKeepsField(s, JOYSTICK_X, j.x, MAX_BRIDGED, JOYSTICK_Y);
      ReplaceGrowth(ReplaceValue(s, JOYSTICK_X, j.x, MAX_BRIDGED).value, JOYSTICK_Y, j.y);
    }
  }

  ghost predicate SmallMotors(m: Motors) {
    0.0 <= m.m1 < 12.3 && 0.0 <= m.m2 < 12.3 && 0.0 <= m.m3 < 12.3 && m.m4 == 0.0
  }

  /** The motor fields fail only for a frame without a closing brace. */
  lemma MotorsFit(s: Bytes, m: Motors)
    requires |s| <= 892 && SmallMotors(m)
    ensures AppendMotors(s, m, MAX_BRIDGED).None? <==> LastBrace(s).None?
    ensures |WithMotors(s, Some(m))| <= 997
  {
    hide Print, LastBrace, InsertBeforeBrace;
    NameLengths();
    PositionRenders(m.m1);
    PositionRenders(m.m2);
    PositionRenders(m.m3);
    PositionRenders(m.m4);
    MembersLength(MotorMembers(m));
    SizeOfFour(MotorMembers(m));
    InsertLength(s, Members(MotorMembers(m)), MAX_BRIDGED);
  }

  // ----- What every run keeps -----

  ghost predicate WindowRenders(w: seq<Sample>) {
    forall i | 0 <= i < |w| :: RendersIn(w[i].transfer, 6)
  }

  lemma ZeroRenders()
    ensures RendersIn(0.0, 6)
  {
    PositionRenders(0.0);
  }

  lemma FeedKeepsRendering(w: seq<Sample>, s: Sample)
    requires WindowRenders(w) && RendersIn(s.transfer, 6)
    ensures WindowRenders(Feed(w, s))
  {
    hide Expire, RendersIn;
    var fed := Feed(w, s);
    ExpireIsSuffix(w + [s], s.now);
    var d := |w| + 1 - |fed|;
    assert forall i | 0 <= i < |fed| :: (w + [s])[d + i] == fed[i];
  }

  lemma FeedRenders(w: seq<Sample>, s: Sample)
    requires WindowRenders(w) && RendersIn(s.transfer, 6)
    ensures WindowRenders(Feed(w, s))
    ensures 0.0 <= CorrectedBy(w, s) && |Print(CorrectedBy(w, s), 6)| <= 32
  {
    hide Feed, MinTransfer, RendersIn, Print;
    var fed := Feed(w, s);
    FeedKeepsRendering(w, s);
    MinIsMin(fed);
    var i :| 0 <= i < |fed| && fed[i].transfer == MinTransfer(fed);
    assert MinTransfer(fed) <= fed[|fed| - 1].transfer;
    DifferenceRenders(s.transfer, fed[i].transfer);
  }

  /** The estimator is only ever fed transfer times that rendered. */
  lemma TransferRenders(raw: Bytes, t1: real, t2: real)
    requires StampFrame(raw, t1, t2, MAX_BRIDGED).Some?
    ensures RendersIn(TransferOf(FrameTimes(raw, t1, t2)), 6)
  {
    hide Find, CutTail, Print, ParseSpan, StampText, TimingMembers;
    ZeroRenders();
  }

  /** What the headroom rests on: renderable samples, filter rows in the range of the network. */
  ghost predicate HasHeadroom<S>(b: Bridge<S>) {
    && b.motor.Valid() && WindowRenders(b.window)
    && forall d: nat | d < TENDONS :: InHull(b.motor, d, LOWEST, HIGHEST)
  }

  lemma InferKeepsHull<S>(rig: Rig<S>, m: Motor<S>, j: Option<Joystick>)
    requires 0.0 < rig.alpha <= 1.0 && m.Valid()
    requires forall d: nat | d < TENDONS :: InHull(m, d, LOWEST, HIGHEST)
    ensures var (next, out) := Infer(rig, m, j);
      && (forall d: nat | d < TENDONS :: InHull(next, d, LOWEST, HIGHEST))
      && (out.Some? ==> SmallMotors(out.value) && j.Some?)
  {
    if j.Some? {
      hide ComputeMotor, InHull, Prediction, Invoke;
      ComputeAnswers(rig, m, j.value);
      ComputeKeepsHull(rig, m, j.value, 0);
      ComputeKeepsHull(rig, m, j.value, 1);
      ComputeKeepsHull(rig, m, j.value, 2);
      HullIsSmall();
    }
  }

  lemma ComputeKeepsHull<S>(rig: Rig<S>, m: Motor<S>, j: Joystick, d: nat)
    requires 0.0 < rig.alpha <= 1.0 && m.Valid() && d < TENDONS && InHull(m, d, LOWEST, HIGHEST)
    ensures var (next, out) := ComputeMotor(rig, m, j);
      InHull(next, d, LOWEST, HIGHEST) && (out.Some? ==> LOWEST <= Tendon(out.value, d) <= HIGHEST)
  {
    hide ComputeMotor, InHull, Prediction, Invoke, Tendon;
    var answer := Invoke(rig, m, j).1;
    if answer.Some? { PredictionsAreInRange(answer.value, d); }
    ComputeStaysInHull(rig, m, j, d, LOWEST, HIGHEST);
  }

  lemma HullIsSmall()
    ensures LOWEST == 0.0 && HIGHEST < 12.3
  {
  }

  /** The outcome of every stage of one frame: nothing fails for lack of space. */
  ghost predicate StagesFit(stamped: Bytes, corrected: real, j: Option<Joystick>, m: Option<Motors>) {
    var s1 := WithCorrection(stamped, corrected);
    var s2 := WithJoystick(s1, j);
    && (AppendField(stamped, CORRECTED, corrected, MAX_BRIDGED).None? <==> LastBrace(stamped).None?)
    && (j.Some? ==> (Reformat(s1, j.value, MAX_BRIDGED).None? <==>
                     !RendersIn(j.value.x, 8) || !RendersIn(j.value.y, 8)))
    && (m.Some? ==> (AppendMotors(s2, m.value, MAX_BRIDGED).None? <==> LastBrace(s2).None?))
    && |Rewrite(stamped, corrected, j, m)| <= 997
  }

  lemma FrameFits(raw: Bytes, t1: real, t2: real, stamped: Bytes, corrected: real,
                  j: Option<Joystick>, m: Option<Motors>)
    requires |raw| <= MAX_RAW && StampFrame(raw, t1, t2, MAX_BRIDGED) == Some(stamped)
    requires |Print(corrected, 6)| <= 32
    requires j == ExtractJoystick(raw) && (m.Some? ==> SmallMotors(m.value) && j.Some?)
    ensures StagesFit(stamped, corrected, j, m)
  {
    hide StampFrame, AppendField, Reformat, AppendMotors, LastBrace, ExtractJoystick, Print, RendersIn, FailedReformat;
    StampDropsIff(raw, t1, t2);
    CorrectionFits(stamped, corrected);
    var s1 := WithCorrection(stamped, corrected);
    if j.Some? {
      ExtractionSurvivesStamp(raw, t1, t2, MAX_BRIDGED);
      CorrectionKeepsJoystick(stamped, corrected);
      JoystickFits(s1, j.value);
    }
    if m.Some? {
      MotorsFit(WithJoystick(s1, j), m.value);
    }
  }

  lemma CorrectionKeepsField(stamped: Bytes, corrected: real, name: Bytes)
    requires IsName(name) && name != CORRECTED
    ensures ValueText(WithCorrection(stamped, corrected), Key(name)) == ValueText(stamped, Key(name))
  {
    hide Key, ValueText, IsName, InsertBeforeBrace, Members, Print;
    var ms := [Added(CORRECTED, Print(corrected, 6))];
    if AppendField(stamped, CORRECTED, corrected, MAX_BRIDGED).Some? {
      NamesAreNames();
      NameIsQuoteFree(CORRECTED);
      PrintIsNumeric(corrected, 6);
      InsertKeepsField(stamped, ms, MAX_BRIDGED, name);
    }
  }

  lemma CorrectionKeepsJoystick(stamped: Bytes, corrected: real)
    ensures ExtractJoystick(WithCorrection(stamped, corrected)) == ExtractJoystick(stamped)
  {
    hide AppendField, ExtractJoystick;
    if AppendField(stamped, CORRECTED, corrected, MAX_BRIDGED).Some? {
      NamesAreNames();
      NameIsQuoteFree(CORRECTED);
      JoystickNamesAreUntouched(JOYSTICK_X);
      JoystickNamesAreUntouched(JOYSTICK_Y);
      ExtractionSurvivesAppend(stamped, CORRECTED, corrected, MAX_BRIDGED);
    }
  }

  /** One frame, from a state that keeps the headroom. */
  lemma ForwardFits<S>(rig: Rig<S>, b: Bridge<S>, raw: Bytes, t1: real, t2: real)
    requires 0.0 < rig.alpha <= 1.0 && HasHeadroom(b) && |raw| <= MAX_RAW
    ensures HasHeadroom(Forward(rig, b, raw, t1, t2).0)
    ensures var stamped := StampFrame(raw, t1, t2, MAX_BRIDGED);
      stamped.Some? ==>
        var s := Sample(t1, TransferOf(FrameTimes(raw, t1, t2)));
        var j := ExtractJoystick(raw);
        StagesFit(stamped.value, CorrectedBy(b.window, s), j, Infer(rig, b.motor, j).1)
  {
    hide StampFrame, FrameTimes, ExtractJoystick, Infer, Rewrite, Feed, CorrectedBy, InHull, StagesFit,
         WindowRenders, SmallMotors;
    var j := ExtractJoystick(raw);
    InferKeepsHull(rig, b.motor, j);
    var stamped := StampFrame(raw, t1, t2, MAX_BRIDGED);
    if stamped.Some? {
      var s := Sample(t1, TransferOf(FrameTimes(raw, t1, t2)));
      TransferRenders(raw, t1, t2);
      FeedRenders(b.window, s);
      FrameFits(raw, t1, t2, stamped.value, CorrectedBy(b.window, s), j, Infer(rig, b.motor, j).1);
    }
  }

  /** The sizes the stages of one frame work on. */
  lemma StagesAreSmall<S>(rig: Rig<S>, b: Bridge<S>, raw: Bytes, t1: real, t2: real)
    requires 0.0 < rig.alpha <= 1.0 && HasHeadroom(b) && |raw| <= MAX_RAW
    requires StampFrame(raw, t1, t2, MAX_BRIDGED).Some?
    ensures |StampFrame(raw, t1, t2, MAX_BRIDGED).value| <= 767
    ensures |Print(CorrectedBy(b.window, Sample(t1, TransferOf(FrameTimes(raw, t1, t2)))), 6)| <= 32
    ensures var m := Infer(rig, b.motor, ExtractJoystick(raw)).1;
      m.Some? ==> SmallMotors(m.value) && ExtractJoystick(raw).Some?
  {
    hide StampFrame, FrameTimes, ExtractJoystick, Infer, Feed, CorrectedBy, InHull, WindowRenders, SmallMotors, Print;
    InferKeepsHull(rig, b.motor, ExtractJoystick(raw));
    StampDropsIff(raw, t1, t2);
    TransferRenders(raw, t1, t2);
    FeedRenders(b.window, Sample(t1, TransferOf(FrameTimes(raw, t1, t2))));
  }

  lemma {:induction false} AlwaysHasHeadroom<S>(rig: Rig<S>, npu: bool, es: seq<Event>)
    requires 0.0 < rig.alpha <= 1.0
    ensures HasHeadroom(After(rig, npu, es).bridge)
  {
    if es != [] {
      var init, e := es[..|es| - 1], es[|es| - 1];
      AlwaysHasHeadroom(rig, npu, init);
      RunStep(rig, Start(rig, npu), es);
      StepKeepsHeadroom(rig, After(rig, npu, init), e);
      hide Step, Run, Frames, HasHeadroom;
    }
  }

  lemma StepKeepsHeadroom<S>(rig: Rig<S>, s: State<S>, e: Event)
    requires 0.0 < rig.alpha <= 1.0 && s.Valid() && HasHeadroom(s.bridge)
    ensures HasHeadroom(Step(rig, s, e).0.bridge)
  {
    hide Forward;
    if e.Fragment? {
      var message := Reassembly.Receive(s.collected, e.bytes, e.first, e.final).1;
      if message.Some? {
        hide HasHeadroom;
        ForwardFits(rig, s.bridge, message.value, e.t1, e.t2);
      }
    }
  }

  /** The headroom theorem. After any run, for any message: if the stamp passes, the appends fail
      only for a frame without a closing brace, the reformat only for a value that does not
      render in 31 characters, and the payload is at most 997 bytes long. */
  lemma NoStageLacksSpace<S>(rig: Rig<S>, npu: bool, es: seq<Event>, raw: Bytes, t1: real, t2: real)
    requires 0.0 < rig.alpha <= 1.0 && |raw| <= MAX_RAW
    ensures var b := After(rig, npu, es).bridge;
      var stamped := StampFrame(raw, t1, t2, MAX_BRIDGED);
      stamped.Some? ==>
        var s := Sample(t1, TransferOf(FrameTimes(raw, t1, t2)));
        var j := ExtractJoystick(raw);
        StagesFit(stamped.value, CorrectedBy(b.window, s), j, Infer(rig, b.motor, j).1)
  {
    hide Run, StampFrame, StagesFit;
    AlwaysHasHeadroom(rig, npu, es);
    ForwardFits(rig, After(rig, npu, es).bridge, raw, t1, t2);
  }
}
