/**
  What becomes of a failing reformat: a frame whose y does not render is really broadcast cut off.
 */
module CutFrame {
  import opened Options
  import opened Search
  import opened Decimal
  import opened FrameText
  import opened FrameLaws
  import opened ClockOffset
  import opened MotorInference
  import opened Forwarding
  import opened StructuralEdit

  /** The corrected time of the first frame of a session without a sent time. */
  function ZeroCorrection(): seq<Added> {
    [Added(CORRECTED, "0.000000")]
  }

  /** `{"joystick_x":1.00000000,"joystick_y":1e23,"frame_transfer_time_corrected":` */
  function CutPayload(): Bytes {
    "{" + (Key(JOYSTICK_X) + ("1.00000000" + (",\"joystick_y\":1e23" + ("," + Key(CORRECTED)))))
  }

  /** The frame `{"joystick_x":1,"joystick_y":1e23}` in a fresh session, whatever the network and
      the clock: the payload ends behind a colon. No frame has such a text. */
  lemma CutFrameIsForwarded<S>(rig: Rig<S>, b: Bridge<S>, t1: real, t2: real)
    requires b.motor.Valid() && b.window == []
    ensures Forward(rig, b, Unrenderable([]), t1, t2).1 == Some(CutPayload())
    ensures Forward(rig, b, Unrenderable([]), t1, t2).0.payload == CutPayload()
    ensures forall g | IsFrame(g) :: Render(g) != CutPayload()
  {
    hide Infer, StampFrame, FrameTimes, CorrectedBy, WithCorrection, WithJoystick, WithMotors, ExtractJoystick,
         Unrenderable, CutPayload, Render, IsFrame, Feed, Pow10;
    var raw := Unrenderable([]);
    PassesUnstamped(t1, t2);
    FirstCorrectionIsZero(t1);
    CorrectionIsAppended();
    UnrenderableReads([]);
    CutByJoystick();
    NoBraceLeft();
    MotorsNeedABrace(CutPayload(), Infer(rig, b.motor, ExtractJoystick(raw)).1);
    forall g | IsFrame(g) ensures Render(g) != CutPayload() { FrameEnds(g); }
  }

  lemma PassesUnstamped(t1: real, t2: real)
    ensures var raw := Unrenderable([]);
      StampFrame(raw, t1, t2, MAX_BRIDGED) == Some(raw) && FrameTimes(raw, t1, t2) == None
  {
    hide Unrenderable, Find;
    NamesAreNames();
    UnrenderableLength();
    NoSentTime(NTP_TIME);
    NoSentTime(TIMESTAMP);
    assert SentName(Unrenderable([])) == None;
    hide StampRenders, StampText, TimingMembers, SentName, Locate;
  }

  lemma NoSentTime(name: Bytes)
    requires IsSentName(name) && IsName(name)
    ensures Find(Unrenderable([]), Key(name)).None?
  {
    var rest := ",\"joystick_y\":1e23" + ([] + "}");
    NamesAreNames();
    JoystickNamesAreUntouched(JOYSTICK_X);
    JoystickNamesAreUntouched(JOYSTICK_Y);
    assert rest == "," + (Key(JOYSTICK_Y) + ("1e23" + "}"));
    assert "{" + [] == "{" && "}" + [] == "}";
    hide Find, Key, IsName, ValueText;
    FindEmpty(Key(name));
    FindSkipsQuoteFree("{", [], name);
    FindSkipsQuoteFree("}", [], name);
    ValueAround("{", JOYSTICK_X, "1", rest, name);
    ValueSkipsQuoteFree(",", Key(JOYSTICK_Y) + ("1e23" + "}"), name);
    ValueSkipsMember(JOYSTICK_Y, "1e23", "}", name);
    NotFoundHasNoValue("}", name);
    NotFoundHasNoValue(Unrenderable([]), name);
  }

  lemma FirstCorrectionIsZero(t1: real)
    ensures CorrectedBy([], Sample(t1, 0.0)) == 0.0
  {
    var s := Sample(t1, 0.0);
    assert [] + [s] == [s];
    assert Expire([s], t1) == [s];
    MinIsMin([s]);
  }

  lemma CorrectionIsAppended()
    ensures WithCorrection(Unrenderable([]), 0.0) == Unrenderable(Members(ZeroCorrection()))
    ensures |Unrenderable(Members(ZeroCorrection()))| == 75
  {
    ZeroPrints();
    ZeroCorrectionLength();
    hide Print, Members, LastBrace, Unrenderable, UnrenderableFront, Digits;
    var more := Members(ZeroCorrection());
    UnrenderableLength();
    UnrenderableSplits([]);
    UnrenderableSplits(more);
    var (front, raw) := (UnrenderableFront(), Unrenderable([]));
    assert [] + ("}" + []) == "}" + [];
    LastBraceIs(front, []);
    assert raw[..|front|] == front && raw[|front|..] == "}" + [];
    assert "}" + [] == "}";
  }

  lemma ZeroPrints()
    ensures Print(0.0, 6) == "0.000000"
  {
    hide Print;
    PrintWhole(0, 6);
    assert seq(6, _ => '0') == "000000";
    assert Digits(0) == "0";
  }

  lemma ZeroCorrectionLength()
    ensures |Members(ZeroCorrection())| == 41
  {
    NameLengths();
    MembersLength(ZeroCorrection());
    assert ZeroCorrection()[1..] == [];
  }

  function UnrenderableFront(): Bytes {
    "{" + (Key(JOYSTICK_X) + ("1" + ",\"joystick_y\":1e23"))
  }

  lemma UnrenderableSplits(more: Bytes)
    ensures Unrenderable(more) == UnrenderableFront() + (more + "}")
  {
    hide Key;
    var (a, k, t, end) := ("{", Key(JOYSTICK_X), ",\"joystick_y\":1e23", more + "}");
    Assoc("1", t, end);
    Assoc(k, "1" + t, end);
    Assoc(a, k + ("1" + t), end);
  }

  lemma CutByJoystick()
    ensures var j := Joystick(1.0, Pow10(23) as real);
      WithJoystick(Unrenderable(Members(ZeroCorrection())), Some(j)) == CutPayload()
  {
    hide Unrenderable, Reformat, FailedReformat, Pow10, Members, Rewritten, CutPayload;
    var more := Members(ZeroCorrection());
    CorrectionIsAppended();
    CommaFirst(ZeroCorrection());
    CutUnrenderable(more);
    RewrittenSplits();
    assert Rewritten(more)[..|CutPayload()|] == CutPayload();
  }

  lemma RewrittenSplits()
    ensures Rewritten(Members(ZeroCorrection())) == CutPayload() + "0.000000}"
  {
    hide Key;
    var (k, c) := (Key(JOYSTICK_X), Key(CORRECTED));
    assert ZeroCorrection()[1..] == [] && Members([]) == [];
    assert Members(ZeroCorrection()) == "," + (c + ("0.000000" + []));
    hide Members;
    var end := "0.000000}";
    var t := ",\"joystick_y\":1e23";
    assert ("," + (c + ("0.000000" + []))) + "}" == ("," + c) + end;
    Assoc(t, "," + c, end);
    Assoc("1.00000000", t + ("," + c), end);
    Assoc(k, "1.00000000" + (t + ("," + c)), end);
    Assoc("{", k + ("1.00000000" + (t + ("," + c))), end);
  }

  lemma NoBraceLeft()
    ensures '}' !in CutPayload() && LastBrace(CutPayload()).None?
  {
    NoBraceInKey(JOYSTICK_X);
    NoBraceInKey(CORRECTED);
    NamesAreNames();
    hide Key, IsName, LastBrace;
  }

  lemma NoBraceInKey(name: Bytes)
    ensures IsName(name) ==> '}' !in Key(name)
  {
  }

  lemma MotorsNeedABrace(s: Bytes, m: Option<Motors>)
    requires LastBrace(s).None?
    ensures WithMotors(s, m) == s
  {
    hide LastBrace, Members;
  }
}
