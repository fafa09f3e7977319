/**
  Reading a broadcast frame: every member the chain of edits writes is read back from the payload.
 */
module ReadBack {
  import opened Options
  import opened Search
  import opened Decimal
  import opened FrameText
  import opened FrameLaws
  import opened ClockOffset
  import opened MotorInference
  import opened Forwarding
  import opened Process
  import opened Broadcast
  import opened Headroom

  // ----- Names -----

  /** A name that neither the correction, nor the joystick stage, nor the motors write. */
  predicate IsLateName(name: Bytes) {
    name == CORRECTED || name == JOYSTICK_X || name == JOYSTICK_Y || IsMotorName(name)
  }

  lemma LateNamesDiffer()
    ensures !IsStampName(CORRECTED) && !IsSentName(CORRECTED) && !IsMotorName(CORRECTED)
    ensures forall name | IsMotorName(name) ::
              IsName(name) && !IsStampName(name) && !IsSentName(name) && name != CORRECTED
              && name != JOYSTICK_X && name != JOYSTICK_Y
    ensures CORRECTED != JOYSTICK_X && CORRECTED != JOYSTICK_Y
    ensures !IsLateName(NTP_TIME) && !IsLateName(TRANSFER) && !IsLateName(PROCESSING) && !IsLateName(RECEIVED)
  {
    NamesAreNames();
    NameLengths();
    JoystickNamesAreUntouched(JOYSTICK_X);
    JoystickNamesAreUntouched(JOYSTICK_Y);
  }

  lemma MotorNamesDiffer()
    ensures MOTOR_1 != MOTOR_2 && MOTOR_1 != MOTOR_3 && MOTOR_2 != MOTOR_3
    ensures MOTOR_1 != MOTOR_4 && MOTOR_2 != MOTOR_4 && MOTOR_3 != MOTOR_4
  {
    NameLengths();
    assert MOTOR_1[6] == '1' && MOTOR_2[6] == '2' && MOTOR_3[6] == '3';
  }

  // ----- One stage -----

  /** The joystick stage writes both values, or none. */
  ghost predicate IsWhole(s: Bytes, j: Option<Joystick>) {
    j.Some? ==> Reformat(s, j.value, MAX_BRIDGED).Some? || ReplaceValue(s, JOYSTICK_X, j.value.x, MAX_BRIDGED).None?
  }

  lemma JoystickKeepsField(s: Bytes, j: Option<Joystick>, name: Bytes)
    requires IsWhole(s, j) && IsName(name) && name != JOYSTICK_X && name != JOYSTICK_Y
    ensures ValueText(WithJoystick(s, j), Key(name)) == ValueText(s, Key(name))
  {
    NamesAreNames();
    hide ReplaceValue, Key, IsName, ValueText;
    if j.Some? && Reformat(s, j.value, MAX_BRIDGED).Some? {
      var s1 := ReplaceValue(s, JOYSTICK_X, j.value.x, MAX_BRIDGED).value;
      ReplaceKeepsField(s, JOYSTICK_X, j.value.x, MAX_BRIDGED, name);
      ReplaceKeepsField(s1, JOYSTICK_Y, j.value.y, MAX_BRIDGED, name);
    }
  }

  lemma MotorsKeepField(s: Bytes, m: Option<Motors>, name: Bytes)
    requires IsName(name) && !IsMotorName(name)
    ensures ValueText(WithMotors(s, m), Key(name)) == ValueText(s, Key(name))
  {
    hide Key, ValueText, IsName, InsertBeforeBrace, Members, Print;
    if m.Some? && AppendMotors(s, m.value, MAX_BRIDGED).Some? {
      MotorMembersAreQuoteFree(m.value);
      InsertKeepsField(s, MotorMembers(m.value), MAX_BRIDGED, name);
    }
  }

  /** Every other member reads in the payload as it reads in the stamped frame. */
  lemma LaterStagesKeepField(stamped: Bytes, c: real, j: Option<Joystick>, m: Option<Motors>, name: Bytes)
    requires IsWhole(WithCorrection(stamped, c), j) && IsName(name) && !IsLateName(name)
    ensures ValueText(Rewrite(stamped, c, j, m), Key(name)) == ValueText(stamped, Key(name))
  {
    hide WithCorrection, WithJoystick, WithMotors, IsWhole, Key, ValueText, IsName;
    CorrectionKeepsField(stamped, c, name);
    JoystickKeepsField(WithCorrection(stamped, c), j, name);
    MotorsKeepField(WithJoystick(WithCorrection(stamped, c), j), m, name);
  }

  /** A member inserted before the last brace is read back, if no member before has its name. */
  lemma InsertReads(s: Bytes, ms: seq<Added>, cap: nat, i: nat)
    requires InsertBeforeBrace(s, Members(ms), cap).Some?
    requires i < |ms| && QuoteFree(ms) && Numeric(ms) && IsName(ms[i].name)
    requires forall j | 0 <= j < i :: ms[j].name != ms[i].name
    requires Find(s[..LastBrace(s).value], Key(ms[i].name)).None?
    ensures ValueText(InsertBeforeBrace(s, Members(ms), cap).value, Key(ms[i].name)) == Some(ms[i].text)
  {
    var p := LastBrace(s).value;
    var (a, r) := (s[..p], s[p..]);
    var b := Members(ms) + r;
    var key := Key(ms[i].name);
    assert key != [] && r[0] == '}' && Members(ms)[0] == ',' && b[0] == ',';
    hide Find, Key, IsName, Members, LastBrace, ValueText, QuoteFree, Numeric;
    ReadMember(ms, i, r);
    FindBeforeForeign(a, b, ms[i].name);
    ValueAcross(a, b, key);
  }

  /** What is not found is not found in front of any index either. */
  lemma NotFoundInFront(s: Bytes, p: nat, key: Bytes)
    requires p <= |s| && Find(s, key).None?
    ensures Find(s[..p], key).None?
  {
    assert s == s[..p] + s[p..];
    hide Find;
    if Find(s[..p], key).Some? { FindHit(s[..p], s[p..], key); }
  }

  lemma ParseShort(x: real, k: nat)
    requires k >= 1 && |Print(x, k)| < SPAN_CAP
    ensures ParseSpan(Print(x, k)) == Rounded(x, k)
  {
    hide Print, Strtod, Rounded;
    ParsePrinted(x, k);
  }

  lemma CorrectionReads(stamped: Bytes, c: real)
    requires '}' in stamped && |stamped| <= 767 && |Print(c, 6)| <= 32
    requires Find(stamped, Key(CORRECTED)).None?
    ensures ValueText(WithCorrection(stamped, c), Key(CORRECTED)) == Some(Print(c, 6))
  {
    hide Find, Key, IsName, Members, LastBrace, ValueText, Print, InsertBeforeBrace;
    NamesAreNames();
    NameIsQuoteFree(CORRECTED);
    PrintIsNumeric(c, 6);
    CorrectionFits(stamped, c);
    BraceIsFound(stamped);
    var ms := [Added(CORRECTED, Print(c, 6))];
    InsertHasBrace(stamped, Members(ms), MAX_BRIDGED);
    NotFoundInFront(stamped, LastBrace(stamped).value, Key(CORRECTED));
    InsertReads(stamped, ms, MAX_BRIDGED, 0);
  }

  lemma InsertHasBrace(s: Bytes, text: Bytes, cap: nat)
    ensures InsertBeforeBrace(s, text, cap).Some? ==>
              LastBrace(s).Some? && '}' in InsertBeforeBrace(s, text, cap).value
  {
    hide LastBrace;
    if InsertBeforeBrace(s, text, cap).Some? {
      var p := LastBrace(s).value;
      assert (s[..p] + (text + s[p..]))[p + |text|] == '}';
    }
  }

  lemma MotorsRead(s: Bytes, m: Motors, i: nat)
    requires '}' in s && |s| <= 892 && SmallMotors(m) && i < 4
    requires Find(s, Key(MotorMembers(m)[i].name)).None?
    ensures ValueText(WithMotors(s, Some(m)), Key(MotorMembers(m)[i].name)) == Some(MotorMembers(m)[i].text)
  {
    hide Find, Key, IsName, Members, LastBrace, ValueText, Print, InsertBeforeBrace, MotorMembers, SmallMotors,
         QuoteFree, Numeric;
    var ms := MotorMembers(m);
    MotorsDiffer(m, i);
    MotorMembersAreNumeric(m);
    MotorsFit(s, m);
    BraceIsFound(s);
    InsertHasBrace(s, Members(ms), MAX_BRIDGED);
    NotFoundInFront(s, LastBrace(s).value, Key(ms[i].name));
    InsertReads(s, ms, MAX_BRIDGED, i);
  }

  lemma MotorsDiffer(m: Motors, i: nat)
    requires i < 4
    ensures |MotorMembers(m)| == 4 && forall j | 0 <= j < i :: MotorMembers(m)[j].name != MotorMembers(m)[i].name
  {
    MotorNamesDiffer();
    hide Print;
  }

  lemma MotorMembersAreNumeric(m: Motors)
    ensures var ms := MotorMembers(m);
      QuoteFree(ms) && Numeric(ms) && |ms| == 4 && forall i | 0 <= i < 4 :: IsName(ms[i].name)
  {
    hide Print, IsName;
    NamesAreNames();
    MotorMembersAreQuoteFree(m);
    PrintIsNumeric(m.m1, 6);
    PrintIsNumeric(m.m2, 6);
    PrintIsNumeric(m.m3, 6);
    PrintIsNumeric(m.m4, 6);
  }

  // ----- A closing brace stays -----

  lemma BraceOutside(a: Bytes, k: Bytes, w: Bytes, r: Bytes)
    requires '}' in a + (k + (w + r)) && '}' !in k && '}' !in w
    ensures '}' in a || '}' in r
  {
  }

  lemma BraceInEnds(a: Bytes, b: Bytes, r: Bytes)
    requires '}' in a || '}' in r
    ensures '}' in a + (b + r)
  {
    if '}' in r {
      var i :| 0 <= i < |r| && r[i] == '}';
      assert (a + (b + r))[|a| + |b| + i] == '}';
    } else {
      var i :| 0 <= i < |a| && a[i] == '}';
      assert (a + (b + r))[i] == '}';
    }
  }

  lemma FieldHasNoBrace(name: Bytes, t: Tail)
    requires IsName(name) && IsTail(t)
    ensures '}' !in Key(name) && '}' !in t.blanks + t.value
  {
  }

  lemma StampHasBrace(raw: Bytes, t1: real, t2: real, cap: nat)
    requires '}' in raw && StampFrame(raw, t1, t2, cap).Some?
    ensures '}' in StampFrame(raw, t1, t2, cap).value
  {
    NamesAreNames();
    hide Find, Key, IsName, Members, TimingMembers, ParseSpan, StampRenders, CutTail, IsTail;
    if SentName(raw).Some? {
      var k := SentName(raw).value;
      var f := Locate(raw, Key(k)).value;
      var ms := TimingMembers(t1, t2, FrameTimes(raw, t1, t2).value);
      FieldSplits(raw, k, f);
      FieldHasNoBrace(k, f.tail);
      BraceOutside(f.before, Key(k), f.tail.blanks + f.tail.value, f.tail.after);
      assert Key(SENT) + (f.tail.value + (Members(ms) + f.tail.after))
          == (Key(SENT) + (f.tail.value + Members(ms))) + f.tail.after;
      BraceInEnds(f.before, Key(SENT) + (f.tail.value + Members(ms)), f.tail.after);
    }
  }

  lemma ReplaceHasBrace(s: Bytes, m: Bytes, x: real, cap: nat)
    requires '}' in s && IsName(m) && ReplaceValue(s, m, x, cap).Some?
    ensures '}' in ReplaceValue(s, m, x, cap).value
  {
    hide Find, Key, IsName, CutTail, IsTail, Print;
    if Locate(s, Key(m)).Some? {
      var f := Locate(s, Key(m)).value;
      var t := Print(x, 8);
      FieldSplits(s, m, f);
      FieldHasNoBrace(m, f.tail);
      BraceOutside(f.before, Key(m), f.tail.blanks + f.tail.value, f.tail.after);
      assert Key(m) + (f.tail.blanks + (t + f.tail.after)) == (Key(m) + (f.tail.blanks + t)) + f.tail.after;
      BraceInEnds(f.before, Key(m) + (f.tail.blanks + t), f.tail.after);
    }
  }

  lemma ControlHasBrace(stamped: Bytes, c: real, j: Option<Joystick>)
    requires '}' in stamped && IsWhole(WithCorrection(stamped, c), j)
    ensures '}' in WithCorrection(stamped, c) && '}' in WithJoystick(WithCorrection(stamped, c), j)
  {
    NamesAreNames();
    hide InsertBeforeBrace, Members, Print, ReplaceValue, IsName;
    InsertHasBrace(stamped, Members([Added(CORRECTED, Print(c, 6))]), MAX_BRIDGED);
    var s := WithCorrection(stamped, c);
    if j.Some? && Reformat(s, j.value, MAX_BRIDGED).Some? {
      ReplaceHasBrace(s, JOYSTICK_X, j.value.x, MAX_BRIDGED);
      var s1 := ReplaceValue(s, JOYSTICK_X, j.value.x, MAX_BRIDGED).value;
      ReplaceHasBrace(s1, JOYSTICK_Y, j.value.y, MAX_BRIDGED);
    }
  }

  // ----- The payload -----

  function Position(m: Motors, i: nat): real
    requires i < 4
  {
    if i == 0 then m.m1 else if i == 1 then m.m2 else if i == 2 then m.m3 else m.m4
  }

  function MotorName(i: nat): (name: Bytes)
    requires i < 4
  {
    if i == 0 then MOTOR_1 else if i == 1 then MOTOR_2 else if i == 2 then MOTOR_3 else MOTOR_4
  }

  lemma MotorMemberIs(m: Motors, i: nat)
    requires i < 4 && SmallMotors(m)
    ensures MotorMembers(m)[i] == Added(MotorName(i), Print(Position(m, i), 6))
    ensures Print(Position(m, i), 6) != [] && ParseSpan(Print(Position(m, i), 6)) == Rounded(Position(m, i), 6)
    ensures IsMotorName(MotorName(i))
  {
    hide Print, ParseSpan, Rounded, IsName;
    var x := Position(m, i);
    PositionRenders(x);
    PrintIsNumeric(x, 6);
    ParseShort(x, 6);
  }

  /** What was written is read, as long as no member of its name was there. */
  lemma CorrectedTimeReads(stamped: Bytes, c: real, j: Option<Joystick>, m: Option<Motors>)
    requires '}' in stamped && |stamped| <= 767 && |Print(c, 6)| <= 32
    requires IsWhole(WithCorrection(stamped, c), j) && Find(stamped, Key(CORRECTED)).None?
    ensures ExtractField(Rewrite(stamped, c, j, m), CORRECTED) == Some(Rounded(c, 6))
  {
    hide WithCorrection, WithJoystick, WithMotors, IsWhole, Key, ValueText, IsName, Print, ParseSpan, Rounded, Find;
    LateNamesDiffer();
    NamesAreNames();
    CorrectionReads(stamped, c);
    JoystickKeepsField(WithCorrection(stamped, c), j, CORRECTED);
    MotorsKeepField(WithJoystick(WithCorrection(stamped, c), j), m, CORRECTED);
    PrintIsNumeric(c, 6);
    ParseShort(c, 6);
  }

  lemma PositionReads(stamped: Bytes, c: real, j: Option<Joystick>, m: Motors, i: nat)
    requires '}' in stamped && IsWhole(WithCorrection(stamped, c), j)
    requires |WithJoystick(WithCorrection(stamped, c), j)| <= 892 && SmallMotors(m)
    requires i < 4 && Find(stamped, Key(MotorName(i))).None?
    ensures ExtractField(Rewrite(stamped, c, j, Some(m)), MotorName(i)) == Some(Rounded(Position(m, i), 6))
  {
    hide WithCorrection, WithJoystick, WithMotors, IsWhole, Key, ValueText, IsName, Print, ParseSpan, Rounded, Find,
         SmallMotors, Position, MotorName, IsMotorName, MotorMembers, IsStampName, IsSentName;
    var name := MotorName(i);
    MotorMemberIs(m, i);
    LateNamesDiffer();
    var s := WithJoystick(WithCorrection(stamped, c), j);
    ControlHasBrace(stamped, c, j);
    CorrectionKeepsField(stamped, c, name);
    JoystickKeepsField(WithCorrection(stamped, c), j, name);
    NotFoundHasNoValue(stamped, name);
    NotFoundHasNoValue(s, name);
    MotorsRead(s, m, i);
  }

  /** The joystick stage writes all it should if y renders or x does not. */
  lemma WholeUnlessCut(s: Bytes, j: Option<Joystick>)
    requires |s| <= 832 && j == ExtractJoystick(s)
    requires j.Some? && RendersIn(j.value.x, 8) ==> RendersIn(j.value.y, 8)
    ensures IsWhole(s, j) && |WithJoystick(s, j)| <= 892
  {
    hide ReplaceValue, Reformat, RendersIn, ExtractJoystick, FailedReformat;
    if j.Some? {
      JoystickFits(s, j.value);
      ExtractedValues(s);
      ReplaceGrowth(s, JOYSTICK_X, j.value.x);
    }
  }

  /** The motor positions read as written, each unless the raw frame has a member of its name. */
  ghost predicate MotorsAreRead(raw: Bytes, p: Bytes, m: Motors) {
    forall i: nat | i < 4 && Find(raw, Key(MotorName(i))).None? ::
      ExtractField(p, MotorName(i)) == Some(Rounded(Position(m, i), 6))
  }

  /** What a receiver reads from the payload `p` of a stamped frame: the sent time is T2, and every
      other member but the late ones is as the stamp left it; where the raw frame has a closing
      brace and no member of that name, the corrected time and the motor positions read as the
      numbers written, to six places. */
  ghost predicate Reads(raw: Bytes, stamped: Bytes, t2: real, c: real, m: Option<Motors>, p: Bytes) {
    && (SentName(raw).Some? ==> ExtractSentTime(p) == Some(Rounded(t2, 6)))
    && (forall name | IsName(name) && !IsLateName(name) :: ValueText(p, Key(name)) == ValueText(stamped, Key(name)))
    && ('}' in raw && Find(raw, Key(CORRECTED)).None? ==> ExtractField(p, CORRECTED) == Some(Rounded(c, 6)))
    && ('}' in raw && m.Some? ==> MotorsAreRead(raw, p, m.value))
  }

  lemma RewriteReads(raw: Bytes, t1: real, t2: real, c: real, j: Option<Joystick>, m: Option<Motors>)
    requires StampFrame(raw, t1, t2, MAX_BRIDGED).Some?
    requires |Print(c, 6)| <= 32 && (m.Some? ==> SmallMotors(m.value))
    requires var stamped := StampFrame(raw, t1, t2, MAX_BRIDGED).value;
      && |stamped| <= 767 && IsWhole(WithCorrection(stamped, c), j)
      && |WithJoystick(WithCorrection(stamped, c), j)| <= 892
    ensures var stamped := StampFrame(raw, t1, t2, MAX_BRIDGED).value;
      Reads(raw, stamped, t2, c, m, Rewrite(stamped, c, j, m))
  {
    hide StampFrame, Rewrite, WithCorrection, WithJoystick, IsWhole, SentName, ExtractSentTime, ExtractField,
         ValueText, Find, Key, IsName, IsLateName, MotorsAreRead, Rounded, SmallMotors, Print;
    var stamped := StampFrame(raw, t1, t2, MAX_BRIDGED).value;
    if SentName(raw).Some? { SentTimeReads(raw, t1, t2, c, j, m); }
    forall name | IsName(name) && !IsLateName(name)
      ensures ValueText(Rewrite(stamped, c, j, m), Key(name)) == ValueText(stamped, Key(name))
    {
      LaterStagesKeepField(stamped, c, j, m, name);
    }
    if '}' in raw {
      StampHasBrace(raw, t1, t2, MAX_BRIDGED);
      if Find(raw, Key(CORRECTED)).None? {
        LateNameIsNotStamped(raw, t1, t2, CORRECTED);
        CorrectedTimeReads(stamped, c, j, m);
      }
      if m.Some? { MotorsOfPayload(raw, t1, t2, c, j, m.value); }
    }
  }

  /** After any run, for any raw frame of which a y that renders or an x that does not is extracted,
      or nothing: everything the chain of edits writes is read back from the payload. */
  lemma PayloadReads<S>(rig: Rig<S>, npu: bool, es: seq<Event>, raw: Bytes, t1: real, t2: real)
    requires 0.0 < rig.alpha <= 1.0 && |raw| <= MAX_RAW
    requires var j := ExtractJoystick(raw);
      j.Some? && RendersIn(j.value.x, 8) ==> RendersIn(j.value.y, 8)
    ensures var b := After(rig, npu, es).bridge;
      var out := Forward(rig, b, raw, t1, t2).1;
      var stamped := StampFrame(raw, t1, t2, MAX_BRIDGED);
      var m := Infer(rig, b.motor, ExtractJoystick(raw)).1;
      && (out.Some? <==> stamped.Some?)
      && (out.Some? ==> Reads(raw, stamped.value, t2, CorrectedOf(b.window, raw, t1, t2), m, out.value))
  {
    hide Run, Forward, StampFrame, Infer, ExtractJoystick, Rewrite, CorrectedOf, WithCorrection, WithJoystick,
         IsWhole, RendersIn, Reads, SmallMotors, HasHeadroom, Print;
    AlwaysHasHeadroom(rig, npu, es);
    var b := After(rig, npu, es).bridge;
    ForwardIsRewrite(rig, b, raw, t1, t2);
    if StampFrame(raw, t1, t2, MAX_BRIDGED).Some? {
      StagesFitWhole(rig, b, raw, t1, t2);
      var j := ExtractJoystick(raw);
      RewriteReads(raw, t1, t2, CorrectedOf(b.window, raw, t1, t2), j, Infer(rig, b.motor, j).1);
    }
  }

  lemma MotorsOfPayload(raw: Bytes, t1: real, t2: real, c: real, j: Option<Joystick>, m: Motors)
    requires StampFrame(raw, t1, t2, MAX_BRIDGED).Some? && SmallMotors(m)
    requires var stamped := StampFrame(raw, t1, t2, MAX_BRIDGED).value;
      && '}' in stamped && IsWhole(WithCorrection(stamped, c), j)
      && |WithJoystick(WithCorrection(stamped, c), j)| <= 892
    ensures MotorsAreRead(raw, Rewrite(StampFrame(raw, t1, t2, MAX_BRIDGED).value, c, j, Some(m)), m)
  {
    hide StampFrame, Rewrite, WithCorrection, WithJoystick, IsWhole, ExtractField, Find, Key, Rounded, SmallMotors,
         Print, ParseSpan, MotorName, Position, MotorMembers, IsMotorName;
    var stamped := StampFrame(raw, t1, t2, MAX_BRIDGED).value;
    forall i: nat | i < 4 && Find(raw, Key(MotorName(i))).None?
      ensures ExtractField(Rewrite(stamped, c, j, Some(m)), MotorName(i)) == Some(Rounded(Position(m, i), 6))
    {
      MotorMemberIs(m, i);
      LateNameIsNotStamped(raw, t1, t2, MotorName(i));
      PositionReads(stamped, c, j, m, i);
    }
  }

  function CorrectedOf(window: seq<Sample>, raw: Bytes, t1: real, t2: real): real {
    CorrectedBy(window, Sample(t1, TransferOf(FrameTimes(raw, t1, t2))))
  }

  lemma ForwardIsRewrite<S>(rig: Rig<S>, b: Bridge<S>, raw: Bytes, t1: real, t2: real)
    requires b.motor.Valid()
    ensures var j := ExtractJoystick(raw);
      var stamped := StampFrame(raw, t1, t2, MAX_BRIDGED);
      Forward(rig, b, raw, t1, t2).1 ==
      if stamped.None? then None
      else Some(Rewrite(stamped.value, CorrectedOf(b.window, raw, t1, t2), j, Infer(rig, b.motor, j).1))
  {
    hide StampFrame, Infer, ExtractJoystick, Rewrite, CorrectedBy, FrameTimes, Feed;
  }

  lemma StagesFitWhole<S>(rig: Rig<S>, b: Bridge<S>, raw: Bytes, t1: real, t2: real)
    requires 0.0 < rig.alpha <= 1.0 && HasHeadroom(b) && |raw| <= MAX_RAW
    requires StampFrame(raw, t1, t2, MAX_BRIDGED).Some?
    requires var j := ExtractJoystick(raw);
      j.Some? && RendersIn(j.value.x, 8) ==> RendersIn(j.value.y, 8)
    ensures var stamped := StampFrame(raw, t1, t2, MAX_BRIDGED).value;
      var c := CorrectedOf(b.window, raw, t1, t2);
      var j := ExtractJoystick(raw);
      var m := Infer(rig, b.motor, j).1;
      && |stamped| <= 767 && |Print(c, 6)| <= 32 && (m.Some? ==> SmallMotors(m.value))
      && IsWhole(WithCorrection(stamped, c), j)
      && |WithJoystick(WithCorrection(stamped, c), j)| <= 892
  {
    hide StampFrame, Infer, ExtractJoystick, CorrectedBy, FrameTimes, WithCorrection, WithJoystick, IsWhole,
         RendersIn, SmallMotors, Print, LastBrace;
    var stamped := StampFrame(raw, t1, t2, MAX_BRIDGED).value;
    var c := CorrectedOf(b.window, raw, t1, t2);
    StagesAreSmall(rig, b, raw, t1, t2);
    ExtractionSurvivesStamp(raw, t1, t2, MAX_BRIDGED);
    CorrectionKeepsJoystick(stamped, c);
    CorrectionFits(stamped, c);
    WholeUnlessCut(WithCorrection(stamped, c), ExtractJoystick(raw));
  }

  lemma SentTimeReads(raw: Bytes, t1: real, t2: real, c: real, j: Option<Joystick>, m: Option<Motors>)
    requires SentName(raw).Some? && StampFrame(raw, t1, t2, MAX_BRIDGED).Some?
    requires IsWhole(WithCorrection(StampFrame(raw, t1, t2, MAX_BRIDGED).value, c), j)
    ensures ExtractSentTime(Rewrite(StampFrame(raw, t1, t2, MAX_BRIDGED).value, c, j, m)) == Some(Rounded(t2, 6))
  {
    LateNamesDiffer();
    NamesAreNames();
    hide StampFrame, FrameTimes, Rewrite, IsWhole, WithCorrection, Find, Key, IsName, ValueText, Rounded, ParseSpan,
         IsLateName, IsStampName, IsMotorName, Locate;
    var stamped := StampFrame(raw, t1, t2, MAX_BRIDGED).value;
    var p := Rewrite(stamped, c, j, m);
    StampRoundTrip(raw, t1, t2, MAX_BRIDGED);
    LaterStagesKeepField(stamped, c, j, m, NTP_TIME);
    NotFoundHasNoValue(stamped, NTP_TIME);
    NotFoundHasNoValue(p, NTP_TIME);
  }

  lemma LateNameIsNotStamped(raw: Bytes, t1: real, t2: real, name: Bytes)
    requires StampFrame(raw, t1, t2, MAX_BRIDGED).Some?
    requires (name == CORRECTED || IsMotorName(name)) && Find(raw, Key(name)).None?
    ensures Find(StampFrame(raw, t1, t2, MAX_BRIDGED).value, Key(name)).None?
  {
    LateNamesDiffer();
    NamesAreNames();
    hide StampFrame, Find, Key, IsName, ValueText, IsStampName, IsMotorName;
    StampKeepsField(raw, t1, t2, MAX_BRIDGED, name);
    NotFoundHasNoValue(raw, name);
    NotFoundHasNoValue(StampFrame(raw, t1, t2, MAX_BRIDGED).value, name);
  }
}
