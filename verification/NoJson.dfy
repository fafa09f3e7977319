/**
  Frames for which what is broadcast is no JSON: whatever the later stages do, the comma behind an
  empty sent-time key stays, and so does the one behind the brace of an empty object.
 */
module NoJson {
  import opened Options
  import opened Search
  import opened Decimal
  import opened FrameText
  import opened FrameLaws
  import opened ClockOffset
  import opened MotorInference
  import opened Forwarding
  import opened Process
  import opened Broadcast
  import opened Headroom
  import opened Json
  import opened TreeEdits
  import opened StructuralEdit
  import opened SentTime

  // ----- Joining and cutting -----

  lemma CommaInFront(a: Bytes, b: Bytes, name: Bytes, i: nat)
    requires CommaAt(a, name, i)
    ensures CommaAt(a + b, name, i)
  {
    hide Key;
    assert (a + b)[i..] == a[i..] + b;
  }

  lemma CommaBehind(a: Bytes, b: Bytes, name: Bytes, i: nat)
    requires CommaAt(b, name, i)
    ensures CommaAt(a + b, name, |a| + i)
  {
    hide Key;
    assert (a + b)[|a| + i..] == b[i..];
  }

  lemma CommaInPrefix(s: Bytes, n: nat, name: Bytes, i: nat)
    requires n <= |s| && CommaAt(s, name, i) && i + |Key(name)| < n
    ensures CommaAt(s[..n], name, i)
  {
    hide Key;
    assert s[..n][i..][..|Key(name)|] == s[i..][..|Key(name)|];
  }

  lemma CommaInSuffix(s: Bytes, q: nat, name: Bytes, i: nat)
    requires q <= |s| && CommaAt(s, name, i) && q <= i
    ensures CommaAt(s[q..], name, i - q)
  {
    hide Key;
    assert s[q..][i - q..] == s[i..];
  }

  // ----- An insertion at a brace -----

  /** A brace is no part of a key and its comma. */
  lemma BraceBesideComma(s: Bytes, name: Bytes, i: nat, q: nat)
    requires IsName(name) && CommaAt(s, name, i) && q < |s| && s[q] == '}'
    ensures i + |Key(name)| < q || q < i
  {
    KeyChars(name);
    OccurrenceChars(s, name, i);
    assert forall j | i < j <= i + |name| :: IsNameChar(s[j]);
  }

  lemma InsertKeepsComma(s: Bytes, text: Bytes, cap: nat, i: nat) returns (k: nat)
    requires InsertBeforeBrace(s, text, cap).Some? && CommaAt(s, SENT, i)
    ensures var r := InsertBeforeBrace(s, text, cap).value;
      CommaAt(r, SENT, k) && |r| - k >= |s| - i
  {
    NamesAreNames();
    hide IsName, Key, LastBrace, CommaAt;
    var q := LastBrace(s).value;
    BraceBesideComma(s, SENT, i, q);
    if i + |Key(SENT)| < q {
      CommaInPrefix(s, q, SENT, i);
      CommaInFront(s[..q], text + s[q..], SENT, i);
      k := i;
    } else {
      CommaInSuffix(s, q, SENT, i);
      CommaBehind(text, s[q..], SENT, i - q);
      CommaBehind(s[..q], text + s[q..], SENT, |text| + (i - q));
      k := q + (|text| + (i - q));
    }
  }

  // ----- A replacement -----

  lemma OtherNameAt(a: Bytes, m: Bytes, r: Bytes, name: Bytes)
    requires '\"' !in m && IsName(name) && m != name
    ensures !OccursAt(a + (Key(m) + r), Key(name), |a|)
  {
    OtherNameDiffers(m, r, name);
    hide Key;
    var t := Key(m) + r;
    assert (a + t)[|a|..] == t && t[0..] == t;
  }

  /** A key with its comma stands on one side of another key and its value. */
  lemma CommaBesideField(a: Bytes, m: Bytes, w: Bytes, r: Bytes, name: Bytes, i: nat)
    requires IsName(m) && IsName(name) && m != name && '\"' !in w
    requires CommaAt(a + (Key(m) + (w + r)), name, i)
    ensures i + |Key(name)| < |a| || i >= |a| + |Key(m)| + |w|
  {
    var s := a + (Key(m) + (w + r));
    KeyChars(m);
    KeyChars(name);
    OccurrenceChars(s, name, i);
    assert forall j | 0 <= j < |m| :: s[|a| + 1 + j] == m[j] && IsNameChar(s[|a| + 1 + j]);
    assert s[|a|] == '\"' && s[|a| + |m| + 1] == '\"' && s[|a| + |m| + 2] == ':';
    assert forall j | 0 <= j < |w| :: s[|a| + |Key(m)| + j] == w[j];
    assert forall j | i < j <= i + |name| :: IsNameChar(s[j]);
    NameIsQuoteFree(m);
    OtherNameAt(a, m, w + r, name);
    hide Key, OccursAt;
    assert i != |a|;
    assert s[i + 1] != ':' && s[|a| + 1] != ':';
  }

  /** A replacement keeps the comma, and what is before it or what is behind it. */
  lemma ReplaceKeepsComma(s: Bytes, m: Bytes, x: real, cap: nat, i: nat) returns (k: nat)
    requires ReplaceValue(s, m, x, cap).Some? && CommaAt(s, SENT, i) && IsName(m) && m != SENT
    ensures var r := ReplaceValue(s, m, x, cap).value;
      && CommaAt(r, SENT, k) && (k == i || |r| - k == |s| - i)
      && |r| <= |s| + VALUE_CAP
  {
    NamesAreNames();
    hide IsName, Key, CommaAt, Find, CutTail, Print;
    k := i;
    if Locate(s, Key(m)).Some? {
      var f := Locate(s, Key(m)).value;
      var t := Print(x, 8);
      FieldSplits(s, m, f);
      var (a, w, w', r) := (f.before, f.tail.blanks + f.tail.value, f.tail.blanks + t, f.tail.after);
      QuoteFreeJoin(f.tail.blanks, f.tail.value);
      CommaBesideField(a, m, w, r, SENT, i);
      assert ReplaceText(f, m, t) == a + (Key(m) + (w' + r));
      k := CommaBeside(a, Key(m) + w, Key(m) + w', r, i, s, ReplaceText(f, m, t));
    }
  }

  lemma QuoteFreeJoin(a: Bytes, b: Bytes)
    requires '\"' !in a && '\"' !in b
    ensures '\"' !in a + b
  {
  }

  /** A comma on one side of some text is there whatever that text is. */
  lemma CommaBeside(a: Bytes, w: Bytes, w': Bytes, r: Bytes, i: nat, s: Bytes, s': Bytes) returns (k: nat)
    requires CommaAt(s, SENT, i) && s == a + (w + r) && s' == a + (w' + r)
    requires i + |Key(SENT)| < |a| || i >= |a| + |w|
    ensures CommaAt(s', SENT, k) && (k == i || |s'| - k == |s| - i)
  {
    hide CommaAt, Key;
    if i + |Key(SENT)| < |a| {
      CommaInPrefix(s, |a|, SENT, i);
      assert s[..|a|] == a;
      CommaInFront(a, w' + r, SENT, i);
      k := i;
    } else {
      var q := |a| + |w|;
      CommaInSuffix(s, q, SENT, i);
      assert s[q..] == r;
      CommaBehind(w', r, SENT, i - q);
      CommaBehind(a, w' + r, SENT, |w'| + (i - q));
      k := |a| + (|w'| + (i - q));
    }
  }

  // ----- The stages -----

  lemma AppendKeepsComma(s: Bytes, c: real, i: nat) returns (k: nat)
    requires CommaAt(s, SENT, i) && i + |Key(SENT)| + ROOM <= |s|
    ensures CommaAt(WithCorrection(s, c), SENT, k) && k + |Key(SENT)| + ROOM <= |WithCorrection(s, c)|
  {
    hide InsertBeforeBrace, Members, Key, Print, CommaAt;
    k := i;
    if AppendField(s, CORRECTED, c, MAX_BRIDGED).Some? {
      k := InsertKeepsComma(s, Members([Added(CORRECTED, Print(c, 6))]), MAX_BRIDGED, i);
    }
  }

  /** Not even a frame cut off by a failing reformat loses its comma: enough text follows it. */
  lemma JoystickKeepsComma(s: Bytes, j: Option<Joystick>, i: nat) returns (k: nat)
    requires CommaAt(s, SENT, i) && i + |Key(SENT)| + ROOM <= |s|
    ensures CommaAt(WithJoystick(s, j), SENT, k)
  {
    NamesAreNames();
    JoystickNamesAreUntouched(JOYSTICK_X);
    JoystickNamesAreUntouched(JOYSTICK_Y);
    hide ReplaceValue, Key, CommaAt, IsName, Overlay;
    k := i;
    if j.Some? && ReplaceValue(s, JOYSTICK_X, j.value.x, MAX_BRIDGED).Some? {
      var s1 := ReplaceValue(s, JOYSTICK_X, j.value.x, MAX_BRIDGED).value;
      k := ReplaceKeepsComma(s, JOYSTICK_X, j.value.x, MAX_BRIDGED, i);
      if ReplaceValue(s1, JOYSTICK_Y, j.value.y, MAX_BRIDGED).Some? {
        k := ReplaceKeepsComma(s1, JOYSTICK_Y, j.value.y, MAX_BRIDGED, k);
      } else {
        OverlayKeepsComma(s, s1, i, k);
      }
    }
  }

  lemma OverlayKeepsComma(s: Bytes, s': Bytes, i: nat, k: nat)
    requires CommaAt(s, SENT, i) && i + |Key(SENT)| + ROOM <= |s|
    requires CommaAt(s', SENT, k) && (k == i || |s'| - k == |s| - i) && |s'| <= |s| + VALUE_CAP
    ensures CommaAt(Overlay(s, s'), SENT, k)
  {
    hide Key, OccursAt;
    if |s'| >= |s| {
      CommaInPrefix(s', |s|, SENT, k);
    } else {
      CommaInFront(s', s[|s'|..], SENT, k);
    }
  }

  lemma MotorsKeepComma(s: Bytes, m: Option<Motors>, i: nat) returns (k: nat)
    requires CommaAt(s, SENT, i)
    ensures CommaAt(WithMotors(s, m), SENT, k)
  {
    hide InsertBeforeBrace, Members, MotorMembers, Key, CommaAt;
    k := i;
    if m.Some? && AppendMotors(s, m.value, MAX_BRIDGED).Some? {
      k := InsertKeepsComma(s, Members(MotorMembers(m.value)), MAX_BRIDGED, i);
    }
  }

  // ----- What is broadcast -----

  /** For a frame whose sent time cannot be read, the payload has the renamed key with a comma
      right behind it; no frame has such a text. */
  lemma UnreadableIsForwarded<S>(rig: Rig<S>, b: Bridge<S>, f: Frame, t1: real, t2: real)
    requires b.motor.Valid() && IsFrame(f) && !SentReadable(f)
    ensures var out := Forward(rig, b, Render(f), t1, t2).1;
      out.Some? ==>
        && (exists k :: CommaAt(out.value, SENT, k))
        && forall g | IsFrame(g) :: Render(g) != out.value
  {
    hide Render, IsFrame, SentReadable, StampFrame, FrameTimes, CorrectedBy, Infer, Feed, ExtractJoystick,
         WithCorrection, WithJoystick, WithMotors, CommaAt, IsName, Key;
    if StampFrame(Render(f), t1, t2, MAX_BRIDGED).Some? {
      var stamped := StampFrame(Render(f), t1, t2, MAX_BRIDGED).value;
      var c := CorrectedBy(b.window, Sample(t1, TransferOf(FrameTimes(Render(f), t1, t2))));
      var j := ExtractJoystick(Render(f));
      var m := Infer(rig, b.motor, j).1;
      var i := StampLeavesNoValue(f, t1, t2, MAX_BRIDGED);
      i := AppendKeepsComma(stamped, c, i);
      i := JoystickKeepsComma(WithCorrection(stamped, c), j, i);
      i := MotorsKeepComma(WithJoystick(WithCorrection(stamped, c), j), m, i);
      var p := Forward(rig, b, Render(f), t1, t2).1.value;
      assert p == Rewrite(stamped, c, j, m) && CommaAt(p, SENT, i);
      NamesAreNames();
      forall g | IsFrame(g) ensures Render(g) != p { NoCommaAfterKey(g, SENT, i); }
    }
  }

  /** For an empty object, the payload is the object with a comma right behind its brace. */
  lemma EmptyObjectIsForwarded<S>(rig: Rig<S>, b: Bridge<S>, f: Frame, t1: real, t2: real)
    requires 0.0 < rig.alpha <= 1.0 && HasHeadroom(b)
    requires IsFrame(f) && f.entries.NoEntries? && |Render(f)| <= MAX_RAW
    ensures var out := Forward(rig, b, Render(f), t1, t2).1;
      out.Some? && forall g | IsFrame(g) :: Render(g) != out.value
  {
    EmptyObjectHasNothing(f, t1, t2);
    hide Render, StampFrame, FrameTimes, CorrectedBy, Infer, Feed, ExtractJoystick, WithCorrection, IsFrame,
         TimesIn, JoystickIn, SentMember, SentReadable, Print, Members, LastBrace, InsertBeforeBrace;
    StampPassesIff(f, t1, t2);
    TextHasJoystick(f);
    var raw := Render(f);
    StagesAreSmall(rig, b, raw, t1, t2);
    var c := CorrectedBy(b.window, Sample(t1, TransferOf(FrameTimes(raw, t1, t2))));
    EmptyObjectIsAppendedTo(f, c);
  }

  lemma EmptyObjectHasNothing(f: Frame, t1: real, t2: real)
    requires f.entries.NoEntries?
    ensures SentReadable(f) && Stamped(f, t1, t2) == f && !IsDropped(f, t1, t2) && JoystickIn(f) == None
  {
    EmptyObjectHasNo(f, NTP_TIME);
    EmptyObjectHasNo(f, TIMESTAMP);
    EmptyObjectHasNo(f, JOYSTICK_X);
    hide Lookup, Top;
    assert SentMember(f) == None;
    hide SentMember, ParseSpan, StampRenders;
  }

  lemma EmptyObjectHasNo(f: Frame, name: Bytes)
    requires f.entries.NoEntries?
    ensures Lookup(Top(f), name) == None
  {
  }

  lemma EmptyObjectIsAppendedTo(f: Frame, c: real)
    requires IsFrame(f) && f.entries.NoEntries? && |Render(f)| <= 767 && |Print(c, 6)| <= 32
    ensures forall g | IsFrame(g) :: Render(g) != WithCorrection(Render(f), c)
  {
    assert White(f.lead) && White(f.pad);
    hide Render, Print, Members, LastBrace, InsertBeforeBrace, WellFormed;
    var ms := [Added(CORRECTED, Print(c, 6))];
    CorrectionFits(Render(f), c);
    FrameEnds(f);
    BraceIsFound(Render(f));
    EmptyObjectText(f, ms, MAX_BRIDGED);
    CommaFirst(ms);
    forall g | IsFrame(g) ensures Render(g) != WithCorrection(Render(f), c) {
      NoCommaAfterBrace(g, f.lead, f.pad, Members(ms)[1..] + ("}" + f.trail));
    }
  }

  /** After any run, what is forwarded for a frame that the joystick stage does not cut is JSON if
      and only if its top-level object has a member and its sent time, if any, is a number. */
  lemma PayloadIsJsonIff<S>(rig: Rig<S>, npu: bool, es: seq<Event>, f: Frame, t1: real, t2: real)
    requires 0.0 < rig.alpha <= 1.0
    requires IsFrame(f) && |Render(f)| <= MAX_RAW && (f.entries.Entry? && SentReadable(f) ==> CutsNothing(f))
    ensures var out := Forward(rig, After(rig, npu, es).bridge, Render(f), t1, t2).1;
      out.Some? ==> ((exists g :: IsFrame(g) && Render(g) == out.value) <==> f.entries.Entry? && SentReadable(f))
  {
    hide Render, IsFrame, SentReadable, CutsNothing, Forward, Run, Bridged, IsDropped;
    AlwaysHasHeadroom(rig, npu, es);
    var b := After(rig, npu, es).bridge;
    var out := Forward(rig, b, Render(f), t1, t2).1;
    if f.entries.NoEntries? {
      EmptyObjectIsForwarded(rig, b, f, t1, t2);
    } else if !SentReadable(f) {
      UnreadableIsForwarded(rig, b, f, t1, t2);
    } else {
      ForwardEditsTree(rig, b, f, t1, t2);
      var g := Bridged(rig, b, f, t1, t2);
      assert out.Some? ==> IsFrame(g) && Render(g) == out.value;
    }
  }
}
