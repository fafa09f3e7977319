/**
  What the frame rewriter promises: its edits do not disturb one another, and what it writes
  can be read back.
 */
module FrameLaws {
  import opened Options
  import opened Search
  import opened Decimal
  import opened FrameText

  // ----- No edit disturbs another field -----

  /** A lookup around a written member sees only what is before it and after its value. */
  lemma ValueAround(a: Bytes, m: Bytes, w: Bytes, r: Bytes, name: Bytes)
    requires IsName(m) && IsName(name) && m != name && '\"' !in w
    ensures ValueText(a + (Key(m) + (w + r)), Key(name)) ==
            if Find(a, Key(name)).Some? then ValueText(a, Key(name)) else ValueText(r, Key(name))
  {
    hide Find, ValueText;
    FindBeforeKey(a, m, w + r, name);
    ValueAcross(a, Key(m) + (w + r), Key(name));
    ValueSkipsMember(m, w, r, name);
  }

  ghost predicate QuoteFree(ms: seq<Added>) {
    forall i | 0 <= i < |ms| :: '\"' !in ms[i].name && '\"' !in ms[i].text
  }

  ghost predicate Names(ms: seq<Added>, name: Bytes) {
    exists i | 0 <= i < |ms| :: ms[i].name == name
  }

  /** A lookup runs through written members with other names. */
  lemma {:induction false} ValueSkipsMembers(ms: seq<Added>, r: Bytes, name: Bytes)
    requires IsName(name) && QuoteFree(ms) && !Names(ms, name)
    ensures Find(Members(ms) + r, Key(name)) == Shift(|Members(ms)|, Find(r, Key(name)))
    ensures ValueText(Members(ms) + r, Key(name)) == ValueText(r, Key(name))
  {
    hide Find, ValueText, Key, IsName, QuoteFree, Names;
    if ms == [] {
      assert Members(ms) + r == r;
    } else {
      var m := ms[0];
      var rest := Members(ms[1..]) + r;
      DropMember(ms, name);
      ValueSkipsMembers(ms[1..], r, name);
      ValueSkipsMember(m.name, m.text, rest, name);
      ValueSkipsQuoteFree(",", Key(m.name) + (m.text + rest), name);
      MembersCons(ms, r);
    }
  }

  lemma DropMember(ms: seq<Added>, name: Bytes)
    requires ms != [] && QuoteFree(ms) && !Names(ms, name)
    ensures QuoteFree(ms[1..]) && !Names(ms[1..], name)
    ensures '\"' !in ms[0].name && '\"' !in ms[0].text && ms[0].name != name
  {
  }

  lemma MembersCons(ms: seq<Added>, r: Bytes)
    requires ms != []
    ensures Members(ms) + r == "," + (Key(ms[0].name) + (ms[0].text + (Members(ms[1..]) + r)))
    ensures |Members(ms)| == 1 + |Key(ms[0].name)| + |ms[0].text| + |Members(ms[1..])|
  {
    var (k, t, rest) := (Key(ms[0].name), ms[0].text, Members(ms[1..]));
    assert Members(ms) == "," + (k + (t + rest));
    hide Key, Members;
    Assoc(t, rest, r);
    Assoc(k, t + rest, r);
    Assoc(",", k + (t + rest), r);
  }

  /** A located field splits the text into what is before its key and after its value. */
  lemma FieldSplits(s: Bytes, name: Bytes, f: Field)
    requires Locate(s, Key(name)) == Some(f)
    ensures s == f.before + (Key(name) + ((f.tail.blanks + f.tail.value) + f.tail.after))
    ensures '\"' !in f.tail.blanks && '\"' !in f.tail.value
    ensures IsTail(f.tail) && Find(s, Key(name)) == Some(|f.before|)
  {
    hide Find, Locate;
    LocateCuts(s, Key(name));
    assert TailText(f.tail) == (f.tail.blanks + f.tail.value) + f.tail.after;
  }

  lemma PrintedMembersAreQuoteFree(t1: real, t2: real, times: Times)
    ensures QuoteFree(TimingMembers(t1, t2, times))
  {
    hide Print;
    NamesAreNames();
    PrintIsNumeric(t1, 6);
    PrintIsNumeric(t2, 6);
    PrintIsNumeric(times.processing, 6);
    PrintIsNumeric(times.transfer, 6);
  }

  lemma TimingNames(t1: real, t2: real, times: Times, name: Bytes)
    requires !IsStampName(name)
    ensures !Names(TimingMembers(t1, t2, times), name)
  {
    hide Print;
  }

  lemma NameIsQuoteFree(name: Bytes)
    requires IsName(name)
    ensures '\"' !in name
  {
  }

  /** A stamp changes no field but the sent time and the ones it writes. */
  lemma StampKeepsField(raw: Bytes, t1: real, t2: real, cap: nat, name: Bytes)
    requires StampFrame(raw, t1, t2, cap).Some?
    requires IsName(name) && !IsStampName(name) && SentName(raw) != Some(name)
    ensures ValueText(StampFrame(raw, t1, t2, cap).value, Key(name)) == ValueText(raw, Key(name))
  {
    hide Find, CutTail, ValueText, Print, ParseSpan, IsName, Key, Members, TailText, IsTail, TimingMembers;
    if SentName(raw).Some? {
      var k := SentName(raw).value;
      NamesAreNames();
      var f := Locate(raw, Key(k)).value;
      FieldSplits(raw, k, f);
      ValueAround(f.before, k, f.tail.blanks + f.tail.value, f.tail.after, name);
      var times := FrameTimes(raw, t1, t2).value;
      var ms := TimingMembers(t1, t2, times);
      PrintedMembersAreQuoteFree(t1, t2, times);
      TimingNames(t1, t2, times, name);
      ValueAround(f.before, SENT, f.tail.value, Members(ms) + f.tail.after, name);
      ValueSkipsMembers(ms, f.tail.after, name);
    }
  }

  /** Splicing members before the last brace changes no other field. */
  lemma InsertKeepsField(s: Bytes, ms: seq<Added>, cap: nat, name: Bytes)
    requires InsertBeforeBrace(s, Members(ms), cap).Some?
    requires IsName(name) && QuoteFree(ms) && !Names(ms, name)
    ensures ValueText(InsertBeforeBrace(s, Members(ms), cap).value, Key(name)) == ValueText(s, Key(name))
  {
    hide Find, ValueText;
    var p := LastBrace(s).value;
    var a := s[..p];
    var b := s[p..];
    assert s == a + b;
    FindBeforeForeign(a, b, name);
    ValueAcross(a, b, Key(name));
    var t := Members(ms) + b;
    assert ms == [] ==> t == b;
    assert ms != [] ==> t[0] == ',';
    FindBeforeForeign(a, t, name);
    ValueAcross(a, t, Key(name));
    ValueSkipsMembers(ms, b, name);
  }

  /** Replacing the value of one field changes no other. */
  lemma ReplaceKeepsField(s: Bytes, m: Bytes, x: real, cap: nat, name: Bytes)
    requires ReplaceValue(s, m, x, cap).Some?
    requires IsName(m) && IsName(name) && m != name
    ensures ValueText(ReplaceValue(s, m, x, cap).value, Key(name)) == ValueText(s, Key(name))
  {
    hide Find, CutTail, ValueText, Print, IsName, Key;
    if Locate(s, Key(m)).Some? {
      var f := Locate(s, Key(m)).value;
      var t := Print(x, 8);
      FieldSplits(s, m, f);
      PrintIsNumeric(x, 8);
      ValueAround(f.before, m, f.tail.blanks + f.tail.value, f.tail.after, name);
      ValueAround(f.before, m, f.tail.blanks + t, f.tail.after, name);
      assert f.tail.blanks + (t + f.tail.after) == (f.tail.blanks + t) + f.tail.after;
    }
  }

  /** Replacing a value leaves the field where it was, with the printed number as its value. */
  lemma ReplaceSetsField(s: Bytes, m: Bytes, x: real, cap: nat)
    requires ReplaceValue(s, m, x, cap).Some?
    requires IsName(m) && Locate(s, Key(m)).Some?
    ensures var f := Locate(s, Key(m)).value;
      Locate(ReplaceValue(s, m, x, cap).value, Key(m)) == Some(f.(tail := f.tail.(value := Print(x, 8))))
  {
    hide Find, CutTail, Print, IsName, Key;
    var f := Locate(s, Key(m)).value;
    FieldSplits(s, m, f);
    PrintIsNumeric(x, 8);
    NotBefore(s, m, f);
    LocateWritten(f.before, m, f.tail.(value := Print(x, 8)));
  }

  lemma NotBefore(s: Bytes, m: Bytes, f: Field)
    requires IsName(m) && Locate(s, Key(m)) == Some(f)
    ensures Find(f.before, Key(m)).None?
  {
    hide Find, CutTail;
    FieldSplits(s, m, f);
    if Find(f.before, Key(m)).Some? {
      FindHit(f.before, Key(m) + ((f.tail.blanks + f.tail.value) + f.tail.after), Key(m));
    }
  }

  lemma NotFoundHasNoValue(s: Bytes, name: Bytes)
    ensures Find(s, Key(name)).None? <==> ValueText(s, Key(name)).None?
  {
    hide Find, CutTail, Key;
  }

  // ----- The joystick values are read before and after every edit alike -----

  lemma SameValuesSameJoystick(s: Bytes, t: Bytes)
    requires ValueText(s, Key(JOYSTICK_X)) == ValueText(t, Key(JOYSTICK_X))
    requires ValueText(s, Key(JOYSTICK_Y)) == ValueText(t, Key(JOYSTICK_Y))
    ensures ExtractJoystick(s) == ExtractJoystick(t)
  {
  }

  /** Extraction gives the same result, failure included, on a raw frame and on its stamp. */
  lemma ExtractionSurvivesStamp(raw: Bytes, t1: real, t2: real, cap: nat)
    requires StampFrame(raw, t1, t2, cap).Some?
    ensures ExtractJoystick(StampFrame(raw, t1, t2, cap).value) == ExtractJoystick(raw)
  {
    hide StampFrame, ValueText, ExtractJoystick, SentName;
    NamesAreNames();
    JoystickNamesAreUntouched(JOYSTICK_X);
    JoystickNamesAreUntouched(JOYSTICK_Y);
    StampKeepsField(raw, t1, t2, cap, JOYSTICK_X);
    StampKeepsField(raw, t1, t2, cap, JOYSTICK_Y);
    SameValuesSameJoystick(StampFrame(raw, t1, t2, cap).value, raw);
  }

  /** And before and after every successful append under another key. */
  lemma ExtractionSurvivesAppend(s: Bytes, name: Bytes, x: real, cap: nat)
    requires AppendField(s, name, x, cap).Some? && '\"' !in name
    requires name != JOYSTICK_X && name != JOYSTICK_Y
    ensures ExtractJoystick(AppendField(s, name, x, cap).value) == ExtractJoystick(s)
  {
    hide ValueText, ExtractJoystick, InsertBeforeBrace, Members, Print;
    NamesAreNames();
    PrintIsNumeric(x, 6);
    var ms := [Added(name, Print(x, 6))];
    InsertKeepsField(s, ms, cap, JOYSTICK_X);
    InsertKeepsField(s, ms, cap, JOYSTICK_Y);
    SameValuesSameJoystick(AppendField(s, name, x, cap).value, s);
  }

  lemma MotorMembersAreQuoteFree(m: Motors)
    ensures QuoteFree(MotorMembers(m))
  {
    hide Print;
    NamesAreNames();
    PrintIsNumeric(m.m1, 6);
    PrintIsNumeric(m.m2, 6);
    PrintIsNumeric(m.m3, 6);
    PrintIsNumeric(m.m4, 6);
  }

  lemma ExtractionSurvivesMotors(s: Bytes, m: Motors, cap: nat)
    requires AppendMotors(s, m, cap).Some?
    ensures ExtractJoystick(AppendMotors(s, m, cap).value) == ExtractJoystick(s)
  {
    hide ValueText, ExtractJoystick, InsertBeforeBrace, Members, Print;
    NamesAreNames();
    JoystickNamesAreUntouched(JOYSTICK_X);
    JoystickNamesAreUntouched(JOYSTICK_Y);
    MotorMembersAreQuoteFree(m);
    InsertKeepsField(s, MotorMembers(m), cap, JOYSTICK_X);
    InsertKeepsField(s, MotorMembers(m), cap, JOYSTICK_Y);
    SameValuesSameJoystick(AppendMotors(s, m, cap).value, s);
  }

  // ----- Reformatting -----

  /** A short rendering parses back to the rounded number. */
  lemma ParseRendered(x: real, k: nat)
    requires k >= 1 && RendersIn(x, k)
    ensures ParseSpan(Print(x, k)) == Rounded(x, k)
  {
    hide Print, Strtod, Rounded;
    ParsePrinted(x, k);
  }

  /** Both values are read back rounded to eight places, whichever key comes first. */
  lemma ReformatRoundTrip(s: Bytes, j: Joystick, cap: nat)
    requires Reformat(s, j, cap).Some?
    requires ExtractJoystick(s).Some?
    ensures ExtractJoystick(Reformat(s, j, cap).value) == Some(Joystick(Rounded(j.x, 8), Rounded(j.y, 8)))
  {
    hide Find, CutTail, Print, IsName, Key, ParseSpan, Rounded;
    NamesAreNames();
    JoystickNamesAreUntouched(JOYSTICK_X);
    var s' := ReplaceValue(s, JOYSTICK_X, j.x, cap).value;
    ReplaceSetsField(s, JOYSTICK_X, j.x, cap);
    ReplaceKeepsField(s, JOYSTICK_X, j.x, cap, JOYSTICK_Y);
    ReplaceSetsField(s', JOYSTICK_Y, j.y, cap);
    ReplaceKeepsField(s', JOYSTICK_Y, j.y, cap, JOYSTICK_X);
    PrintIsNumeric(j.x, 8);
    PrintIsNumeric(j.y, 8);
    ParseRendered(j.x, 8);
    ParseRendered(j.y, 8);
  }

  /** Writing the text that is already there changes nothing. */
  lemma ReplaceSame(s: Bytes, m: Bytes, x: real, cap: nat)
    requires ValueText(s, Key(m)) == Some(Print(x, 8)) && RendersIn(x, 8) && |s| <= cap
    ensures ReplaceValue(s, m, x, cap) == Some(s)
  {
    hide Find, CutTail, Print, Key;
    var f := Locate(s, Key(m)).value;
    FieldSplits(s, m, f);
    assert s == ReplaceText(f, m, f.tail.value);
  }

  /** Reformatting again with the same values changes nothing. */
  lemma ReformatIsIdempotent(s: Bytes, j: Joystick, cap: nat)
    requires Reformat(s, j, cap).Some?
    ensures Reformat(Reformat(s, j, cap).value, j, cap) == Reformat(s, j, cap)
  {
    hide Find, CutTail, Print, IsName, Key, ReplaceText;
    NamesAreNames();
    JoystickNamesAreUntouched(JOYSTICK_X);
    var s1 := ReplaceValue(s, JOYSTICK_X, j.x, cap).value;
    var s2 := Reformat(s, j, cap).value;
    ReplaceKeepsField(s, JOYSTICK_X, j.x, cap, JOYSTICK_Y);
    ReplaceKeepsField(s1, JOYSTICK_Y, j.y, cap, JOYSTICK_X);
    if Locate(s, Key(JOYSTICK_X)).Some? {
      ReplaceSetsField(s, JOYSTICK_X, j.x, cap);
      ReplaceSame(s2, JOYSTICK_X, j.x, cap);
    }
    if Locate(s1, Key(JOYSTICK_Y)).Some? {
      ReplaceSetsField(s1, JOYSTICK_Y, j.y, cap);
      ReplaceSame(s2, JOYSTICK_Y, j.y, cap);
    }
  }

  /** Writing `t` as the value of a field, if the field is there. */
  ghost function Put(s: Bytes, name: Bytes, t: Bytes): Bytes {
    match Locate(s, Key(name))
    case None => s
    case Some(f) => ReplaceText(f, name, t)
  }

  /** `r` is `s` with `v` overwritten by `t`, everything else in place. */
  ghost predicate Rewrites(s: Bytes, r: Bytes, v: Bytes, t: Bytes) {
    exists a: Bytes, b: Bytes :: s == a + (v + b) && r == a + (t + b)
  }

  lemma PutRewrites(s: Bytes, name: Bytes, t: Bytes)
    requires Locate(s, Key(name)).Some?
    ensures Rewrites(s, Put(s, name, t), Locate(s, Key(name)).value.tail.value, t)
  {
    hide Find, CutTail, Key;
    var f := Locate(s, Key(name)).value;
    FieldSplits(s, name, f);
    var a := f.before + (Key(name) + f.tail.blanks);
    assert s == a + (f.tail.value + f.tail.after);
    assert Put(s, name, t) == a + (t + f.tail.after);
  }

  lemma PutHit(a: Bytes, b: Bytes, name: Bytes, t: Bytes)
    requires EndsValue(b) && Find(a, Key(name)).Some?
    ensures Put(a + b, name, t) == Put(a, name, t) + b
  {
    hide Find, CutTail, EndsValue;
    LocateHit(a, b, Key(name));
    var f := Locate(a, Key(name)).value;
    ReplaceTextHit(f, b, name, t);
  }

  lemma ReplaceTextHit(f: Field, b: Bytes, name: Bytes, t: Bytes)
    ensures ReplaceText(f.(tail := f.tail.(after := f.tail.after + b)), name, t) == ReplaceText(f, name, t) + b
  {
    hide Key;
    Assoc5(f.before, Key(name), f.tail.blanks, t, f.tail.after, b);
  }

  lemma Assoc5(a: Bytes, b: Bytes, c: Bytes, d: Bytes, e: Bytes, f: Bytes)
    ensures a + (b + (c + (d + (e + f)))) == (a + (b + (c + (d + e)))) + f
  {
  }

  lemma PutShift(w: Bytes, r: Bytes, name: Bytes, t: Bytes)
    requires Find(w + r, Key(name)) == Shift(|w|, Find(r, Key(name)))
    ensures Put(w + r, name, t) == w + Put(r, name, t)
  {
    hide Find, CutTail;
    LocateShift(w, r, Key(name));
  }

  /** A write to one field stays on its side of another field. */
  lemma PutAround(a: Bytes, m: Bytes, w: Bytes, r: Bytes, name: Bytes, t: Bytes)
    requires IsName(m) && IsName(name) && m != name && '\"' !in w
    ensures var rest := Key(m) + (w + r);
      Put(a + rest, name, t) ==
      if Find(a, Key(name)).Some? then Put(a, name, t) + rest else a + (Key(m) + (w + Put(r, name, t)))
  {
    hide Find, Put, IsName;
    var rest := Key(m) + (w + r);
    FindBeforeKey(a, m, w + r, name);
    if Find(a, Key(name)).Some? {
      PutHit(a, rest, name, t);
    } else {
      hide Key;
      NameIsQuoteFree(m);
      ValueSkipsMember(m, w, r, name);
      PutShift(a, rest, name, t);
      Assoc(Key(m), w, r);
      PutShift(Key(m) + w, r, name, t);
      Assoc(Key(m), w, Put(r, name, t));
    }
  }

  /** A replacement that succeeds is a write of the printed number. */
  lemma ReplaceIsPut(s: Bytes, name: Bytes, x: real, cap: nat)
    requires ReplaceValue(s, name, x, cap).Some?
    ensures ReplaceValue(s, name, x, cap).value == Put(s, name, Print(x, 8))
  {
  }

  /** The two values `v` and `w`, in this order, became `t` and `u`; every other byte is kept. */
  ghost predicate RewritesBoth(s: Bytes, r: Bytes, v: Bytes, t: Bytes, w: Bytes, u: Bytes) {
    exists a: Bytes, b: Bytes, c: Bytes ::
      s == a + (v + (b + (w + c))) && r == a + (t + (b + (u + c)))
  }

  /** Every byte outside the two value spans is kept, in order. */
  lemma ReformatKeepsTheRest(s: Bytes, j: Joystick, cap: nat)
    requires Reformat(s, j, cap).Some? && ExtractJoystick(s).Some?
    ensures var r := Reformat(s, j, cap).value;
      var v := ValueText(s, Key(JOYSTICK_X)).value;
      var w := ValueText(s, Key(JOYSTICK_Y)).value;
      || RewritesBoth(s, r, v, Print(j.x, 8), w, Print(j.y, 8))
      || RewritesBoth(s, r, w, Print(j.y, 8), v, Print(j.x, 8))
  {
    hide Find, CutTail, Print, IsName, Put, ParseSpan;
    NamesAreNames();
    JoystickNamesAreUntouched(JOYSTICK_X);
    var s1 := ReplaceValue(s, JOYSTICK_X, j.x, cap).value;
    ReplaceIsPut(s, JOYSTICK_X, j.x, cap);
    ReplaceIsPut(s1, JOYSTICK_Y, j.y, cap);
    PrintIsNumeric(j.x, 8);
    PutBothRewrites(s, JOYSTICK_X, JOYSTICK_Y, Print(j.x, 8), Print(j.y, 8));
  }

  lemma PutBothRewrites(s: Bytes, m: Bytes, n: Bytes, t: Bytes, u: Bytes)
    requires IsName(m) && IsName(n) && m != n && '\"' !in t
    requires Locate(s, Key(m)).Some? && Locate(s, Key(n)).Some?
    ensures var r := Put(Put(s, m, t), n, u);
      var v := ValueText(s, Key(m)).value;
      var w := ValueText(s, Key(n)).value;
      RewritesBoth(s, r, v, t, w, u) || RewritesBoth(s, r, w, u, v, t)
  {
    hide Find, CutTail, IsName, Put, RewritesBoth, Key, Rewrites;
    var f := Locate(s, Key(m)).value;
    FieldSplits(s, m, f);
    PutIsReplace(s, m, t, f);
    var (a, k, bl, v, c) := (f.before, Key(m), f.tail.blanks, f.tail.value, f.tail.after);
    ValueAround(a, m, bl + v, c, n);
    PutAround(a, m, bl + t, c, n, u);
    Assoc4(a, k, bl, t, c);
    if Find(a, Key(n)).Some? {
      PutRewrites(a, n, u);
      RewritesBefore(a, Put(a, n, u), ValueText(a, Key(n)).value, u, k, bl, v, t, c);
    } else {
      PutRewrites(c, n, u);
      RewritesAfter(a, k, bl, v, t, c, Put(c, n, u), ValueText(c, Key(n)).value, u);
    }
  }

  lemma Assoc4(a: Bytes, k: Bytes, bl: Bytes, t: Bytes, c: Bytes)
    ensures a + (k + (bl + (t + c))) == a + (k + ((bl + t) + c))
  {
  }

  lemma RewritesBefore(a: Bytes, a': Bytes, w: Bytes, u: Bytes,
                       k: Bytes, bl: Bytes, v: Bytes, t: Bytes, c: Bytes)
    requires Rewrites(a, a', w, u)
    ensures RewritesBoth(a + (k + ((bl + v) + c)), a' + (k + ((bl + t) + c)), w, u, v, t)
  {
    var p, q :| a == p + (w + q) && a' == p + (u + q);
    var gap := q + (k + bl);
    assert a + (k + ((bl + v) + c)) == p + (w + (gap + (v + c)));
    assert a' + (k + ((bl + t) + c)) == p + (u + (gap + (t + c)));
  }

  lemma RewritesAfter(a: Bytes, k: Bytes, bl: Bytes, v: Bytes, t: Bytes,
                      c: Bytes, c': Bytes, w: Bytes, u: Bytes)
    requires Rewrites(c, c', w, u)
    ensures RewritesBoth(a + (k + ((bl + v) + c)), a + (k + ((bl + t) + c')), v, t, w, u)
  {
    var p, q :| c == p + (w + q) && c' == p + (u + q);
    var front := a + (k + bl);
    assert a + (k + ((bl + v) + c)) == front + (v + (p + (w + q)));
    assert a + (k + ((bl + t) + c')) == front + (t + (p + (u + q)));
  }

  lemma PutIsReplace(s: Bytes, m: Bytes, t: Bytes, f: Field)
    requires Locate(s, Key(m)) == Some(f)
    ensures Put(s, m, t) == ReplaceText(f, m, t)
  {
  }

  // ----- A failing reformat -----

  /** Overlaying one value on another can only be invisible at the end of the text. */
  ghost predicate HiddenUnder(v: Bytes, t: Bytes, after: Bytes) {
    t == v || (after == [] && (t <= v || v <= t))
  }

  lemma OverlayVisible(a: Bytes, v: Bytes, t: Bytes, after: Bytes)
    requires AllNumeric(v) && AllNumeric(t) && (after != [] ==> !IsNumeric(after[0]))
    ensures Overlay(a + (v + after), a + (t + after)) == a + (v + after) <==> HiddenUnder(v, t, after)
  {
    var s := a + (v + after);
    var s' := a + (t + after);
    var r := Overlay(s, s');
    assert s'[|a|..|a| + |t|] == t && s[|a|..|a| + |v|] == v;
    if |v| <= |t| {
      assert r == s'[..|s|];
      if after != [] && |v| < |t| {
        assert r[|a| + |v|] == t[|v|];
        assert s[|a| + |v|] == after[0];
      }
      assert r[|a|..|a| + |v|] == t[..|v|];
      assert s[|a|..|a| + |v|] == v;
    } else {
      assert r == s' + s[|s'|..];
      if after != [] {
        assert r[|a| + |t|] == after[0];
        assert s[|a| + |t|] == v[|t|];
      }
      assert r[|a|..|a| + |t|] == t;
      assert s[|a|..|a| + |t|] == v[..|t|];
    }
  }

  /** When a reformat fails, the frame is as it was exactly if x was not written (it failed, or
      its key is absent), or if what was written over it does not show. */
  lemma FailedReformatKeepsFrameIff(s: Bytes, j: Joystick, cap: nat)
    requires Reformat(s, j, cap).None?
    ensures FailedReformat(s, j, cap) == s <==>
      || ReplaceValue(s, JOYSTICK_X, j.x, cap).None?
      || Locate(s, Key(JOYSTICK_X)).None?
      || (var tail := Locate(s, Key(JOYSTICK_X)).value.tail;
          HiddenUnder(tail.value, Print(j.x, 8), tail.after))
  {
    hide Find, CutTail, Print, Key;
    if ReplaceValue(s, JOYSTICK_X, j.x, cap).Some? && Locate(s, Key(JOYSTICK_X)).Some? {
      var f := Locate(s, Key(JOYSTICK_X)).value;
      var t := Print(j.x, 8);
      FieldSplits(s, JOYSTICK_X, f);
      PrintIsNumeric(j.x, 8);
      var a := f.before + (Key(JOYSTICK_X) + f.tail.blanks);
      assert s == a + (f.tail.value + f.tail.after);
      assert ReplaceText(f, JOYSTICK_X, t) == a + (t + f.tail.after);
      OverlayVisible(a, f.tail.value, t, f.tail.after);
    }
  }

  /** The whole buffer is as it was exactly if x was not written, or if x stands there just as it
      is rendered; where the frame ends with the value, bytes behind the frame may complete it. */
  lemma FailedReformatKeepsBufferIff(buf: Bytes, len: nat, j: Joystick, cap: nat)
    requires len <= |buf| && cap <= |buf| && Reformat(buf[..len], j, cap).None?
    ensures var s := buf[..len];
      FailedBuffer(buf, len, j, cap) == buf <==>
      || ReplaceValue(s, JOYSTICK_X, j.x, cap).None?
      || Locate(s, Key(JOYSTICK_X)).None?
      || (var tail := Locate(s, Key(JOYSTICK_X)).value.tail;
          if tail.after != [] then tail.value == Print(j.x, 8)
          else Print(j.x, 8) <= buf[|s| - |tail.value|..])
  {
    hide Find, CutTail, Print, Key;
    var s := buf[..len];
    if ReplaceValue(s, JOYSTICK_X, j.x, cap).Some? {
      if Locate(s, Key(JOYSTICK_X)).Some? {
        PrintIsNumeric(j.x, 8);
        var f := Locate(s, Key(JOYSTICK_X)).value;
        FieldSplits(s, JOYSTICK_X, f);
        OverlayOfField(buf, len, f, JOYSTICK_X, Print(j.x, 8));
      } else {
        assert Overlay(buf, s) == buf;
      }
    }
  }

  lemma OverlayOfField(buf: Bytes, len: nat, f: Field, name: Bytes, t: Bytes)
    requires len <= |buf| && |ReplaceText(f, name, t)| <= |buf|
    requires buf[..len] == f.before + (Key(name) + ((f.tail.blanks + f.tail.value) + f.tail.after))
    requires IsTail(f.tail) && AllNumeric(t)
    ensures Overlay(buf, ReplaceText(f, name, t)) == buf <==>
            if f.tail.after != [] then f.tail.value == t else t <= buf[len - |f.tail.value|..]
  {
    hide Key;
    var (v, after) := (f.tail.value, f.tail.after);
    var a := f.before + (Key(name) + f.tail.blanks);
    assert buf[..len] == a + (v + after);
    assert ReplaceText(f, name, t) == a + (t + after);
    hide ReplaceText, Overlay;
    BehindFront(buf, len, a, v + after);
    OverlayOfBuffer(buf, a, t + after);
    PrefixOfValue(buf[|a|..], v, t, after);
  }

  lemma BehindFront(buf: Bytes, len: nat, a: Bytes, t: Bytes)
    requires len <= |buf| && buf[..len] == a + t
    ensures a <= buf && t <= buf[|a|..] && |a| == len - |t|
  {
    assert buf[|a|..][..|t|] == buf[..len][|a|..] == t;
    assert buf[..|a|] == buf[..len][..|a|] == a;
  }

  /** A numeric text and what follows a value stand where that value stands only if they are the
      value and what follows it. */
  lemma PrefixOfValue(r: Bytes, v: Bytes, t: Bytes, after: Bytes)
    requires v + after <= r && AllNumeric(v) && AllNumeric(t) && (after != [] ==> !IsNumeric(after[0]))
    ensures after != [] ==> (t + after <= r <==> t == v)
    ensures after == [] ==> (t + after <= r <==> t <= r)
  {
    if after == [] {
      assert t + after == t;
    } else if t + after <= r {
      NumericPrefix(r, v, after);
      NumericPrefix(r, t, after);
    }
  }

  lemma NumericPrefix(r: Bytes, v: Bytes, after: Bytes)
    requires v + after <= r && AllNumeric(v) && after != [] && !IsNumeric(after[0])
    ensures r[..NumericRun(r)] == v
  {
    var rest := r[|v + after|..];
    NumericRunIs(v, after + rest);
    assert r == v + (after + rest);
    assert r[..|v|] == v;
  }

  lemma OverlayOfBuffer(buf: Bytes, a: Bytes, t: Bytes)
    requires a <= buf && |a + t| <= |buf|
    ensures Overlay(buf, a + t) == buf <==> t <= buf[|a|..]
  {
    var s := a + t;
    assert Overlay(buf, s) == s + buf[|s|..];
    assert buf == buf[..|s|] + buf[|s|..];
    assert buf[..|s|] == a + buf[|a|..][..|t|];
    assert Overlay(buf, s)[..|s|] == s;
    assert s[|a|..] == t;
    assert (a + buf[|a|..][..|t|])[|a|..] == buf[|a|..][..|t|];
  }

  // ----- Reading back what a stamp wrote -----

  ghost predicate Numeric(ms: seq<Added>) {
    forall i | 0 <= i < |ms| :: AllNumeric(ms[i].text) && ms[i].text != []
  }

  /** A written member is read back, if no member before it has its name. */
  lemma {:induction false} ReadMember(ms: seq<Added>, i: nat, r: Bytes)
    requires i < |ms| && QuoteFree(ms) && Numeric(ms) && IsName(ms[i].name)
    requires forall j | 0 <= j < i :: ms[j].name != ms[i].name
    requires r != [] ==> !IsNumeric(r[0])
    ensures Find(Members(ms) + r, Key(ms[i].name)).Some?
    ensures ValueText(Members(ms) + r, Key(ms[i].name)) == Some(ms[i].text)
  {
    hide Find, ValueText, CutTail, Key, IsName;
    var m := ms[0];
    var rest := Members(ms[1..]) + r;
    var name := ms[i].name;
    MembersCons(ms, r);
    ValueSkipsQuoteFree(",", Key(m.name) + (m.text + rest), name);
    if i == 0 {
      assert ms[1..] == [] ==> rest == r;
      assert ms[1..] != [] ==> rest[0] == ',';
      ReadFirst(m.name, m.text, rest);
    } else {
      ReadMember(ms[1..], i - 1, r);
      ValueSkipsMember(m.name, m.text, rest, name);
    }
  }

  lemma ReadFirst(name: Bytes, text: Bytes, rest: Bytes)
    requires IsName(name) && AllNumeric(text) && text != [] && (rest != [] ==> !IsNumeric(rest[0]))
    ensures Find(Key(name) + (text + rest), Key(name)).Some?
    ensures ValueText(Key(name) + (text + rest), Key(name)) == Some(text)
  {
    hide Find, CutTail, Key, IsName, TailText;
    var t := Tail([], text, rest);
    FindEmpty(Key(name));
    LocateWritten([], name, t);
    EmptyFront(Key(name), t);
  }

  lemma EmptyFront(k: Bytes, t: Tail)
    requires t.blanks == []
    ensures [] + (k + TailText(t)) == k + (t.value + t.after)
  {
  }

  lemma FindEmpty(key: Bytes)
    ensures Find([], key).None?
  {
  }

  /** What a stamp puts before its timing members hides none of them. */
  lemma ReadAfterStamp(f: Field, ms: seq<Added>, i: nat)
    requires i < |ms| && QuoteFree(ms) && Numeric(ms) && IsName(ms[i].name)
    requires forall j | 0 <= j < i :: ms[j].name != ms[i].name
    requires IsTail(f.tail) && '\"' !in f.tail.value
    requires Find(f.before, Key(ms[i].name)).None? && ms[i].name != SENT
    ensures ValueText(StampText(f, ms), Key(ms[i].name)) == Some(ms[i].text)
  {
    hide Find, ValueText, CutTail, Key, IsName, IsNumeric, IsBlank;
    var name := ms[i].name;
    NamesAreNames();
    ReadMember(ms, i, f.tail.after);
    ValueAround(f.before, SENT, f.tail.value, Members(ms) + f.tail.after, name);
  }

  /** The renamed member carries the sent text, unless its key was in the frame already. */
  lemma SentTextIsKept(f: Field, ms: seq<Added>)
    requires IsTail(f.tail) && ms != []
    requires Find(f.before, Key(SENT)).None?
    ensures ValueText(StampText(f, ms), Key(SENT)) == Some(f.tail.value)
  {
    hide Find, CutTail, Key, IsName;
    NamesAreNames();
    var t := Tail([], f.tail.value, Members(ms) + f.tail.after);
    MembersCons(ms, f.tail.after);
    assert TailText(t) == f.tail.value + (Members(ms) + f.tail.after);
    LocateWritten(f.before, SENT, t);
  }

  lemma StampNamesDiffer()
    ensures NTP_TIME != SENT && PROCESSING != SENT && TRANSFER != SENT && RECEIVED != SENT
    ensures NTP_TIME != PROCESSING && NTP_TIME != TRANSFER && NTP_TIME != RECEIVED
    ensures PROCESSING != TRANSFER && PROCESSING != RECEIVED && TRANSFER != RECEIVED
  {
    NameLengths();
  }

  lemma NoSentKeyBefore(raw: Bytes)
    requires SentName(raw).Some?
    ensures Find(Locate(raw, Key(SentName(raw).value)).value.before, Key(NTP_TIME)).None?
  {
    hide Find, CutTail, Key, IsName;
    NamesAreNames();
    var k := SentName(raw).value;
    var f := Locate(raw, Key(k)).value;
    FieldSplits(raw, k, f);
    if k == NTP_TIME {
      NotBefore(raw, k, f);
    } else if Find(f.before, Key(NTP_TIME)).Some? {
      FindHit(f.before, Key(k) + ((f.tail.blanks + f.tail.value) + f.tail.after), Key(NTP_TIME));
    }
  }

  lemma TimingMembersShape(t1: real, t2: real, times: Times)
    ensures var ms := TimingMembers(t1, t2, times);
      QuoteFree(ms) && Numeric(ms) && (forall i, j | 0 <= j < i < |ms| :: ms[j].name != ms[i].name)
    ensures forall i | 0 <= i < 4 :: IsName(TimingMembers(t1, t2, times)[i].name)
                                  && TimingMembers(t1, t2, times)[i].name != SENT
  {
    hide Print, IsName;
    NamesAreNames();
    StampNamesDiffer();
    PrintedMembersAreQuoteFree(t1, t2, times);
    PrintIsNumeric(t1, 6);
    PrintIsNumeric(t2, 6);
    PrintIsNumeric(times.processing, 6);
    PrintIsNumeric(times.transfer, 6);
  }

  /** A stamp can be read back: its sent time is T2, every timing member that the frame did not
      already carry reads as the rounded time it was written from, and the controller's own
      sent text stands unchanged under its new name. */
  lemma StampRoundTrip(raw: Bytes, t1: real, t2: real, cap: nat)
    requires SentName(raw).Some? && StampFrame(raw, t1, t2, cap).Some?
    ensures var out := StampFrame(raw, t1, t2, cap).value;
      var name := SentName(raw).value;
      var before := Locate(raw, Key(name)).value.before;
      var times := FrameTimes(raw, t1, t2).value;
      && ExtractSentTime(out) == ExtractField(out, NTP_TIME) == Some(Rounded(t2, 6))
      && (Find(before, Key(SENT)).None? ==> ValueText(out, Key(SENT)) == ValueText(raw, Key(name)))
      && (Find(before, Key(PROCESSING)).None? ==>
            ExtractField(out, PROCESSING) == Some(Rounded(times.processing, 6)))
      && (Find(before, Key(TRANSFER)).None? ==>
            ExtractField(out, TRANSFER) == Some(Rounded(times.transfer, 6)))
      && (Find(before, Key(RECEIVED)).None? ==>
            ExtractField(out, RECEIVED) == Some(Rounded(t1, 6)))
  {
    hide Find, CutTail, Key, IsName, Print, ParseSpan, Rounded, StampText, Members;
    var k := SentName(raw).value;
    var f := Locate(raw, Key(k)).value;
    var times := FrameTimes(raw, t1, t2).value;
    var ms := TimingMembers(t1, t2, times);
    FieldSplits(raw, k, f);
    NoSentKeyBefore(raw);
    TimingMembersShape(t1, t2, times);
    if Find(f.before, Key(SENT)).None? { SentTextIsKept(f, ms); }
    StampReads(f, ms, 0, t2);
    StampReads(f, ms, 1, times.processing);
    StampReads(f, ms, 2, times.transfer);
    StampReads(f, ms, 3, t1);
  }

  lemma StampReads(f: Field, ms: seq<Added>, i: nat, x: real)
    requires i < |ms| && QuoteFree(ms) && Numeric(ms) && IsName(ms[i].name) && ms[i].name != SENT
    requires forall i, j | 0 <= j < i < |ms| :: ms[j].name != ms[i].name
    requires IsTail(f.tail) && '\"' !in f.tail.value
    requires ms[i].text == Print(x, 6) && RendersIn(x, 6)
    ensures Find(f.before, Key(ms[i].name)).None? ==>
              && Find(StampText(f, ms), Key(ms[i].name)).Some?
              && ExtractField(StampText(f, ms), ms[i].name) == Some(Rounded(x, 6))
  {
    hide Find, CutTail, Key, IsName, Print, ParseSpan, Rounded, StampText;
    if Find(f.before, Key(ms[i].name)).None? {
      ReadAfterStamp(f, ms, i);
      ParseRendered(x, 6);
    }
  }

  /** The rendered transfer and processing times add up to rendered T2 minus the sent time, to
      within one and a half units of the last place. */
  lemma TimingAddsUp(raw: Bytes, t1: real, t2: real)
    requires SentName(raw).Some?
    requires |ValueText(raw, Key(SentName(raw).value)).value| < SPAN_CAP
    ensures var times := FrameTimes(raw, t1, t2).value;
      var t0 := Strtod(ValueText(raw, Key(SentName(raw).value)).value);
      Abs((Rounded(times.transfer, 6) + Rounded(times.processing, 6)) - (Rounded(t2, 6) - t0)) <= 0.0000015
  {
    hide Find, CutTail, Key, Rounded, Strtod;
    var times := FrameTimes(raw, t1, t2).value;
    assert Pow10(6) == 1000000;
    RoundedIsClose(times.transfer, 6);
    RoundedIsClose(times.processing, 6);
    RoundedIsClose(t2, 6);
  }

  // ----- A frame whose reformat fails half way -----

  /** `{"joystick_x":1,"joystick_y":1e23}`; `more` stands for members appended to it. */
  function Unrenderable(more: Bytes): Bytes {
    "{" + (Key(JOYSTICK_X) + ("1" + (",\"joystick_y\":1e23" + (more + "}"))))
  }

  /** y = 10^23 does not render, and x was rewritten before that shows. */
  lemma ReformatIsNotAtomic()
    ensures var s := Unrenderable([]);
      var j := Joystick(1.0, Pow10(23) as real);
      ExtractJoystick(s) == Some(j) && Reformat(s, j, 1024).None? && FailedReformat(s, j, 1024) != s
  {
    hide Unrenderable, Rewritten, ExtractJoystick, Reformat, FailedReformat, Pow10;
    UnrenderableReads([]);
    UnrenderableLength();
    CutUnrenderable([]);
    CutShows();
  }

  /** Such a frame, with members appended to it or not, is cut to its length when x is written. */
  lemma CutUnrenderable(more: Bytes)
    requires (more == [] || more[0] == ',') && |Unrenderable(more)| <= 1000
    ensures var s := Unrenderable(more);
      var j := Joystick(1.0, Pow10(23) as real);
      && Reformat(s, j, 1024).None?
      && FailedReformat(s, j, 1024) == Rewritten(more)[..|s|]
      && |Rewritten(more)| == |s| + 9
  {
    hide Print, Pow10, Unrenderable, Rewritten, RendersIn, IsName, Locate, Key;
    var s := Unrenderable(more);
    NamesAreNames();
    JoystickNamesAreUntouched(JOYSTICK_X);
    UnrenderableReads(more);
    RewrittenLength(more);
    ReplacesX(more);
    BigDoesNotRender();
    ReplaceKeepsField(s, JOYSTICK_X, 1.0, 1024, JOYSTICK_Y);
  }

  /** What a reformat makes of such a frame before it fails. */
  function Rewritten(more: Bytes): Bytes {
    "{" + (Key(JOYSTICK_X) + ("1.00000000" + (",\"joystick_y\":1e23" + (more + "}"))))
  }

  lemma RewrittenLength(more: Bytes)
    ensures |Rewritten(more)| == |Unrenderable(more)| + 9
  {
    hide Key;
  }

  lemma ReplacesX(more: Bytes)
    requires |Unrenderable(more)| <= 1000
    ensures ReplaceValue(Unrenderable(more), JOYSTICK_X, 1.0, 1024) == Some(Rewritten(more))
  {
    hide Print, Unrenderable, IsName, Locate, Key;
    UnrenderableX(more);
    OnePrints();
    RewrittenLength(more);
    var rest := ",\"joystick_y\":1e23" + (more + "}");
    assert [] + ("1.00000000" + rest) == "1.00000000" + rest;
  }

  lemma OnePrints()
    ensures Print(1.0, 8) == "1.00000000" && RendersIn(1.0, 8)
  {
    hide Print;
    PrintWhole(1, 8);
    assert seq(8, _ => '0') == "00000000";
    assert Digits(1) == "1";
  }

  lemma CutShows()
    ensures |Unrenderable([])| >= 16 && |Rewritten([])| >= |Unrenderable([])|
    ensures Rewritten([])[..|Unrenderable([])|] != Unrenderable([])
  {
    UnrenderableLength();
    RewrittenLength([]);
    NameLengths();
    KeyChars(JOYSTICK_X);
    assert Unrenderable([])[15] == ',';
    assert Rewritten([])[15] == '.';
    hide Key, Unrenderable, Rewritten;
  }

  lemma UnrenderableLength()
    ensures |Unrenderable([])| == 34
  {
  }

  lemma UnrenderableReads(more: Bytes)
    requires more == [] || more[0] == ','
    ensures var s := Unrenderable(more);
      && Locate(s, Key(JOYSTICK_X)).Some? && Locate(s, Key(JOYSTICK_Y)).Some?
      && Locate(s, Key(JOYSTICK_X)).value
         == Field("{", Tail([], "1", ",\"joystick_y\":1e23" + (more + "}")))
      && ExtractJoystick(s) == Some(Joystick(1.0, Pow10(23) as real))
  {
    hide Unrenderable, Locate, ParseSpan, Pow10, Key, Find, CutTail;
    UnrenderableX(more);
    UnrenderableY(more);
    UnrenderableValues();
    JoystickOfTexts(Unrenderable(more), "1", "1e23");
  }

  lemma JoystickOfTexts(s: Bytes, x: Bytes, y: Bytes)
    requires ValueText(s, Key(JOYSTICK_X)) == Some(x) && ValueText(s, Key(JOYSTICK_Y)) == Some(y)
    requires x != [] && y != []
    ensures ExtractJoystick(s) == Some(Joystick(ParseSpan(x), ParseSpan(y)))
  {
    hide ValueText, ParseSpan, Key;
  }

  lemma UnrenderableX(more: Bytes)
    ensures Locate(Unrenderable(more), Key(JOYSTICK_X))
         == Some(Field("{", Tail([], "1", ",\"joystick_y\":1e23" + (more + "}"))))
  {
    hide Find, CutTail, IsName, Locate;
    var rest := ",\"joystick_y\":1e23" + (more + "}");
    NamesAreNames();
    FindEmpty(Key(JOYSTICK_X));
    FindSkipsQuoteFree("{", [], JOYSTICK_X);
    assert "{" + [] == "{" && rest[0] == ',';
    assert TailText(Tail([], "1", rest)) == "1" + rest;
    hide Key;
    LocateWritten("{", JOYSTICK_X, Tail([], "1", rest));
  }

  lemma UnrenderableY(more: Bytes)
    requires more == [] || more[0] == ','
    ensures ValueText(Unrenderable(more), Key(JOYSTICK_Y)) == Some("1e23")
  {
    hide Find, CutTail, IsName, Locate;
    var end := more + "}";
    var rest := ",\"joystick_y\":1e23" + end;
    assert rest == "," + (Key(JOYSTICK_Y) + ("1e23" + end));
    NamesAreNames();
    JoystickNamesAreUntouched(JOYSTICK_X);
    FindEmpty(Key(JOYSTICK_Y));
    FindSkipsQuoteFree("{", [], JOYSTICK_Y);
    assert "{" + [] == "{";
    hide Key, ValueText;
    ValueAround("{", JOYSTICK_X, "1", rest, JOYSTICK_Y);
    ValueSkipsQuoteFree(",", Key(JOYSTICK_Y) + ("1e23" + end), JOYSTICK_Y);
    ReadFirst(JOYSTICK_Y, "1e23", end);
  }

  lemma UnrenderableValues()
    ensures ParseSpan("1") == 1.0 && ParseSpan("1e23") == Pow10(23) as real
  {
    SmallValues();
    hide Value, Pow10, Exponent, Scale10, Magnitude;
    MagnitudeOfInteger("1", []);
    MagnitudeOfInteger("1", "e23");
    ExponentOf("23");
    ScaleUp(1.0, 0);
    ScaleUp(1.0, 23);
    assert "1" + [] == "1" && "1" + "e23" == "1e23" && "e" + "23" == "e23";
  }

  lemma SmallValues()
    ensures Value("1") == 1 && Value("23") == 23 && Exponent([]) == 0 && Pow10(0) == 1
  {
    assert "1"[..0] == [];
    assert "23"[..1] == "2" && "2"[..0] == [];
    assert Value("2") == 2;
  }

  lemma BigDoesNotRender()
    ensures !RendersIn(Pow10(23) as real, 8)
  {
    hide Units, Print;
    UnitsOfPower(23, 8);
    Pow10Monotone(30, 31);
    PrintLength(Pow10(23) as real, 8, 22);
  }
}
