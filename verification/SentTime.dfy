/**
  The sent-time member: what a stamp makes of a value that is not a number, and exactly when a
  stamped frame is JSON again.
 */
module SentTime {
  import opened Options
  import opened Search
  import opened Decimal
  import opened FrameText
  import opened FrameLaws
  import opened Forwarding
  import opened Headroom
  import opened Json
  import opened JsonLaws
  import opened TreeEdits
  import opened StructuralEdit

  // ----- Stamping and extracting disagree on an empty value -----

  /** The stamp reads a sent time exactly where extraction does, unless the value is empty; there
      it reads 0, so that the transfer time is T1. */
  lemma SentTimesAgreeIff(raw: Bytes, t1: real, t2: real)
    ensures (FrameTimes(raw, t1, t2).Some? <==> ExtractSentTime(raw).Some?)
       <==> SentName(raw).None? || ValueText(raw, Key(SentName(raw).value)) != Some([])
    ensures ExtractSentTime(raw).Some? ==>
              FrameTimes(raw, t1, t2) == Some(Times(t1 - ExtractSentTime(raw).value, t2 - t1))
    ensures FrameTimes(raw, t1, t2).Some? && ExtractSentTime(raw).None? ==>
              FrameTimes(raw, t1, t2) == Some(Times(t1, t2 - t1))
  {
    hide Find, Key, CutTail, SentName;
    assert ParseSpan([]) == 0.0;
    hide ParseSpan;
  }

  /** `{"ntp_time":""}`: it has no sent time to extract, and it is stamped. */
  lemma EmptySentTimeIsStamped()
    ensures var raw := "{" + (Key(NTP_TIME) + "\"\"}");
      && ExtractSentTime(raw).None?
      && StampFrame(raw, 0.0, 0.0, MAX_BRIDGED).Some?
      && FrameTimes(raw, 0.0, 0.0) == Some(Times(0.0, 0.0))
  {
    hide Find, CutTail, StampFrame;
    var t := Tail([], [], "\"\"}");
    var raw := "{" + (Key(NTP_TIME) + "\"\"}");
    NamesAreNames();
    NameLengths();
    KeyChars(NTP_TIME);
    FindEmpty(Key(NTP_TIME));
    FindSkipsQuoteFree("{", [], NTP_TIME);
    assert "{" + [] == "{" && TailText(t) == "\"\"}";
    LocateWritten("{", NTP_TIME, t);
    hide Key, Print, RendersIn, ParseSpan;
    SentTimesAgreeIff(raw, 0.0, 0.0);
    ZeroRenders();
    StampDropsIff(raw, 0.0, 0.0);
  }

  // ----- A key of a frame is never followed by a comma -----

  /** An occurrence behind a key and white space is one of the text behind them. */
  lemma OccursBehind(a: Bytes, name: Bytes, w: Bytes, t: Bytes, i: nat)
    requires IsName(name) && '\"' !in w
    requires OccursAt(a + (Key(name) + (w + t)), Key(name), i) && i > |a|
    ensures var start := |a| + |Key(name)| + |w|;
      i >= start && OccursAt(t, Key(name), i - start)
  {
    var s := a + (Key(name) + (w + t));
    var start := |a| + |Key(name)| + |w|;
    KeyChars(name);
    OccurrenceChars(s, name, i);
    assert s[i] == '\"' && s[i + 1] == name[0];
    assert forall j | 0 <= j < |name| :: s[|a| + 1 + j] == name[j];
    assert s[|a| + |name| + 1] == '\"' && s[|a| + |name| + 2] == ':';
    assert forall j | 0 <= j < |w| :: s[|a| + |Key(name)| + j] == w[j];
    assert i >= start;
    hide Key;
    assert s[i..] == t[i - start..];
  }

  lemma OccursInFront(b: Bytes, t: Bytes, key: Bytes, k: nat)
    requires OccursAt(t, key, k)
    ensures OccursAt(b + t, key, |b| + k)
  {
    assert (b + t)[|b| + k..] == t[k..];
  }

  /** What stands behind a colon begins with no comma. */
  lemma ValueBegins(gap: Bytes, v: Tree, after: Bytes)
    requires White(gap) && WellFormed(v)
    ensures gap + Show(v, after) != [] && (gap + Show(v, after))[0] != ','
  {
    hide ShowItems, ShowEntries, WellFormedItems, WellFormedEntries, PlainString;
  }

  /** A key with a comma right behind it. */
  ghost predicate CommaAt(s: Bytes, name: Bytes, i: nat) {
    OccursAt(s, Key(name), i) && i + |Key(name)| < |s| && s[i + |Key(name)|] == ','
  }

  /** It is still there when the leftmost one is shortened. */
  lemma CommaInShorter(a: Bytes, name: Bytes, w: Bytes, t: Bytes, i: nat) returns (k: nat)
    requires IsName(name) && '\"' !in w
    requires CommaAt(a + (Key(name) + (w + t)), name, i) && i > |a|
    ensures CommaAt((a + Key([])) + t, name, k)
  {
    hide IsName, Key, OccursAt;
    OccursBehind(a, name, w, t, i);
    var j := i - (|a| + |Key(name)| + |w|);
    var s := a + (Key(name) + (w + t));
    assert s[i + |Key(name)|] == t[j + |Key(name)|];
    var b := a + Key([]);
    OccursInFront(b, t, Key(name), j);
    assert (b + t)[|b| + j + |Key(name)|] == t[j + |Key(name)|];
    k := |b| + j;
  }

  lemma NoCommaAtHit(a: Bytes, name: Bytes, rest: Bytes)
    requires rest != [] && rest[0] != ','
    ensures !CommaAt(a + (Key(name) + rest), name, |a|)
  {
    hide Key;
  }

  lemma {:induction false} NoCommaAfterKey(g: Frame, name: Bytes, i: nat)
    requires IsFrame(g) && IsName(name)
    ensures !CommaAt(Render(g), name, i)
    decreases |Render(g)|
  {
    if CommaAt(Render(g), name, i) {
      assert Key(name) != [];
      hide Find, IsFrame, IsName, CommaAt, OccursAt, Render, Key, Lookup, Show, WellFormed, First;
      HitComesFirst(g, name, i);
      FrameHit(g, name);
      var h := HitIn(g, name).value;
      var t := Show(h.value, h.after);
      ValueBegins(h.gap, h.value, h.after);
      NoCommaAtHit(h.before, name, h.gap + t);
      RenameToNothing(g, name);
      WhiteIsQuoteFree(h.gap);
      var k := CommaInShorter(h.before, name, h.gap, t, i);
      NoCommaAfterKey(Edited(g, name, Rename([], [])), name, k);
    }
  }

  lemma HitComesFirst(g: Frame, name: Bytes, i: nat)
    requires IsFrame(g) && IsName(name) && CommaAt(Render(g), name, i)
    ensures Lookup(Top(g), name).Some? && HitIn(g, name).Some? && |HitIn(g, name).value.before| <= i
  {
    assert Key(name) != [];
    hide Find, IsFrame, IsName, OccursAt, Render, Key, Lookup, First;
    FindIsLeftmost(Render(g), Key(name));
    PresentInFrame(g, name);
    FindsInFrame(g, name);
  }

  /** The frame with the leftmost member of a name renamed to nothing. */
  lemma RenameToNothing(g: Frame, name: Bytes)
    requires IsFrame(g) && Lookup(Top(g), name).Some? && name != []
    ensures HitIn(g, name).Some?
    ensures var (h, shorter) := (HitIn(g, name).value, Edited(g, name, Rename([], [])));
      && IsFrame(shorter)
      && Render(shorter) == (h.before + Key([])) + Show(h.value, h.after)
      && |Render(shorter)| < |Render(g)|
  {
    var e := Rename([], []);
    EditedIsFrame(g, name, e);
    EditedShows(g, name, e);
    MembersEnd(HitIn(g, name).value.after);
    hide Edited, Render, IsFrame, Show, Lookup, HitIn, Members;
    var h := HitIn(g, name).value;
    Assoc(h.before, Key([]), Show(h.value, h.after));
  }

  // ----- When a stamped frame is a frame -----

  /** A stamp of a frame gives the text of some frame if and only if the sent-time member in use
      is absent or a number. Otherwise what it writes is a key with nothing behind its colon. */
  lemma StampNeedsANumber(f: Frame, t1: real, t2: real, cap: nat)
    requires IsFrame(f) && StampFrame(Render(f), t1, t2, cap).Some?
    ensures (exists g :: IsFrame(g) && Render(g) == StampFrame(Render(f), t1, t2, cap).value) <==> SentReadable(f)
    ensures !SentReadable(f) ==> exists i :: CommaAt(StampFrame(Render(f), t1, t2, cap).value, SENT, i)
  {
    hide Render, IsFrame, StampFrame, Stamped, IsReadable;
    var text := StampFrame(Render(f), t1, t2, cap).value;
    if SentReadable(f) {
      StampEditsTree(f, t1, t2, cap);
      StampedIsFrame(f, t1, t2);
      assert IsFrame(Stamped(f, t1, t2)) && Render(Stamped(f, t1, t2)) == text;
    } else {
      var i := StampLeavesNoValue(f, t1, t2, cap);
      NamesAreNames();
      forall g | IsFrame(g) ensures Render(g) != text {
        if Render(g) == text { NoCommaAfterKey(g, SENT, i); }
      }
    }
  }

  const ROOM := 40

  /** Where the value cannot be read, a comma follows the renamed key, and some text the comma. */
  lemma StampLeavesNoValue(f: Frame, t1: real, t2: real, cap: nat) returns (i: nat)
    requires IsFrame(f) && !SentReadable(f) && StampFrame(Render(f), t1, t2, cap).Some?
    ensures var text := StampFrame(Render(f), t1, t2, cap).value;
      CommaAt(text, SENT, i) && i + |Key(SENT)| + ROOM <= |text|
  {
    hide Render, IsFrame, SentMember, SentName, Locate, ParseSpan, TimingMembers, Key, IsReadable, IsName,
         StampRenders, StampText;
    var k := SentMember(f).value;
    TextHasSentMember(f);
    SentMemberIsThere(f);
    NamesAreNames();
    UnreadableInFrame(f, k);
    var field := Locate(Render(f), Key(k)).value;
    var ms := TimingMembers(t1, t2, FrameTimes(Render(f), t1, t2).value);
    TimingMembersAreLong(t1, t2, FrameTimes(Render(f), t1, t2).value);
    i := EmptyStamp(field, ms);
  }

  lemma TimingMembersAreLong(t1: real, t2: real, times: Times)
    ensures TimingMembers(t1, t2, times) != [] && |Members(TimingMembers(t1, t2, times))| >= ROOM
  {
    hide Print;
    NameLengths();
    MembersLength(TimingMembers(t1, t2, times));
    SizeOfFour(TimingMembers(t1, t2, times));
  }

  lemma EmptyStamp(f: Field, ms: seq<Added>) returns (i: nat)
    requires f.tail.value == [] && ms != [] && |Members(ms)| >= ROOM
    ensures CommaAt(StampText(f, ms), SENT, i) && i + |Key(SENT)| + ROOM <= |StampText(f, ms)|
  {
    hide Key;
    i := |f.before|;
    var rest := Members(ms) + f.tail.after;
    assert rest[0] == ',';
    assert f.tail.value + rest == rest;
    assert StampText(f, ms) == f.before + (Key(SENT) + rest);
    hide Members;
    JoinThree(f.before, Key(SENT), rest);
    assert StampText(f, ms)[|f.before|..] == Key(SENT) + rest;
  }
}
