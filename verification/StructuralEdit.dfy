/**
  The central promise of the bridge: although it never parses JSON, what it does to the text of
  a frame is a structured edit of the JSON object the frame prints.
 */
module StructuralEdit {
  import opened Options
  import opened Search
  import opened Decimal
  import opened FrameText
  import opened FrameLaws
  import opened ClockOffset
  import opened MotorInference
  import opened Forwarding
  import opened Process
  import opened Broadcast
  import opened Headroom
  import opened Json
  import opened JsonLaws
  import opened TreeEdits

  // ----- Frames -----

  /** A frame: one top-level object, and white space around it. */
  datatype Frame = Frame(lead: Bytes, pad: Bytes, entries: Entries, trail: Bytes)

  function Top(f: Frame): Tree {
    Object(f.pad, f.entries)
  }

  function Render(f: Frame): Bytes {
    f.lead + Show(Top(f), f.trail)
  }

  ghost predicate IsFrame(f: Frame) {
    White(f.lead) && White(f.trail) && WellFormed(Top(f))
  }

  function Edited(f: Frame, name: Bytes, e: Edit): Frame {
    f.(entries := EditEntry(f.entries, name, e))
  }

  function Appended(f: Frame, ms: seq<Added>): Frame {
    f.(entries := AppendEntries(f.entries, ms))
  }

  /** A member the bridge can read: a number on the line of its name. */
  ghost predicate IsNumberMember(found: Found) {
    AllBlank(found.gap) && found.value.Scalar? && IsNumber(found.value.text)
  }

  /** The leftmost member of a name, if there is one, can be read. */
  ghost predicate IsReadable(f: Frame, name: Bytes) {
    var found := Lookup(Top(f), name);
    found.Some? ==> IsNumberMember(found.value)
  }

  /** The text of a member that is there and can be read. */
  ghost function NumberIn(f: Frame, name: Bytes): Option<Bytes> {
    match Lookup(Top(f), name)
    case Some(found) => if IsNumberMember(found) then Some(found.value.text) else None
    case None => None
  }

  // ----- Reading a frame's text reads its tree -----

  function HitIn(f: Frame, name: Bytes): Option<Hit> {
    Behind(f.lead, First(Top(f), name, f.trail))
  }

  lemma WhiteDelimits(s: Bytes)
    requires White(s)
    ensures Delimits(s) && '\"' !in s
  {
  }

  lemma FindsInFrame(f: Frame, name: Bytes)
    requires IsFrame(f) && IsName(name)
    ensures Find(Render(f), Key(name)) == StartOf(HitIn(f, name))
  {
    hide Find, Key, Show, WellFormed, First, Width, IsName, Top;
    WhiteDelimits(f.lead);
    WhiteDelimits(f.trail);
    FindsFirst(Top(f), name, f.trail);
    FindSkipsQuoteFree(f.lead, Show(Top(f), f.trail), name);
    FindSkipsQuoteFree(f.trail, [], name);
    FindEmpty(Key(name));
    assert f.trail + [] == f.trail;
    StartBehind(f.lead, First(Top(f), name, f.trail));
  }

  /** A name is found in the text if and only if the tree has a member of that name. */
  lemma PresentInFrame(f: Frame, name: Bytes)
    requires IsFrame(f) && IsName(name)
    ensures Find(Render(f), Key(name)).Some? <==> Lookup(Top(f), name).Some?
  {
    hide Find, Key, Show, WellFormed, First, Lookup, IsName;
    FindsInFrame(f, name);
    WhiteDelimits(f.trail);
    FirstIsLookup(Top(f), name, f.trail);
  }

  /** A readable member is located with its number; an absent one is not found. */
  lemma LocatesInFrame(f: Frame, name: Bytes)
    requires IsFrame(f) && IsName(name) && IsReadable(f, name)
    ensures Find(Render(f), Key(name)).Some? <==> Lookup(Top(f), name).Some?
    ensures Lookup(Top(f), name).Some? ==>
              && HitIn(f, name).Some?
              && var h := HitIn(f, name).value;
                 && h.value == Scalar(NumberIn(f, name).value)
                 && Locate(Render(f), Key(name))
                    == Some(Field(h.before, Tail(h.gap, NumberIn(f, name).value, h.after)))
    ensures ValueText(Render(f), Key(name)) == NumberIn(f, name)
  {
    assert Key(name) != [];
    hide Find, Key, Show, WellFormed, First, IsNumber, CutTail, EditFirst, Lookup;
    FindsInFrame(f, name);
    WhiteDelimits(f.trail);
    FirstIsLookup(Top(f), name, f.trail);
    if Lookup(Top(f), name).Some? {
      var h := HitIn(f, name).value;
      var t := NumberIn(f, name).value;
      NumberIsNumeric(t);
      DelimiterEndsNumber(h.after);
      FrameShowsHit(f, name);
      LocateIs(Render(f), Key(name), Field(h.before, Tail(h.gap, t, h.after)));
    }
  }

  lemma FrameShowsHit(f: Frame, name: Bytes)
    requires IsFrame(f) && NumberIn(f, name).Some?
    ensures HitIn(f, name).Some?
    ensures var h := HitIn(f, name).value;
      Render(f) == h.before + (Key(name) + TailText(Tail(h.gap, NumberIn(f, name).value, h.after)))
  {
    var e := SetNumber([]);
    EditedShows(f, name, e);
    hide Key, First, EditFirst, Lookup, WellFormed;
    WhiteDelimits(f.trail);
    FirstIsLookup(Top(f), name, f.trail);
  }

  // ----- A member that cannot be read -----

  /** Behind white space with a line break in it, or before anything but a number, no value is
      found. */
  lemma {:induction false} NoSpan(w: Bytes, s: Bytes)
    requires White(w)
    requires AllBlank(w) && s != [] ==> !IsBlank(s[0]) && !IsNumeric(s[0])
    ensures CutTail(w + s).value == []
  {
    if w == [] {
      assert w + s == s;
    } else if IsBlank(w[0]) {
      assert (w + s)[1..] == w[1..] + s;
      NoSpan(w[1..], s);
      var rest := w[1..] + s;
      assert (w + s)[1 + BlankRun(rest)..] == rest[BlankRun(rest)..];
    } else {
      assert (w + s)[0] == w[0];
      assert (w + s)[0..] == w + s;
    }
  }

  /** Only a number begins like a number. */
  lemma NoNumberStart(v: Tree, after: Bytes)
    requires WellFormed(v) && !(v.Scalar? && IsNumber(v.text))
    ensures Show(v, after) != [] && !IsBlank(Show(v, after)[0]) && !IsNumeric(Show(v, after)[0])
  {
    hide IsNumber, ShowItems, ShowEntries, WellFormedItems, WellFormedEntries, PlainString;
  }

  /** A member that is there and cannot be read is found with an empty value. */
  lemma UnreadableInFrame(f: Frame, name: Bytes)
    requires IsFrame(f) && IsName(name) && Lookup(Top(f), name).Some? && !IsReadable(f, name)
    ensures ValueText(Render(f), Key(name)) == Some([])
  {
    hide Find, Key, WellFormed, First, IsNumber, CutTail, EditFirst, Lookup, Show, IsName, BlankRun, NumericRun;
    FindsInFrame(f, name);
    FrameHit(f, name);
    var h := HitIn(f, name).value;
    var rest := h.gap + Show(h.value, h.after);
    var (key, n) := (Key(name), |h.before|);
    JoinThree(h.before, key, rest);
    LocateAt(Render(f), key, n);
    if AllBlank(h.gap) { NoNumberStart(h.value, h.after); }
    NoSpan(h.gap, Show(h.value, h.after));
  }

  /** The hit of a member that is there, with white space and a well-formed value. */
  lemma FrameHit(f: Frame, name: Bytes)
    requires IsFrame(f) && Lookup(Top(f), name).Some?
    ensures HitIn(f, name).Some?
    ensures var (h, found) := (HitIn(f, name).value, Lookup(Top(f), name).value);
      && h.gap == found.gap && h.value == found.value
      && White(h.gap) && WellFormed(h.value)
      && Render(f) == HitText(name, h)
  {
    EditedShows(f, name, SetNumber([]));
    hide Key, First, EditFirst, Lookup, WellFormed, Show;
    WhiteDelimits(f.trail);
    FirstIsLookup(Top(f), name, f.trail);
    FoundIsWellFormed(Top(f), name);
  }

  /** What the bridge reads after any key of any frame. */
  lemma ValueInFrame(f: Frame, name: Bytes)
    requires IsFrame(f) && IsName(name)
    ensures ValueText(Render(f), Key(name))
         == if Lookup(Top(f), name).None? then None else Some(NumberIn(f, name).GetOr([]))
    ensures NumberIn(f, name) != Some([])
  {
    hide Render, IsFrame, IsName, Lookup, ValueText, HitIn, Key;
    if IsReadable(f, name) {
      LocatesInFrame(f, name);
    } else {
      UnreadableInFrame(f, name);
    }
  }

  /** An edited frame prints the edited text. */
  lemma EditedShows(f: Frame, name: Bytes, e: Edit)
    requires IsFrame(f) && Lookup(Top(f), name).Some?
    ensures HitIn(f, name).Some?
    ensures Render(f) == HitText(name, HitIn(f, name).value)
    ensures Render(Edited(f, name, e)) == EditText(e, name, HitIn(f, name).value)
  {
    hide Key, First, Show, WellFormed, Lookup, HitText, EditText;
    WhiteDelimits(f.trail);
    HasIsLookup(Top(f), name);
    EditShows(Top(f), name, e, f.trail);
    PrintsBehind(f.lead, First(Top(f), name, f.trail), name, e, Show(Top(f), f.trail),
                 Show(Top(Edited(f, name, e)), f.trail));
  }

  // ----- Each stage on a frame's text is its edit of the tree -----

  /** The sent-time member in use. */
  function SentMember(f: Frame): Option<Bytes> {
    if Lookup(Top(f), NTP_TIME).Some? then Some(NTP_TIME)
    else if Lookup(Top(f), TIMESTAMP).Some? then Some(TIMESTAMP)
    else None
  }

  /** The time differences, from the number in the sent-time member. */
  ghost function TimesIn(f: Frame, t1: real, t2: real): Option<Times> {
    match SentMember(f)
    case None => None
    case Some(k) => Some(Times(t1 - ParseSpan(NumberIn(f, k).GetOr([])), t2 - t1))
  }

  /** The stamped tree: the sent-time member renamed, the timing members in place after it. */
  ghost function Stamped(f: Frame, t1: real, t2: real): Frame {
    match SentMember(f)
    case None => f
    case Some(k) => Edited(f, k, Rename(SENT, TimingMembers(t1, t2, TimesIn(f, t1, t2).value)))
  }

  /** The sent-time member in use, if there is one, can be read. */
  ghost predicate SentReadable(f: Frame) {
    SentMember(f).Some? ==> IsReadable(f, SentMember(f).value)
  }

  lemma TextHasSentMember(f: Frame)
    requires IsFrame(f)
    ensures SentName(Render(f)) == SentMember(f)
  {
    hide Find, Key, Lookup, IsFrame, IsReadable, IsName, Render;
    NamesAreNames();
    PresentInFrame(f, NTP_TIME);
    PresentInFrame(f, TIMESTAMP);
  }

  /** Stamping the text stamps the tree. */
  lemma StampEditsTree(f: Frame, t1: real, t2: real, cap: nat)
    requires IsFrame(f) && SentReadable(f)
    requires StampFrame(Render(f), t1, t2, cap).Some?
    ensures FrameTimes(Render(f), t1, t2) == TimesIn(f, t1, t2)
    ensures StampFrame(Render(f), t1, t2, cap) == Some(Render(Stamped(f, t1, t2)))
  {
    hide Find, Key, Lookup, IsFrame, IsName, Render, SentMember, SentName, ParseSpan, TimingMembers, IsNumberMember,
         StampRenders, Members, Edited, HitIn, Show;
    TextHasSentMember(f);
    if SentMember(f).Some? {
      var k := SentMember(f).value;
      SentMemberIsThere(f);
      NamesAreNames();
      LocatesInFrame(f, k);
      var ms := TimingMembers(t1, t2, TimesIn(f, t1, t2).value);
      EditedShows(f, k, Rename(SENT, ms));
      RenamedText(HitIn(f, k).value, k, NumberIn(f, k).value, ms);
      hide EditText, StampText;
    }
  }

  lemma RenamedText(h: Hit, k: Bytes, t: Bytes, ms: seq<Added>)
    requires h.value == Scalar(t)
    ensures EditText(Rename(SENT, ms), k, h) == StampText(Field(h.before, Tail(h.gap, t, h.after)), ms)
  {
    hide Key, Members;
  }

  lemma SentMemberIsThere(f: Frame)
    requires SentMember(f).Some?
    ensures IsSentName(SentMember(f).value) && Lookup(Top(f), SentMember(f).value).Some?
  {
  }

  lemma EditedAbsent(f: Frame, name: Bytes, e: Edit)
    requires Lookup(Top(f), name).None?
    ensures Edited(f, name, e) == f
  {
    EditEntryAbsent(f.entries, name, e);
  }

  /** Replacing a readable member's value in the text replaces it in the tree; an absent member
      is left absent. */
  lemma ReplaceEditsTree(f: Frame, name: Bytes, x: real, cap: nat)
    requires IsFrame(f) && IsName(name) && IsReadable(f, name)
    requires ReplaceValue(Render(f), name, x, cap).Some?
    ensures ReplaceValue(Render(f), name, x, cap).value == Render(Edited(f, name, SetNumber(Print(x, 8))))
  {
    hide Find, Key, Lookup, IsFrame, IsName, Render, Edited, HitIn, IsReadable, Print;
    LocatesInFrame(f, name);
    if Lookup(Top(f), name).Some? {
      EditedShows(f, name, SetNumber(Print(x, 8)));
    } else {
      EditedAbsent(f, name, SetNumber(Print(x, 8)));
    }
  }

  lemma {:induction false} LastBraceIs(s: Bytes, t: Bytes)
    requires forall i | 0 <= i < |t| :: t[i] != '}'
    ensures LastBrace(s + ("}" + t)) == Some(|s|)
  {
    var u := s + ("}" + t);
    var r := LastBrace(u);
    assert u[|s|] == '}';
    assert forall i | |s| < i < |u| :: u[i] == t[i - |s| - 1];
  }

  /** Inserting before the last brace of the text appends members to the top-level object. */
  lemma InsertEditsTree(f: Frame, ms: seq<Added>, cap: nat)
    requires IsFrame(f) && f.entries.Entry? && ms != []
    ensures LastBrace(Render(f)).Some?
    ensures InsertBeforeBrace(Render(f), Members(ms), cap).Some? ==>
            InsertBeforeBrace(Render(f), Members(ms), cap).value == Render(Appended(f, ms))
  {
    hide Members, Show, ShowEntries, WellFormed, LastBrace, AppendEntries;
    var front := f.lead + ("{" + (f.pad + ShowEntries(f.entries, [])));
    var end := "}" + f.trail;
    FrameShows(f, ms);
    assert forall i | 0 <= i < |f.trail| :: IsWhite(f.trail[i]);
    LastBraceIs(front, f.trail);
    var s := front + end;
    assert s[..|front|] == front && s[|front|..] == end;
  }

  lemma FrameShows(f: Frame, ms: seq<Added>)
    requires f.entries.Entry? && ms != []
    ensures var front := f.lead + ("{" + (f.pad + ShowEntries(f.entries, [])));
      && Render(f) == front + ("}" + f.trail)
      && Render(Appended(f, ms)) == front + (Members(ms) + ("}" + f.trail))
  {
    hide Members, ShowEntries, AppendEntries;
    var end := "}" + f.trail;
    var y := ShowEntries(f.entries, []);
    AppendShows(f.entries, ms, end);
    ShowEntriesTail(f.entries, [], end);
    ShowEntriesTail(f.entries, [], Members(ms) + end);
    assert [] + end == end && [] + (Members(ms) + end) == Members(ms) + end;
    EntryAssoc(f.lead, "{", f.pad, y, end);
    EntryAssoc(f.lead, "{", f.pad, y, Members(ms) + end);
  }

  // ----- An empty object cannot be appended to -----

  /** The text from its first byte that is not white space. */
  function Ink(s: Bytes): Bytes {
    if s != [] && IsWhite(s[0]) then Ink(s[1..]) else s
  }

  lemma {:induction false} InkBehindWhite(w: Bytes, s: Bytes)
    requires White(w)
    ensures Ink(w + s) == Ink(s)
  {
    if w == [] {
      assert w + s == s;
    } else {
      assert (w + s)[1..] == w[1..] + s;
      InkBehindWhite(w[1..], s);
    }
  }

  lemma InkOfEntries(es: Entries, tail: Bytes)
    requires WellFormedEntries(es)
    ensures Ink(ShowEntries(es, "}" + tail)) != [] && Ink(ShowEntries(es, "}" + tail))[0] != ','
  {
    if es.Entry? {
      var text := es.gap + Show(es.value, es.post + MoreEntries(es.rest, "}" + tail));
      InkBehindWhite(es.pre, Key(es.name) + text);
      assert (Key(es.name) + text)[0] == '\"';
    } else {
      assert ("}" + tail)[0] == '}';
    }
  }

  /** No frame's text has a comma right after its opening brace. */
  lemma NoCommaAfterBrace(g: Frame, lead: Bytes, pad: Bytes, text: Bytes)
    requires IsFrame(g) && White(lead) && White(pad)
    ensures Render(g) != lead + ("{" + (pad + ("," + text)))
  {
    var shown := ShowEntries(g.entries, "}" + g.trail);
    var inside := g.pad + shown;
    var other := pad + ("," + text);
    InkBehindWhite(g.lead, "{" + inside);
    InkBehindWhite(lead, "{" + other);
    InkBehindWhite(g.pad, shown);
    InkBehindWhite(pad, "," + text);
    InkOfEntries(g.entries, g.trail);
    assert ("," + text)[0] == ',';
    assert inside != other;
    assert ("{" + inside)[1..] == inside && ("{" + other)[1..] == other;
    hide White, WellFormed, ShowEntries, Ink;
  }

  lemma EmptyObjectText(f: Frame, ms: seq<Added>, cap: nat)
    requires IsFrame(f) && f.entries.NoEntries? && ms != []
    requires InsertBeforeBrace(Render(f), Members(ms), cap).Some?
    ensures InsertBeforeBrace(Render(f), Members(ms), cap).value
            == f.lead + ("{" + (f.pad + ("," + (Members(ms)[1..] + ("}" + f.trail)))))
  {
    hide LastBrace, Members, WellFormed;
    var front := f.lead + ("{" + f.pad);
    var end := "}" + f.trail;
    CommaFirst(ms);
    var rest := Members(ms)[1..];
    FrontAssoc3(f.lead, "{", f.pad, end);
    FrontAssoc3(f.lead, "{", f.pad, "," + (rest + end));
    Assoc(",", rest, end);
    assert ShowEntries(f.entries, end) == end;
    assert Show(Top(f), f.trail) == "{" + (f.pad + ShowEntries(f.entries, end));
    assert forall i | 0 <= i < |f.trail| :: IsWhite(f.trail[i]);
    LastBraceIs(front, f.trail);
    hide Render;
    var s := front + end;
    assert s[..|front|] == front && s[|front|..] == end;
    assert InsertBeforeBrace(Render(f), Members(ms), cap).value == front + (Members(ms) + end);
  }

  lemma CommaFirst(ms: seq<Added>)
    requires ms != []
    ensures Members(ms) != [] && Members(ms) == "," + Members(ms)[1..]
  {
    assert Members(ms)[0] == ',';
  }

  lemma FrontAssoc3(a: Bytes, b: Bytes, c: Bytes, x: Bytes)
    ensures (a + (b + c)) + x == a + (b + (c + x))
  {
  }

  /** Appending before the last brace gives the text of some frame if and only if the top-level
      object has a member already: `{}` becomes `{,"k":v}`. */
  lemma AppendNeedsAMember(f: Frame, ms: seq<Added>, cap: nat)
    requires IsFrame(f) && ms != [] && AddedOk(ms)
    requires InsertBeforeBrace(Render(f), Members(ms), cap).Some?
    ensures (exists g :: IsFrame(g) && Render(g) == InsertBeforeBrace(Render(f), Members(ms), cap).value)
            <==> f.entries.Entry?
  {
    var text := InsertBeforeBrace(Render(f), Members(ms), cap).value;
    if f.entries.Entry? {
      hide Render, Members, InsertBeforeBrace, LastBrace, AddedOk, WellFormedEntries;
      InsertEditsTree(f, ms, cap);
      AppendIsWellFormed(f.entries, ms);
      assert IsFrame(Appended(f, ms)) && Render(Appended(f, ms)) == text;
    } else {
      var rest := Members(ms)[1..] + ("}" + f.trail);
      EmptyObjectText(f, ms, cap);
      forall g | IsFrame(g) ensures Render(g) != text { NoCommaAfterBrace(g, f.lead, f.pad, rest); }
    }
  }

  // ----- What the stages keep of the tree -----

  /** A frame whose top-level object has a member. */
  ghost predicate IsFilled(f: Frame) {
    IsFrame(f) && f.entries.Entry?
  }

  lemma NameIsString(name: Bytes)
    requires IsName(name)
    ensures PlainString(name)
  {
  }

  lemma EditedIsFilled(f: Frame, k: Bytes, e: Edit)
    requires IsFilled(f) && EditOk(e)
    ensures IsFilled(Edited(f, k, e))
  {
    hide WellFormedEntries;
    EditEntryIsWellFormed(f.entries, k, e);
  }

  lemma EditedIsFrame(f: Frame, k: Bytes, e: Edit)
    requires IsFrame(f) && EditOk(e)
    ensures IsFrame(Edited(f, k, e))
  {
    hide WellFormedEntries;
    EditEntryIsWellFormed(f.entries, k, e);
  }

  lemma EditedKeeps(f: Frame, k: Bytes, e: Edit, name: Bytes)
    requires k != name && Spares(e, name) && IsReadable(f, k) && IsReadable(f, name)
    ensures Lookup(Top(Edited(f, k, e)), name) == Lookup(Top(f), name)
  {
    EditEntrySpares(f.entries, k, e, name);
  }

  lemma TimingMembersAreOk(t1: real, t2: real, times: Times)
    ensures AddedOk(TimingMembers(t1, t2, times)) && PlainString(SENT)
  {
    hide Print, IsName, IsNumber, PlainString;
    NamesAreNames();
    NameIsString(SENT);
    NameIsString(NTP_TIME);
    NameIsString(PROCESSING);
    NameIsString(TRANSFER);
    NameIsString(RECEIVED);
    PrintIsNumber(t1, 6);
    PrintIsNumber(t2, 6);
    PrintIsNumber(times.processing, 6);
    PrintIsNumber(times.transfer, 6);
  }

  lemma StampedIsFrame(f: Frame, t1: real, t2: real)
    requires IsFrame(f)
    ensures IsFrame(Stamped(f, t1, t2)) && (f.entries.Entry? ==> IsFilled(Stamped(f, t1, t2)))
  {
    hide IsFrame, Edited, TimingMembers, SentMember;
    if SentMember(f).Some? {
      var times := TimesIn(f, t1, t2).value;
      var e := Rename(SENT, TimingMembers(t1, t2, times));
      TimingMembersAreOk(t1, t2, times);
      EditedIsFrame(f, SentMember(f).value, e);
      if f.entries.Entry? { EditedIsFilled(f, SentMember(f).value, e); }
    }
  }

  lemma AppendedIsFilled(f: Frame, ms: seq<Added>)
    requires IsFilled(f) && AddedOk(ms)
    ensures IsFilled(Appended(f, ms))
  {
    hide WellFormedEntries, AddedOk;
    AppendIsWellFormed(f.entries, ms);
  }

  // ----- The joystick members -----

  ghost function JoystickIn(f: Frame): Option<Joystick> {
    match (NumberIn(f, JOYSTICK_X), NumberIn(f, JOYSTICK_Y))
    case (Some(x), Some(y)) => Some(Joystick(ParseSpan(x), ParseSpan(y)))
    case _ => None
  }

  /** Extraction reads the two numbers of the tree, whatever the members are. */
  lemma TextHasJoystick(f: Frame)
    requires IsFrame(f)
    ensures ExtractJoystick(Render(f)) == JoystickIn(f)
  {
    hide Lookup, IsName, Key, ParseSpan, ValueText, Render, IsFrame, IsNumberMember;
    NamesAreNames();
    ValueInFrame(f, JOYSTICK_X);
    ValueInFrame(f, JOYSTICK_Y);
  }

  /** The joystick values re-rendered with eight places, where there are any. */
  ghost function Reformatted(f: Frame, j: Joystick): Frame {
    Edited(Edited(f, JOYSTICK_X, SetNumber(Print(j.x, 8))), JOYSTICK_Y, SetNumber(Print(j.y, 8)))
  }

  /** Reformatting the text of a frame reformats the tree; each of the two members may be absent. */
  lemma ReformatEditsTree(f: Frame, j: Joystick, cap: nat)
    requires IsFrame(f) && IsReadable(f, JOYSTICK_X) && IsReadable(f, JOYSTICK_Y)
    requires FrameText.Reformat(Render(f), j, cap).Some?
    ensures FrameText.Reformat(Render(f), j, cap).value == Render(Reformatted(f, j))
    ensures IsFrame(Reformatted(f, j))
  {
    hide Lookup, IsFrame, Edited, Print, Render, ReplaceValue, IsName, IsNumber, IsNumberMember;
    NamesAreNames();
    JoystickNamesAreUntouched(JOYSTICK_X);
    PrintIsNumber(j.x, 8);
    PrintIsNumber(j.y, 8);
    var e := SetNumber(Print(j.x, 8));
    var g := Edited(f, JOYSTICK_X, e);
    EditedIsFrame(f, JOYSTICK_X, e);
    EditedKeeps(f, JOYSTICK_X, e, JOYSTICK_Y);
    ReplaceEditsTree(f, JOYSTICK_X, j.x, cap);
    ReplaceEditsTree(g, JOYSTICK_Y, j.y, cap);
    EditedIsFrame(g, JOYSTICK_Y, SetNumber(Print(j.y, 8)));
  }

  lemma ReformattedIsFilled(f: Frame, j: Joystick)
    requires IsFilled(f)
    ensures IsFilled(Reformatted(f, j))
  {
    hide IsFilled, Edited, Print, IsNumber;
    PrintIsNumber(j.x, 8);
    PrintIsNumber(j.y, 8);
    EditedIsFilled(f, JOYSTICK_X, SetNumber(Print(j.x, 8)));
    EditedIsFilled(Edited(f, JOYSTICK_X, SetNumber(Print(j.x, 8))), JOYSTICK_Y, SetNumber(Print(j.y, 8)));
  }

  // ----- The theorem -----

  /** What a frame becomes, as edits of its tree: stamped; the corrected time appended to the
      top-level object; joystick values re-rendered if both render; the motor positions
      appended. */
  ghost function Corrected(f: Frame, t1: real, t2: real, window: seq<Sample>): Frame {
    var s := Sample(t1, TransferOf(TimesIn(f, t1, t2)));
    Appended(Stamped(f, t1, t2), [Added(CORRECTED, Print(CorrectedBy(window, s), 6))])
  }

  ghost function Controlled(f: Frame, j: Option<Joystick>): Frame {
    if j.Some? && RendersIn(j.value.x, 8) && RendersIn(j.value.y, 8) then Reformatted(f, j.value) else f
  }

  ghost function Driven(f: Frame, m: Option<Motors>): Frame {
    if m.Some? then Appended(f, MotorMembers(m.value)) else f
  }

  ghost function Bridged<S>(rig: Rig<S>, b: Bridge<S>, f: Frame, t1: real, t2: real): Frame
    requires b.motor.Valid()
  {
    var j := JoystickIn(f);
    Driven(Controlled(Corrected(f, t1, t2, b.window), j), Infer(rig, b.motor, j).1)
  }

  lemma CorrectedIsFilled(f: Frame, t1: real, t2: real, window: seq<Sample>)
    requires IsFilled(f)
    ensures IsFilled(Corrected(f, t1, t2, window))
  {
    hide Print, CorrectedBy, Stamped, TimesIn, Appended;
    var s := Sample(t1, TransferOf(TimesIn(f, t1, t2)));
    StampedIsFrame(f, t1, t2);
    hide IsFrame;
    CorrectedMembersAreOk(CorrectedBy(window, s));
    AppendedIsFilled(Stamped(f, t1, t2), [Added(CORRECTED, Print(CorrectedBy(window, s), 6))]);
  }

  lemma CorrectedMembersAreOk(x: real)
    ensures AddedOk([Added(CORRECTED, Print(x, 6))])
  {
    hide Print, IsNumber, IsName, PlainString;
    NamesAreNames();
    NameIsString(CORRECTED);
    PrintIsNumber(x, 6);
  }

  lemma MotorMembersAreOk(m: Motors)
    ensures AddedOk(MotorMembers(m))
  {
    hide Print, IsNumber, IsName, PlainString;
    NamesAreNames();
    NameIsString(MOTOR_1);
    NameIsString(MOTOR_2);
    NameIsString(MOTOR_3);
    NameIsString(MOTOR_4);
    PrintIsNumber(m.m1, 6);
    PrintIsNumber(m.m2, 6);
    PrintIsNumber(m.m3, 6);
    PrintIsNumber(m.m4, 6);
  }

  /** The correction, as an edit of the tree. */
  lemma CorrectionEditsTree(f: Frame, c: real)
    requires IsFilled(f)
    requires AppendField(Render(f), CORRECTED, c, MAX_BRIDGED).None? <==> LastBrace(Render(f)).None?
    ensures WithCorrection(Render(f), c) == Render(Appended(f, [Added(CORRECTED, Print(c, 6))]))
  {
    hide Render, Members, InsertBeforeBrace, Print, LastBrace, IsFrame, Appended;
    InsertEditsTree(f, [Added(CORRECTED, Print(c, 6))], MAX_BRIDGED);
  }

  lemma MotorsEditTree(f: Frame, m: Motors)
    requires IsFilled(f)
    requires AppendMotors(Render(f), m, MAX_BRIDGED).None? <==> LastBrace(Render(f)).None?
    ensures WithMotors(Render(f), Some(m)) == Render(Driven(f, Some(m)))
    ensures IsFrame(Driven(f, Some(m)))
  {
    InsertEditsTree(f, MotorMembers(m), MAX_BRIDGED);
    MotorMembersAreOk(m);
    hide Render, Members, InsertBeforeBrace, Print, LastBrace, WellFormedEntries, AddedOk;
    AppendIsWellFormed(f.entries, MotorMembers(m));
  }

  lemma NoMotors(f: Frame)
    ensures WithMotors(Render(f), None) == Render(Driven(f, None))
  {
    hide Render;
  }

  /** The joystick stage cannot cut the frame: y renders, or x does not and is not written, or x
      stands there just as it is rendered. */
  ghost predicate CutsNothing(f: Frame) {
    var j := JoystickIn(f);
    j.Some? && RendersIn(j.value.x, 8) && !RendersIn(j.value.y, 8) ==>
      NumberIn(f, JOYSTICK_X) == Some(Print(j.value.x, 8))
  }

  /** The joystick stage is the edit of the tree if and only if it cuts nothing; a cut frame has
      the length it had. */
  lemma ControlEditsTreeIff(f: Frame, j: Option<Joystick>)
    requires IsFilled(f) && j == JoystickIn(f) && |Render(f)| <= 832
    ensures WithJoystick(Render(f), j) == Render(Controlled(f, j)) <==> CutsNothing(f)
    ensures !CutsNothing(f) ==> Controlled(f, j) == f && |WithJoystick(Render(f), j)| == |Render(f)|
    ensures IsFilled(Controlled(f, j)) && |Render(Controlled(f, j))| <= 892
  {
    hide Render, IsFrame, Reformatted, RendersIn, NumberIn, ParseSpan, FailedReformat, ExtractJoystick,
         IsReadable, ReplaceValue, HitIn;
    if j.Some? {
      TextHasJoystick(f);
      JoystickFits(Render(f), j.value);
      JoystickIsReadable(f);
      if RendersIn(j.value.x, 8) && RendersIn(j.value.y, 8) {
        ReformatEditsTree(f, j.value, MAX_BRIDGED);
        ReformattedIsFilled(f, j.value);
      } else {
        FailedControl(f, j.value);
        FailedLength(Render(f), j.value);
      }
    }
  }

  lemma FailedLength(s: Bytes, j: Joystick)
    requires FrameText.Reformat(s, j, MAX_BRIDGED).None?
    ensures WithJoystick(s, Some(j)) == FailedReformat(s, j, MAX_BRIDGED)
    ensures |FailedReformat(s, j, MAX_BRIDGED)| == |s|
  {
    hide ReplaceValue;
  }

  lemma JoystickIsReadable(f: Frame)
    requires JoystickIn(f).Some?
    ensures IsReadable(f, JOYSTICK_X) && IsReadable(f, JOYSTICK_Y) && Lookup(Top(f), JOYSTICK_X).Some?
  {
    hide Lookup, IsNumberMember, ParseSpan;
  }

  /** What is left of the text when the reformat fails. */
  lemma FailedControl(f: Frame, j: Joystick)
    requires IsFrame(f) && Some(j) == JoystickIn(f) && |Render(f)| <= 832
    requires FrameText.Reformat(Render(f), j, MAX_BRIDGED).None?
    requires !RendersIn(j.x, 8) || !RendersIn(j.y, 8)
    ensures FailedReformat(Render(f), j, MAX_BRIDGED) == Render(f) <==>
            (RendersIn(j.x, 8) && !RendersIn(j.y, 8) ==> NumberIn(f, JOYSTICK_X) == Some(Print(j.x, 8)))
  {
    JoystickIsReadable(f);
    NamesAreNames();
    hide Render, IsFrame, RendersIn, ParseSpan, FrameText.Reformat, FailedReformat, IsReadable, ReplaceValue, HitIn,
         Lookup, IsName, Print, Find, Key, IsNumberMember;
    var s := Render(f);
    LocatesInFrame(f, JOYSTICK_X);
    ValueInFrame(f, JOYSTICK_X);
    ReplaceGrowth(s, JOYSTICK_X, j.x);
    FailedReformatKeepsFrameIff(s, j, MAX_BRIDGED);
    TextGoesOn(f, JOYSTICK_X);
  }

  /** Text follows every number of a frame. */
  lemma TextGoesOn(f: Frame, name: Bytes)
    requires IsFrame(f) && IsName(name) && NumberIn(f, name).Some?
    ensures Locate(Render(f), Key(name)).Some?
    ensures Locate(Render(f), Key(name)).value.tail.after != []
  {
    hide Render, IsFrame, Lookup, IsName, Find, Key, HitIn, CutTail;
    LocatesInFrame(f, name);
    ValueInFrame(f, name);
    var field := Locate(Render(f), Key(name)).value;
    FrameEnds(f);
    FieldSplits(Render(f), name, field);
    var front := field.before + (Key(name) + field.tail.blanks);
    assert Render(f) == front + (field.tail.value + field.tail.after);
    NumberAtEnd(front, field.tail.value, field.tail.after);
  }

  lemma NumberAtEnd(front: Bytes, value: Bytes, after: Bytes)
    requires AllNumeric(value) && value != []
    ensures var s := front + (value + after);
      s != [] && (after == [] ==> IsNumeric(s[|s| - 1]))
  {
    assert after == [] ==> (front + (value + after))[|front| + |value| - 1] == value[|value| - 1];
  }

  /** The text of a frame ends in a closing brace and white space. */
  lemma FrameEnds(f: Frame)
    requires IsFrame(f)
    ensures Render(f) != [] && !IsNumeric(Render(f)[|Render(f)| - 1])
    ensures '}' in Render(f)
  {
    var end := "}" + f.trail;
    assert |end| == 1 + |f.trail| && (f.trail != [] ==> IsWhite(f.trail[|f.trail| - 1]));
    assert end[|end| - 1] == if f.trail == [] then '}' else f.trail[|f.trail| - 1];
    assert !IsNumeric(end[|end| - 1]);
    assert end[0] == '}';
    ShowEntriesTail(f.entries, [], end);
    assert [] + end == end;
    hide ShowEntries;
    var front := f.lead + ("{" + (f.pad + ShowEntries(f.entries, [])));
    EntryAssoc(f.lead, "{", f.pad, ShowEntries(f.entries, []), end);
    assert Render(f) == front + end;
    hide Render;
    assert Render(f)[|front|] == '}';
    assert Render(f)[|front| + |end| - 1] == end[|end| - 1];
  }

  /** The stages before the joystick change no joystick value, and not the text of x. */
  lemma CorrectedKeepsJoystick(f: Frame, t1: real, t2: real, window: seq<Sample>)
    requires IsFilled(f)
    requires StampFrame(Render(f), t1, t2, MAX_BRIDGED) == Some(Render(Stamped(f, t1, t2)))
    requires var g := Corrected(f, t1, t2, window);
      var s := Sample(t1, TransferOf(TimesIn(f, t1, t2)));
      WithCorrection(Render(Stamped(f, t1, t2)), CorrectedBy(window, s)) == Render(g)
    ensures var g := Corrected(f, t1, t2, window);
      JoystickIn(g) == JoystickIn(f) && NumberIn(g, JOYSTICK_X) == NumberIn(f, JOYSTICK_X)
  {
    CorrectedIsFilled(f, t1, t2, window);
    hide Render, Stamped, StampFrame, WithCorrection, ExtractJoystick, JoystickIn, CorrectedBy, Corrected, TimesIn,
         NumberIn, Lookup, IsName, ValueText, IsFrame;
    var g := Corrected(f, t1, t2, window);
    var s := Sample(t1, TransferOf(TimesIn(f, t1, t2)));
    var stamped := Render(Stamped(f, t1, t2));
    ExtractionSurvivesStamp(Render(f), t1, t2, MAX_BRIDGED);
    CorrectionKeepsJoystick(stamped, CorrectedBy(window, s));
    TextHasJoystick(f);
    TextHasJoystick(g);
    NamesAreNames();
    JoystickNamesAreUntouched(JOYSTICK_X);
    StampKeepsField(Render(f), t1, t2, MAX_BRIDGED, JOYSTICK_X);
    CorrectionKeepsField(stamped, CorrectedBy(window, s), JOYSTICK_X);
    ValueInFrame(f, JOYSTICK_X);
    ValueInFrame(g, JOYSTICK_X);
  }

  /** The frame is dropped by the stamp: one of its times does not render. */
  ghost predicate IsDropped(f: Frame, t1: real, t2: real) {
    TimesIn(f, t1, t2).Some? && !StampRenders(t1, t2, TimesIn(f, t1, t2).value)
  }

  /** What is asked of a frame: it has a member, and its sent time can be read. */
  ghost predicate IsControl(f: Frame) {
    IsFilled(f) && SentReadable(f)
  }

  /** From any state with headroom, forwarding the text of a frame forwards the edited frame. */
  lemma ForwardEditsTree<S>(rig: Rig<S>, b: Bridge<S>, f: Frame, t1: real, t2: real)
    requires 0.0 < rig.alpha <= 1.0 && HasHeadroom(b)
    requires IsControl(f) && |Render(f)| <= MAX_RAW
    ensures var out := Forward(rig, b, Render(f), t1, t2).1;
      && (out.None? <==> IsDropped(f, t1, t2))
      && (out.Some? ==> (out.value == Render(Bridged(rig, b, f, t1, t2)) <==> CutsNothing(f)))
    ensures IsFrame(Bridged(rig, b, f, t1, t2))
  {
    hide Render, StampFrame, FrameTimes, ExtractJoystick, JoystickIn, IsFrame, Infer, CorrectedBy, Feed, Stamped,
         TimesIn, RendersIn, StampRenders, Lookup, WithCorrection, WithJoystick, WithMotors, SentReadable, NumberIn,
         Appended, Reformatted, LastBrace, Print, SentName, IsDropped, Controlled, Driven, Corrected;
    var raw := Render(f);
    StampPassesIff(f, t1, t2);
    TextHasJoystick(f);
    ForwardFits(rig, b, raw, t1, t2);
    var j := JoystickIn(f);
    var m := Infer(rig, b.motor, j).1;
    BridgedIsFrame(f, t1, t2, b.window, j, m);
    if !IsDropped(f, t1, t2) {
      var c := CorrectedBy(b.window, Sample(t1, TransferOf(TimesIn(f, t1, t2))));
      var g2 := Corrected(f, t1, t2, b.window);
      StagesAreSmall(rig, b, raw, t1, t2);
      CorrectedEditsTree(f, t1, t2, b.window);
      CorrectedKeepsJoystick(f, t1, t2, b.window);
      ControlEditsTreeIff(g2, j);
      MotorsEditTreeIff(Controlled(g2, j), WithJoystick(Render(g2), j), m);
    }
  }

  lemma CorrectedEditsTree(f: Frame, t1: real, t2: real, window: seq<Sample>)
    requires IsFilled(Stamped(f, t1, t2)) && |Render(Stamped(f, t1, t2))| <= 767
    requires |Print(CorrectedBy(window, Sample(t1, TransferOf(TimesIn(f, t1, t2)))), 6)| <= 32
    ensures var c := CorrectedBy(window, Sample(t1, TransferOf(TimesIn(f, t1, t2))));
      WithCorrection(Render(Stamped(f, t1, t2)), c) == Render(Corrected(f, t1, t2, window))
    ensures |Render(Corrected(f, t1, t2, window))| <= 832
  {
    hide Render, Stamped, TimesIn, CorrectedBy, Appended, IsFilled, WithCorrection, AppendField, LastBrace, Print;
    var c := CorrectedBy(window, Sample(t1, TransferOf(TimesIn(f, t1, t2))));
    CorrectionFits(Render(Stamped(f, t1, t2)), c);
    CorrectionEditsTree(Stamped(f, t1, t2), c);
  }

  /** The motor stage, behind a text that is the frame's or at least as long: it makes the edited
      frame of the frame's text only. */
  lemma MotorsEditTreeIff(f: Frame, s: Bytes, m: Option<Motors>)
    requires IsFilled(f) && |Render(f)| <= 892 && (m.Some? ==> SmallMotors(m.value))
    requires s == Render(f) || |s| == |Render(f)|
    ensures WithMotors(s, m) == Render(Driven(f, m)) <==> s == Render(f)
  {
    hide Render, IsFrame, WithMotors, SmallMotors, LastBrace, Appended, AppendMotors;
    if m.Some? {
      MotorsFit(Render(f), m.value);
      MotorsEditTree(f, m.value);
      FrameEnds(f);
      if s != Render(f) { MotorsTellApart(Render(f), s, m.value); }
    } else {
      NoMotors(f);
      NothingAdded(s);
    }
  }

  lemma NothingAdded(s: Bytes)
    ensures WithMotors(s, None) == s
  {
  }

  /** Texts of one length that differ still do when motor positions were appended. */
  lemma MotorsTellApart(s: Bytes, c: Bytes, m: Motors)
    requires |s| == |c| && s != c && '}' in s
    ensures WithMotors(s, Some(m)) != WithMotors(c, Some(m))
  {
    hide LastBrace, Members, MotorMembers;
    var text := Members(MotorMembers(m));
    MotorTextIsThere(m);
    if |text| < MOTOR_CAP && |s| + |text| <= MAX_BRIDGED {
      var p := LastBrace(s).value;
      if LastBrace(c).Some? {
        var q := LastBrace(c).value;
        if s[..p] + (text + s[p..]) == c[..q] + (text + c[q..]) { SamePlace(s, p, c, q, text); }
      }
    }
  }

  /** An insertion before the last brace can be undone. */
  lemma SamePlace(s: Bytes, p: nat, c: Bytes, q: nat, text: Bytes)
    requires |s| == |c| && p < |s| && q < |c| && s[p] == '}' && c[q] == '}'
    requires forall i | p < i < |s| :: s[i] != '}'
    requires forall i | q < i < |c| :: c[i] != '}'
    requires s[..p] + (text + s[p..]) == c[..q] + (text + c[q..])
    ensures s == c
  {
    var u := s[..p] + (text + s[p..]);
    assert u[p + |text|] == s[p] && u[q + |text|] == c[q];
    assert forall i | p < i < |s| :: u[i + |text|] == s[i];
    assert forall i | q < i < |c| :: u[i + |text|] == c[i];
    assert p == q;
    assert u[..p] == s[..p] && u[p + |text|..] == s[p..];
    assert u[..q] == c[..q] && u[q + |text|..] == c[q..];
    assert s == s[..p] + s[p..] && c == c[..q] + c[q..];
  }

  lemma MotorTextIsThere(m: Motors)
    ensures Members(MotorMembers(m)) != []
  {
  }

  lemma BridgedIsFrame(f: Frame, t1: real, t2: real, window: seq<Sample>, j: Option<Joystick>, m: Option<Motors>)
    requires IsFilled(f)
    ensures IsFilled(Stamped(f, t1, t2)) && IsFilled(Corrected(f, t1, t2, window))
    ensures IsFrame(Driven(Controlled(Corrected(f, t1, t2, window), j), m))
  {
    StampedIsFrame(f, t1, t2);
    hide Stamped, Corrected, AddedOk, Appended, MotorMembers, Reformatted, RendersIn;
    CorrectedIsFilled(f, t1, t2, window);
    var g := Corrected(f, t1, t2, window);
    if j.Some? { ReformattedIsFilled(g, j.value); }
    if m.Some? {
      MotorMembersAreOk(m.value);
      AppendedIsFilled(Controlled(g, j), MotorMembers(m.value));
    }
    hide IsFrame;
  }

  /** A frame is stamped if and only if its times render. */
  lemma StampPassesIff(f: Frame, t1: real, t2: real)
    requires IsFrame(f) && SentReadable(f) && |Render(f)| <= MAX_RAW
    ensures StampFrame(Render(f), t1, t2, MAX_BRIDGED)
         == if IsDropped(f, t1, t2) then None else Some(Render(Stamped(f, t1, t2)))
    ensures FrameTimes(Render(f), t1, t2) == TimesIn(f, t1, t2)
  {
    hide Render, IsFrame, Lookup, StampRenders, SentName, ParseSpan, Stamped, SentReadable, StampFrame;
    TextHasSentMember(f);
    TimesOfText(f, t1, t2);
    StampDropsIff(Render(f), t1, t2);
    if StampFrame(Render(f), t1, t2, MAX_BRIDGED).Some? {
      StampEditsTree(f, t1, t2, MAX_BRIDGED);
    }
  }

  /** The times of any frame are those of its sent-time member, which counts as 0 where it
      cannot be read. */
  lemma TimesOfText(f: Frame, t1: real, t2: real)
    requires IsFrame(f)
    ensures FrameTimes(Render(f), t1, t2) == TimesIn(f, t1, t2)
  {
    hide Render, IsFrame, Lookup, SentName, ParseSpan, SentMember, IsName, Locate, NumberIn, Find, Key;
    TextHasSentMember(f);
    if SentMember(f).Some? {
      SentMemberIsThere(f);
      NamesAreNames();
      ValueInFrame(f, SentMember(f).value);
    }
  }

  /** The text edit is the structural edit. After any run, for any well-formed non-empty frame of
      at most 512 bytes whose sent-time member, if any, is a number: the frame is dropped if and
      only if one of its times does not render; otherwise the payload is the text of the tree with
      the leftmost sent-time member renamed and the four timing members in place after it, the
      corrected time and the motor positions appended to the top-level object, and the joystick
      values re-rendered if both render, if and only if the joystick stage cuts nothing; and that
      tree is well formed again. */
  lemma TextEditIsStructuralEdit<S>(rig: Rig<S>, npu: bool, es: seq<Event>, f: Frame, t1: real, t2: real)
    requires 0.0 < rig.alpha <= 1.0
    requires IsControl(f) && |Render(f)| <= MAX_RAW
    ensures var b := After(rig, npu, es).bridge;
      var (next, out) := Forward(rig, b, Render(f), t1, t2);
      var g := Bridged(rig, b, f, t1, t2);
      && (out.None? <==> IsDropped(f, t1, t2))
      && (out.Some? ==> (out.value == Render(g) <==> CutsNothing(f)))
      && next.payload == (if out.Some? then out.value else b.payload)
      && IsFrame(g)
  {
    hide Render, IsFrame, IsControl, Bridged, IsDropped, Forward, CutsNothing;
    AlwaysHasHeadroom(rig, npu, es);
    var b := After(rig, npu, es).bridge;
    ForwardEditsTree(rig, b, f, t1, t2);
    ForwardShows(rig, b, Render(f), t1, t2);
  }

  // ----- A frame the theorem speaks of -----

  /** `{"ntp_time":0,"joystick_x":0,"joystick_y":0}`, with the zeros as the bridge prints them. */
  ghost function ZeroFrame(): Frame {
    var zero := Scalar(Print(0.0, 6));
    Frame([], [],
          Entry([], NTP_TIME, [], zero, [],
                Entry([], JOYSTICK_X, [], zero, [],
                      Entry([], JOYSTICK_Y, [], zero, [], NoEntries))), [])
  }

  lemma ZeroFrameMembers()
    ensures var zero := Some(Found([], Scalar(Print(0.0, 6))));
      && Lookup(Top(ZeroFrame()), NTP_TIME) == zero
      && Lookup(Top(ZeroFrame()), TIMESTAMP) == None
      && Lookup(Top(ZeroFrame()), JOYSTICK_X) == zero
      && Lookup(Top(ZeroFrame()), JOYSTICK_Y) == zero
    ensures IsFrame(ZeroFrame()) && |Render(ZeroFrame())| <= MAX_RAW
  {
    hide Print, IsNumber, IsName, PlainString;
    NamesAreNames();
    NameLengths();
    NameIsString(NTP_TIME);
    NameIsString(JOYSTICK_X);
    NameIsString(JOYSTICK_Y);
    PrintIsNumber(0.0, 6);
    PositionRenders(0.0);
    JoystickNamesAreUntouched(JOYSTICK_X);
    JoystickNamesAreUntouched(JOYSTICK_Y);
    ShowWidth(Top(ZeroFrame()), []);
    hide Show;
    assert Render(ZeroFrame()) == Show(Top(ZeroFrame()), []);
  }

  /** The conditions of the theorem can be met together, by a frame that is not dropped. */
  lemma ZeroFrameQualifies()
    ensures var f := ZeroFrame();
      && IsControl(f) && |Render(f)| <= MAX_RAW
      && TimesIn(f, 0.0, 0.0).Some? && !IsDropped(f, 0.0, 0.0) && CutsNothing(f)
      && JoystickIn(f).Some?
      && RendersIn(JoystickIn(f).value.x, 8) && RendersIn(JoystickIn(f).value.y, 8)
  {
    ZeroFrameReads();
    hide Print, IsNumber, Lookup, Render, IsFrame, RendersIn, ZeroFrame, Top, IsReadable, TimesIn, JoystickIn;
    ZeroFrameMembers();
    ZeroRenders();
    ZeroRenders8();
  }

  lemma ZeroFrameReads()
    ensures var f := ZeroFrame();
      && f.entries.Entry?
      && IsReadable(f, NTP_TIME) && IsReadable(f, TIMESTAMP)
      && IsReadable(f, JOYSTICK_X) && IsReadable(f, JOYSTICK_Y)
      && TimesIn(f, 0.0, 0.0) == Some(Times(0.0, 0.0))
      && JoystickIn(f) == Some(Joystick(0.0, 0.0))
  {
    PrintIsNumber(0.0, 6);
    ZeroRenders();
    ParseRendered(0.0, 6);
    ZeroRounds();
    ZeroFrameMembers();
    hide Print, IsNumber, Lookup, RendersIn, Rounded, ParseSpan, Top, IsReadable, TimesIn, JoystickIn;
    ReadsZero(ZeroFrame(), Print(0.0, 6));
  }

  lemma ReadsZero(f: Frame, z: Bytes)
    requires IsNumber(z) && ParseSpan(z) == 0.0
    requires Lookup(Top(f), NTP_TIME) == Some(Found([], Scalar(z))) && Lookup(Top(f), TIMESTAMP) == None
    requires Lookup(Top(f), JOYSTICK_X) == Some(Found([], Scalar(z)))
    requires Lookup(Top(f), JOYSTICK_Y) == Some(Found([], Scalar(z)))
    ensures IsReadable(f, NTP_TIME) && IsReadable(f, TIMESTAMP)
    ensures IsReadable(f, JOYSTICK_X) && IsReadable(f, JOYSTICK_Y)
    ensures TimesIn(f, 0.0, 0.0) == Some(Times(0.0, 0.0))
    ensures JoystickIn(f) == Some(Joystick(0.0, 0.0))
  {
    hide Lookup, ParseSpan, IsNumber, Top;
  }

  lemma ZeroRounds()
    ensures Rounded(0.0, 6) == 0.0
  {
    hide Pow10;
    assert RoundHalfToEven(Scaled(0.0, 6)) == 0;
  }

  lemma ZeroRenders8()
    ensures RendersIn(0.0, 8)
  {
    hide Pow10, Print;
    assert RoundHalfToEven(Scaled(0.0, 8)) == 0;
    assert Units(0.0, 8) < Pow10(9);
    PrintLength(0.0, 8, 1);
  }
}
