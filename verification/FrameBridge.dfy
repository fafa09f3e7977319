/**
  `frame_bridge.cpp` on arrays: searches by index loops, frames built piece by piece, values
  and members spliced in place. A buffer holds a frame in its first `len` bytes; what lies
  beyond is stale. Each method is proved against its function in `FrameText`, so it depends on
  no stale byte.
 */
module FrameBridge {
  import opened Options
  import opened Search
  import opened Decimal
  import opened FrameText

  // ----- Memory moves -----

  /** `memmove`: the ranges may overlap. */
  method MemMove(buf: array<char>, dst: nat, src: nat, n: nat)
    requires dst + n <= buf.Length && src + n <= buf.Length
    modifies buf
    ensures buf[dst..dst + n] == old(buf[src..src + n])
    ensures forall i | 0 <= i < buf.Length && !(dst <= i < dst + n) :: buf[i] == old(buf[i])
  {
    forall i | 0 <= i < n {
      buf[dst + i] := buf[src + i];
    }
  }

  /** `memcpy` of bytes that are not in the buffer. */
  method MemCpy(buf: array<char>, dst: nat, bytes: Bytes)
    requires dst + |bytes| <= buf.Length
    modifies buf
    ensures buf[dst..dst + |bytes|] == bytes
    ensures forall i | 0 <= i < buf.Length && !(dst <= i < dst + |bytes|) :: buf[i] == old(buf[i])
  {
    forall i | 0 <= i < |bytes| {
      buf[dst + i] := bytes[i];
    }
  }

  /** The move both splices make: the tail goes where it will end up, then the text fills the
      gap. What is left is the prefix, the text and the old tail. */
  method Splice(buf: array<char>, start: nat, end: nat, len: nat, text: Bytes)
    requires start <= end <= len <= buf.Length
    requires start + |text| + (len - end) <= buf.Length
    modifies buf
    ensures buf[..start + |text| + (len - end)] == old(buf[..len])[..start] + (text + old(buf[end..len]))
    ensures forall i | start + |text| + (len - end) <= i < buf.Length :: buf[i] == old(buf[i])
  {
    var tailLen := len - end;
    ghost var s0 := buf[..];
    MemMove(buf, start + |text|, end, tailLen);
    ghost var s1 := buf[..];
    assert s1[start + |text|..start + |text| + tailLen] == s0[end..len];
    MemCpy(buf, start, text);
    SpliceIs(s0, s1, buf[..], start, end, len, text);
  }

  lemma SpliceIs(s0: Bytes, s1: Bytes, s2: Bytes, start: nat, end: nat, len: nat, text: Bytes)
    requires |s0| == |s1| == |s2| && start <= end <= len <= |s0|
    requires start + |text| + (len - end) <= |s0|
    requires s1[start + |text|..start + |text| + (len - end)] == s0[end..len]
    requires forall i | 0 <= i < start :: s1[i] == s0[i]
    requires s2[start..start + |text|] == text
    requires forall i | 0 <= i < |s0| && !(start <= i < start + |text|) :: s2[i] == s1[i]
    ensures s2[..start + |text| + (len - end)] == s0[..len][..start] + (text + s0[end..len])
  {
    var (j, k) := (start + |text|, start + |text| + (len - end));
    SamePrefix(s0, s2, len, start);
    SameSlice(s1, s2, j, k);
    CutInThree(s2, start, j, k);
  }

  lemma SamePrefix(s: Bytes, t: Bytes, len: nat, k: nat)
    requires k <= len <= |s| && k <= |t|
    requires forall i | 0 <= i < k :: t[i] == s[i]
    ensures t[..k] == s[..len][..k] == s[..k]
  {
  }

  lemma SameSlice(s: Bytes, t: Bytes, j: nat, k: nat)
    requires j <= k <= |s| && k <= |t|
    requires forall i | j <= i < k :: t[i] == s[i]
    ensures t[j..k] == s[j..k]
  {
  }

  lemma CutInThree(s: Bytes, i: nat, j: nat, k: nat)
    requires i <= j <= k <= |s|
    ensures s[..k] == s[..i] + (s[i..j] + s[j..k])
  {
  }

  // ----- Searching -----

  method FindSubstr(hay: array<char>, len: nat, needle: Bytes) returns (r: Option<nat>)
    requires len <= hay.Length
    ensures r == Find(hay[..len], needle)
  {
    NothingIsNotFound(hay[..len]);
    hide Find, FindFrom;
    if |needle| == 0 || |needle| > len {
      return None;
    }
    var i := 0;
    ghost var s := hay[..len];
    FindFromStart(s, needle);
    while i + |needle| <= len
      invariant i <= len
      invariant Find(s, needle) == FindFrom(s, needle, i)
    {
      SearchStep(hay[..], len, needle, i);
      if hay[i..i + |needle|] == needle {
        return Some(i);
      }
      i := i + 1;
    }
    SearchEnd(s, needle, i);
    return None;
  }

  /** What is found from index `i` on. */
  ghost function FindFrom(s: Bytes, needle: Bytes, i: nat): Option<nat>
    requires i <= |s|
  {
    Shift(i, Find(s[i..], needle))
  }

  lemma NothingIsNotFound(s: Bytes)
    ensures Find(s, []).None?
  {
  }

  lemma FindFromStart(s: Bytes, needle: Bytes)
    ensures FindFrom(s, needle, 0) == Find(s, needle)
  {
    assert s[0..] == s;
  }

  lemma SearchStep(hay: Bytes, len: nat, needle: Bytes, i: nat)
    requires needle != [] && i + |needle| <= len <= |hay|
    ensures var s := hay[..len];
      FindFrom(s, needle, i) == if hay[i..i + |needle|] == needle then Some(i) else FindFrom(s, needle, i + 1)
  {
    var s := hay[..len];
    var t := s[i..];
    assert t[..|needle|] == hay[i..i + |needle|];
    assert t[1..] == s[i + 1..];
  }

  lemma SearchEnd(s: Bytes, needle: Bytes, i: nat)
    requires i <= |s| < i + |needle|
    ensures FindFrom(s, needle, i).None?
  {
  }

  /** The value span that starts after `keyEnd`: from the first non-blank, as long as it goes. */
  method FindValueSpan(buf: array<char>, len: nat, keyEnd: nat) returns (start: nat, end: nat)
    requires keyEnd <= len <= buf.Length
    ensures keyEnd <= start <= end <= len
    ensures CutTail(buf[..len][keyEnd..]) == SpanTail(buf[..len], keyEnd, start, end)
  {
    hide CutTail, BlankRun, NumericRun;
    start := SkipBlanks(buf, len, keyEnd);
    end := SkipNumeric(buf, len, start);
    SpanIsTail(buf[..len], keyEnd, start, end);
  }

  /** The blanks, value and rest that two indices cut out of a text. */
  function SpanTail(s: Bytes, keyEnd: nat, start: nat, end: nat): Tail
    requires keyEnd <= start <= end <= |s|
  {
    Tail(s[keyEnd..start], s[start..end], s[end..])
  }

  lemma SpanIsField(s: Bytes, name: Bytes, keyStart: nat, start: nat, end: nat)
    requires Find(s, Key(name)) == Some(keyStart)
    requires keyStart + |Key(name)| <= start <= end <= |s|
    requires CutTail(s[keyStart + |Key(name)|..]) == SpanTail(s, keyStart + |Key(name)|, start, end)
    ensures Locate(s, Key(name)) == Some(Field(s[..keyStart], SpanTail(s, keyStart + |Key(name)|, start, end)))
  {
    hide Find, CutTail, Locate, Key, SpanTail;
    LocateAt(s, Key(name), keyStart);
  }

  method SkipBlanks(buf: array<char>, len: nat, from: nat) returns (start: nat)
    requires from <= len <= buf.Length
    ensures from <= start <= len
    ensures BlankRun(buf[..len][from..]) == start - from
  {
    ghost var s := buf[..len];
    start := from;
    while start < len && (buf[start] == ' ' || buf[start] == '\t')
      invariant from <= start <= len
      invariant BlankRun(s[from..]) == start - from + BlankRun(s[start..])
    {
      DropOne(s, start);
      start := start + 1;
    }
    if start < len { DropOne(s, start); }
  }

  method SkipNumeric(buf: array<char>, len: nat, from: nat) returns (end: nat)
    requires from <= len <= buf.Length
    ensures from <= end <= len
    ensures NumericRun(buf[..len][from..]) == end - from
  {
    ghost var s := buf[..len];
    end := from;
    while end < len
      invariant from <= end <= len
      invariant NumericRun(s[from..]) == end - from + NumericRun(s[end..])
    {
      var c := buf[end];
      DropOne(s, end);
      if ('0' <= c <= '9') || c == '.' || c == '-' || c == '+' || c == 'e' || c == 'E' {
        end := end + 1;
      } else {
        return;
      }
    }
  }

  lemma DropOne(s: Bytes, i: nat)
    requires i < |s|
    ensures s[i..] != [] && s[i..][0] == s[i] && s[i..][1..] == s[i + 1..]
  {
  }

  lemma SpanIsTail(s: Bytes, k: nat, start: nat, end: nat)
    requires k <= start <= end <= |s|
    requires BlankRun(s[k..]) == start - k && NumericRun(s[start..]) == end - start
    ensures CutTail(s[k..]) == SpanTail(s, k, start, end)
  {
    hide BlankRun, NumericRun;
    assert s[k..][start - k..] == s[start..];
  }

  /** The sent-time key in use, and where it starts. */
  method FindSentTimeKey(inp: array<char>, len: nat) returns (found: Option<(Bytes, nat)>)
    requires len <= inp.Length
    ensures match SentName(inp[..len])
            case Some(name) => found.Some? && found.value.0 == name
                            && Find(inp[..len], Key(name)) == Some(found.value.1)
            case None => found.None?
  {
    var pos := FindSubstr(inp, len, Key(NTP_TIME));
    if pos.Some? {
      return Some((NTP_TIME, pos.value));
    }
    pos := FindSubstr(inp, len, Key(TIMESTAMP));
    if pos.Some? {
      return Some((TIMESTAMP, pos.value));
    }
    return None;
  }

  // ----- Extraction -----

  method BridgeExtractSentTime(inp: array<char>, len: nat) returns (r: Option<real>)
    requires len <= inp.Length
    ensures r == ExtractSentTime(inp[..len])
  {
    var found := FindSentTimeKey(inp, len);
    match found {
      case None => return None;
      case Some(k) =>
        r := ExtractAt(inp, len, k.0, k.1);
    }
  }

  /** The value after the key of `name` at `pos`. */
  method ExtractAt(inp: array<char>, len: nat, name: Bytes, pos: nat) returns (r: Option<real>)
    requires len <= inp.Length && Find(inp[..len], Key(name)) == Some(pos)
    ensures r == ExtractField(inp[..len], name)
  {
    hide CutTail, Find, Key, ParseSpan, Locate;
    var start, end := FindValueSpan(inp, len, pos + |Key(name)|);
    SpanIsField(inp[..len], name, pos, start, end);
    assert inp[..len][start..end] == inp[start..end];
    if start == end {
      return None;
    }
    return Some(ParseSpan(inp[start..end]));
  }

  method ExtractDoubleField(inp: array<char>, len: nat, name: Bytes) returns (r: Option<real>)
    requires len <= inp.Length
    ensures r == ExtractField(inp[..len], name)
  {
    var pos := FindSubstr(inp, len, Key(name));
    match pos {
      case None => return None;
      case Some(p) =>
        r := ExtractAt(inp, len, name, p);
    }
  }

  method BridgeExtractJoystick(inp: array<char>, len: nat) returns (r: Option<Joystick>)
    requires len <= inp.Length
    ensures r == ExtractJoystick(inp[..len])
  {
    var x := ExtractDoubleField(inp, len, JOYSTICK_X);
    if x.None? {
      return None;
    }
    var y := ExtractDoubleField(inp, len, JOYSTICK_Y);
    if y.None? {
      return None;
    }
    return Some(Joystick(x.value, y.value));
  }

  // ----- Stamping -----

  /** One step of the sequence that builds a frame from left to right. */
  method Append(out: array<char>, pos: nat, bytes: Bytes) returns (next: nat)
    requires pos + |bytes| <= out.Length
    modifies out
    ensures next == pos + |bytes|
    ensures out[..next] == old(out[..pos]) + bytes
    ensures forall i | next <= i < out.Length :: out[i] == old(out[i])
  {
    MemCpy(out, pos, bytes);
    next := pos + |bytes|;
    assert out[..next] == out[..pos] + out[pos..next];
    assert out[..pos] == old(out[..pos]);
  }

  /** Builds the stamped frame in `out`; -1 (None) leaves `out` as it was. The times are
      reported whenever a key is found, also when the frame is then dropped. */
  method BridgeStampFrame(inp: array<char>, len: nat, t1: real, t2: real, out: array<char>, cap: nat)
    returns (r: Option<nat>, times: Option<Times>)
    requires inp != out && len <= inp.Length && cap <= out.Length
    modifies out
    ensures times == FrameTimes(inp[..len], t1, t2)
    ensures match StampFrame(inp[..len], t1, t2, cap)
            case Some(text) => r == Some(|text|) && |text| <= cap && out[..|text|] == text
            case None => r.None? && out[..] == old(out[..])
  {
    hide Find, CutTail, Locate, Print, ParseSpan, Key, StampText, Members;
    ghost var raw := inp[..len];
    var found := FindSentTimeKey(inp, len);
    if found.None? {
      if len > cap {
        return None, None;
      }
      MemCpy(out, 0, inp[..len]);
      return Some(len), None;
    }
    var name, keyStart := found.value.0, found.value.1;
    var keyEnd := keyStart + |Key(name)|;
    var start, end := FindValueSpan(inp, len, keyEnd);
    SpanIsField(raw, name, keyStart, start, end);
    ghost var f := Locate(raw, Key(name)).value;
    SamePrefix(inp[..], inp[..], len, keyStart);
    SamePrefix(inp[..], inp[..], len, end);
    assert f.before == inp[..keyStart] && f.tail.value == inp[start..end] && f.tail.after == inp[end..len];

    var transfer := t1 - ParseSpan(inp[start..end]);
    var processing := t2 - t1;
    times := Some(Times(transfer, processing));

    var forwardText, receivedText := Print(t2, 6), Print(t1, 6);
    var processingText, transferText := Print(processing, 6), Print(transfer, 6);
    if |forwardText| >= VALUE_CAP || |receivedText| >= VALUE_CAP
       || |processingText| >= VALUE_CAP || |transferText| >= VALUE_CAP {
      return None, times;
    }
    var ms := TimingMembers(t1, t2, times.value);
    StampSize(f, ms);
    var total := keyStart + |Key(SENT)| + (end - start)
               + |"," + Key(NTP_TIME)| + |forwardText| + |"," + Key(PROCESSING)| + |processingText|
               + |"," + Key(TRANSFER)| + |transferText| + |"," + Key(RECEIVED)| + |receivedText|
               + (len - end);
    if total > cap {
      return None, times;
    }
    var pos := AppendStamp(out, inp[..keyStart], inp[start..end], ms, inp[end..len]);
    StampPieces(f, ms);
    return Some(pos), times;
  }

  /** The pieces of a stamped frame, one after the other from the start of `out`. */
  method AppendStamp(out: array<char>, before: Bytes, value: Bytes, ms: seq<Added>, after: Bytes)
    returns (pos: nat)
    requires |ms| == 4
    requires |before| + |Key(SENT)| + |value| + |Members(ms)| + |after| <= out.Length
    modifies out
    ensures pos <= out.Length && out[..pos] == [] + before + Key(SENT) + value + Members(ms) + after
  {
    hide Key, Members;
    pos := Append(out, 0, before);
    pos := Append(out, pos, Key(SENT));
    pos := Append(out, pos, value);
    pos := AppendTiming(out, pos, ms);
    pos := Append(out, pos, after);
  }

  /** The four timing members, key and value by turns. */
  method AppendTiming(out: array<char>, start: nat, ms: seq<Added>) returns (pos: nat)
    requires |ms| == 4 && start + |Members(ms)| <= out.Length
    modifies out
    ensures pos == start + |Members(ms)|
    ensures out[..pos] == old(out[..start]) + Members(ms)
    ensures forall i | pos <= i < out.Length :: out[i] == old(out[i])
  {
    hide Members;
    MembersOfFour(ms);
    pos := AppendMember(out, start, ms[0]);
    pos := AppendMember(out, pos, ms[1]);
    pos := AppendMember(out, pos, ms[2]);
    pos := AppendMember(out, pos, ms[3]);
    AppendFour(old(out[..start]), MemberText(ms[0]), MemberText(ms[1]), MemberText(ms[2]), MemberText(ms[3]));
  }

  function MemberText(m: Added): Bytes {
    ("," + Key(m.name)) + m.text
  }

  method AppendMember(out: array<char>, start: nat, m: Added) returns (pos: nat)
    requires start + |MemberText(m)| <= out.Length
    modifies out
    ensures pos == start + |MemberText(m)|
    ensures out[..pos] == old(out[..start]) + MemberText(m)
    ensures forall i | pos <= i < out.Length :: out[i] == old(out[i])
  {
    hide Key;
    pos := Append(out, start, "," + Key(m.name));
    pos := Append(out, pos, m.text);
  }

  lemma MembersOfFour(ms: seq<Added>)
    requires |ms| == 4
    ensures Members(ms) == MemberText(ms[0]) + (MemberText(ms[1]) + (MemberText(ms[2]) + MemberText(ms[3])))
  {
    hide MemberText;
    MembersHead(ms);
    MembersHead(ms[1..]);
    MembersHead(ms[2..]);
    MembersHead(ms[3..]);
    assert Members(ms[4..]) == [];
  }

  lemma MembersHead(ms: seq<Added>)
    requires ms != []
    ensures Members(ms) == MemberText(ms[0]) + Members(ms[1..])
  {
    hide Key;
  }

  lemma AppendFour(s: Bytes, a: Bytes, b: Bytes, c: Bytes, d: Bytes)
    ensures s + a + b + c + d == s + (a + (b + (c + d)))
  {
  }

  lemma StampSize(f: Field, ms: seq<Added>)
    requires |ms| == 4
    ensures |StampText(f, ms)| == |f.before| + |Key(SENT)| + |f.tail.value|
              + |"," + Key(ms[0].name)| + |ms[0].text| + |"," + Key(ms[1].name)| + |ms[1].text|
              + |"," + Key(ms[2].name)| + |ms[2].text| + |"," + Key(ms[3].name)| + |ms[3].text|
              + |f.tail.after|
    ensures |StampText(f, ms)| == |f.before| + |Key(SENT)| + |f.tail.value| + |Members(ms)| + |f.tail.after|
  {
    hide Key, Members;
    MembersOfFour(ms);
  }

  /** The pieces in the order they are appended. */
  lemma StampPieces(f: Field, ms: seq<Added>)
    ensures StampText(f, ms) == [] + f.before + Key(SENT) + f.tail.value + Members(ms) + f.tail.after
  {
    hide Key, Members;
  }

  // ----- Replacing a value -----

  /** Overwrites the value after a key with a printed number, moving what follows it. None (-1)
      leaves the buffer as it was; bytes past the longer of the old and the new frame never change. */
  method ReplaceValueForKey(buf: array<char>, len: nat, cap: nat, name: Bytes, x: real)
    returns (r: Option<nat>)
    requires len <= buf.Length && cap <= buf.Length
    modifies buf
    ensures match ReplaceValue(old(buf[..len]), name, x, cap)
            case Some(text) =>
              && r == Some(|text|) && |text| <= buf.Length && buf[..|text|] == text
              && (forall i | |text| <= i < buf.Length :: buf[i] == old(buf[i]))
            case None => r.None? && buf[..] == old(buf[..])
  {
    hide Find, CutTail, Locate, Print, Key, ReplaceText;
    ghost var s := buf[..len];
    LocateFound(s, Key(name));
    var pos := FindSubstr(buf, len, Key(name));
    if pos.None? {
      return Some(len);
    }
    var keyStart := pos.value;
    var keyEnd := keyStart + |Key(name)|;
    var start, end := FindValueSpan(buf, len, keyEnd);
    SpanIsField(s, name, keyStart, start, end);
    ghost var f := Locate(s, Key(name)).value;
    assert f.tail.after == buf[end..len];

    var text := Print(x, 8);
    if |text| >= VALUE_CAP {
      return None;
    }
    var tailLen := len - end;
    var newLen := start + |text| + tailLen;
    FieldPrefix(s, name, f, start);
    if newLen > cap {
      return None;
    }
    Splice(buf, start, end, len, text);
    ReplacePieces(f, name, text, s[..start]);
    return Some(newLen);
  }

  lemma LocateFound(s: Bytes, key: Bytes)
    ensures Locate(s, key).Some? <==> Find(s, key).Some?
  {
  }

  lemma FieldPrefix(s: Bytes, name: Bytes, f: Field, start: nat)
    requires Locate(s, Key(name)) == Some(f)
    requires start == |f.before| + |Key(name)| + |f.tail.blanks|
    ensures start <= |s| && s[..start] == f.before + (Key(name) + f.tail.blanks)
    ensures forall t: Bytes :: |ReplaceText(f, name, t)| == start + |t| + |f.tail.after|
  {
    hide Find, CutTail;
    LocateCuts(s, Key(name));
  }

  lemma ReplacePieces(f: Field, name: Bytes, t: Bytes, front: Bytes)
    requires front == f.before + (Key(name) + f.tail.blanks)
    ensures ReplaceText(f, name, t) == front + (t + f.tail.after)
  {
    hide Key;
  }

  /** x, then y; when y fails, what x wrote stays in the buffer. */
  method BridgeReformatJoystick(buf: array<char>, len: nat, cap: nat, j: Joystick) returns (r: Option<nat>)
    requires len <= buf.Length && cap <= buf.Length
    modifies buf
    ensures match Reformat(old(buf[..len]), j, cap)
            case Some(text) => r == Some(|text|) && |text| <= buf.Length && buf[..|text|] == text
            case None =>
              && r.None?
              && buf[..len] == FailedReformat(old(buf[..len]), j, cap)
              && buf[..] == FailedBuffer(old(buf[..]), len, j, cap)
  {
    hide Find, CutTail, Print, Key, ReplaceValue;
    var n := ReplaceValueForKey(buf, len, cap, JOYSTICK_X, j.x);
    if n.None? {
      return None;
    }
    r := ReplaceValueForKey(buf, n.value, cap, JOYSTICK_Y, j.y);
    if r.None? {
      OverlayIs(old(buf[..len]), buf[..n.value], buf[..len]);
      OverlayIs(old(buf[..]), buf[..n.value], buf[..]);
    }
  }

  lemma OverlayIs(s: Bytes, s': Bytes, r: Bytes)
    requires |r| == |s|
    requires forall i | 0 <= i < |r| :: r[i] == if i < |s'| then s'[i] else s[i]
    ensures r == Overlay(s, s')
  {
  }

  // ----- Inserting before the last brace -----

  /** Scans back from the end for a '}'. */
  method FindLastBrace(buf: array<char>, len: nat) returns (r: Option<nat>)
    requires len <= buf.Length
    ensures r == LastBrace(buf[..len])
  {
    ghost var s := buf[..len];
    var closePos := len;
    while closePos > 0 && buf[closePos - 1] != '}'
      invariant closePos <= len
      invariant LastBrace(s) == LastBrace(s[..closePos])
    {
      assert s[..closePos][..closePos - 1] == s[..closePos - 1];
      closePos := closePos - 1;
    }
    if closePos == 0 {
      return None;
    }
    return Some(closePos - 1);
  }

  /** Splices `text` before the last '}'; None (-1) leaves the buffer as it was. */
  method InsertBeforeClosingBrace(buf: array<char>, len: nat, cap: nat, text: Bytes)
    returns (r: Option<nat>)
    requires len <= buf.Length && cap <= buf.Length
    modifies buf
    ensures match InsertBeforeBrace(old(buf[..len]), text, cap)
            case Some(s) => r == Some(|s|) && |s| <= cap && buf[..|s|] == s
            case None => r.None? && buf[..] == old(buf[..])
  {
    hide LastBrace;
    var brace := FindLastBrace(buf, len);
    if brace.None? {
      return None;
    }
    var closePos := brace.value;
    var tailLen := len - closePos;
    var total := closePos + |text| + tailLen;
    if total > cap {
      return None;
    }
    Splice(buf, closePos, closePos, len, text);
    return Some(total);
  }

  method BridgeAppendMotorFields(buf: array<char>, len: nat, cap: nat, m: Motors) returns (r: Option<nat>)
    requires len <= buf.Length && cap <= buf.Length
    modifies buf
    ensures match AppendMotors(old(buf[..len]), m, cap)
            case Some(s) => r == Some(|s|) && |s| <= cap && buf[..|s|] == s
            case None => r.None? && buf[..] == old(buf[..])
  {
    hide Members, MotorMembers, InsertBeforeBrace;
    var fields := Members(MotorMembers(m));
    if |fields| >= MOTOR_CAP {
      return None;
    }
    r := InsertBeforeClosingBrace(buf, len, cap, fields);
  }

  method BridgeAppendField(buf: array<char>, len: nat, cap: nat, name: Bytes, x: real) returns (r: Option<nat>)
    requires len <= buf.Length && cap <= buf.Length
    modifies buf
    ensures match AppendField(old(buf[..len]), name, x, cap)
            case Some(s) => r == Some(|s|) && |s| <= cap && buf[..|s|] == s
            case None => r.None? && buf[..] == old(buf[..])
  {
    hide Members, InsertBeforeBrace, Print;
    var field := Members([Added(name, Print(x, 6))]);
    if |field| >= FIELD_CAP {
      return None;
    }
    r := InsertBeforeClosingBrace(buf, len, cap, field);
  }
}
