/**
  The frame rewriter as functions on text: what each operation of `frame_bridge.cpp` makes of
  the bytes it is given. `FrameBridge` proves the array code against these functions;
  `FrameLaws` proves what the source promises about them.
 */
module FrameText {
  import opened Options
  import opened Search
  import opened Decimal

  // ----- The names the bridge reads and writes -----

  const NTP_TIME: Bytes := "ntp_time"
  const TIMESTAMP: Bytes := "timestamp"
  const SENT: Bytes := "controller_sent_ntp_time"
  const PROCESSING: Bytes := "base_station_processing_time"
  const TRANSFER: Bytes := "frame_transfer_time"
  const RECEIVED: Bytes := "controller_to_base_station_received_ntp_time"
  const CORRECTED: Bytes := "frame_transfer_time_corrected"
  const JOYSTICK_X: Bytes := "joystick_x"
  const JOYSTICK_Y: Bytes := "joystick_y"
  const MOTOR_1: Bytes := "motor_1_pos"
  const MOTOR_2: Bytes := "motor_2_pos"
  const MOTOR_3: Bytes := "motor_3_pos"
  const MOTOR_4: Bytes := "motor_4_insertion_pos"

  /** Rendered numbers must leave room for a terminator in their scratch buffers. */
  const VALUE_CAP := 32
  const SPAN_CAP := 64
  const FIELD_CAP := 128
  const MOTOR_CAP := 192

  lemma NamesAreNames()
    ensures IsName(NTP_TIME) && IsName(TIMESTAMP) && IsName(SENT) && IsName(PROCESSING)
    ensures IsName(TRANSFER) && IsName(RECEIVED) && IsName(CORRECTED)
    ensures IsName(JOYSTICK_X) && IsName(JOYSTICK_Y)
    ensures IsName(MOTOR_1) && IsName(MOTOR_2) && IsName(MOTOR_3) && IsName(MOTOR_4)
  {
    hide IsName;
    SentNamesAreNames();
    StampNamesAreNames();
    ReceivedIsName();
    CorrectedIsName();
    ControlNamesAreNames();
  }

  lemma SentNamesAreNames()
    ensures IsName(NTP_TIME) && IsName(TIMESTAMP) && IsName(SENT)
  {
  }

  lemma StampNamesAreNames()
    ensures IsName(PROCESSING) && IsName(TRANSFER)
  {
  }

  lemma ReceivedIsName()
    ensures IsName(RECEIVED)
  {
  }

  lemma CorrectedIsName()
    ensures IsName(CORRECTED)
  {
  }

  lemma ControlNamesAreNames()
    ensures IsName(JOYSTICK_X) && IsName(JOYSTICK_Y)
    ensures IsName(MOTOR_1) && IsName(MOTOR_2) && IsName(MOTOR_3) && IsName(MOTOR_4)
  {
  }

  lemma NameLengths()
    ensures |NTP_TIME| == 8 && |TIMESTAMP| == 9 && |SENT| == 24 && |PROCESSING| == 28
    ensures |TRANSFER| == 19 && |RECEIVED| == 44 && |CORRECTED| == 29
    ensures |JOYSTICK_X| == 10 && |JOYSTICK_Y| == 10
    ensures |MOTOR_1| == 11 && |MOTOR_2| == 11 && |MOTOR_3| == 11 && |MOTOR_4| == 21
  {
  }

  /** The two names that carry the controller's send time. */
  predicate IsSentName(name: Bytes) {
    name == NTP_TIME || name == TIMESTAMP
  }

  /** The names a stamped frame gains. */
  predicate IsStampName(name: Bytes) {
    name == SENT || name == NTP_TIME || name == PROCESSING || name == TRANSFER || name == RECEIVED
  }

  predicate IsMotorName(name: Bytes) {
    name == MOTOR_1 || name == MOTOR_2 || name == MOTOR_3 || name == MOTOR_4
  }

  lemma JoystickNamesAreUntouched(name: Bytes)
    requires name == JOYSTICK_X || name == JOYSTICK_Y
    ensures !IsSentName(name) && !IsStampName(name) && !IsMotorName(name) && name != CORRECTED
    ensures JOYSTICK_X != JOYSTICK_Y
  {
    NameLengths();
    assert name[0] == 'j';
    assert JOYSTICK_X[9] == 'x' && JOYSTICK_Y[9] == 'y';
  }

  // ----- Reading -----

  /** The number a value span stands for: `strtod` sees its first 63 characters. */
  function ParseSpan(t: Bytes): real {
    Strtod(if |t| >= SPAN_CAP then t[..SPAN_CAP - 1] else t)
  }

  /** The numeric value after a key; an absent key or an empty value is a failure. */
  function ExtractField(s: Bytes, name: Bytes): Option<real> {
    match ValueText(s, Key(name))
    case Some(t) => if t == [] then None else Some(ParseSpan(t))
    case None => None
  }

  datatype Joystick = Joystick(x: real, y: real)

  function ExtractJoystick(s: Bytes): Option<Joystick> {
    match (ExtractField(s, JOYSTICK_X), ExtractField(s, JOYSTICK_Y))
    case (Some(x), Some(y)) => Some(Joystick(x, y))
    case _ => None
  }

  /** The sent-time key in use: `ntp_time` wherever it is, else `timestamp`. */
  function SentName(s: Bytes): (r: Option<Bytes>)
    ensures r.Some? ==> IsSentName(r.value) && Find(s, Key(r.value)).Some?
  {
    if Find(s, Key(NTP_TIME)).Some? then Some(NTP_TIME)
    else if Find(s, Key(TIMESTAMP)).Some? then Some(TIMESTAMP)
    else None
  }

  function ExtractSentTime(s: Bytes): Option<real> {
    match SentName(s)
    case Some(name) => ExtractField(s, name)
    case None => None
  }

  // ----- Members the bridge writes -----

  datatype Added = Added(name: Bytes, text: Bytes)

  /** Members with a leading comma each, as they are spliced into a frame. */
  function Members(ms: seq<Added>): Bytes {
    if ms == [] then [] else "," + (Key(ms[0].name) + (ms[0].text + Members(ms[1..])))
  }

  function MembersSize(ms: seq<Added>): nat {
    if ms == [] then 0 else 4 + |ms[0].name| + |ms[0].text| + MembersSize(ms[1..])
  }

  lemma {:induction false} MembersLength(ms: seq<Added>)
    ensures |Members(ms)| == MembersSize(ms)
  {
    if ms != [] { MembersLength(ms[1..]); }
  }

  // ----- Stamping -----

  /** T1 - T0 and T2 - T1. */
  datatype Times = Times(transfer: real, processing: real)

  /** The time differences of a frame, when it has a sent-time key. */
  function FrameTimes(raw: Bytes, t1: real, t2: real): Option<Times> {
    match SentName(raw)
    case None => None
    case Some(name) =>
      var f := Locate(raw, Key(name)).value;
      Some(Times(t1 - ParseSpan(f.tail.value), t2 - t1))
  }

  /** The four members a stamp writes after the renamed one, in order. */
  function TimingMembers(t1: real, t2: real, times: Times): seq<Added> {
    [Added(NTP_TIME, Print(t2, 6)), Added(PROCESSING, Print(times.processing, 6)),
     Added(TRANSFER, Print(times.transfer, 6)), Added(RECEIVED, Print(t1, 6))]
  }

  predicate RendersIn(x: real, k: nat) {
    |Print(x, k)| < VALUE_CAP
  }

  predicate StampRenders(t1: real, t2: real, times: Times) {
    RendersIn(t2, 6) && RendersIn(t1, 6) && RendersIn(times.processing, 6) && RendersIn(times.transfer, 6)
  }

  /** The stamped text: the sent-time member renamed, the timing members after it. */
  function StampText(f: Field, ms: seq<Added>): Bytes {
    f.before + (Key(SENT) + (f.tail.value + (Members(ms) + f.tail.after)))
  }

  /** `bridge_stamp_frame`; a frame without a sent time passes as it is, and None is -1. */
  function StampFrame(raw: Bytes, t1: real, t2: real, cap: nat): Option<Bytes> {
    match SentName(raw)
    case None => if |raw| > cap then None else Some(raw)
    case Some(name) =>
      var times := FrameTimes(raw, t1, t2).value;
      var text := StampText(Locate(raw, Key(name)).value, TimingMembers(t1, t2, times));
      if !StampRenders(t1, t2, times) || |text| > cap then None else Some(text)
  }

  // ----- Replacing a value -----

  function ReplaceText(f: Field, name: Bytes, t: Bytes): Bytes {
    f.before + (Key(name) + (f.tail.blanks + (t + f.tail.after)))
  }

  /** `replace_value_for_key`; an absent key changes nothing, and None is -1. */
  function ReplaceValue(s: Bytes, name: Bytes, x: real, cap: nat): Option<Bytes> {
    match Locate(s, Key(name))
    case None => Some(s)
    case Some(f) =>
      var text := ReplaceText(f, name, Print(x, 8));
      if !RendersIn(x, 8) || |text| > cap then None else Some(text)
  }

  /** `bridge_reformat_joystick`: x, then y. */
  function Reformat(s: Bytes, j: Joystick, cap: nat): Option<Bytes> {
    match ReplaceValue(s, JOYSTICK_X, j.x, cap)
    case None => None
    case Some(s') => ReplaceValue(s', JOYSTICK_Y, j.y, cap)
  }

  /** The first |s| bytes of a buffer that held `s` after `s'` was written over it. */
  function Overlay(s: Bytes, s': Bytes): (r: Bytes)
    ensures |r| == |s|
  {
    if |s'| >= |s| then s'[..|s|] else s' + s[|s'|..]
  }

  /** What those bytes are when the reformat fails: a failing y leaves the written x behind. */
  function FailedReformat(s: Bytes, j: Joystick, cap: nat): Bytes {
    match ReplaceValue(s, JOYSTICK_X, j.x, cap)
    case None => s
    case Some(s') => Overlay(s, s')
  }

  /** What the whole buffer is then, behind the first `len` bytes as well. */
  function FailedBuffer(buf: Bytes, len: nat, j: Joystick, cap: nat): Bytes
    requires len <= |buf|
  {
    match ReplaceValue(buf[..len], JOYSTICK_X, j.x, cap)
    case None => buf
    case Some(s') => Overlay(buf, s')
  }

  // ----- Inserting before the last brace -----

  /** The index of the last closing brace. */
  function LastBrace(s: Bytes): (r: Option<nat>)
    ensures r.Some? ==> r.value < |s| && s[r.value] == '}'
    ensures forall i | (if r.Some? then r.value + 1 else 0) <= i < |s| :: s[i] != '}'
  {
    if s == [] then None
    else if s[|s| - 1] == '}' then Some(|s| - 1)
    else LastBrace(s[..|s| - 1])
  }

  /** `insert_before_closing_brace`; None is -1. */
  function InsertBeforeBrace(s: Bytes, text: Bytes, cap: nat): Option<Bytes> {
    match LastBrace(s)
    case None => None
    case Some(p) => if |s| + |text| > cap then None else Some(s[..p] + (text + s[p..]))
  }

  /** `bridge_append_field`. */
  function AppendField(s: Bytes, name: Bytes, x: real, cap: nat): Option<Bytes> {
    var text := Members([Added(name, Print(x, 6))]);
    if |text| >= FIELD_CAP then None else InsertBeforeBrace(s, text, cap)
  }

  datatype Motors = Motors(m1: real, m2: real, m3: real, m4: real)

  function MotorMembers(m: Motors): seq<Added> {
    [Added(MOTOR_1, Print(m.m1, 6)), Added(MOTOR_2, Print(m.m2, 6)),
     Added(MOTOR_3, Print(m.m3, 6)), Added(MOTOR_4, Print(m.m4, 6))]
  }

  /** `bridge_append_motor_fields`. */
  function AppendMotors(s: Bytes, m: Motors, cap: nat): Option<Bytes> {
    var text := Members(MotorMembers(m));
    if |text| >= MOTOR_CAP then None else InsertBeforeBrace(s, text, cap)
  }
}
