/**
  The texts themselves: the keys, the order of the members a stamp and an append write, and the
  widths their scratch buffers allow.
 */
module Layout {
  import opened Search
  import opened Decimal
  import opened FrameText

  lemma FourMembers(a: Added, b: Added, c: Added, d: Added, rest: Bytes)
    ensures Members([a, b, c, d]) + rest
         == "," + (Key(a.name) + (a.text + ("," + (Key(b.name) + (b.text + ("," + (Key(c.name) + (c.text
            + ("," + (Key(d.name) + (d.text + rest)))))))))))
  {
    hide Key;
    MembersFirst(a, [b, c, d], rest);
    MembersFirst(b, [c, d], rest);
    MembersFirst(c, [d], rest);
    MembersFirst(d, [], rest);
    assert Members([]) + rest == rest;
    hide Members;
    assert [a, b, c, d] == [a] + [b, c, d] && [b, c, d] == [b] + [c, d] && [c, d] == [c] + [d] && [d] == [d] + [];
  }

  lemma MembersFirst(a: Added, more: seq<Added>, rest: Bytes)
    ensures Members([a] + more) + rest == "," + (Key(a.name) + (a.text + (Members(more) + rest)))
  {
    hide Key;
    var ms := [a] + more;
    assert ms[0] == a && ms[1..] == more;
    var tail := Members(more);
    assert Members(ms) == "," + (Key(a.name) + (a.text + tail));
    hide Members;
    Assoc(",", Key(a.name) + (a.text + tail), rest);
    Assoc(Key(a.name), a.text + tail, rest);
    Assoc(a.text, tail, rest);
  }

  /** The members a stamp writes, in order: T2, T2 - T1, T1 - T0 and T1. */
  lemma StampLayout(raw: Bytes, t1: real, t2: real, cap: nat)
    requires StampFrame(raw, t1, t2, cap).Some? && SentName(raw).Some?
    ensures var f := Locate(raw, Key(SentName(raw).value)).value;
      var t0 := ParseSpan(f.tail.value);
      StampFrame(raw, t1, t2, cap).value
      == StampText(f, [Added(NTP_TIME, Print(t2, 6)), Added(PROCESSING, Print(t2 - t1, 6)),
                       Added(TRANSFER, Print(t1 - t0, 6)), Added(RECEIVED, Print(t1, 6))])
  {
    hide Find, Key, CutTail, ParseSpan, StampText, StampRenders, SentName, Locate, Print;
  }

  /** The stamped text, piece by piece, around its four members. */
  lemma StampTextIs(f: Field, a: Added, b: Added, c: Added, d: Added)
    ensures StampText(f, [a, b, c, d])
         == f.before + (Key(SENT) + (f.tail.value
            + ("," + (Key(a.name) + (a.text + ("," + (Key(b.name) + (b.text + ("," + (Key(c.name) + (c.text
            + ("," + (Key(d.name) + (d.text + f.tail.after))))))))))))))
  {
    hide Key, Members;
    FourMembers(a, b, c, d, f.tail.after);
  }

  /** The motor members, piece by piece. */
  lemma MotorLayout(m: Motors)
    ensures Members(MotorMembers(m)) + []
         == "," + (Key(MOTOR_1) + (Print(m.m1, 6)
            + ("," + (Key(MOTOR_2) + (Print(m.m2, 6)
            + ("," + (Key(MOTOR_3) + (Print(m.m3, 6)
            + ("," + (Key(MOTOR_4) + (Print(m.m4, 6) + [])))))))))))
  {
    hide Key, Print, Members;
    FourMembers(Added(MOTOR_1, Print(m.m1, 6)), Added(MOTOR_2, Print(m.m2, 6)),
                Added(MOTOR_3, Print(m.m3, 6)), Added(MOTOR_4, Print(m.m4, 6)), []);
  }

  // ----- Widths -----

  /** A value renders in its scratch buffer if and only if it is below 10^(30-k), or above
      -10^(29-k) where it is negative, once rounded. */
  lemma RendersIff(x: real, k: nat)
    requires 1 <= k <= 28
    ensures RendersIn(x, k) <==> Units(x, k) < Pow10(if x < 0.0 then 29 else 30)
  {
    hide Print, Units, Pow10;
    PrintLength(x, k, if x < 0.0 then 29 - k else 30 - k);
  }

  /** An appended field fails for want of a closing brace, of room in its scratch buffer of 128
      bytes, or of room in the frame. */
  lemma AppendFieldFailsIff(s: Bytes, name: Bytes, x: real, cap: nat)
    ensures AppendField(s, name, x, cap).None? <==>
            var n := |name| + |Print(x, 6)| + 4;
            n >= 128 || LastBrace(s).None? || |s| + n > cap
  {
    hide Print, LastBrace;
    var ms := [Added(name, Print(x, 6))];
    MembersLength(ms);
    assert ms[1..] == [];
  }

  /** The motor fields fail likewise, with 192 bytes. */
  lemma AppendMotorsFailsIff(s: Bytes, m: Motors, cap: nat)
    ensures AppendMotors(s, m, cap).None? <==>
            var n := |Print(m.m1, 6)| + |Print(m.m2, 6)| + |Print(m.m3, 6)| + |Print(m.m4, 6)| + 70;
            n >= 192 || LastBrace(s).None? || |s| + n > cap
  {
    MotorsSize(m);
    MembersLength(MotorMembers(m));
    hide Print, LastBrace, Members, MotorMembers;
  }

  lemma MotorsSize(m: Motors)
    ensures MembersSize(MotorMembers(m))
         == |Print(m.m1, 6)| + |Print(m.m2, 6)| + |Print(m.m3, 6)| + |Print(m.m4, 6)| + 70
  {
    NameLengths();
    hide Print;
    var ms := MotorMembers(m);
    assert ms[1..][1..] == ms[2..] && ms[2..][1..] == ms[3..] && ms[3..][1..] == [];
    assert MembersSize(ms[3..]) == 4 + |ms[3].name| + |ms[3].text|;
    assert MembersSize(ms[2..]) == 4 + |ms[2].name| + |ms[2].text| + MembersSize(ms[3..]);
  }
}
