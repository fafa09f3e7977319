/**
  The numbers the bridge reads: what `strtod` makes of a sign, digits, a point and an exponent is
  stated from the digits alone, for every JSON number and whatever text follows it.
 */
module Numbers {
  import opened Options
  import opened Search
  import opened Decimal
  import opened FrameText
  import opened Json
  import JsonLaws
  import TreeEdits
  import opened StructuralEdit

  datatype Sign = NoSign | Plus | Minus

  datatype Exp = NoExp | Exp(letter: char, sign: Sign, digits: Bytes)

  /** A decimal number as it is written. */
  datatype Number = Number(sign: Sign, whole: Bytes, point: bool, frac: Bytes, exp: Exp)

  ghost predicate IsExp(e: Exp) {
    e.Exp? ==> (e.letter == 'e' || e.letter == 'E') && e.digits != [] && AllDigits(e.digits)
  }

  ghost predicate IsDecimal(n: Number) {
    && AllDigits(n.whole) && AllDigits(n.frac) && (!n.point ==> n.frac == [])
    && n.whole + n.frac != [] && IsExp(n.exp)
  }

  function SignText(s: Sign): Bytes {
    match s
    case NoSign => []
    case Plus => "+"
    case Minus => "-"
  }

  function ExpText(e: Exp): Bytes {
    match e
    case NoExp => []
    case Exp(letter, sign, digits) => [letter] + (SignText(sign) + digits)
  }

  function PointText(n: Number): Bytes {
    if n.point then "." + n.frac else []
  }

  function NumberText(n: Number): Bytes {
    SignText(n.sign) + (n.whole + (PointText(n) + ExpText(n.exp)))
  }

  /** The power of ten its exponent stands for. */
  ghost function Power(e: Exp): int
    requires IsExp(e)
  {
    match e
    case NoExp => 0
    case Exp(_, sign, digits) => if sign.Minus? then -(Value(digits) as int) else Value(digits)
  }

  /** A number with its point moved. */
  function Shifted(x: real, e: int): real {
    if e < 0 then x / Pow10(-e) as real else x * Pow10(e) as real
  }

  /** All its digits over a power of ten. */
  ghost function Fixed(n: Number): real
    requires IsDecimal(n)
  {
    Value(n.whole + n.frac) as real / Pow10(|n.frac|) as real
  }

  /** The number its digits stand for, moved by its exponent. */
  ghost function Denotes(n: Number): real
    requires IsDecimal(n)
  {
    var size := Shifted(Fixed(n), Power(n.exp));
    if n.sign.Minus? then -size else size
  }

  // ----- Scaling -----

  lemma ScaleStep(x: real, e: int)
    ensures Scale10(x, e - 1) == Scale10(x / 10.0, e)
  {
    if e > 0 { assert x / 10.0 * 10.0 == x; }
  }

  lemma {:induction false} ScaleBoth(x: real, e: int, f: nat)
    ensures Scale10(x, e - f) == Scale10(x / Pow10(f) as real, e)
    decreases f
  {
    if f > 0 {
      var p := Pow10(f - 1) as real;
      assert Pow10(f) as real == 10.0 * p;
      ScaleStep(x, e - (f - 1));
      ScaleBoth(x / 10.0, e, f - 1);
      DivideTwice(x, p);
      hide Scale10, Pow10;
    } else {
      assert x / Pow10(0) as real == x;
    }
  }

  lemma ScaleIsShift(x: real, e: int)
    ensures Scale10(x, e) == Shifted(x, e)
  {
    hide Scale10, Pow10;
    if e < 0 { ScaleDown(x, -e); } else { ScaleUp(x, e); }
  }

  // ----- The parts of a text -----

  /** An exponent begins: a letter, maybe a sign, at least one digit. */
  predicate BeginsExponent(s: Bytes) {
    |s| >= 2 && (s[0] == 'e' || s[0] == 'E')
    && var ds := if s[1] == '-' || s[1] == '+' then s[2..] else s[1..];
       ds != [] && IsDigit(ds[0])
  }

  /** The number ends there: the text that follows extends no part of it. */
  ghost predicate EndsThere(n: Number, rest: Bytes) {
    rest != [] ==>
      && !IsDigit(rest[0])
      && (n.exp.NoExp? ==> !BeginsExponent(rest) && (rest[0] == '.' ==> n.point))
  }

  lemma DigitsOf(d: Bytes, rest: Bytes)
    requires AllDigits(d) && (rest != [] ==> !IsDigit(rest[0]))
    ensures DigitRun(d + rest) == |d| && (d + rest)[..|d|] == d && (d + rest)[|d|..] == rest
  {
    DigitRunIs(d, rest);
  }

  lemma NoExponentReads(rest: Bytes)
    requires !BeginsExponent(rest)
    ensures Exponent(rest) == 0
  {
    if |rest| >= 2 && (rest[0] == 'e' || rest[0] == 'E') {
      var ds := if rest[1] == '-' || rest[1] == '+' then rest[2..] else rest[1..];
      assert DigitRun(ds) == 0;
      assert ds[..0] == [];
      assert Value(ds[..0]) == 0;
    }
  }

  lemma SignedExponent(l: char, c: char, ds: Bytes)
    requires (l == 'e' || l == 'E') && (c == '-' || c == '+')
    ensures var v: int := Value(ds[..DigitRun(ds)]);
      Exponent([l] + ([c] + ds)) == if c == '-' then -v else v
  {
    var s := [l] + ([c] + ds);
    assert s[0] == l && s[1] == c && s[2..] == ds;
    hide Value, DigitRun;
  }

  lemma UnsignedExponent(l: char, ds: Bytes)
    requires (l == 'e' || l == 'E') && ds != [] && IsDigit(ds[0])
    ensures Exponent([l] + ds) == Value(ds[..DigitRun(ds)])
  {
    var s := [l] + ds;
    assert s[0] == l && s[1] == ds[0] && s[1..] == ds;
    hide Value, DigitRun;
  }

  lemma ExponentReads(e: Exp, rest: Bytes)
    requires IsExp(e) && e.Exp? && (rest != [] ==> !IsDigit(rest[0]))
    ensures Exponent(ExpText(e) + rest) == Power(e)
  {
    var ds := e.digits + rest;
    DigitsOf(e.digits, rest);
    assert ds[0] == e.digits[0];
    hide Value, DigitRun, Exponent;
    Assoc([e.letter], SignText(e.sign) + e.digits, rest);
    Assoc(SignText(e.sign), e.digits, rest);
    match e.sign
    case NoSign =>
      assert [] + ds == ds;
      UnsignedExponent(e.letter, ds);
    case Plus => SignedExponent(e.letter, '+', ds);
    case Minus => SignedExponent(e.letter, '-', ds);
  }

  /** Where the scan of digits ends, there is a point or not. */
  lemma MagnitudeWithPoint(s: Bytes, w: nat, f: nat)
    requires DigitRun(s) == w < |s| && s[w] == '.'
    requires DigitRun(s[w + 1..]) == f && w + f > 0
    ensures Magnitude(s) == Scale10(Value(s[..w] + s[w + 1..][..f]) as real, Exponent(s[w + 1..][f..]) - f)
  {
    hide Scale10, Exponent, Value, DigitRun;
  }

  /** The digits and the point are read off the front. */
  lemma DigitsAreRead(n: Number, tail: Bytes)
    requires IsDecimal(n) && (tail != [] ==> !IsDigit(tail[0]) && (tail[0] == '.' ==> n.point))
    ensures Magnitude(n.whole + (PointText(n) + tail))
         == Scale10(Value(n.whole + n.frac) as real, Exponent(tail) - |n.frac|)
  {
    hide Scale10, Exponent, Value, Magnitude, DigitRun, AllDigits;
    if n.point {
      PointIsRead(n.whole, n.frac, tail);
      Assoc(".", n.frac, tail);
    } else {
      assert [] + tail == tail && n.whole + [] == n.whole;
      DigitsOf(n.whole, tail);
      MagnitudeWithoutPoint(n.whole + tail, |n.whole|);
    }
  }

  lemma PointSlices(d: Bytes, behind: Bytes)
    ensures var s := d + ("." + behind);
      s[|d|] == '.' && s[|d| + 1..] == behind && s[..|d|] == d && ("." + behind)[0] == '.'
  {
  }

  lemma PointIsRead(d: Bytes, f: Bytes, tail: Bytes)
    requires AllDigits(d) && AllDigits(f) && d + f != [] && (tail != [] ==> !IsDigit(tail[0]))
    ensures Magnitude(d + ("." + (f + tail))) == Scale10(Value(d + f) as real, Exponent(tail) - |f|)
  {
    PointSlices(d, f + tail);
    DigitsOf(d, "." + (f + tail));
    DigitsOf(f, tail);
    assert |d + f| == |d| + |f|;
    hide *;
    var s := d + ("." + (f + tail));
    MagnitudeWithPoint(s, |d|, |f|);
  }

  lemma ExponentOfTail(e: Exp, rest: Bytes)
    requires IsExp(e) && (rest != [] ==> !IsDigit(rest[0]))
    requires e.NoExp? ==> !BeginsExponent(rest)
    ensures Exponent(ExpText(e) + rest) == Power(e)
  {
    hide Exponent, BeginsExponent;
    if e.NoExp? {
      NoExponentReads(rest);
      assert [] + rest == rest;
    } else {
      ExponentReads(e, rest);
    }
  }

  lemma TailBegins(n: Number, rest: Bytes)
    requires IsDecimal(n) && EndsThere(n, rest)
    ensures var tail := ExpText(n.exp) + rest;
      tail != [] ==> !IsDigit(tail[0]) && (tail[0] == '.' ==> n.point)
  {
    hide BeginsExponent;
    if n.exp.Exp? { assert (ExpText(n.exp) + rest)[0] == n.exp.letter; }
  }

  lemma DenotesUnsigned(n: Number)
    requires IsDecimal(n)
    ensures IsDecimal(n.(sign := NoSign))
    ensures Denotes(n.(sign := NoSign)) == Shifted(Fixed(n), Power(n.exp))
  {
    hide Fixed, Shifted, Power, AllDigits;
    assert Fixed(n.(sign := NoSign)) == Fixed(n) by { FixedIgnoresSign(n); }
  }

  lemma FixedIgnoresSign(n: Number)
    requires IsDecimal(n)
    ensures IsDecimal(n.(sign := NoSign)) && Fixed(n.(sign := NoSign)) == Fixed(n)
  {
    hide AllDigits, Value, Pow10;
  }

  lemma NoTailIsExponent(n: Number, rest: Bytes)
    requires EndsThere(n, rest)
    ensures rest != [] ==> !IsDigit(rest[0])
    ensures n.exp.NoExp? ==> !BeginsExponent(rest)
  {
  }

  /** The size of a number. */
  lemma SizeIsRead(n: Number, rest: Bytes)
    requires IsDecimal(n) && EndsThere(n, rest)
    ensures Magnitude(n.whole + (PointText(n) + (ExpText(n.exp) + rest))) == Denotes(n.(sign := NoSign))
  {
    DecimalHasExp(n);
    hide *;
    NoTailIsExponent(n, rest);
    TailBegins(n, rest);
    ExponentOfTail(n.exp, rest);
    DigitsAreRead(n, ExpText(n.exp) + rest);
    FixedIsScaled(n, Power(n.exp));
    DenotesUnsigned(n);
  }

  lemma DecimalHasExp(n: Number)
    requires IsDecimal(n)
    ensures IsExp(n.exp) && AllDigits(n.whole + n.frac)
  {
  }

  lemma FixedIsScaled(n: Number, e: int)
    requires IsDecimal(n)
    ensures Scale10(Value(n.whole + n.frac) as real, e - |n.frac|) == Shifted(Fixed(n), e)
  {
    hide Scale10, Value, Pow10, Shifted;
    ScaleBoth(Value(n.whole + n.frac) as real, e, |n.frac|);
    ScaleIsShift(Fixed(n), e);
  }

  lemma SignIsRead(sign: Sign, body: Bytes)
    requires body != [] && body[0] != '-' && body[0] != '+'
    ensures Strtod(SignText(sign) + body) == if sign.Minus? then -Magnitude(body) else Magnitude(body)
  {
    hide Magnitude;
    var s := SignText(sign) + body;
    if sign.NoSign? {
      assert s == body;
    } else {
      assert s[1..] == body;
    }
  }

  lemma BodyBegins(n: Number, tail: Bytes)
    requires IsDecimal(n)
    ensures var body := n.whole + (PointText(n) + tail);
      body != [] && body[0] != '-' && body[0] != '+'
  {
    var body := n.whole + (PointText(n) + tail);
    if n.whole != [] {
      assert IsDigit(body[0]);
    } else {
      assert n.point;
      assert body[0] == '.';
    }
  }

  /** `strtod` reads a number as its digits stand, and stops where it ends. */
  lemma StrtodReads(n: Number, rest: Bytes)
    requires IsDecimal(n) && EndsThere(n, rest)
    ensures Strtod(NumberText(n) + rest) == Denotes(n)
  {
    var tail := ExpText(n.exp) + rest;
    SizeIsRead(n, rest);
    BodyBegins(n, tail);
    SignIsRead(n.sign, n.whole + (PointText(n) + tail));
    NumberTextJoins(n, rest);
    hide Magnitude, Strtod, Value, ExpText, PointText, NumberText, SignText, Power, Shifted, Pow10, EndsThere;
  }

  lemma NumberTextJoins(n: Number, rest: Bytes)
    ensures NumberText(n) + rest == SignText(n.sign) + (n.whole + (PointText(n) + (ExpText(n.exp) + rest)))
  {
    hide SignText, PointText, ExpText;
    var (a, b, c, d) := (SignText(n.sign), n.whole, PointText(n), ExpText(n.exp));
    EntryAssoc(a, b, c, d, rest);
  }

  /** Without a digit after its sign and its point, a text reads as 0. */
  lemma NoDigitsReadZero(sign: Sign, point: bool, rest: Bytes)
    requires rest != [] ==> !IsDigit(rest[0])
    requires !point && rest != [] ==> rest[0] != '.' && (sign.NoSign? ==> rest[0] != '-' && rest[0] != '+')
    ensures Strtod(SignText(sign) + ((if point then "." else []) + rest)) == 0.0
  {
    var body := (if point then "." else []) + rest;
    NoDigitsHaveNoSize(point, rest);
    assert point ==> body[0] == '.';
    assert !point ==> body == rest;
    var s := SignText(sign) + body;
    if sign.NoSign? {
      assert s == body;
    } else {
      assert s[0] == SignText(sign)[0] && s[1..] == body;
    }
    hide Magnitude;
  }

  lemma NoDigitsHaveNoSize(point: bool, rest: Bytes)
    requires rest != [] ==> !IsDigit(rest[0])
    requires !point && rest != [] ==> rest[0] != '.'
    ensures Magnitude((if point then "." else []) + rest) == 0.0
  {
    var body := (if point then "." else []) + rest;
    assert DigitRun(rest) == 0;
    if point {
      assert body[0] == '.' && body[1..] == rest && DigitRun(body) == 0;
    } else {
      assert body == rest && DigitRun([]) == 0;
    }
    hide DigitRun, Scale10, Value, Exponent;
  }

  // ----- JSON numbers -----

  function ExpOf(s: Bytes): Exp
    requires IsExponent(s)
  {
    if s == [] then NoExp
    else if s[1] == '-' then Exp(s[0], Minus, s[2..])
    else if s[1] == '+' then Exp(s[0], Plus, s[2..])
    else Exp(s[0], NoSign, s[1..])
  }

  function BodyOf(sign: Sign, whole: Bytes, t: Bytes): Number
    requires IsFraction(t)
  {
    if t != [] && t[0] == '.' then
      var f := DigitRun(t[1..]);
      Number(sign, whole, true, t[1..][..f], ExpOf(t[1..][f..]))
    else
      Number(sign, whole, false, [], ExpOf(t))
  }

  /** The parts of a JSON number. */
  function NumberOf(s: Bytes): Number
    requires IsNumber(s)
  {
    var u := if s[0] == '-' then s[1..] else s;
    var w := DigitRun(u);
    BodyOf(if s[0] == '-' then Minus else NoSign, u[..w], u[w..])
  }

  lemma ExpOfIs(s: Bytes)
    requires IsExponent(s)
    ensures IsExp(ExpOf(s)) && ExpText(ExpOf(s)) == s
  {
    if s != [] {
      var ds := if s[1] == '-' || s[1] == '+' then s[2..] else s[1..];
      assert ds[..DigitRun(ds)] == ds;
    }
  }

  lemma PointBody(sign: Sign, whole: Bytes, t: Bytes)
    requires AllDigits(whole) && IsFraction(t) && t != [] && t[0] == '.'
    ensures var n := BodyOf(sign, whole, t);
      var rest := t[1..][|n.frac|..];
      n.sign == sign && n.whole == whole && n.point && t == "." + (n.frac + rest)
      && AllDigits(n.frac) && IsExponent(rest) && n.exp == ExpOf(rest)
  {
    hide IsExponent, ExpOf, DigitRun, AllDigits;
  }

  lemma PlainBody(sign: Sign, whole: Bytes, t: Bytes)
    requires IsFraction(t) && !(t != [] && t[0] == '.')
    ensures IsExponent(t) && BodyOf(sign, whole, t) == Number(sign, whole, false, [], ExpOf(t))
  {
    hide IsExponent, ExpOf;
  }

  lemma PartsAreDecimal(n: Number, t: Bytes)
    requires AllDigits(n.whole) && n.whole != [] && AllDigits(n.frac) && (!n.point ==> n.frac == []) && IsExp(n.exp)
    requires PointText(n) + ExpText(n.exp) == t
    ensures IsDecimal(n) && NumberText(n) == SignText(n.sign) + (n.whole + t)
  {
    hide IsExp, PointText, ExpText, SignText, AllDigits;
    assert (n.whole + n.frac)[0] == n.whole[0];
  }

  lemma BodyOfIs(sign: Sign, whole: Bytes, t: Bytes)
    requires AllDigits(whole) && whole != [] && IsFraction(t)
    ensures var n := BodyOf(sign, whole, t);
      IsDecimal(n) && NumberText(n) == SignText(sign) + (whole + t)
  {
    var n := BodyOf(sign, whole, t);
    if t != [] && t[0] == '.' {
      PointBody(sign, whole, t);
      var rest := t[1..][|n.frac|..];
      ExpOfIs(rest);
      Assoc(".", n.frac, rest);
      PartsAreDecimal(n, t);
    } else {
      PlainBody(sign, whole, t);
      ExpOfIs(t);
      assert [] + t == t && AllDigits([]);
      PartsAreDecimal(n, t);
    }
    hide *;
  }

  lemma NumberOfIs(s: Bytes)
    requires IsNumber(s)
    ensures IsDecimal(NumberOf(s)) && NumberText(NumberOf(s)) == s
  {
    if s[0] == '-' {
      assert s == "-" + s[1..];
      SplitIs(s[1..]);
      BodyOfIs(Minus, s[1..][..DigitRun(s[1..])], s[1..][DigitRun(s[1..])..]);
    } else {
      SplitIs(s);
      assert s == [] + s;
      BodyOfIs(NoSign, s[..DigitRun(s)], s[DigitRun(s)..]);
    }
    hide IsFraction, BodyOf, DigitRun, NumberText, IsDecimal, AllDigits;
  }

  lemma SplitIs(u: Bytes)
    ensures u == u[..DigitRun(u)] + u[DigitRun(u)..] && AllDigits(u[..DigitRun(u)])
  {
  }

  /** The value of a JSON number. */
  ghost function JsonValue(s: Bytes): real
    requires IsNumber(s)
  {
    NumberOfIs(s);
    Denotes(NumberOf(s))
  }

  /** Every JSON number is read as its digits stand. */
  lemma JsonNumberReads(s: Bytes)
    requires IsNumber(s)
    ensures IsDecimal(NumberOf(s)) && NumberText(NumberOf(s)) == s
    ensures Strtod(s) == Denotes(NumberOf(s)) == JsonValue(s)
  {
    NumberOfIs(s);
    hide IsNumber, NumberOf, Strtod, Denotes, NumberText, IsDecimal;
    StrtodReads(NumberOf(s), []);
    assert s + [] == s;
  }

  // ----- Spans -----

  /** A span of at most 63 characters is read whole; of a longer one only the first 63 matter. */
  lemma SpanIsCapped(s: Bytes, t: Bytes)
    ensures |s| <= 63 ==> ParseSpan(s) == Strtod(s)
    ensures |s| >= 63 && s[..63] <= t ==> ParseSpan(t) == ParseSpan(s) == Strtod(s[..63])
  {
    hide Strtod;
    if |s| == 63 { assert s[..63] == s; }
    if |s| >= 63 && s[..63] <= t {
      assert t[..63] == s[..63];
      if |t| == 63 { assert t[..63] == t; }
    }
  }

  /** A small number in its usual rendering: `1e-05` is one hundred-thousandth. */
  lemma SmallNumberReads()
    ensures ParseSpan("1e-05") == 0.00001
  {
    var n := Number(NoSign, "1", false, [], Exp('e', Minus, "05"));
    SmallDenotes(n);
    hide Strtod, Denotes, NumberText, ParseSpan;
    SpanIsCapped("1e-05", []);
    StrtodReads(n, []);
    assert "1e-05" + [] == "1e-05";
  }

  lemma SmallDenotes(n: Number)
    requires n == Number(NoSign, "1", false, [], Exp('e', Minus, "05"))
    ensures IsDecimal(n) && NumberText(n) == "1e-05" && Denotes(n) == 0.00001
  {
    assert ExpText(n.exp) == "e-05" && PointText(n) == [];
    SmallDigits();
    hide Value, Pow10, ExpText;
    assert n.whole + n.frac == "1";
  }

  lemma SmallDigits()
    ensures Value("1") == 1 && Value("05") == 5 && Pow10(0) == 1 && Pow10(5) == 100000
  {
    assert "05"[..1] == "0" && "0"[..0] == [] && "1"[..0] == [];
    assert Value("0") == 0;
    assert Pow10(3) == 1000;
  }

  // ----- Frames -----

  /** From the text of a frame the bridge reads the numbers its joystick members stand for. */
  lemma JoystickOfFrame(f: Frame, x: Bytes, y: Bytes)
    requires IsFrame(f) && NumberIn(f, JOYSTICK_X) == Some(x) && NumberIn(f, JOYSTICK_Y) == Some(y)
    requires |x| <= 63 && |y| <= 63
    ensures IsNumber(x) && IsNumber(y)
         && ExtractJoystick(Render(f)) == Some(Joystick(JsonValue(x), JsonValue(y)))
  {
    NumberInIs(f, JOYSTICK_X);
    NumberInIs(f, JOYSTICK_Y);
    TextHasJoystick(f);
    JsonNumberReads(x);
    JsonNumberReads(y);
    SpanIsCapped(x, []);
    SpanIsCapped(y, []);
    hide Render, IsFrame, NumberIn, ParseSpan, Strtod, IsNumber, NumberOf, Denotes, ExtractJoystick, IsDecimal,
         JsonValue, NumberText;
  }

  lemma NumberInIs(f: Frame, name: Bytes)
    requires NumberIn(f, name).Some?
    ensures IsNumber(NumberIn(f, name).value)
  {
    hide TreeEdits.Lookup, IsNumber;
  }

  lemma TimesOfNumber(f: Frame, t1: real, t2: real, x: Bytes)
    requires SentMember(f).Some? && NumberIn(f, SentMember(f).value) == Some(x)
    ensures TimesIn(f, t1, t2) == Some(Times(t1 - ParseSpan(x), t2 - t1))
  {
    hide SentMember, NumberIn, ParseSpan;
  }

  /** And the number its sent-time member stands for. */
  lemma TransferOfFrame(f: Frame, t1: real, t2: real, x: Bytes)
    requires IsFrame(f) && SentMember(f).Some? && NumberIn(f, SentMember(f).value) == Some(x) && |x| <= 63
    ensures IsNumber(x) && FrameTimes(Render(f), t1, t2) == Some(Times(t1 - JsonValue(x), t2 - t1))
  {
    hide *;
    NumberInIs(f, SentMember(f).value);
    TimesOfText(f, t1, t2);
    TimesOfNumber(f, t1, t2, x);
    JsonNumberReads(x);
    SpanIsCapped(x, []);
  }

  // ----- The characters of numbers and of blanks -----

  /** The characters the span scan takes are those that occur in JSON numbers. */
  lemma NumericOccursInNumbers(c: char)
    ensures IsNumeric(c) <==> exists s :: IsNumber(s) && c in s
  {
    if IsNumeric(c) {
      var s := if IsDigit(c) then [c] else if c == '.' then "1.5" else if c == '-' then "1e-5"
               else if c == '+' then "1e+5" else ['1', c, '5'];
      WitnessIsNumber(c, s);
      assert IsNumber(s) && c in s;
    } else {
      forall s | IsNumber(s) ensures c !in s { JsonLaws.NumberIsNumeric(s); }
    }
  }

  lemma WitnessIsNumber(c: char, s: Bytes)
    requires IsNumeric(c)
    requires s == if IsDigit(c) then [c] else if c == '.' then "1.5" else if c == '-' then "1e-5"
                  else if c == '+' then "1e+5" else ['1', c, '5']
    ensures IsNumber(s) && c in s
  {
    if IsDigit(c) {
      DigitsOf([c], []);
      assert [c] + [] == [c] && s[1..] == [];
    } else {
      DigitsOf("1", s[1..]);
      assert s == "1" + s[1..];
      DigitsOf("5", []);
      assert "5" + [] == "5";
      var t := s[1..];
      assert c == '.' ==> t[1..] == "5" && t[1..][1..] == [];
      assert c == '-' ==> t[2..] == "5";
      assert c == '+' ==> t[2..] == "5";
      assert c == 'e' || c == 'E' ==> t[1..] == "5";
    }
    hide DigitRun;
  }

  /** The blanks it skips are the white space of JSON without its line breaks. */
  lemma BlanksAreOneLine(w: Bytes)
    ensures AllBlank(w) <==> White(w) && '\n' !in w && '\r' !in w
  {
    assert forall i | 0 <= i < |w| :: IsBlank(w[i]) <==> IsWhite(w[i]) && w[i] != '\n' && w[i] != '\r';
  }
}
