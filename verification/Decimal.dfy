/**
  Decimal text: the printer that `snprintf("%.<k>f")` is and the parser that `strtod` is on
  the characters `find_value_span` lets through.

  A C `double` is a `real` here, so both are exact; what printing loses is only the rounding
  to k places.
 */
module Decimal {
  import opened Search

  // ----- Rounding -----

  /** The nearest integer; a value half-way between two goes to the even one. */
  function RoundHalfToEven(v: real): int {
    var fl := v.Floor;
    var frac := v - fl as real;
    if frac < 0.5 then fl
    else if frac > 0.5 then fl + 1
    else if fl % 2 == 0 then fl
    else fl + 1
  }

  /** No integer is nearer, and a tie goes to the even one; this determines the result. */
  lemma RoundIsNearest(v: real, k: int)
    ensures var r := RoundHalfToEven(v);
      && -0.5 <= r as real - v <= 0.5
      && (k as real - v <= 0.5 && k as real - v >= -0.5 && k != r ==> r % 2 == 0 && k % 2 == 1)
  {
  }

  lemma RoundIsOdd(v: real)
    ensures RoundHalfToEven(-v) == -RoundHalfToEven(v)
  {
    var r := RoundHalfToEven(v);
    RoundIsNearest(v, -RoundHalfToEven(-v));
    RoundIsNearest(-v, -r);
  }

  lemma RoundIsMonotone(v: real, w: real)
    requires v <= w
    ensures RoundHalfToEven(v) <= RoundHalfToEven(w)
  {
  }

  lemma RoundKeepsIntegers(n: int)
    ensures RoundHalfToEven(n as real) == n
  {
  }

  function Abs(x: real): real {
    if x < 0.0 then -x else x
  }

  // ----- Digits -----

  predicate IsDigit(c: char) {
    '0' <= c <= '9'
  }

  ghost predicate AllDigits(s: Bytes) {
    forall i | 0 <= i < |s| :: IsDigit(s[i])
  }

  function DigitChar(d: nat): (c: char)
    requires d < 10
    ensures IsDigit(c) && DigitOf(c) == d
  {
    ('0' as int + d) as char
  }

  function DigitOf(c: char): nat
    requires IsDigit(c)
  {
    c as int - '0' as int
  }

  /** The number that a run of digits denotes. */
  function Value(s: Bytes): nat
    requires AllDigits(s)
  {
    if s == [] then 0 else 10 * Value(s[..|s| - 1]) + DigitOf(s[|s| - 1])
  }

  /** The shortest decimal text of `n`. */
  function Digits(n: nat): (s: Bytes) {
    if n < 10 then [DigitChar(n)] else Digits(n / 10) + [DigitChar(n % 10)]
  }

  /** The last `k` decimal digits of `n`, with leading zeros. */
  function LastDigits(n: nat, k: nat): (s: Bytes) {
    if k == 0 then [] else LastDigits(n / 10, k - 1) + [DigitChar(n % 10)]
  }

  /** `n` without its last `k` digits. */
  function DropDigits(n: nat, k: nat): nat {
    if k == 0 then n else DropDigits(n / 10, k - 1)
  }

  function Pow10(k: nat): (p: nat)
    ensures p > 0
  {
    if k == 0 then 1 else 10 * Pow10(k - 1)
  }

  lemma {:induction false} ValueSnoc(s: Bytes, c: char)
    requires AllDigits(s) && IsDigit(c)
    ensures AllDigits(s + [c]) && Value(s + [c]) == 10 * Value(s) + DigitOf(c)
  {
    assert (s + [c])[..|s|] == s;
  }

  lemma {:induction false} DigitsValue(n: nat)
    ensures AllDigits(Digits(n)) && Digits(n) != [] && Value(Digits(n)) == n
    ensures n >= 10 ==> Digits(n)[0] != '0'
  {
    if n < 10 {
      assert Digits(n) == [] + [DigitChar(n)];
      ValueSnoc([], DigitChar(n));
    } else {
      DigitsValue(n / 10);
      ValueSnoc(Digits(n / 10), DigitChar(n % 10));
      assert Digits(n)[0] == Digits(n / 10)[0];
      if n / 10 < 10 {
        assert Digits(n / 10) == [DigitChar(n / 10)];
      }
    }
  }

  /** Cutting a number into its head and its last `k` digits loses nothing. */
  lemma {:induction false} SplitDigitsValue(n: nat, k: nat)
    ensures |LastDigits(n, k)| == k
    ensures var s := Digits(DropDigits(n, k)) + LastDigits(n, k);
      AllDigits(s) && Value(s) == n
  {
    var head := Digits(DropDigits(n, k));
    if k == 0 {
      DigitsValue(n);
      assert head + LastDigits(n, 0) == head;
    } else {
      SplitDigitsValue(n / 10, k - 1);
      var s := head + LastDigits(n / 10, k - 1);
      assert head + LastDigits(n, k) == s + [DigitChar(n % 10)];
      ValueSnoc(s, DigitChar(n % 10));
    }
  }

  /** A number has at most `k` digits if and only if it is below 10^k. */
  lemma {:induction false} DigitsLength(n: nat, k: nat)
    requires k >= 1
    ensures |Digits(n)| <= k <==> n < Pow10(k)
  {
    if k == 1 {
      assert Pow10(1) == 10;
      if n >= 10 { DigitsValue(n / 10); }
    } else if n >= 10 {
      DigitsLength(n / 10, k - 1);
    } else {
      assert Pow10(k) >= 10 by { assert Pow10(k - 1) >= 1; }
    }
  }

  lemma {:induction false} DropDigitsBound(n: nat, k: nat, j: nat)
    ensures DropDigits(n, k) < Pow10(j) <==> n < Pow10(j + k)
  {
    if k > 0 {
      DropDigitsBound(n / 10, k - 1, j);
      assert Pow10(j + k) == 10 * Pow10(j + k - 1);
    }
  }

  // ----- The printer -----

  /** The size of `x` in units of 10^-k. */
  function Scaled(x: real, k: nat): real {
    Abs(x) * Pow10(k) as real
  }

  /** The same, rounded. */
  function Units(x: real, k: nat): nat {
    var m := RoundHalfToEven(Scaled(x, k));
    if m < 0 then 0 else m
  }

  function Unsigned(m: nat, k: nat): Bytes {
    Digits(DropDigits(m, k)) + ("." + LastDigits(m, k))
  }

  /** What `printf("%.<k>f", x)` prints, for k at least 1. */
  function Print(x: real, k: nat): Bytes {
    if x < 0.0 then "-" + Unsigned(Units(x, k), k) else Unsigned(Units(x, k), k)
  }

  /** The number the printed text stands for. */
  function Rounded(x: real, k: nat): real {
    var r := Units(x, k) as real / Pow10(k) as real;
    if x < 0.0 then -r else r
  }

  lemma UnitsAreClose(x: real, k: nat)
    ensures -0.5 <= Units(x, k) as real - Scaled(x, k) <= 0.5
  {
    NonNegativeProduct(Abs(x), Pow10(k) as real);
  }

  lemma NonNegativeProduct(a: real, p: real)
    requires a >= 0.0 && p >= 0.0
    ensures a * p >= 0.0
  {
  }

  /** Printing with k places loses at most half a unit of the last place. */
  lemma RoundedIsClose(x: real, k: nat)
    ensures Abs(Rounded(x, k) - x) <= 0.5 / Pow10(k) as real
  {
    hide Pow10, Units;
    UnitsAreClose(x, k);
    QuotientIsClose(Units(x, k) as real, Pow10(k) as real, Abs(x));
  }

  lemma QuotientIsClose(u: real, p: real, a: real)
    requires p > 0.0 && -0.5 <= u - a * p <= 0.5
    ensures -0.5 / p <= u / p - a <= 0.5 / p
  {
    assert u / p - a == (u - a * p) / p;
    DivideBound(u - a * p, p);
  }

  lemma DivideBound(d: real, p: real)
    requires p > 0.0 && -0.5 <= d <= 0.5
    ensures -0.5 / p <= d / p <= 0.5 / p
  {
    DivideIsMonotone(-0.5, d, p);
    DivideIsMonotone(d, 0.5, p);
  }

  lemma PositiveProduct(a: real, b: real)
    requires a > 0.0 && b > 0.0
    ensures a * b > 0.0
  {
  }

  lemma DivideIsMonotone(a: real, b: real, s: real)
    requires s > 0.0 && a <= b
    ensures a / s <= b / s
  {
    var u, v := a / s, b / s;
    assert u * s == a && v * s == b;
    assert (u - v) * s == u * s - v * s;
    if u > v { PositiveProduct(u - v, s); }
  }

  /** A quotient is what gives the dividend when multiplied. */
  lemma QuotientIs(q: real, x: real, p: real)
    requires p > 0.0 && q * p == x
    ensures x / p == q
  {
    var u := x / p;
    assert u * p == x;
    assert (u - q) * p == u * p - q * p;
    if u > q { PositiveProduct(u - q, p); }
    if q > u { PositiveProduct(q - u, p); }
  }

  lemma DivideTwice(x: real, p: real)
    requires p > 0.0
    ensures (x / 10.0) / p == x / (10.0 * p)
  {
    var q := (x / 10.0) / p;
    assert q * p == x / 10.0;
    assert q * (10.0 * p) == 10.0 * (q * p);
    QuotientIs(q, x, 10.0 * p);
  }

  lemma UnsignedShape(m: nat, k: nat)
    requires k >= 1
    ensures AllNumeric(Unsigned(m, k)) && Unsigned(m, k) != []
    ensures IsDigit(Unsigned(m, k)[0]) && '\"' !in Unsigned(m, k)
  {
    var head := Digits(DropDigits(m, k));
    DigitsValue(DropDigits(m, k));
    SplitDigitsValue(m, k);
    var s := head + LastDigits(m, k);
    assert forall i | 0 <= i < k :: LastDigits(m, k)[i] == s[|head| + i];
  }

  /** A printed number is one run of numeric characters, so it is its own value span. */
  lemma PrintIsNumeric(x: real, k: nat)
    requires k >= 1
    ensures AllNumeric(Print(x, k)) && Print(x, k) != [] && '\"' !in Print(x, k)
  {
    UnsignedShape(Units(x, k), k);
  }

  /** The exact length of a printed number: it is the size of the number that decides. */
  lemma PrintLength(x: real, k: nat, j: nat)
    requires k >= 1 && j >= 1
    ensures |Print(x, k)| <= (if x < 0.0 then 1 else 0) + j + 1 + k <==> Units(x, k) < Pow10(j + k)
  {
    var m := Units(x, k);
    SplitDigitsValue(m, k);
    DigitsLength(DropDigits(m, k), j);
    DropDigitsBound(m, k, j);
  }

  lemma {:induction false} Pow10Add(j: nat, k: nat)
    ensures Pow10(j + k) == Pow10(j) * Pow10(k)
  {
    if j > 0 { Pow10Add(j - 1, k); }
  }

  lemma {:induction false} Pow10Monotone(j: nat, k: nat)
    requires j <= k
    ensures Pow10(j) <= Pow10(k)
  {
    if j < k { Pow10Monotone(j, k - 1); }
  }

  /** A power of ten prints exactly. */
  lemma UnitsOfPower(j: nat, k: nat)
    ensures Units(Pow10(j) as real, k) == Pow10(j + k)
  {
    hide Pow10;
    Pow10Add(j, k);
    assert Pow10(j) as real * Pow10(k) as real == Pow10(j + k) as real;
    RoundKeepsIntegers(Pow10(j + k));
  }

  lemma {:induction false} DigitsOfMultiple(n: nat, k: nat)
    ensures DropDigits(n * Pow10(k), k) == n
    ensures LastDigits(n * Pow10(k), k) == seq(k, _ => '0')
  {
    if k > 0 {
      var m := n * Pow10(k - 1);
      assert n * Pow10(k) == 10 * m;
      DigitsOfMultiple(n, k - 1);
      assert DigitChar(0) == '0';
      hide Pow10;
    }
  }

  /** A whole number is printed with zeros behind its point. */
  lemma PrintWhole(n: nat, k: nat)
    ensures Print(n as real, k) == Digits(n) + ("." + seq(k, _ => '0'))
  {
    hide Pow10;
    var m := n * Pow10(k);
    assert Scaled(n as real, k) == m as real;
    RoundKeepsIntegers(m);
    assert Units(n as real, k) == m;
    DigitsOfMultiple(n, k);
  }

  // ----- The parser -----

  /** How many digits `s` begins with. */
  function DigitRun(s: Bytes): (n: nat)
    ensures n <= |s| && AllDigits(s[..n])
    ensures n < |s| ==> !IsDigit(s[n])
  {
    if s == [] || !IsDigit(s[0]) then 0 else
    var n := DigitRun(s[1..]);
    assert s[..n + 1] == [s[0]] + s[1..][..n];
    n + 1
  }

  function Scale10(x: real, e: int): real
    decreases if e < 0 then -e else e
  {
    if e == 0 then x else if e > 0 then Scale10(x * 10.0, e - 1) else Scale10(x / 10.0, e + 1)
  }

  /** The exponent part, when there is one: `e` or `E`, a sign, at least one digit. */
  function Exponent(s: Bytes): int {
    if |s| < 2 || (s[0] != 'e' && s[0] != 'E') then 0
    else
      var ds := if s[1] == '-' || s[1] == '+' then s[2..] else s[1..];
      var n: int := Value(ds[..DigitRun(ds)]);
      if s[1] == '-' then -n else n
  }

  /** Digits with at most one point among them, then an exponent; no digits at all give 0. */
  function Magnitude(s: Bytes): real {
    var w := DigitRun(s);
    var point := w < |s| && s[w] == '.';
    var frac := if point then s[w + 1..] else [];
    var f := DigitRun(frac);
    if w + f == 0 then 0.0
    else
      var rest := if point then frac[f..] else s[w..];
      Scale10(Value(s[..w] + frac[..f]) as real, Exponent(rest) - f)
  }

  /** What `strtod` returns on a span of numeric characters. */
  function Strtod(s: Bytes): real {
    if s != [] && s[0] == '-' then -Magnitude(s[1..])
    else if s != [] && s[0] == '+' then Magnitude(s[1..])
    else Magnitude(s)
  }

  lemma {:induction false} DigitRunIs(a: Bytes, b: Bytes)
    requires AllDigits(a) && (b != [] ==> !IsDigit(b[0]))
    ensures DigitRun(a + b) == |a|
  {
    if a == [] {
      assert a + b == b;
    } else {
      assert (a + b)[1..] == a[1..] + b;
      DigitRunIs(a[1..], b);
    }
  }

  lemma {:induction false} ScaleDown(x: real, k: nat)
    ensures Scale10(x, 0 - k) == x / Pow10(k) as real
    decreases k
  {
    if k > 0 {
      ScaleDown(x / 10.0, k - 1);
      var p := Pow10(k - 1) as real;
      assert Pow10(k) as real == 10.0 * p;
      DivideTwice(x, p);
    }
  }

  lemma {:induction false} ScaleUp(x: real, k: nat)
    ensures Scale10(x, k) == x * Pow10(k) as real
    decreases k
  {
    if k > 0 {
      ScaleUp(x * 10.0, k - 1);
      var p := Pow10(k - 1) as real;
      assert Pow10(k) as real == 10.0 * p;
      assert (x * 10.0) * p == x * (10.0 * p);
    }
  }

  lemma MagnitudeWithoutPoint(s: Bytes, w: nat)
    requires DigitRun(s) == w > 0 && (w < |s| ==> s[w] != '.')
    ensures Magnitude(s) == Scale10(Value(s[..w]) as real, Exponent(s[w..]))
  {
    hide Scale10, Exponent, Value;
    var frac: Bytes := [];
    var f := DigitRun(frac);
    assert f == 0;
    hide DigitRun;
    var digits := s[..w] + frac[..f];
    assert digits == s[..w];
    assert Magnitude(s) == Scale10(Value(digits) as real, Exponent(s[w..]) - f);
  }

  /** An integer with or without an exponent. */
  lemma MagnitudeOfInteger(d: Bytes, e: Bytes)
    requires AllDigits(d) && d != [] && (e != [] ==> !IsDigit(e[0]) && e[0] != '.')
    ensures Magnitude(d + e) == Scale10(Value(d) as real, Exponent(e))
  {
    hide Scale10, Exponent, Value, DigitRun, Magnitude;
    DigitRunIs(d, e);
    MagnitudeWithoutPoint(d + e, |d|);
    assert (d + e)[..|d|] == d && (d + e)[|d|..] == e;
  }

  lemma ExponentOf(ds: Bytes)
    requires AllDigits(ds) && ds != []
    ensures Exponent("e" + ds) == Value(ds)
  {
    var s := "e" + ds;
    DigitRunIs(ds, []);
    assert s[1..] == ds && ds + [] == ds && ds[..|ds|] == ds;
    hide Value, DigitRun;
  }

  lemma MagnitudeOfUnsigned(m: nat, k: nat)
    requires k >= 1
    ensures Magnitude(Unsigned(m, k)) == m as real / Pow10(k) as real
  {
    hide Digits, LastDigits, DropDigits, Value, Scale10, Pow10;
    var head := Digits(DropDigits(m, k));
    var frac := LastDigits(m, k);
    var s := Unsigned(m, k);
    DigitsValue(DropDigits(m, k));
    SplitDigitsValue(m, k);
    assert AllDigits(frac) by {
      assert forall i | 0 <= i < |frac| :: frac[i] == (head + frac)[|head| + i];
    }
    DigitRunIs(head, "." + frac);
    assert s[..|head|] == head && s[|head|] == '.' && s[|head| + 1..] == frac;
    DigitRunIs(frac, []);
    assert frac + [] == frac && frac[..k] == frac && frac[k..] == [];
    ScaleDown(m as real, k);
  }

  /** The round trip: parsing what was printed gives the rounded number, exactly. */
  lemma ParsePrinted(x: real, k: nat)
    requires k >= 1
    ensures Strtod(Print(x, k)) == Rounded(x, k)
  {
    hide Magnitude, Unsigned, Units, Pow10;
    var u := Unsigned(Units(x, k), k);
    MagnitudeOfUnsigned(Units(x, k), k);
    UnsignedShape(Units(x, k), k);
    assert ("-" + u)[1..] == u;
  }
}
