/** Int8 quantization of `controller_pipeline.hpp`, over exact reals. */
module Quantizer {
  import opened Decimal

  newtype int8 = x: int | -128 <= x < 128

  /** Clips to the int8 range. */
  function Saturate(q: int): int8 {
    if q > 127 then 127 else if q < -128 then -128 else q as int8
  }

  function Quantize(x: real, scale: real, zeroPoint: int): int8
    requires scale > 0.0
  {
    Saturate(RoundHalfToEven(x / scale) + zeroPoint)
  }

  function Dequantize(q: int8, scale: real, zeroPoint: int): real {
    scale * (q as real - zeroPoint as real)
  }

  /** Distances before and after scaling. */
  lemma ScaledDistance(k: int8, x: real, scale: real, zeroPoint: int)
    requires scale > 0.0
    ensures Abs(Dequantize(k, scale, zeroPoint) - x) == scale * Abs(k as real - zeroPoint as real - x / scale)
  {
    var y := x / scale;
    assert scale * y == x;
    assert Dequantize(k, scale, zeroPoint) - x == scale * (k as real - zeroPoint as real - y);
    AbsScales(scale, k as real - zeroPoint as real - y);
  }

  lemma AbsScales(s: real, d: real)
    requires s > 0.0
    ensures Abs(s * d) == s * Abs(d)
  {
  }

  lemma ScaleIsMonotone(s: real, a: real, b: real)
    requires s > 0.0 && a <= b
    ensures s * a <= s * b
  {
  }

  /** Rounding and clipping, in integers: no int8 is nearer. */
  lemma SaturateIsNearest(y: real, zeroPoint: int, k: int8)
    ensures var q := Saturate(RoundHalfToEven(y) + zeroPoint);
      Abs(q as real - zeroPoint as real - y) <= Abs(k as real - zeroPoint as real - y)
  {
    var r := RoundHalfToEven(y);
    RoundIsNearest(y, r);
    ClampIsNearest(y, r, -128 - zeroPoint, 127 - zeroPoint, k as int - zeroPoint);
  }

  lemma ClampIsNearest(y: real, r: int, lo: int, hi: int, k: int)
    requires -0.5 <= r as real - y <= 0.5 && lo <= k <= hi
    ensures var q := if r > hi then hi else if r < lo then lo else r;
      Abs(q as real - y) <= Abs(k as real - y)
  {
    if r > hi {
      assert hi as real <= r as real - 1.0 && k as real <= hi as real;
    } else if r < lo {
      assert lo as real >= r as real + 1.0 && k as real >= lo as real;
    } else if k > r {
      assert k as real >= r as real + 1.0;
    } else if k < r {
      assert k as real <= r as real - 1.0;
    }
  }

  /** Quantization is the best int8 approximation, saturation included. */
  lemma QuantizeIsNearest(x: real, scale: real, zeroPoint: int, k: int8)
    requires scale > 0.0
    ensures Abs(Dequantize(Quantize(x, scale, zeroPoint), scale, zeroPoint) - x)
         <= Abs(Dequantize(k, scale, zeroPoint) - x)
  {
    hide Dequantize, Saturate, RoundHalfToEven, Abs;
    var q := Quantize(x, scale, zeroPoint);
    ScaledDistance(q, x, scale, zeroPoint);
    ScaledDistance(k, x, scale, zeroPoint);
    SaturateIsNearest(x / scale, zeroPoint, k);
    ScaleIsMonotone(scale, Abs(q as real - zeroPoint as real - x / scale),
                    Abs(k as real - zeroPoint as real - x / scale));
  }

  /** Where another int8 is as near, the quantized one is an even number of steps from zero. */
  lemma QuantizeTiesToEven(x: real, scale: real, zeroPoint: int, k: int8)
    requires scale > 0.0
    ensures var q := Quantize(x, scale, zeroPoint);
      k != q && Abs(Dequantize(q, scale, zeroPoint) - x) == Abs(Dequantize(k, scale, zeroPoint) - x) ==>
        (q as int - zeroPoint) % 2 == 0
  {
    var q := Quantize(x, scale, zeroPoint);
    var y := x / scale;
    EqualDistances(q, k, x, scale, zeroPoint);
    RoundIsNearest(y, k as int - zeroPoint);
    QuantizeIs(x, scale, zeroPoint);
    hide Dequantize, RoundHalfToEven, Quantize;
    TieIsEven(y, RoundHalfToEven(y), zeroPoint, k as int);
  }

  lemma QuantizeIs(x: real, scale: real, zeroPoint: int)
    requires scale > 0.0
    ensures var n := RoundHalfToEven(x / scale) + zeroPoint;
      Quantize(x, scale, zeroPoint) as int == if n > 127 then 127 else if n < -128 then -128 else n
  {
    hide RoundHalfToEven;
  }

  lemma EqualDistances(q: int8, k: int8, x: real, scale: real, zeroPoint: int)
    requires scale > 0.0
    ensures Abs(Dequantize(q, scale, zeroPoint) - x) == Abs(Dequantize(k, scale, zeroPoint) - x) ==>
      Abs(q as real - zeroPoint as real - x / scale) == Abs(k as real - zeroPoint as real - x / scale)
  {
    ScaledDistance(q, x, scale, zeroPoint);
    ScaledDistance(k, x, scale, zeroPoint);
    hide Dequantize, Abs;
    ScaleCancels(scale, Abs(q as real - zeroPoint as real - x / scale), Abs(k as real - zeroPoint as real - x / scale));
  }

  lemma ScaleCancels(s: real, a: real, b: real)
    requires s > 0.0
    ensures s * a == s * b ==> a == b
  {
    if a < b { ScaleIsStrict(s, a, b); }
    if b < a { ScaleIsStrict(s, b, a); }
  }

  lemma TieIsEven(y: real, r: int, zeroPoint: int, k: int)
    requires -0.5 <= r as real - y <= 0.5 && -128 <= k <= 127
    requires (k - zeroPoint) as real - y <= 0.5 && (k - zeroPoint) as real - y >= -0.5 && k - zeroPoint != r ==>
               r % 2 == 0
    ensures var q := if r + zeroPoint > 127 then 127 else if r + zeroPoint < -128 then -128 else r + zeroPoint;
      k != q && Abs(q as real - zeroPoint as real - y) == Abs(k as real - zeroPoint as real - y) ==>
        (q - zeroPoint) % 2 == 0
  {
  }

  /** The error is at most half a step exactly where nothing is clipped by more than that. */
  lemma HalfStepIffInRange(x: real, scale: real, zeroPoint: int)
    requires scale > 0.0
    ensures Abs(Dequantize(Quantize(x, scale, zeroPoint), scale, zeroPoint) - x) <= scale * 0.5
       <==> -128.5 <= x / scale + zeroPoint as real <= 127.5
  {
    hide Dequantize, Quantize, Abs;
    var q := Quantize(x, scale, zeroPoint);
    var d := Abs(q as real - zeroPoint as real - x / scale);
    ScaledDistance(q, x, scale, zeroPoint);
    ClippedDistance(x, scale, zeroPoint);
    if d <= 0.5 {
      ScaleIsMonotone(scale, d, 0.5);
    } else {
      ScaleIsStrict(scale, 0.5, d);
    }
  }

  lemma ScaleIsStrict(s: real, a: real, b: real)
    requires s > 0.0 && a < b
    ensures s * a < s * b
  {
  }

  lemma ClippedDistance(x: real, scale: real, zeroPoint: int)
    requires scale > 0.0
    ensures Abs(Quantize(x, scale, zeroPoint) as real - zeroPoint as real - x / scale) <= 0.5
       <==> -128.5 <= x / scale + zeroPoint as real <= 127.5
  {
    var y := x / scale;
    var r := RoundHalfToEven(y);
    RoundIsNearest(y, r);
    var lo, hi := -128 - zeroPoint, 127 - zeroPoint;
    assert Quantize(x, scale, zeroPoint) as int - zeroPoint == if r > hi then hi else if r < lo then lo else r;
    ClampDistance(y, r, lo, hi);
  }

  lemma ClampDistance(y: real, r: int, lo: int, hi: int)
    requires -0.5 <= r as real - y <= 0.5 && lo <= hi
    ensures var q := if r > hi then hi else if r < lo then lo else r;
      Abs(q as real - y) <= 0.5 <==> lo as real - 0.5 <= y <= hi as real + 0.5
  {
    if r > hi {
      assert hi as real <= r as real - 1.0;
    } else if r < lo {
      assert lo as real >= r as real + 1.0;
    }
  }

  /** Quantization undoes dequantization. */
  lemma QuantizeUndoesDequantize(q: int8, scale: real, zeroPoint: int)
    requires scale > 0.0
    ensures Quantize(Dequantize(q, scale, zeroPoint), scale, zeroPoint) == q
  {
    var n := q as int - zeroPoint;
    assert Dequantize(q, scale, zeroPoint) / scale == n as real;
    RoundKeepsIntegers(n);
  }

  lemma QuantizeIsMonotone(x: real, y: real, scale: real, zeroPoint: int)
    requires scale > 0.0 && x <= y
    ensures Quantize(x, scale, zeroPoint) <= Quantize(y, scale, zeroPoint)
  {
    DivideIsMonotone(x, y, scale);
    RoundIsMonotone(x / scale, y / scale);
  }

  /** Every dequantized value lies between those of the two ends of the range. */
  lemma DequantizeRange(q: int8, scale: real, zeroPoint: int)
    requires scale > 0.0
    ensures Dequantize(-128, scale, zeroPoint) <= Dequantize(q, scale, zeroPoint)
    ensures Dequantize(q, scale, zeroPoint) <= Dequantize(127, scale, zeroPoint)
  {
    DequantizeIsMonotone(-128, q, scale, zeroPoint);
    DequantizeIsMonotone(q, 127, scale, zeroPoint);
  }

  lemma DequantizeIsMonotone(q: int8, r: int8, scale: real, zeroPoint: int)
    requires scale > 0.0 && q <= r
    ensures Dequantize(q, scale, zeroPoint) <= Dequantize(r, scale, zeroPoint)
  {
    var (a, b) := (q as real - zeroPoint as real, r as real - zeroPoint as real);
    ScaleIsMonotone(scale, a, b);
  }
}
