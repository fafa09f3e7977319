/**
  `CascadedEMA` of `controller_pipeline.hpp`: a cascade of exponential moving averages, updated
  in place, and its laws. `alpha` is any real; the laws take it from (0, 1], where the formula
  of the source puts it.
 */
module LowPass {
  import opened Decimal

  type Row = seq<real>

  // ----- The filter -----

  /** One component moves towards its input by the fraction `alpha`. */
  function Toward(alpha: real, y: real, x: real): real {
    y + alpha * (x - y)
  }

  /** One stage: every component moves towards its input by the fraction `alpha`. */
  function Blend(alpha: real, row: Row, s: Row): (r: Row)
    requires |s| == |row|
    ensures |r| == |row|
  {
    seq(|row|, d requires 0 <= d < |row| => Toward(alpha, row[d], s[d]))
  }

  ghost predicate IsBank(y: seq<Row>, dim: nat) {
    forall i | 0 <= i < |y| :: |y[i]| == dim
  }

  /** All stages: each is fed the new value of the one before. */
  function Cascade(alpha: real, y: seq<Row>, x: Row): (r: seq<Row>)
    requires IsBank(y, |x|)
    ensures |r| == |y| && IsBank(r, |x|)
  {
    if y == [] then [] else
    var first := Blend(alpha, y[0], x);
    [first] + Cascade(alpha, y[1..], first)
  }

  /** What a step returns: the last stage. */
  function Output(y: seq<Row>, x: Row): Row {
    if y == [] then x else y[|y| - 1]
  }

  function Seeded(stages: nat, x0: Row): seq<Row> {
    seq(stages, _ => x0)
  }

  class CascadedEMA {
    const dim: nat
    const stages: nat
    const alpha: real
    var y: seq<Row>

    ghost predicate Valid()
      reads this
    {
      |y| == stages && IsBank(y, dim)
    }

    constructor (dim: nat, stages: nat, alpha: real)
      ensures this.dim == dim && this.stages == stages && this.alpha == alpha
      ensures Valid() && y == Seeded(stages, seq(dim, _ => 0.0))
    {
      this.dim, this.stages, this.alpha := dim, stages, alpha;
      y := seq(stages, _ => seq(dim, _ => 0.0));
    }

    method Reset(x0: Row)
      requires Valid() && |x0| == dim
      modifies this
      ensures Valid() && y == Seeded(stages, x0)
    {
      for i := 0 to stages
        invariant Valid()
        invariant forall k | 0 <= k < i :: y[k] == x0
      {
        y := y[i := x0];
      }
    }

    /** The inner loop: one stage, component by component. */
    method BlendRow(i: nat, s: Row)
      requires Valid() && i < stages && |s| == dim
      modifies this
      ensures Valid() && y == old(y)[i := Blend(alpha, old(y)[i], s)]
    {
      for d := 0 to dim
        invariant Valid()
        invariant forall k | 0 <= k < stages && k != i :: y[k] == old(y)[k]
        invariant forall e | 0 <= e < d :: y[i][e] == Toward(alpha, old(y)[i][e], s[e])
        invariant forall e | d <= e < dim :: y[i][e] == old(y)[i][e]
      {
        y := y[i := y[i][d := y[i][d] + alpha * (s[d] - y[i][d])]];
      }
      ghost var blended := Blend(alpha, old(y)[i], s);
      assert forall e | 0 <= e < dim :: y[i][e] == blended[e];
      assert y[i] == blended;
    }

    method Step(x: Row) returns (s: Row)
      requires Valid() && |x| == dim
      modifies this
      ensures Valid() && y == Cascade(alpha, old(y), x)
      ensures s == Output(y, x)
    {
      s := x;
      ghost var result := Cascade(alpha, y, x);
      for i := 0 to stages
        invariant Valid() && |s| == dim
        invariant s == Output(y[..i], x)
        invariant y[..i] + Cascade(alpha, y[i..], s) == result
      {
        ghost var before := y;
        BlendRow(i, s);
        CascadeAt(alpha, before, y, i, s);
        s := y[i];
      }
      assert y[..stages] == y;
    }
  }

  /** Moving the boundary of a half-finished step by one stage. */
  lemma CascadeAt(alpha: real, before: seq<Row>, y: seq<Row>, i: nat, s: Row)
    requires i < |before| && IsBank(before, |s|)
    requires y == before[i := Blend(alpha, before[i], s)]
    ensures IsBank(y[i + 1..], |y[i]|)
    ensures y[..i + 1] + Cascade(alpha, y[i + 1..], y[i]) == before[..i] + Cascade(alpha, before[i..], s)
    ensures Output(y[..i + 1], s) == y[i]
  {
    hide Blend;
    assert before[i..][1..] == y[i + 1..];
    assert y[..i + 1] == before[..i] + [y[i]];
    CascadeStep(alpha, before[i..], s);
  }

  lemma CascadeStep(alpha: real, y: seq<Row>, x: Row)
    requires IsBank(y, |x|) && y != []
    ensures Cascade(alpha, y, x) == [Blend(alpha, y[0], x)] + Cascade(alpha, y[1..], Blend(alpha, y[0], x))
  {
  }

  // ----- One component at a time -----

  /** The cascade of a single component. */
  function CascadeColumn(alpha: real, ys: seq<real>, x: real): (r: seq<real>)
    ensures |r| == |ys|
  {
    if ys == [] then [] else
    var first := Toward(alpha, ys[0], x);
    [first] + CascadeColumn(alpha, ys[1..], first)
  }

  function Column(y: seq<Row>, dim: nat, d: nat): (c: seq<real>)
    requires IsBank(y, dim) && d < dim
    ensures |c| == |y|
  {
    seq(|y|, i requires 0 <= i < |y| => y[i][d])
  }

  /** Components never mix. */
  lemma {:induction false} ColumnOfCascade(alpha: real, y: seq<Row>, x: Row, d: nat)
    requires IsBank(y, |x|) && d < |x|
    ensures Column(Cascade(alpha, y, x), |x|, d) == CascadeColumn(alpha, Column(y, |x|, d), x[d])
  {
    hide Toward;
    var c := Column(y, |x|, d);
    if y == [] {
      assert c == [] && Column(Cascade(alpha, y, x), |x|, d) == [];
    } else {
      var first := Blend(alpha, y[0], x);
      ColumnOfCascade(alpha, y[1..], first, d);
      CascadeStep(alpha, y, x);
      hide Cascade;
      assert c[1..] == Column(y[1..], |x|, d);
      assert Column([first] + Cascade(alpha, y[1..], first), |x|, d)
          == [first[d]] + Column(Cascade(alpha, y[1..], first), |x|, d);
    }
  }

  ghost predicate Within(lo: real, ys: seq<real>, hi: real) {
    forall i | 0 <= i < |ys| :: lo <= ys[i] <= hi
  }

  lemma BlendIsBetween(alpha: real, y: real, x: real, lo: real, hi: real)
    requires 0.0 < alpha <= 1.0 && lo <= y <= hi && lo <= x <= hi
    ensures lo <= Toward(alpha, y, x) <= hi
  {
    Convex(alpha, y - lo, x - lo);
    Convex(alpha, hi - y, hi - x);
    assert (hi - y) + alpha * ((hi - x) - (hi - y)) == hi - Toward(alpha, y, x) by {
      assert (hi - x) - (hi - y) == -(x - y);
      Negate(alpha, x - y);
    }
  }

  lemma Convex(alpha: real, u: real, v: real)
    requires 0.0 < alpha <= 1.0 && u >= 0.0 && v >= 0.0
    ensures u + alpha * (v - u) >= 0.0
  {
    Distribute(alpha, v, -u);
    Negate(alpha, u);
    NonNegativeProduct(alpha, v);
    NonNegativeProduct(1.0 - alpha, u);
    Distribute(u, 1.0, -alpha);
    Negate(u, alpha);
  }

  lemma Negate(a: real, b: real)
    ensures a * -b == -(a * b)
  {
  }

  /** The filter never leaves the range of its state and its input. */
  lemma {:induction false} CascadeStaysWithin(alpha: real, ys: seq<real>, x: real, lo: real, hi: real)
    requires 0.0 < alpha <= 1.0 && Within(lo, ys, hi) && lo <= x <= hi
    ensures Within(lo, CascadeColumn(alpha, ys, x), hi)
  {
    if ys != [] {
      var first := Toward(alpha, ys[0], x);
      BlendIsBetween(alpha, ys[0], x, lo, hi);
      CascadeStaysWithin(alpha, ys[1..], first, lo, hi);
    }
  }

  function Minus(zs: seq<real>, ys: seq<real>): (r: seq<real>)
    requires |zs| == |ys|
    ensures |r| == |ys|
  {
    seq(|ys|, i requires 0 <= i < |ys| => zs[i] - ys[i])
  }

  /** The filter is linear: the difference of two runs is the run of the difference. */
  lemma {:induction false} CascadeOfDifference(alpha: real, ys: seq<real>, x: real, zs: seq<real>, w: real)
    requires |ys| == |zs|
    ensures Minus(CascadeColumn(alpha, zs, w), CascadeColumn(alpha, ys, x))
         == CascadeColumn(alpha, Minus(zs, ys), w - x)
  {
    hide Toward;
    var ds := Minus(zs, ys);
    if ys == [] {
      assert ds == [];
    } else {
      var y1 := Toward(alpha, ys[0], x);
      var z1 := Toward(alpha, zs[0], w);
      CascadeOfDifference(alpha, ys[1..], y1, zs[1..], z1);
      assert Minus(zs[1..], ys[1..]) == ds[1..];
      DifferenceOfBlends(alpha, ys[0], x, zs[0], w);
      MinusOfCons(z1, CascadeColumn(alpha, zs[1..], z1), y1, CascadeColumn(alpha, ys[1..], y1));
    }
  }

  lemma MinusOfCons(z: real, zs: seq<real>, y: real, ys: seq<real>)
    requires |zs| == |ys|
    ensures Minus([z] + zs, [y] + ys) == [z - y] + Minus(zs, ys)
  {
  }

  lemma DifferenceOfBlends(alpha: real, y: real, x: real, z: real, w: real)
    ensures Toward(alpha, z, w) - Toward(alpha, y, x) == Toward(alpha, z - y, w - x)
  {
    Distribute(alpha, w - z, -(x - y));
    Negate(alpha, x - y);
    assert (w - z) + -(x - y) == (w - x) - (z - y);
  }

  /** Two filters whose states and inputs differ by between lo and hi differ by no more after a
      step: with lo = 0 the filter is monotone, with lo = -hi it is non-expansive. */
  lemma DifferencesStayWithin(
    alpha: real, ys: seq<real>, x: real, zs: seq<real>, w: real, lo: real, hi: real)
    requires 0.0 < alpha <= 1.0 && |ys| == |zs|
    requires Within(lo, Minus(zs, ys), hi) && lo <= w - x <= hi
    ensures Within(lo, Minus(CascadeColumn(alpha, zs, w), CascadeColumn(alpha, ys, x)), hi)
  {
    CascadeOfDifference(alpha, ys, x, zs, w);
    CascadeStaysWithin(alpha, Minus(zs, ys), w - x, lo, hi);
  }

  /** A filter seeded with its input stays as it is. */
  lemma {:induction false} SeededIsFixed(alpha: real, stages: nat, x: Row)
    ensures Cascade(alpha, Seeded(stages, x), x) == Seeded(stages, x)
  {
    var y := Seeded(stages, x);
    if stages > 0 {
      assert forall d | 0 <= d < |x| :: Toward(alpha, x[d], x[d]) == x[d];
      assert Blend(alpha, x, x) == x;
      assert y[1..] == Seeded(stages - 1, x);
      SeededIsFixed(alpha, stages - 1, x);
    }
  }

  // ----- Convergence -----

  function Pow(b: real, n: nat): real {
    if n == 0 then 1.0 else b * Pow(b, n - 1)
  }

  /** The state after n steps of constant input. */
  function Iterate(alpha: real, ys: seq<real>, c: real, n: nat): (r: seq<real>)
    ensures |r| == |ys|
  {
    if n == 0 then ys else CascadeColumn(alpha, Iterate(alpha, ys, c, n - 1), c)
  }

  lemma CascadeOfTwo(alpha: real, a: real, b: real, x: real)
    ensures CascadeColumn(alpha, [a, b], x) ==
            [Toward(alpha, a, x), Toward(alpha, b, Toward(alpha, a, x))]
  {
    hide Toward;
    assert [a, b][1..] == [b];
    CascadeOfOne(alpha, b, Toward(alpha, a, x));
  }

  lemma CascadeOfOne(alpha: real, b: real, x: real)
    ensures CascadeColumn(alpha, [b], x) == [Toward(alpha, b, x)]
  {
    hide Toward;
    assert [b][1..] == [];
    assert CascadeColumn(alpha, [b][1..], Toward(alpha, b, x)) == [];
  }

  /** The errors of two stages after n steps, with p = (1 - alpha)^n. */
  function FirstError(p: real, e1: real): real {
    p * e1
  }

  function SecondError(p: real, e1: real, e2: real, alpha: real, n: real): real {
    p * (e2 + n * alpha * e1)
  }

  /** Two stages under constant input: the exact error after n steps. */
  lemma {:induction false} TwoStagesConverge(alpha: real, c: real, e1: real, e2: real, n: nat)
    ensures var p := Pow(1.0 - alpha, n);
      Iterate(alpha, [c + e1, c + e2], c, n)
      == [c + FirstError(p, e1), c + SecondError(p, e1, e2, alpha, n as real)]
  {
    hide Toward, FirstError, SecondError, Iterate, CascadeColumn, Pow;
    if n == 0 {
      NoStep(alpha, c, e1, e2);
    } else {
      var q := Pow(1.0 - alpha, n - 1);
      var p := Pow(1.0 - alpha, n);
      var m := (n - 1) as real;
      IterateStep(alpha, [c + e1, c + e2], c, n);
      TwoStagesConverge(alpha, c, e1, e2, n - 1);
      CascadeOfTwo(alpha, c + FirstError(q, e1), c + SecondError(q, e1, e2, alpha, m), c);
      FirstErrorStep(alpha, c, q, e1, p);
      SecondErrorStep(alpha, c, q, e1, e2, m, p);
      assert n as real == m + 1.0;
    }
  }

  lemma NoStep(alpha: real, c: real, e1: real, e2: real)
    ensures Pow(1.0 - alpha, 0) == 1.0 && FirstError(1.0, e1) == e1 && SecondError(1.0, e1, e2, alpha, 0.0) == e2
    ensures Iterate(alpha, [c + e1, c + e2], c, 0) == [c + e1, c + e2]
  {
  }

  lemma IterateStep(alpha: real, ys: seq<real>, c: real, n: nat)
    requires n > 0
    ensures Iterate(alpha, ys, c, n) == CascadeColumn(alpha, Iterate(alpha, ys, c, n - 1), c)
    ensures Pow(1.0 - alpha, n) == (1.0 - alpha) * Pow(1.0 - alpha, n - 1)
  {
  }

  lemma FirstErrorStep(alpha: real, c: real, q: real, e: real, p: real)
    requires p == (1.0 - alpha) * q
    ensures Toward(alpha, c + FirstError(q, e), c) == c + FirstError(p, e)
  {
    var t := q * e;
    assert p * e == (1.0 - alpha) * t;
  }

  lemma SecondErrorStep(alpha: real, c: real, q: real, e1: real, e2: real, m: real, p: real)
    requires p == (1.0 - alpha) * q
    ensures Toward(alpha, c + SecondError(q, e1, e2, alpha, m), c + FirstError(p, e1))
         == c + SecondError(p, e1, e2, alpha, m + 1.0)
  {
    var g := e2 + m * alpha * e1;
    assert (m + 1.0) * alpha * e1 == m * alpha * e1 + alpha * e1;
    assert e2 + (m + 1.0) * alpha * e1 == g + alpha * e1;
    Distribute(p, g, alpha * e1);
    assert p * (alpha * e1) == alpha * (p * e1);
    assert p * g == q * g - alpha * (q * g);
  }

  lemma Distribute(p: real, a: real, b: real)
    ensures p * (a + b) == p * a + p * b
  {
  }
}
