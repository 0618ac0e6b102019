/**
 The inversion of a cubic Bezier curve of include/cglm/bezier.h: glm_decasteljau, over
 exact reals, finds the parameter at which the curve takes a given value.
 */
module Bezier {
  const EPS := 0.000000001
  const SMALL := 0.00000000000000000001
  const MAX: nat := 1000

  /** Begin point, two control points, end point. */
  datatype Cubic = Cubic(p0: real, c0: real, c1: real, p1: real)

  /** glm_bezier. */
  function At(k: Cubic, s: real): real {
    var x := 1.0 - s;
    var xx := x * x;
    var ss := s * s;
    var xs3 := (s - ss) * 3.0;
    var a := k.p0 * xx + k.c0 * xs3;
    a + s * (k.c1 * xs3 + k.p1 * ss - a)
  }

  /** The formula that its documentation gives. */
  lemma AtIsBernstein(k: Cubic, s: real)
    ensures var x := 1.0 - s;
      At(k, s) == k.p0 * (x * x * x) + 3.0 * k.c0 * (s * x * x) + 3.0 * k.c1 * (s * s * x) + k.p1 * (s * s * s)
  {
  }

  // --------------------------------------------------------- the polar form

  function K1(k: Cubic): real { k.c0 - k.p0 }
  function K2(k: Cubic): real { k.p0 - 2.0 * k.c0 + k.c1 }
  function K3(k: Cubic): real { k.p1 - 3.0 * k.c1 + 3.0 * k.c0 - k.p0 }

  /** The slope of the polar form in one argument, given the two others. */
  function Slope(k: Cubic, r: real, s: real): real {
    K1(k) + K2(k) * (r + s) + K3(k) * (r * s)
  }

  /** The polar form of the cubic: symmetric, affine in each argument, and the curve itself
      where they are all equal. */
  function Polar(k: Cubic, r: real, s: real, t: real): real {
    k.p0 + K1(k) * (r + s) + K2(k) * (r * s) + Slope(k, r, s) * t
  }

  lemma PolarIsSymmetric(k: Cubic, r: real, s: real, t: real)
    ensures Polar(k, r, s, t) == Polar(k, s, r, t) == Polar(k, r, t, s)
  {
    PolarExpanded(k, r, s, t);
    PolarExpanded(k, s, r, t);
    PolarExpanded(k, r, t, s);
    hide Polar, K1, K2, K3;
  }

  lemma PolarExpanded(k: Cubic, r: real, s: real, t: real)
    ensures Polar(k, r, s, t) == k.p0 + K1(k) * (r + s + t) + K2(k) * (r * s + r * t + s * t) + K3(k) * (r * s * t)
  {
    hide K1, K2, K3;
    assert Slope(k, r, s) * t == K1(k) * t + K2(k) * ((r + s) * t) + K3(k) * (r * s * t);
  }

  lemma PolarOnCurve(k: Cubic, s: real)
    ensures Polar(k, s, s, s) == At(k, s)
  {
  }

  /** Averages in one argument. */
  lemma PolarMidpoint(k: Cubic, r: real, s: real, u: real, v: real)
    ensures (Polar(k, r, s, u) + Polar(k, r, s, v)) * 0.5 == Polar(k, r, s, (u + v) * 0.5)
  {
  }

  /** The control points of the part of the curve between u and v. */
  function Part(k: Cubic, u: real, v: real): Cubic {
    Cubic(Polar(k, u, u, u), Polar(k, u, u, v), Polar(k, u, v, v), Polar(k, v, v, v))
  }

  lemma PolarEnds(k: Cubic)
    ensures Part(k, 0.0, 1.0) == k
  {
  }

  // -------------------------------------------------------------- bisection

  function Midpoint(u: real, v: real): real { (u + v) * 0.5 }

  ghost predicate Hit(k: Cubic, prm: real, s: real) {
    -EPS < At(k, s) - prm < EPS
  }

  /** Plain bisection: n more times, halve the interval, keeping the half at whose ends the
      curve is below the value and not below it; stop at a midpoint that is close enough. */
  ghost function Bisection(k: Cubic, prm: real, n: nat, u: real, v: real): real {
    var m := Midpoint(u, v);
    if n == 0 || Hit(k, prm, m) then m
    else if At(k, m) < prm then Bisection(k, prm, n - 1, m, v)
    else Bisection(k, prm, n - 1, u, m)
  }

  /** w / 2^n. */
  function Halved(w: real, n: nat): (h: real)
    requires w > 0.0
    ensures 0.0 < h <= w
    decreases n
  {
    if n == 0 then w else Halved(w * 0.5, n - 1)
  }

  /** Between ends with the value in between, bisection ends at a hit or in the middle of a
      bracket of the value that is 2^n times narrower. */
  lemma {:induction false} BisectionBrackets(k: Cubic, prm: real, n: nat, u: real, v: real)
    requires u < v && At(k, u) < prm <= At(k, v)
    ensures var r, h := Bisection(k, prm, n, u, v), Halved(v - u, n + 1);
      && u < r < v
      && (Hit(k, prm, r) || (u <= r - h < r + h <= v && At(k, r - h) < prm <= At(k, r + h)))
  {
    hide At;
    var m := Midpoint(u, v);
    assert m - u == v - m == (v - u) * 0.5;
    assert Halved(v - u, n + 1) == Halved(m - u, n) == Halved(v - m, n);
    if n == 0 {
      assert Halved(m - u, 0) == m - u;
    } else if !Hit(k, prm, m) {
      if At(k, m) < prm {
        BisectionBrackets(k, prm, n - 1, m, v);
      } else {
        BisectionBrackets(k, prm, n - 1, u, m);
      }
    }
  }

  // ---------------------------------------------------------- glm_decasteljau

  function Min(a: real, b: real): real { if a < b then a else b }
  function Max(a: real, b: real): real { if a > b then a else b }
  function Clamp01(x: real): real { Min(Max(x, 0.0), 1.0) }

  /** What glm_decasteljau computes, by evaluating the curve itself at every midpoint. */
  ghost function Inverse(k: Cubic, prm: real): real {
    if prm - k.p0 < SMALL then 0.0
    else if k.p1 - prm < SMALL then 1.0
    else Bisection(k, prm, MAX, 0.0, 1.0)
  }

  /** One subdivision: the points it computes are the control points of the two halves. */
  lemma Subdivision(k: Cubic, u: real, v: real)
    ensures var q, m := Part(k, u, v), Midpoint(u, v);
      var a, b, c := (q.p0 + q.c0) * 0.5, (q.c0 + q.c1) * 0.5, (q.c1 + q.p1) * 0.5;
      var d, e := (a + b) * 0.5, (b + c) * 0.5;
      var f := (d + e) * 0.5;
      Cubic(q.p0, a, d, f) == Part(k, u, m) && Cubic(f, e, c, q.p1) == Part(k, m, v) && f == At(k, m)
  {
    hide Polar, At;
    var m := Midpoint(u, v);
    PolarMidpoint(k, u, u, u, v);
    PolarMidpoint(k, u, v, u, v);
    PolarMidpoint(k, v, v, u, v);
    PolarMidpoint(k, u, m, u, v);
    PolarMidpoint(k, v, m, u, v);
    PolarMidpoint(k, m, m, u, v);
    PolarIsSymmetric(k, u, v, u);
    PolarIsSymmetric(k, u, v, v);
    PolarIsSymmetric(k, v, u, v);
    PolarIsSymmetric(k, u, m, v);
    PolarIsSymmetric(k, u, m, m);
    PolarIsSymmetric(k, m, u, m);
    PolarIsSymmetric(k, v, m, m);
    PolarIsSymmetric(k, u, u, m);
    PolarIsSymmetric(k, u, m, u);
    PolarIsSymmetric(k, v, m, u);
    PolarIsSymmetric(k, v, v, m);
    PolarIsSymmetric(k, m, v, v);
    PolarIsSymmetric(k, v, m, v);
    PolarIsSymmetric(k, m, m, u);
    PolarIsSymmetric(k, m, m, v);
    PolarIsSymmetric(k, m, u, v);
    PolarOnCurve(k, m);
  }

  method Decasteljau(prm: real, begin: real, control0: real, control1: real, end: real) returns (r: real)
    ensures r == Inverse(Cubic(begin, control0, control1, end), prm)
  {
    hide Part, At, Bisection;
    ghost var k := Cubic(begin, control0, control1, end);
    var p0, c0, c1, p1 := begin, control0, control1, end;
    if prm - p0 < SMALL {
      return 0.0;
    }
    if p1 - prm < SMALL {
      return 1.0;
    }
    var u, v := 0.0, 1.0;
    PolarEnds(k);
    var i: nat := 0;
    while i < MAX
      invariant i <= MAX && 0.0 <= u < v <= 1.0
      invariant Cubic(p0, c0, c1, p1) == Part(k, u, v) && p0 < prm <= p1
      invariant Bisection(k, prm, MAX - i, u, v) == Bisection(k, prm, MAX, 0.0, 1.0)
    {
      Subdivision(k, u, v);
      BisectionStep(k, prm, MAX - i, u, v);
      var a := (p0 + c0) * 0.5;
      var b := (c0 + c1) * 0.5;
      var c := (c1 + p1) * 0.5;
      var d := (a + b) * 0.5;
      var e := (b + c) * 0.5;
      var f := (d + e) * 0.5;
      if -EPS < f - prm < EPS {
        return Clamp01((u + v) * 0.5);
      }
      if f < prm {
        p0, c0, c1 := f, e, c;
        u := (u + v) * 0.5;
      } else {
        c0, c1, p1 := a, d, f;
        v := (u + v) * 0.5;
      }
      i := i + 1;
    }
    BisectionStep(k, prm, 0, u, v);
    r := Clamp01((u + v) * 0.5);
  }

  lemma BisectionStep(k: Cubic, prm: real, n: nat, u: real, v: real)
    ensures var m := Midpoint(u, v);
      Bisection(k, prm, n, u, v) ==
      if n == 0 || Hit(k, prm, m) then m
      else if At(k, m) < prm then Bisection(k, prm, n - 1, m, v)
      else Bisection(k, prm, n - 1, u, m)
  {
  }

  // ------------------------------------------------------ what the result is

  lemma AtEnds(k: Cubic)
    ensures At(k, 0.0) == k.p0 && At(k, 1.0) == k.p1
  {
  }

  /** For every value from the begin point to the end point, the result is a parameter at
      which the curve is within EPS of the value, or within 2^-1001 of which it passes from
      below the value to the value or above. A value above the end point gives 1, unless it
      is hardly above the begin point; one below that gives 0. */
  lemma InverseIsClose(k: Cubic, prm: real)
    ensures var r, h := Inverse(k, prm), Halved(1.0, MAX + 1);
      && 0.0 <= r <= 1.0
      && (prm - k.p0 < SMALL ==> r == 0.0)
      && (k.p1 < prm && prm - k.p0 >= SMALL ==> r == 1.0)
      && (k.p0 <= prm <= k.p1 ==>
            Hit(k, prm, r) || (0.0 <= r - h < r + h <= 1.0 && At(k, r - h) < prm <= At(k, r + h)))
  {
    hide At, Bisection, Halved;
    AtEnds(k);
    if prm - k.p0 >= SMALL && k.p1 - prm >= SMALL {
      BisectionBrackets(k, prm, MAX, 0.0, 1.0);
    }
  }

  /** The control points do not go down. */
  predicate Monotone(k: Cubic) {
    k.p0 <= k.c0 <= k.c1 <= k.p1
  }

  lemma ProductIsNotNegative(x: real, y: real)
    requires x >= 0.0 && y >= 0.0
    ensures x * y >= 0.0
  {
  }

  /** The slope is an average of the steps between the control points. */
  lemma SlopeIsAverage(k: Cubic, r: real, s: real)
    ensures Slope(k, r, s) ==
      (1.0 - r) * (1.0 - s) * (k.c0 - k.p0) + ((1.0 - r) * s + r * (1.0 - s)) * (k.c1 - k.c0) + r * s * (k.p1 - k.c1)
  {
    assert (1.0 - r) * (1.0 - s) == 1.0 - (r + s) + r * s;
    assert (1.0 - r) * s + r * (1.0 - s) == (r + s) - 2.0 * (r * s);
    Distribute(k.c0 - k.p0, k.c1 - k.c0, k.p1 - k.c1, r * s, r + s);
  }

  lemma Distribute(x: real, y: real, z: real, a: real, b: real)
    ensures x + (y - x) * b + (z - 2.0 * y + x) * a == (1.0 - b + a) * x + (b - 2.0 * a) * y + a * z
  {
  }

  lemma SlopeIsNotNegative(k: Cubic, r: real, s: real)
    requires Monotone(k) && 0.0 <= r <= 1.0 && 0.0 <= s <= 1.0
    ensures Slope(k, r, s) >= 0.0
  {
    SlopeIsAverage(k, r, s);
    hide Slope;
    ProductIsNotNegative(1.0 - r, 1.0 - s);
    ProductIsNotNegative(1.0 - r, s);
    ProductIsNotNegative(r, 1.0 - s);
    ProductIsNotNegative(r, s);
    ProductIsNotNegative((1.0 - r) * (1.0 - s), k.c0 - k.p0);
    ProductIsNotNegative((1.0 - r) * s + r * (1.0 - s), k.c1 - k.c0);
    ProductIsNotNegative(r * s, k.p1 - k.c1);
  }

  lemma PolarGrows(k: Cubic, r: real, s: real, t: real, t': real)
    requires Monotone(k) && 0.0 <= r <= 1.0 && 0.0 <= s <= 1.0 && t <= t'
    ensures Polar(k, r, s, t) <= Polar(k, r, s, t')
  {
    SlopeIsNotNegative(k, r, s);
    ProductIsNotNegative(Slope(k, r, s), t' - t);
  }

  lemma CurveGrows(k: Cubic, s: real, t: real)
    requires Monotone(k) && 0.0 <= s <= t <= 1.0
    ensures At(k, s) <= At(k, t)
  {
    hide Polar, At;
    PolarOnCurve(k, s);
    PolarOnCurve(k, t);
    PolarGrows(k, s, s, s, t);
    PolarGrows(k, s, t, s, t);
    PolarGrows(k, t, t, s, t);
    PolarIsSymmetric(k, s, s, t);
    PolarIsSymmetric(k, s, t, t);
    PolarIsSymmetric(k, t, s, t);
  }

  /** On a curve whose control points do not go down, the result is within 2^-1001 of the
      first parameter at which the curve takes the value, unless the curve is within EPS of
      the value at the result. */
  lemma InverseIsNearSolution(k: Cubic, prm: real, t: real)
    requires Monotone(k) && 0.0 <= t <= 1.0 && At(k, t) == prm
    requires forall s :: 0.0 <= s < t ==> At(k, s) != prm
    ensures var r, h := Inverse(k, prm), Halved(1.0, MAX + 1);
      Hit(k, prm, r) || r - h < t <= r + h
  {
    hide At, Halved;
    var r, h := Inverse(k, prm), Halved(1.0, MAX + 1);
    AtEnds(k);
    CurveGrows(k, 0.0, t);
    CurveGrows(k, t, 1.0);
    InverseIsClose(k, prm);
    if !Hit(k, prm, r) {
      if t <= r - h {
        CurveGrows(k, t, r - h);
      }
      if r + h < t {
        CurveGrows(k, r + h, t);
      }
    }
  }
}
