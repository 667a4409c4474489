/** The four segment formulas of an automation timeline (lib/expr.js).
    Numbers are reals; `Math.exp` and `Math.pow` are supplied by the host
    as a `MathLib` value, about which nothing is assumed unless a lemma
    says so in its requires clause. */
module Expr {

  /** The host's `Math.exp` and `Math.pow`. */
  datatype MathLib = MathLib(exp: real -> real, pow: (real, real) -> real)

  /** `Math.exp` maps every negative argument into the open interval (0, 1). */
  ghost predicate ExpDecays(m: MathLib)
  {
    forall x: real :: x < 0.0 ==> 0.0 < m.exp(x) < 1.0
  }

  /** `Math.exp` is monotone. */
  ghost predicate ExpIncreasing(m: MathLib)
  {
    forall x: real, y: real :: x <= y ==> m.exp(x) <= m.exp(y)
  }

  /** `Math.pow` of a positive base is positive. */
  ghost predicate PowPositive(m: MathLib)
  {
    forall x: real, y: real :: 0.0 < x ==> 0.0 < m.pow(x, y)
  }

  /** `r` lies in the closed interval spanned by `a` and `b`, whichever is larger. */
  predicate Between(r: real, a: real, b: real)
  {
    (a <= r <= b) || (b <= r <= a)
  }

  /** Both endpoints strictly positive or both strictly negative. */
  predicate SameSign(a: real, b: real)
  {
    (0.0 < a && 0.0 < b) || (a < 0.0 && b < 0.0)
  }

  function Min(a: real, b: real): real
  {
    if a <= b then a else b
  }

  /** `x|0` without the 32-bit wrap: truncation toward zero. */
  function Trunc(x: real): (r: int)
    ensures 0.0 <= x ==> r as real <= x < r as real + 1.0
    ensures x < 0.0 ==> r as real - 1.0 < x <= r as real
  {
    if 0.0 <= x then x.Floor else -((-x).Floor)
  }

  // Small facts of real arithmetic that the solver proves on their own but
  // not inside larger contexts.

  lemma ScaleBetween(a: real, d: real)
    requires 0.0 <= a <= 1.0
    ensures Between(a * d, 0.0, d)
  {
  }

  lemma UnitFraction(x: real, d: real)
    requires 0.0 <= x < d
    ensures 0.0 <= x / d < 1.0
    ensures 0.0 < x ==> 0.0 < x / d
  {
  }

  lemma DivMono(x: real, y: real, d: real)
    requires x <= y && 0.0 < d
    ensures x / d <= y / d
  {
  }

  lemma MulMono(a: real, b: real, c: real)
    requires a <= b && 0.0 <= c
    ensures a * c <= b * c
  {
  }

  lemma MulStrict(a: real, b: real, c: real)
    requires a < b && 0.0 < c
    ensures a * c < b * c
  {
  }

  lemma MulSign(x: real, y: real)
    requires 0.0 < y
    ensures 0.0 < x ==> 0.0 < x * y
    ensures x < 0.0 ==> x * y < 0.0
  {
  }

  lemma QuotientNegative(x: real, y: real)
    requires x < 0.0 < y
    ensures x / y < 0.0
  {
  }

  lemma QuotientPositive(x: real, y: real)
    requires SameSign(x, y)
    ensures 0.0 < x / y
  {
  }

  lemma MulMonoNeg(a: real, b: real, c: real)
    requires a <= b && c <= 0.0
    ensures b * c <= a * c
  {
  }

  /** Moving a fraction `a` in [0, 1] of the way from `v0` to `v1` stays between them. */
  lemma FractionBetween(a: real, v0: real, v1: real)
    requires 0.0 <= a <= 1.0
    ensures Between(v0 + a * (v1 - v0), v0, v1)
  {
    var d := v1 - v0;
    ScaleBetween(a, d);
    var x := a * d;
    assert (0.0 <= x <= d) || (d <= x <= 0.0);
    assert (v0 <= v0 + x <= v1) || (v1 <= v0 + x <= v0);
  }

  /** getLinearRampToValueAtTime: the value at `t` of a linear ramp from
      (`t0`, `v0`) to (`t1`, `v1`), held at the endpoints outside [t0, t1]. */
  function LinearRampValue(t: real, v0: real, v1: real, t0: real, t1: real): (r: real)
    ensures t <= t0 ==> r == v0
    ensures t0 < t && t1 <= t ==> r == v1
    ensures Between(r, v0, v1)
  {
    if t <= t0 then v0
    else if t1 <= t then v1
    else
      var a := (t - t0) / (t1 - t0);
      FractionBetween(a, v0, v1);
      v0 + a * (v1 - v0)
  }

  /** Strictly inside the ramp, (t, r) lies on the straight line through
      (t0, v0) and (t1, v1). */
  lemma LinearRampOnLine(t: real, v0: real, v1: real, t0: real, t1: real)
    requires t0 < t < t1
    ensures (LinearRampValue(t, v0, v1, t0, t1) - v0) * (t1 - t0) == (t - t0) * (v1 - v0)
  {
    var a := (t - t0) / (t1 - t0);
    assert a * (t1 - t0) == t - t0;
    calc {
      (LinearRampValue(t, v0, v1, t0, t1) - v0) * (t1 - t0);
      (a * (v1 - v0)) * (t1 - t0);
      (a * (t1 - t0)) * (v1 - v0);
    }
  }

  /** A rising ramp never falls: the value is monotone in `t`. */
  lemma LinearRampMonotone(t: real, u: real, v0: real, v1: real, t0: real, t1: real)
    requires v0 <= v1 && t <= u
    ensures LinearRampValue(t, v0, v1, t0, t1) <= LinearRampValue(u, v0, v1, t0, t1)
  {
    if t0 < t && u < t1 {
      var a := (t - t0) / (t1 - t0);
      var b := (u - t0) / (t1 - t0);
      DivMono(t - t0, u - t0, t1 - t0);
      MulMono(a, b, v1 - v0);
      assert LinearRampValue(t, v0, v1, t0, t1) == v0 + a * (v1 - v0);
      assert LinearRampValue(u, v0, v1, t0, t1) == v0 + b * (v1 - v0);
    }
  }

  /** An elapsed time `x` of at least `duration` scales `k` to at least `k`. */
  lemma IndexPastEnd(x: real, duration: real, k: real)
    requires 0.0 < duration <= x && 0.0 <= k
    ensures k <= (x / duration) * k
  {
    DivMono(duration, x, duration);
    assert duration / duration == 1.0;
    MulMono(1.0, x / duration, k);
  }

  /** An elapsed time `x` in [0, duration) scales a positive `k` into [0, k). */
  lemma IndexInside(x: real, duration: real, k: real)
    requires 0.0 <= x < duration && 0.0 < k
    ensures 0.0 <= (x / duration) * k < k
  {
    UnitFraction(x, duration);
    MulMono(0.0, x / duration, k);
    MulStrict(x / duration, 1.0, k);
  }

  /** getExponentialRampToValueAtTime: an exponential ramp from (`t0`, `v0`)
      to (`t1`, `v1`); a ramp whose endpoints do not share a strict sign
      is 0 strictly inside. */
  function ExponentialRampValue(m: MathLib, t: real, v0: real, v1: real, t0: real, t1: real): (r: real)
    ensures t <= t0 ==> r == v0
    ensures t0 < t && t1 <= t ==> r == v1
    ensures t0 < t < t1 && v0 == v1 ==> r == v0
    ensures t0 < t < t1 && v0 != v1 && !SameSign(v0, v1) ==> r == 0.0
    ensures t0 < t < t1 && v0 != v1 && SameSign(v0, v1) ==>
      var a := (t - t0) / (t1 - t0);
      0.0 < a < 1.0 && r == v0 * m.pow(v1 / v0, a)
  {
    if t <= t0 then v0
    else if t1 <= t then v1
    else if v0 == v1 then v0
    else
      var a := (t - t0) / (t1 - t0);
      UnitFraction(t - t0, t1 - t0);
      assert 0.0 < a < 1.0;
      if SameSign(v0, v1) then v0 * m.pow(v1 / v0, a) else 0.0
  }

  /** With a positive `Math.pow`, a ramp between same-sign endpoints never
      reaches or crosses zero: every value has the sign of both endpoints. */
  lemma ExponentialRampKeepsSign(m: MathLib, t: real, v0: real, v1: real, t0: real, t1: real)
    requires PowPositive(m) && SameSign(v0, v1)
    ensures SameSign(ExponentialRampValue(m, t, v0, v1, t0, t1), v0)
  {
    var r := ExponentialRampValue(m, t, v0, v1, t0, t1);
    if t0 < t < t1 && v0 != v1 {
      var a := (t - t0) / (t1 - t0);
      QuotientPositive(v1, v0);
      var p := m.pow(v1 / v0, a);
      assert 0.0 < p;
      MulSign(v0, p);
    }
  }

  /** getTargetValueAtTime: exponential approach from `v0` toward `v1`,
      starting at `t0`. With a zero time constant the exponent is minus
      infinity after `t0`, its exponential 0, and the value steps to `v1`;
      a negative constant makes the exponent grow and the value diverge. */
  function TargetValue(m: MathLib, t: real, v0: real, v1: real, t0: real, timeConstant: real): (r: real)
    ensures t <= t0 ==> r == v0
    ensures v0 == v1 ==> r == v0
    ensures t0 < t && timeConstant == 0.0 ==> r == v1
    ensures t0 < t && timeConstant != 0.0 ==> r == v1 + (v0 - v1) * m.exp((t0 - t) / timeConstant)
  {
    if t <= t0 then v0
    else if timeConstant == 0.0 then v1
    else v1 + (v0 - v1) * m.exp((t0 - t) / timeConstant)
  }

  /** After its start, a target approach lies strictly between its origin
      and its target: it moves toward `v1` and never reaches or passes it. */
  lemma TargetApproaches(m: MathLib, t: real, v0: real, v1: real, t0: real, timeConstant: real)
    requires ExpDecays(m) && 0.0 < timeConstant && t0 < t && v0 != v1
    ensures var r := TargetValue(m, t, v0, v1, t0, timeConstant);
      (v0 < r < v1) || (v1 < r < v0)
  {
    var x := (t0 - t) / timeConstant;
    QuotientNegative(t0 - t, timeConstant);
    var e := m.exp(x);
    assert 0.0 < e < 1.0;
    assert TargetValue(m, t, v0, v1, t0, timeConstant) == v1 + (v0 - v1) * e;
    ApproachArith(v0, v1, e);
  }

  /** With a positive time constant the approach moves monotonically toward
      its target: it never falls while rising toward a higher target, and
      never rises while falling toward a lower one. */
  lemma TargetMonotone(m: MathLib, t: real, u: real, v0: real, v1: real, t0: real, timeConstant: real)
    requires ExpDecays(m) && ExpIncreasing(m) && 0.0 < timeConstant && t <= u
    ensures v0 <= v1 ==> TargetValue(m, t, v0, v1, t0, timeConstant) <= TargetValue(m, u, v0, v1, t0, timeConstant)
    ensures v1 <= v0 ==> TargetValue(m, u, v0, v1, t0, timeConstant) <= TargetValue(m, t, v0, v1, t0, timeConstant)
  {
    if t0 < u {
      var xu := (t0 - u) / timeConstant;
      QuotientNegative(t0 - u, timeConstant);
      var eu := m.exp(xu);
      assert eu < 1.0;
      var vu := TargetValue(m, u, v0, v1, t0, timeConstant);
      assert vu == v1 + (v0 - v1) * eu;
      if t0 < t {
        var xt := (t0 - t) / timeConstant;
        DivMono(t0 - u, t0 - t, timeConstant);
        var et := m.exp(xt);
        assert eu <= et;
        ApproachOrdered(v0, v1, eu, et);
      } else {
        ApproachOrdered(v0, v1, eu, 1.0);
      }
    }
  }

  /** Of two factors, the smaller leaves `v1 + (v0 - v1) * e` closer to `v1`;
      the factor 1 is the origin `v0` itself. */
  lemma ApproachOrdered(v0: real, v1: real, a: real, b: real)
    requires a <= b
    ensures v0 <= v1 ==> v1 + (v0 - v1) * b <= v1 + (v0 - v1) * a
    ensures v1 <= v0 ==> v1 + (v0 - v1) * a <= v1 + (v0 - v1) * b
    ensures v1 + (v0 - v1) * 1.0 == v0
  {
    var d := v0 - v1;
    if d <= 0.0 {
      MulMonoNeg(a, b, d);
      assert b * d <= a * d;
    } else {
      MulMono(a, b, d);
      assert a * d <= b * d;
    }
  }

  /** Moving from `v0` toward `v1` by a factor `e` in (0, 1) stays strictly between them. */
  lemma ApproachArith(v0: real, v1: real, e: real)
    requires 0.0 < e < 1.0 && v0 != v1
    ensures var r := v1 + (v0 - v1) * e; (v0 < r < v1) || (v1 < r < v0)
  {
    var d := v0 - v1;
    if d < 0.0 {
      MulStrict(e, 1.0, -d);
      MulSign(e, -d);
      assert e * -d == -(d * e);
      assert 1.0 * -d == -d;
      assert d < d * e < 0.0;
      assert v0 < v1 + d * e < v1;
    } else {
      MulStrict(e, 1.0, d);
      MulSign(e, d);
      assert e * d == d * e;
      assert 1.0 * d == d;
      assert 0.0 < d * e < d;
      assert v1 < v1 + d * e < v0;
    }
  }

  /** The fractional sample index `ix` of lib/expr.js:55-56. */
  function CurveIndex(t: real, n: nat, t0: real, duration: real): (ix: real)
    requires duration != 0.0
    ensures t == t0 || n == 1 ==> ix == 0.0
    ensures 0.0 < duration && n >= 1 && t0 + duration <= t ==> (n - 1) as real <= ix
    ensures 0.0 < duration && n > 1 && t0 <= t < t0 + duration ==> 0.0 <= ix < (n - 1) as real
  {
    var x := (t - t0) / duration;
    var k := (n - 1) as real;
    assert 0.0 < duration && n >= 1 && t0 + duration <= t ==> k <= x * k by {
      if 0.0 < duration && n >= 1 && t0 + duration <= t {
        IndexPastEnd(t - t0, duration, k);
      }
    }
    assert 0.0 < duration && n > 1 && t0 <= t < t0 + duration ==> 0.0 <= x * k < k by {
      if 0.0 < duration && n > 1 && t0 <= t < t0 + duration {
        IndexInside(t - t0, duration, k);
      }
    }
    x * k
  }

  /** getValueCurveAtTime: `curve` resampled over [t0, t0 + duration], linear
      between neighbouring samples, held at the last sample afterwards; an
      empty curve is 0 and a one-sample curve is that sample. A zero duration
      with two or more samples makes the source's value NaN and is the
      caller's error; a negative duration reads the curve backwards in time. */
  function ValueCurveValue(t: real, curve: seq<real>, t0: real, duration: real): (r: real)
    requires duration != 0.0 || |curve| <= 1
    ensures |curve| == 0 ==> r == 0.0
    ensures |curve| == 1 ==> r == curve[0]
    ensures |curve| > 0 && t == t0 ==> r == curve[0]
    ensures |curve| > 0 && 0.0 < duration && t0 + duration <= t ==> r == curve[|curve| - 1]
    ensures |curve| >= 2 && 0.0 < duration && t0 <= t < t0 + duration ==>
      var i := Trunc(CurveIndex(t, |curve|, t0, duration));
      0 <= i < |curve| - 1 && Between(r, curve[i], curve[i + 1])
  {
    if |curve| == 0 then 0.0
    else if duration == 0.0 then
      // A single sample: `ix` is NaN or 0, `ix|0` is 0, and that sample is the last.
      curve[0]
    else
      var n := |curve|;
      var ix := CurveIndex(t, n, t0, duration);
      var i0 := Trunc(ix);
      if n <= i0 + 1 then curve[n - 1]
      else if i0 < 0 then 0.0
      else
        var a := ix - i0 as real;
        assert 0.0 <= ix ==> Between(curve[i0] + a * (curve[i0 + 1] - curve[i0]), curve[i0], curve[i0 + 1]) by {
          if 0.0 <= ix {
            FractionBetween(a, curve[i0], curve[i0 + 1]);
          }
        }
        curve[i0] + a * (curve[i0 + 1] - curve[i0])
  }

  /** Between its samples the curve is piecewise linear: on the `k`-th of
      the `|curve| - 1` equal steps of the duration, the value is the linear
      ramp from sample `k` to sample `k + 1` over that step. */
  lemma ValueCurveIsPiecewiseLinear(t: real, curve: seq<real>, t0: real, duration: real, k: nat)
    requires 0.0 < duration && 2 <= |curve| && k < |curve| - 1
    requires var step := duration / (|curve| - 1) as real;
      t0 + k as real * step <= t < t0 + (k as real + 1.0) * step
    ensures var step := duration / (|curve| - 1) as real;
      ValueCurveValue(t, curve, t0, duration)
        == LinearRampValue(t, curve[k], curve[k + 1], t0 + k as real * step, t0 + (k as real + 1.0) * step)
  {
    CurveInStep(t, curve, t0, duration, k);
    RampOverStep(t, curve, t0, duration, k);
  }

  /** On the `k`-th step the curve is sample `k` moved toward sample `k + 1`
      by the elapsed fraction of the step. */
  lemma CurveInStep(t: real, curve: seq<real>, t0: real, duration: real, k: nat)
    requires 0.0 < duration && 2 <= |curve| && k < |curve| - 1
    requires var step := duration / (|curve| - 1) as real;
      t0 + k as real * step <= t < t0 + (k as real + 1.0) * step
    ensures ValueCurveValue(t, curve, t0, duration)
      == curve[k] + (((t - t0) / duration) * (|curve| - 1) as real - k as real) * (curve[k + 1] - curve[k])
  {
    CurveIndexInStep(t, |curve|, t0, duration, k);
    CurveValueInStep(t, curve, t0, duration, k);
  }

  /** The ramp from sample `k` to sample `k + 1` over the `k`-th step is the
      same interpolation. */
  lemma RampOverStep(t: real, curve: seq<real>, t0: real, duration: real, k: nat)
    requires 0.0 < duration && 2 <= |curve| && k < |curve| - 1
    requires var step := duration / (|curve| - 1) as real;
      t0 + k as real * step <= t < t0 + (k as real + 1.0) * step
    ensures var step := duration / (|curve| - 1) as real;
      LinearRampValue(t, curve[k], curve[k + 1], t0 + k as real * step, t0 + (k as real + 1.0) * step)
        == curve[k] + (((t - t0) / duration) * (|curve| - 1) as real - k as real) * (curve[k + 1] - curve[k])
  {
    var n1 := (|curve| - 1) as real;
    RampInStep(t, curve[k], curve[k + 1], t0, duration, n1, k as real, ((t - t0) / duration) * n1);
  }

  /** Within the `k`-th step the sample index lies in [k, k + 1). */
  lemma CurveIndexInStep(t: real, n: nat, t0: real, duration: real, k: nat)
    requires 0.0 < duration && 2 <= n
    requires var step := duration / (n - 1) as real;
      t0 + k as real * step <= t < t0 + (k as real + 1.0) * step
    ensures CurveIndex(t, n, t0, duration) == ((t - t0) / duration) * (n - 1) as real
    ensures k as real <= CurveIndex(t, n, t0, duration) < k as real + 1.0
  {
    CurveStepArith(t, t0, duration, (n - 1) as real, k as real);
  }

  /** The ramp over the `k`-th step of `duration / n1` after `t0`, from `v0`
      to `v1`, at `t` is `v0` moved by the fraction of the sample index `ix`
      past `k`. */
  lemma RampInStep(t: real, v0: real, v1: real, t0: real, duration: real, n1: real, kr: real, ix: real)
    requires 0.0 < duration && 0.0 < n1 && ix == ((t - t0) / duration) * n1
    requires t0 + kr * (duration / n1) <= t < t0 + (kr + 1.0) * (duration / n1)
    ensures LinearRampValue(t, v0, v1, t0 + kr * (duration / n1), t0 + (kr + 1.0) * (duration / n1))
      == v0 + (ix - kr) * (v1 - v0)
  {
    var ta := t0 + kr * (duration / n1);
    var tb := t0 + (kr + 1.0) * (duration / n1);
    CurveStepArith(t, t0, duration, n1, kr);
    if ta < t {
      RampValueInside(t, v0, v1, ta, tb, ix - kr);
    } else {
      assert ix - kr == 0.0;
    }
  }

  /** The arithmetic behind the piecewise-linear curve: a time `t` within
      the `k`-th step of `duration / n1` after `t0` has sample index
      `(t - t0) / duration * n1` in [k, k + 1), and the fraction of the step
      it has covered is that index less `k`. */
  lemma CurveStepArith(t: real, t0: real, duration: real, n1: real, kr: real)
    requires 0.0 < duration && 0.0 < n1
    requires t0 + kr * (duration / n1) <= t < t0 + (kr + 1.0) * (duration / n1)
    ensures var step := duration / n1; var ix := ((t - t0) / duration) * n1;
      var ta := t0 + kr * step; var tb := t0 + (kr + 1.0) * step;
      && kr <= ix < kr + 1.0
      && (ta < t ==> (t - ta) / (tb - ta) == ix - kr)
      && (t <= ta ==> ix == kr)
  {
    var step := duration / n1;
    var x := t - t0;
    StepIndex(x, duration, n1);
    IndexWithinStep(x, step, kr);
    var ta := t0 + kr * step;
    var tb := t0 + (kr + 1.0) * step;
    assert tb - ta == step;
    assert t - ta == x - kr * step;
    SubtractSteps(x, step, kr);
  }

  /** Inside the `k`-th step the curve value interpolates samples `k` and
      `k + 1` by the fractional part of the index. */
  lemma CurveValueInStep(t: real, curve: seq<real>, t0: real, duration: real, k: nat)
    requires 0.0 < duration && k < |curve| - 1
    requires var ix := CurveIndex(t, |curve|, t0, duration); k as real <= ix < k as real + 1.0
    ensures ValueCurveValue(t, curve, t0, duration)
      == curve[k] + (CurveIndex(t, |curve|, t0, duration) - k as real) * (curve[k + 1] - curve[k])
  {
    TruncWithin(CurveIndex(t, |curve|, t0, duration), k);
  }

  /** Strictly inside a ramp whose elapsed fraction is `a`, the ramp's value
      is `v0 + a * (v1 - v0)`. */
  lemma RampValueInside(t: real, v0: real, v1: real, ta: real, tb: real, a: real)
    requires ta < t < tb && (t - ta) / (tb - ta) == a
    ensures LinearRampValue(t, v0, v1, ta, tb) == v0 + a * (v1 - v0)
  {
  }

  /** A real in [k, k + 1) truncates to `k`. */
  lemma TruncWithin(x: real, k: nat)
    requires k as real <= x < k as real + 1.0
    ensures Trunc(x) == k
  {
  }

  /** The sample index is the elapsed time measured in steps. */
  lemma StepIndex(x: real, duration: real, n1: real)
    requires 0.0 < duration && 0.0 < n1
    ensures (x / duration) * n1 == x / (duration / n1)
  {
  }

  /** An elapsed time within the `k`-th step is between `k` and `k + 1` steps. */
  lemma IndexWithinStep(x: real, step: real, k: real)
    requires 0.0 < step && k * step <= x < (k + 1.0) * step
    ensures k <= x / step < k + 1.0
  {
    var q := x / step;
    assert q * step == x;
    if q < k {
      MulStrict(q, k, step);
    }
    if k + 1.0 <= q {
      MulMono(k + 1.0, q, step);
    }
  }

  /** Measured in steps, the time into the `k`-th step is the index less `k`. */
  lemma SubtractSteps(x: real, step: real, k: real)
    requires 0.0 < step
    ensures (x - k * step) / step == x / step - k
  {
  }
}
