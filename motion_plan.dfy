/** The motion plan of one move of TrapezoidalMotionTester.py's
    CurveGenerator, quantity by quantity as the constructor computes it:
    signed kinematics, the phase durations and displacements of an
    accelerate-cruise-decelerate (trapezoidal) profile, the test that selects
    it, and the peak of the accelerate-decelerate (triangular) fallback.
    All quantities are exact reals; floating-point rounding is not modelled. */
module MotionPlan {
  import opened RealArith

  /** The power `**(0.5)` that the source takes at one point: `sqrt` gives
      the non-negative root of `y`. */
  ghost predicate IsSquareRoot(sqrt: real -> real, y: real) {
    0.0 <= sqrt(y) && sqrt(y) * sqrt(y) == y
  }

  /** The motion parameters of one move, and the trapezoidal profile that the
      constructor first assumes, quantity by quantity. */
  datatype MoveSpec = MoveSpec(x0: real, v0: real, a: real, v: real, xf: real) {

    /** `a` and `v` are magnitudes and the move has a length: the source
        divides by `a`, by `v` and by `xf - x0`. */
    predicate WellFormed() { a > 0.0 && v > 0.0 && xf != x0 }

    /** The direction of travel: 1 towards larger positions, -1 otherwise. */
    function Dir(): real { if xf > x0 then 1.0 else -1.0 }

    /** The signed acceleration `a_s`. */
    function SignedAccel(): (aS: real)
      requires xf != x0
      ensures aS == Dir() * a
    {
      var d := xf - x0;
      assert Abs(d) == Dir() * d;
      a * Abs(d) / d
    }

    /** The signed cruise velocity `v_s`. */
    function SignedCruise(): (vS: real)
      requires a > 0.0 && xf != x0
      ensures vS == Dir() * v
    {
      var aS := SignedAccel();
      assert Abs(aS) == Dir() * aS;
      v * Abs(aS) / aS
    }

    /** `dt1`, which is also the first gate `t1` of the trapezoid: the time to
        bring `v0` to the cruise velocity at rate `a`, i.e. the gap between
        the cruise speed and `v0` along the travel, over `a`. */
    function Dt1(): (dt1: real)
      requires WellFormed()
      ensures 0.0 <= dt1
      ensures dt1 * a == Abs(v - Dir() * v0)
    {
      var dt1 := Abs(SignedCruise() - v0) / a;
      if xf > x0 then
        assert SignedCruise() - v0 == v - Dir() * v0;
        dt1
      else
        assert SignedCruise() - v0 == -(v - Dir() * v0);
        dt1
    }

    /** `dx1`: the displacement of the acceleration phase. When `v0` does not
        exceed the cruise speed it is the kinematic distance
        (v*v - v0*v0) / (2 a) in the direction of travel. */
    function Dx1(): (dx1: real)
      requires WellFormed()
      ensures Dir() * v0 <= v ==> 2.0 * a * Dir() * dx1 == v * v - v0 * v0
    {
      var t1 := Dt1();
      var aS := SignedAccel();
      var r := aS / 2.0 * t1 * t1 + v0 * t1;
      if Dir() * v0 <= v then
        AccelDistance(Dir(), a, v, v0, t1);
        r
      else r
    }

    /** `x1`: the position at the first gate. */
    function X1(): real
      requires WellFormed()
    {
      x0 + Dx1()
    }

    /** `dt3`: the time to brake from the cruise velocity to rest. */
    function Dt3(): (dt3: real)
      requires WellFormed()
      ensures 0.0 < dt3 && dt3 * a == v
    {
      Abs(v / a)
    }

    /** `dx3`: the braking distance v*v / (2 a), in the direction of travel. */
    function Dx3(): (dx3: real)
      requires WellFormed()
      ensures 2.0 * a * Dir() * dx3 == v * v
    {
      var dt3 := Dt3();
      var r := SignedCruise() * dt3 / 2.0;
      assert 2.0 * a * Dir() * r == Dir() * Dir() * v * (dt3 * a);
      r
    }

    /** `dx2`: what is left of the move for the cruise phase. */
    function Dx2(): (dx2: real)
      requires WellFormed()
      ensures Dx1() + dx2 + Dx3() == xf - x0
    {
      -X1() + (xf - Dx3())
    }

    /** `dt2`: the duration of the cruise phase. */
    function Dt2(): (dt2: real)
      requires WellFormed()
      ensures 0.0 <= dt2 && dt2 * v == Abs(Dx2())
    {
      Abs(Dx2()) / v
    }

    /** `t2`: the second gate, never before the first. */
    function T2(): (t2: real)
      requires WellFormed()
      ensures Dt1() <= t2
    {
      Dt2() + Dt1()
    }

    /** `t3`: the third gate, strictly after the second. */
    function T3(): (t3: real)
      requires WellFormed()
      ensures T2() < t3
    {
      T2() + Dt3()
    }

    /** The classification test: the cruise displacement has the strict sign
        of the cruise velocity. */
    predicate IsTrapezoidal()
      requires WellFormed()
    {
      (Dx2() > 0.0 && SignedCruise() > 0.0) || (Dx2() < 0.0 && SignedCruise() < 0.0)
    }

    /** The radicand of the triangular peak velocity; always positive. */
    function Radicand(): (r: real)
      requires WellFormed()
      ensures r > 0.0
      ensures r == a * Abs(xf - x0) + v0 * v0 / 2.0
    {
      assert SignedAccel() * (xf - x0) == a * Abs(xf - x0);
      assert a * Abs(xf - x0) > 0.0;
      SignedAccel() * (xf - x0) + v0 * v0 / 2.0
    }

    /** The triangular peak velocity: the square root of the radicand, given
        the sign of the travel. */
    function Peak(root: real): real
      requires WellFormed()
    {
      var aS := SignedAccel();
      root * (Abs(aS) / aS)
    }

    /** A peak velocity: it squares to the radicand and points along the travel. */
    ghost predicate IsPeak(v1: real)
      requires WellFormed()
    {
      v1 * v1 == Radicand() && v1 * SignedAccel() > 0.0
    }

    /** The triangular first gate: the time from `v0` to the peak `v1`. */
    function TriangleT1(v1: real): real
      requires WellFormed()
    {
      (v1 - v0) / SignedAccel()
    }

    /** The triangular second gate: the time from the peak `v1` back to rest. */
    function TriangleT2(v1: real): real
      requires WellFormed()
    {
      v1 / SignedAccel() + TriangleT1(v1)
    }
  }

  /** dx1 = aS/2 t1^2 + v0 t1 equals (v^2 - v0^2) / (2 aS) when t1 is the time
      from v0 to the cruise velocity. */
  lemma AccelDistance(dir: real, a: real, v: real, v0: real, t1: real)
    requires dir == 1.0 || dir == -1.0
    requires a > 0.0 && dir * v0 <= v && t1 * a == v - dir * v0
    ensures 2.0 * a * dir * (dir * a / 2.0 * t1 * t1 + v0 * t1) == v * v - v0 * v0
  {
    var w := dir * v0;
    assert dir * dir == 1.0;
    calc {
      2.0 * a * dir * (dir * a / 2.0 * t1 * t1 + v0 * t1);
      (a * t1) * (a * t1) + 2.0 * w * (a * t1);
      (v - w) * (v - w) + 2.0 * w * (v - w);
      v * v - w * w;
    }
    assert w * w == v0 * v0;
  }

  /** The move is trapezoidal exactly when `dx2` points in the direction of
      travel; `dx2 == 0` is triangular. */
  lemma ShapeClassification(m: MoveSpec)
    requires m.WellFormed()
    ensures m.IsTrapezoidal() <==> m.Dir() * m.Dx2() > 0.0
  {
    if m.xf > m.x0 {
      assert m.Dir() == 1.0;
    } else {
      assert m.Dir() == -1.0;
    }
  }

  /** Equivalently, the move is trapezoidal exactly when the distance left
      after the acceleration phase exceeds the braking distance from cruise,
      v*v / (2 a). */
  lemma ShapeByBrakingDistance(m: MoveSpec)
    requires m.WellFormed()
    ensures m.IsTrapezoidal() <==> m.Dir() * (m.xf - m.X1()) > m.v * m.v / (2.0 * m.a)
  {
    ShapeClassification(m);
    var dx3 := m.Dx3();
    assert m.Dir() * dx3 == m.v * m.v / (2.0 * m.a);
  }

  /** When `v0` does not exceed the cruise speed in the direction of travel,
      the cruise velocity is reachable (the move is trapezoidal) exactly when
      2 a |xf - x0| > 2 v^2 - v0^2. */
  lemma CruiseReachable(m: MoveSpec)
    requires m.WellFormed() && m.Dir() * m.v0 <= m.v
    ensures m.IsTrapezoidal() <==> 2.0 * m.a * Abs(m.xf - m.x0) > 2.0 * m.v * m.v - m.v0 * m.v0
  {
    ShapeClassification(m);
    var dir, a := m.Dir(), m.a;
    var dx1, dx2, dx3 := m.Dx1(), m.Dx2(), m.Dx3();
    assert Abs(m.xf - m.x0) == dir * (m.xf - m.x0);
    assert 2.0 * a * dir * (m.xf - m.x0) == 2.0 * a * dir * dx1 + 2.0 * a * dir * dx2 + 2.0 * a * dir * dx3;
    assert dir * dx2 > 0.0 <==> 2.0 * a * (dir * dx2) > 0.0;
  }

  /** The cruise phase covers exactly `dx2` (so the deceleration phase starts
      where it must) unless `dx2` points against the travel: the reason the
      source falls back to a triangular profile. */
  lemma CruiseCoversGap(m: MoveSpec)
    requires m.WellFormed()
    ensures m.Dt2() * m.SignedCruise() == m.Dx2() <==> m.IsTrapezoidal() || m.Dx2() == 0.0
  {
    ShapeClassification(m);
    CoverArithmetic(m.Dir(), m.v, m.SignedCruise(), m.Dt2(), m.Dx2());
  }

  /** Cruising at `vS` (speed `v` along `dir`) for |dx2|/v covers `dx2`
      exactly when `dx2` does not point against `dir`. */
  lemma CoverArithmetic(dir: real, v: real, vS: real, dt2: real, dx2: real)
    requires dir == 1.0 || dir == -1.0
    requires vS == dir * v
    requires dt2 * v == Abs(dx2)
    ensures dt2 * vS == dx2 <==> dir * dx2 > 0.0 || dx2 == 0.0
  {
    if dir == 1.0 {
      assert dt2 * vS == dt2 * v;
    } else {
      assert dt2 * vS == -(dt2 * v);
    }
  }

  /** A trapezoidal move has a cruise phase of positive duration; `dt2` is
      zero exactly when `dx2` is. */
  lemma CruisePhaseNonEmpty(m: MoveSpec)
    requires m.WellFormed()
    ensures 0.0 < m.Dt2() <==> m.Dx2() != 0.0
    ensures m.IsTrapezoidal() ==> 0.0 < m.Dt2()
  {
    ScaledSign(m.v, m.Dt2());
  }

  /** The three phases of a trapezoidal move add up to the move: from `x1`,
      cruising for `dt2` and braking for `dt3` reaches `xf`. */
  lemma TrapezoidArrives(m: MoveSpec)
    requires m.WellFormed() && m.IsTrapezoidal()
    ensures m.X1() + m.Dt2() * m.SignedCruise()
            + (-m.SignedAccel() / 2.0 * m.Dt3() * m.Dt3() + m.SignedCruise() * m.Dt3()) == m.xf
  {
    CruiseCoversGap(m);
    BrakeDistance(m);
  }

  /** Braking at `a_s` from the cruise velocity for `dt3` covers `dx3`. */
  lemma BrakeDistance(m: MoveSpec)
    requires m.WellFormed()
    ensures -m.SignedAccel() / 2.0 * m.Dt3() * m.Dt3() + m.SignedCruise() * m.Dt3() == m.Dx3()
  {
    var dt3, dir := m.Dt3(), m.Dir();
    var brake := -m.SignedAccel() / 2.0 * dt3 * dt3 + m.SignedCruise() * dt3;
    assert 2.0 * m.a * brake == dir * ((dt3 * m.a) * (2.0 * m.v - dt3 * m.a));
  }

  /** The triangular peak `v1 = sqrt(radicand) * sign(aS)` squares to the
      radicand and has the sign of the direction of travel. */
  lemma PeakVelocity(m: MoveSpec, sqrt: real -> real)
    requires m.WellFormed() && IsSquareRoot(sqrt, m.Radicand())
    ensures m.IsPeak(m.Peak(sqrt(m.Radicand())))
  {
    var r, aS := sqrt(m.Radicand()), m.SignedAccel();
    var v1 := m.Peak(r);
    assert Abs(aS) / aS == m.Dir();
    assert r > 0.0;
    assert v1 * v1 == m.Dir() * m.Dir() * (r * r);
    assert v1 * aS == m.Dir() * m.Dir() * r * m.a;
  }

  /** Accelerating at `aS` from `v0` to a peak `v1` and braking back to rest
      covers exactly `xf - x0` when v1*v1 == aS*(xf - x0) + v0*v0/2. */
  lemma TriangleKinematics(x0: real, xf: real, v0: real, aS: real, v1: real, t1: real, t2: real)
    requires aS != 0.0 && v1 * aS > 0.0
    requires v1 * v1 == aS * (xf - x0) + v0 * v0 / 2.0
    requires t1 == (v1 - v0) / aS && t2 == v1 / aS + t1
    ensures t1 <= t2
    ensures aS * t1 + v0 == v1 && -aS * (t2 - t1) + v1 == 0.0
    ensures -aS / 2.0 * (t2 - t1) * (t2 - t1) + v1 * (t2 - t1) + (aS / 2.0 * t1 * t1 + v0 * t1 + x0) == xf
  {
    var d := xf - x0;
    assert t2 - t1 == v1 / aS;
    assert v1 / aS > 0.0 by {
      assert (v1 / aS) * (aS * aS) == v1 * aS;
    }
    assert aS * t1 == v1 - v0;
    var x1 := aS / 2.0 * t1 * t1 + v0 * t1 + x0;
    assert 2.0 * aS * (x1 - x0) == (aS * t1) * (aS * t1) + 2.0 * v0 * (aS * t1);
    assert 2.0 * aS * (x1 - x0) == v1 * v1 - v0 * v0;
    var h := v1 / aS;
    var brake := -aS / 2.0 * h * h + v1 * h;
    assert 2.0 * aS * brake == 2.0 * v1 * (aS * h) - (aS * h) * (aS * h);
    assert 2.0 * aS * brake == v1 * v1;
    assert 2.0 * aS * (brake + x1 - x0) == 2.0 * aS * d;
  }

  /** With `p` the peak speed and `w` the initial velocity along the travel,
      the time `t1` to go from `w` to `p` is not negative exactly when `w`
      points backwards or w*w <= 2 a D, D being the length of the move. */
  lemma PeakReachable(a: real, dist: real, w: real, p: real, t1: real)
    requires a > 0.0 && dist > 0.0 && p > 0.0
    requires p * p == a * dist + w * w / 2.0
    requires t1 * a == p - w
    ensures 0.0 <= t1 <==> w <= 0.0 || w * w <= 2.0 * a * dist
  {
    assert 0.0 <= t1 <==> w <= p;
    if 0.0 < w {
      SquareMonotone(w, p);
    }
  }

  /** The triangular peak speed `p` exceeds half the initial velocity `w`
      along the travel: p*p == a*D + w*w/2 with D > 0. */
  lemma PeakOutrunsStart(a: real, dist: real, w: real, p: real)
    requires a > 0.0 && dist > 0.0 && p > 0.0
    requires p * p == a * dist + w * w / 2.0
    ensures w < 2.0 * p
  {
    if 0.0 < w {
      assert (2.0 * p) * (2.0 * p) == 4.0 * a * dist + 2.0 * w * w;
      SquareMonotone(w, 2.0 * p);
    }
  }

  /** The triangular second gate, at (2p - w)/a with `p` the peak speed and
      `w` the initial velocity along the travel, is strictly after the start. */
  lemma PeakEndsAfterStart(a: real, dist: real, w: real, p: real, t1: real, t2: real)
    requires a > 0.0 && dist > 0.0 && p > 0.0
    requires p * p == a * dist + w * w / 2.0
    requires t1 * a == p - w && (t2 - t1) * a == p
    ensures 0.0 < t2
  {
    PeakOutrunsStart(a, dist, w, p);
    assert t2 * a == 2.0 * p - w;
    if t2 <= 0.0 {
      ProductNonNegative(-t2, a);
    }
  }

  /** The triangular gates of a move of signed length `d`, for a peak `v1`
      along the travel with v1*v1 == aS d + v0*v0/2 and `t1` the time from
      `v0` to `v1`: the first gate is not negative exactly when `v0` points
      against the travel or v0*v0 <= 2 a |d|, and the second gate is after
      the start. */
  lemma TriangleGateSigns(dir: real, a: real, aS: real, d: real, v0: real, v1: real, t1: real, t2: real)
    requires d != 0.0 && dir == (if d > 0.0 then 1.0 else -1.0)
    requires a > 0.0 && aS == dir * a && 0.0 < dir * v1
    requires v1 * v1 == aS * d + v0 * v0 / 2.0
    requires t1 * aS == v1 - v0
    ensures 0.0 <= t1 <==> dir * v0 <= 0.0 || v0 * v0 <= 2.0 * a * Abs(d)
    ensures (t2 - t1) * a == dir * v1 ==> 0.0 < t2
  {
    var w, p := dir * v0, dir * v1;
    if d > 0.0 {
      assert Abs(d) == d && t1 * a == p - w;
    } else {
      assert Abs(d) == -d && t1 * a == p - w;
      assert w * w == v0 * v0 && p * p == v1 * v1;
    }
    PeakReachable(a, Abs(d), w, p, t1);
    if (t2 - t1) * a == p {
      PeakEndsAfterStart(a, Abs(d), w, p, t1, t2);
    }
  }

  /** A triangular move whose `v0` does not exceed the cruise speed along the
      travel has a radicand (the squared peak speed) of at most v*v, strictly
      less unless the cruise displacement `dx2` is exactly zero. */
  lemma TriangleRadicandBound(m: MoveSpec)
    requires m.WellFormed() && !m.IsTrapezoidal() && m.Dir() * m.v0 <= m.v
    ensures m.Radicand() <= m.v * m.v
    ensures m.Radicand() < m.v * m.v <==> m.Dx2() != 0.0
  {
    ShapeClassification(m);
    RadicandGap(m);
    assert m.Radicand() == m.a * Abs(m.xf - m.x0) + m.v0 * m.v0 / 2.0;
    ScaledSign(m.a, m.Dir() * m.Dx2());
  }

  /** The radicand of the triangular peak exceeds v*v by a times the cruise
      displacement along the travel, which is negative for a triangle. */
  lemma RadicandGap(m: MoveSpec)
    requires m.WellFormed() && m.Dir() * m.v0 <= m.v
    ensures m.a * Abs(m.xf - m.x0) + m.v0 * m.v0 / 2.0 - m.v * m.v == m.a * (m.Dir() * m.Dx2())
  {
    GapArithmetic(m.Dir(), m.a, m.v, m.v0, m.xf - m.x0, m.Dx1(), m.Dx2(), m.Dx3());
  }

  /** The arithmetic behind RadicandGap, along direction `dir`. */
  lemma GapArithmetic(dir: real, a: real, v: real, v0: real, d: real, dx1: real, dx2: real, dx3: real)
    requires dir == 1.0 || dir == -1.0
    requires dir * d > 0.0
    requires 2.0 * a * dir * dx1 == v * v - v0 * v0 && 2.0 * a * dir * dx3 == v * v
    requires dx1 + dx2 + dx3 == d
    ensures a * Abs(d) + v0 * v0 / 2.0 - v * v == a * (dir * dx2)
  {
    if dir == 1.0 {
      assert Abs(d) == d;
      assert 2.0 * a * d == 2.0 * a * dx1 + 2.0 * a * dx2 + 2.0 * a * dx3;
    } else {
      assert Abs(d) == -d;
      assert -2.0 * a * d == -2.0 * a * dx1 - 2.0 * a * dx2 - 2.0 * a * dx3;
    }
  }

  /** When `v0` does not exceed the cruise speed in the direction of travel,
      the triangular peak speed is at most the cruise speed, and strictly
      below it unless the cruise displacement `dx2` is exactly zero. */
  lemma TrianglePeakBelowCruise(m: MoveSpec, v1: real)
    requires m.WellFormed() && !m.IsTrapezoidal() && m.IsPeak(v1)
    requires m.Dir() * m.v0 <= m.v
    ensures Abs(v1) <= m.v
    ensures Abs(v1) < m.v <==> m.Dx2() != 0.0
  {
    TriangleRadicandBound(m);
    PeakBound(m.Radicand(), m.v, v1);
  }

  /** A peak whose square is at most v*v has magnitude at most `v`, strictly
      less exactly when its square is. */
  lemma PeakBound(r: real, v: real, v1: real)
    requires v > 0.0 && v1 * v1 == r && r <= v * v
    ensures Abs(v1) <= v
    ensures Abs(v1) < v <==> r < v * v
  {
    AbsSquare(v1);
    SquareMonotone(Abs(v1), v);
  }

  /** Accelerating along the travel from a velocity `w` that does not point
      backwards never loses ground: a/2 t^2 + w t grows with t >= 0. */
  lemma AccelRises(a: real, w: real, s: real, t: real)
    requires a > 0.0 && 0.0 <= w && 0.0 <= s <= t
    ensures a / 2.0 * s * s + w * s <= a / 2.0 * t * t + w * t
  {
    assert a / 2.0 * t * t + w * t - (a / 2.0 * s * s + w * s) == a / 2.0 * ((t - s) * (t + s)) + w * (t - s);
    ProductNonNegative(t - s, t + s);
    ProductNonNegative(a / 2.0, (t - s) * (t + s));
    ProductNonNegative(w, t - s);
  }

  /** Braking at `a` from speed `p` gains ground until the speed reaches 0
      at d = p/a: p t - a/2 t^2 grows with t up to d. */
  lemma BrakeRises(a: real, p: real, d: real, s: real, t: real)
    requires a > 0.0 && d * a == p && s <= t <= d
    ensures p * s - a / 2.0 * s * s <= p * t - a / 2.0 * t * t
  {
    ProductNonNegative(d - t, a);
    assert p * t - a / 2.0 * t * t - (p * s - a / 2.0 * s * s) == (t - s) * (p - a / 2.0 * (t + s));
    assert a / 2.0 * (t + s) <= a * t;
    ProductNonNegative(t - s, p - a / 2.0 * (t + s));
  }

  /** Starting from a velocity `w` against the travel and accelerating at
      `a` along it, the position along the travel is negative at u = -w/(2a). */
  lemma RetreatDistance(a: real, w: real, u: real)
    requires a > 0.0 && w < 0.0 && u * (2.0 * a) == -w
    ensures 0.0 < u
    ensures a / 2.0 * u * u + w * u < 0.0
  {
    if u <= 0.0 {
      ProductNonNegative(-u, 2.0 * a);
    }
    assert a * u == -w / 2.0;
    assert a / 2.0 * u * u + w * u == u * (3.0 * w / 4.0);
    ProductPositive(u, -(3.0 * w / 4.0));
    assert u * (3.0 * w / 4.0) == -(u * (-(3.0 * w / 4.0)));
  }
}
