/** The CurveGenerator of TrapezoidalMotionTester.py: an object that plans a
    one-dimensional move when constructed and maps timestamps to commanded
    positions when queried. */
module CurveGen {
  import opened RealArith
  import opened MotionPlan

  datatype CurveError = NegativeTime

  datatype Result<T> = Ok(value: T) | Err(error: CurveError)

  /** The planner object. Only the constructor writes fields, and no query
      writes any: the seven inputs, then the derived quantities in source
      order. The triangular branch overwrites `t1` and `t2` with the
      triangular gates, `t3` keeps its trapezoid value (no query of that
      shape reads it), and `v1` holds the peak velocity; in the trapezoidal
      shape `v1` is never read. */
  class CurveGenerator {
    const x0: real
    const v0: real
    const a: real
    const v: real
    const xf: real
    const t0: real
    const tscale: real

    const aS: real
    const vS: real
    const t1: real
    const x1: real
    const t2: real
    const t3: real
    const trapezoidal: bool
    const v1: real

    /** The generator's motion parameters, as the plan is computed from them. */
    function Move(): MoveSpec { MoveSpec(x0, v0, a, v, xf) }

    /** The derived fields hold what construction computes, in the source's
        terms: the trapezoid plan and its classification, then the gates of
        the shape selected. */
    ghost predicate Planned() {
      var m := Move();
      m.WellFormed() &&
      aS == m.SignedAccel() && vS == m.SignedCruise() &&
      x1 == m.X1() && t3 == m.T3() &&
      trapezoidal == m.IsTrapezoidal() &&
      (trapezoidal ==> TrapezoidShape()) && (!trapezoidal ==> TriangleShape())
    }

    /** The trapezoidal shape keeps the trapezoid gates `t1` and `t2`. */
    ghost predicate TrapezoidShape() {
      var m := Move();
      m.WellFormed() && trapezoidal && m.IsTrapezoidal() &&
      aS == m.SignedAccel() && vS == m.SignedCruise() &&
      t1 == m.Dt1() && t2 == m.T2() && t3 == m.T3()
    }

    /** The triangular shape: a peak velocity whose square is the radicand
        and whose sign is the direction of travel, and the gates `t1` and
        `t2` recomputed from it. */
    ghost predicate TriangleShape() {
      var m := Move();
      m.WellFormed() && !trapezoidal && aS == m.SignedAccel() &&
      m.IsPeak(v1) && t1 == m.TriangleT1(v1) && t2 == m.TriangleT2(v1)
    }

    /** The closed-form facts about the trapezoid gates that queries rest on:
        ordered gates, `t1` the time from `v0` to the cruise velocity, braking
        from cruise to rest over `t3 - t2`, and braking ending on `xf`. */
    ghost predicate TrapezoidGates() {
      0.0 <= t1 <= t2 < t3 && t1 * a == Abs(v - Move().Dir() * v0) &&
      (t3 - t2) * a == v && DecelPos(t3) == xf
    }

    /** The same for the triangular gates: a peak `v1` along the travel whose
        square is a_s (xf - x0) + v0^2/2, reached from `v0` at `t1`, and
        braking from it to rest over `t2 - t1`, ending on `xf` after the
        start. */
    ghost predicate TriangleGates() {
      0.0 < Move().Dir() * v1 && v1 * v1 == aS * (xf - x0) + v0 * v0 / 2.0 &&
      t1 * aS == v1 - v0 && t1 <= t2 && 0.0 < t2 &&
      (t2 - t1) * a == Move().Dir() * v1 && TriangleDecelPos(t2) == xf
    }

    /** The invariant of a constructed generator: positive magnitudes, a move
        of non-zero length, signed kinematics along the travel, and the gate
        facts of its shape. */
    ghost predicate Valid() {
      a > 0.0 && v > 0.0 && xf != x0 && aS == Move().Dir() * a && vS == Move().Dir() * v &&
      (trapezoidal ==> TrapezoidGates()) && (!trapezoidal ==> TriangleGates())
    }

    /** `sqrt` stands for the power `**(0.5)` at line 113, which the source
        evaluates only for a triangular move. */
    constructor (x0: real, v0: real, a: real, v: real, xf: real, t0: real, tscale: real,
                 sqrt: real -> real)
      requires MoveSpec(x0, v0, a, v, xf).WellFormed()
      requires !MoveSpec(x0, v0, a, v, xf).IsTrapezoidal() ==>
                 IsSquareRoot(sqrt, MoveSpec(x0, v0, a, v, xf).Radicand())
      ensures this.x0 == x0 && this.v0 == v0 && this.a == a && this.v == v
      ensures this.xf == xf && this.t0 == t0 && this.tscale == tscale
      ensures Planned() && Valid()
    {
      this.x0, this.v0, this.a, this.v := x0, v0, a, v;
      this.xf, this.t0, this.tscale := xf, t0, tscale;
      var m := MoveSpec(x0, v0, a, v, xf);
      aS := m.SignedAccel();
      vS := m.SignedCruise();
      t1 := m.Dt1();
      x1 := m.X1();
      t2 := m.T2();
      t3 := m.T3();
      if m.IsTrapezoidal() {
        trapezoidal := true;
      } else {
        trapezoidal := false;
        var peak := m.Peak(sqrt(m.Radicand()));
        PeakVelocity(m, sqrt);
        v1 := peak;
        t1 := m.TriangleT1(peak);
        t2 := m.TriangleT2(peak);
      }
      new;
      PlannedIsValid(this);
    }

    /** Elapsed seconds since `t0` for a timestamp on the caller's scale. */
    function Elapsed(tc: real): real
      requires tscale != 0.0
    {
      (tc - t0) / tscale
    }

    /** Position while accelerating from `v0`; also gives the first gate's
        position when evaluated at `t1`. */
    function AccelPos(t: real): real
    {
      aS / 2.0 * t * t + v0 * t + x0
    }

    /** Position while cruising at `vS` from the first gate. */
    function CruisePos(t: real): real
    {
      AccelPos(t1) + (t - t1) * vS
    }

    /** Position while braking from `vS`, from where the cruise ends at `t2`. */
    function DecelPos(t: real): real
    {
      -aS / 2.0 * (t - t2) * (t - t2) + vS * (t - t2) + CruisePos(t2)
    }

    /** Position while braking from the peak `v1`, triangular shape. */
    function TriangleDecelPos(t: real): real
    {
      -aS / 2.0 * (t - t1) * (t - t1) + v1 * (t - t1) + AccelPos(t1)
    }

    /** The velocities of the phases: the time derivatives of the position
        formulas above. */
    ghost function AccelVel(t: real): real { aS * t + v0 }
    ghost function DecelVel(t: real): real { -aS * (t - t2) + vS }
    ghost function TriangleDecelVel(t: real): real { -aS * (t - t1) + v1 }

    /** How far position `x` lies from the start, measured along the travel. */
    function Along(x: real): real
    {
      Move().Dir() * (x - x0)
    }

    /** The gate after which the move is complete. */
    function FinalGate(): real
    {
      if trapezoidal then t3 else t2
    }

    /** The commanded position `t` seconds into the move, for t >= 0: the
        formula of the phase that `t` falls in, and `xf` once the final gate
        is reached. */
    function PositionAt(t: real): real
    {
      if trapezoidal then
        if t < t1 then AccelPos(t)
        else if t < t2 then CruisePos(t)
        else if t < t3 then DecelPos(t)
        else xf
      else
        if t < t1 then AccelPos(t)
        else if t < t2 then TriangleDecelPos(t)
        else xf
    }

    /** The commanded position at timestamp `tc`. A negative elapsed time is
        rejected in either shape, and only then; otherwise the result is the
        position at the elapsed time. */
    function GetCurvePos(tc: real): (r: Result<real>)
      requires tscale != 0.0
      ensures r.Err? <==> Elapsed(tc) < 0.0
      ensures r.Ok? ==> r.value == PositionAt(Elapsed(tc))
    {
      var t := (tc - t0) / tscale;
      if t < 0.0 then Err(NegativeTime) else Ok(PositionAt(t))
    }

    /** Queries never move the commanded position back against the travel:
        at a later elapsed time the position lies at least as far along it. */
    ghost predicate MonotoneAlongTravel()
      requires tscale != 0.0
    {
      forall tc1, tc2 :: 0.0 <= Elapsed(tc1) <= Elapsed(tc2) ==>
        Along(GetCurvePos(tc1).value) <= Along(GetCurvePos(tc2).value)
    }
  }

  /** Construction's formulas give the invariant queries rest on. */
  lemma PlannedIsValid(g: CurveGenerator)
    requires g.Planned()
    ensures g.Valid()
  {
    if g.trapezoidal {
      TrapezoidGatesHold(g);
    } else {
      TriangleGatesHold(g);
    }
  }

  /** The trapezoid gates computed by the source have the closed-form
      properties of TrapezoidGates. */
  lemma TrapezoidGatesHold(g: CurveGenerator)
    requires g.TrapezoidShape()
    ensures g.TrapezoidGates()
  {
    var m := g.Move();
    TrapezoidLanding(g);
    assert g.t3 - g.t2 == m.Dt3();
  }

  /** The triangular gates computed by the source have the closed-form
      properties of TriangleGates. */
  lemma TriangleGatesHold(g: CurveGenerator)
    requires g.TriangleShape()
    ensures g.TriangleGates()
  {
    TriangleProfile(g);
    TriangleGatesFromPeak(g);
  }

  /** The triangular gate facts follow from the kinematics of the peak. */
  lemma TriangleGatesFromPeak(g: CurveGenerator)
    requires g.a > 0.0 && g.xf != g.x0 && g.aS == g.Move().Dir() * g.a
    requires g.v1 * g.v1 == g.aS * (g.xf - g.x0) + g.v0 * g.v0 / 2.0 && g.v1 * g.aS > 0.0
    requires g.t1 <= g.t2 && g.AccelVel(g.t1) == g.v1 && g.TriangleDecelVel(g.t2) == 0.0
    requires g.TriangleDecelPos(g.t2) == g.xf
    ensures g.TriangleGates()
  {
    var dir := g.Move().Dir();
    if g.xf > g.x0 {
      assert dir == 1.0;
    } else {
      assert dir == -1.0;
    }
    TriangleGateSigns(dir, g.a, g.aS, g.xf - g.x0, g.v0, g.v1, g.t1, g.t2);
  }

  /** Each phase formula starts from the position where the previous one
      ends, by construction of the formulas: cruise and triangular braking
      start from the acceleration formula at `t1`, trapezoidal braking from
      the cruise formula at `t2`. */
  lemma GateJoins(g: CurveGenerator)
    ensures g.CruisePos(g.t1) == g.AccelPos(g.t1)
    ensures g.DecelPos(g.t2) == g.CruisePos(g.t2)
    ensures g.TriangleDecelPos(g.t1) == g.AccelPos(g.t1)
  {
  }

  /** Braking ends exactly on `xf` at `t3` in the trapezoidal shape. */
  lemma TrapezoidLanding(g: CurveGenerator)
    requires g.TrapezoidShape()
    ensures g.DecelPos(g.t3) == g.xf
  {
    var m := g.Move();
    TrapezoidArrives(m);
    assert g.AccelPos(g.t1) == m.X1();
    assert g.t2 - g.t1 == m.Dt2() && g.t3 - g.t2 == m.Dt3();
  }

  /** In the triangular shape the peak `v1` satisfies
      v1*v1 == aS*(xf - x0) + v0*v0/2 and points along the travel; velocity
      and position join at the peak, and braking ends at rest exactly on `xf`
      at `t2`, which is not before `t1`. */
  lemma TriangleProfile(g: CurveGenerator)
    requires g.TriangleShape()
    ensures g.v1 * g.v1 == g.aS * (g.xf - g.x0) + g.v0 * g.v0 / 2.0
    ensures g.v1 * g.aS > 0.0
    ensures g.t1 <= g.t2
    ensures g.AccelVel(g.t1) == g.v1 && g.TriangleDecelVel(g.t2) == 0.0
    ensures g.TriangleDecelPos(g.t1) == g.AccelPos(g.t1)
    ensures g.TriangleDecelPos(g.t2) == g.xf
  {
    GateJoins(g);
    TriangleKinematics(g.x0, g.xf, g.v0, g.aS, g.v1, g.t1, g.t2);
  }

  /** In the trapezoidal shape the velocity reaches rest exactly at `t3`, and
      the velocity at the end of the acceleration phase is the cruise
      velocity exactly when `v0` does not exceed the cruise speed in the
      direction of travel (otherwise it jumps at `t1`). */
  lemma TrapezoidVelocity(g: CurveGenerator)
    requires g.Valid() && g.trapezoidal
    ensures g.DecelVel(g.t3) == 0.0
    ensures g.AccelVel(g.t1) == g.vS <==> g.Move().Dir() * g.v0 <= g.v
  {
    if g.xf > g.x0 {
      assert g.Move().Dir() == 1.0;
    } else {
      assert g.Move().Dir() == -1.0;
    }
  }

  /** In the triangular shape the first gate is not negative exactly when the
      move can still brake in time: `v0` points against the travel, or
      v0*v0 <= 2 a |xf - x0|. Otherwise `t1 < 0` and queries from elapsed
      time 0 already use the braking formula. */
  lemma TriangleStart(g: CurveGenerator)
    requires g.Valid() && !g.trapezoidal
    ensures 0.0 <= g.t1 <==> g.Move().Dir() * g.v0 <= 0.0 || g.v0 * g.v0 <= 2.0 * g.a * Abs(g.xf - g.x0)
  {
    TriangleGateSigns(g.Move().Dir(), g.a, g.aS, g.xf - g.x0, g.v0, g.v1, g.t1, g.t2);
  }

  /** The final gate lies strictly after the start in either shape, and a
      query at or past it returns exactly `xf` (t3 for a trapezoid, t2 for a
      triangle). */
  lemma QueryAfterFinalGate(g: CurveGenerator, tc: real)
    requires g.Valid() && g.tscale != 0.0
    requires g.Elapsed(tc) >= g.FinalGate()
    ensures 0.0 < g.FinalGate()
    ensures g.GetCurvePos(tc) == Ok(g.xf)
  {
  }

  /** The acceleration formula, measured along the travel. */
  lemma AccelAlong(g: CurveGenerator, t: real)
    requires g.aS == g.Move().Dir() * g.a
    ensures g.Along(g.AccelPos(t)) == g.a / 2.0 * t * t + g.Move().Dir() * g.v0 * t
  {
    if g.xf > g.x0 {
      assert g.Move().Dir() == 1.0;
    } else {
      assert g.Move().Dir() == -1.0;
    }
  }

  /** Acceleration along the travel from a `v0` that does not point backwards
      moves forward for all t >= 0. */
  lemma AccelForward(g: CurveGenerator, s: real, t: real)
    requires g.a > 0.0 && g.aS == g.Move().Dir() * g.a
    requires 0.0 <= g.Move().Dir() * g.v0 && 0.0 <= s <= t
    ensures g.Along(g.AccelPos(s)) <= g.Along(g.AccelPos(t))
  {
    AccelAlong(g, s);
    AccelAlong(g, t);
    AccelRises(g.a, g.Move().Dir() * g.v0, s, t);
  }

  /** Cruising at `v` along the travel moves forward. */
  lemma CruiseForward(g: CurveGenerator, s: real, t: real)
    requires g.v > 0.0 && g.vS == g.Move().Dir() * g.v && s <= t
    ensures g.Along(g.CruisePos(s)) <= g.Along(g.CruisePos(t))
  {
    if g.xf > g.x0 {
      assert g.Move().Dir() == 1.0;
    } else {
      assert g.Move().Dir() == -1.0;
    }
  }

  /** A braking formula, measured along the travel: from `c` with velocity
      `vS`, `u` seconds into the braking. */
  lemma BrakeAlong(g: CurveGenerator, vS: real, u: real, c: real)
    requires g.aS == g.Move().Dir() * g.a
    ensures g.Along(-g.aS / 2.0 * u * u + vS * u + c) == g.Along(c) + (g.Move().Dir() * vS * u - g.a / 2.0 * u * u)
  {
    if g.xf > g.x0 {
      assert g.Move().Dir() == 1.0;
    } else {
      assert g.Move().Dir() == -1.0;
    }
  }

  /** Braking from the cruise velocity moves forward until rest at `t3`. */
  lemma DecelForward(g: CurveGenerator, s: real, t: real)
    requires g.a > 0.0 && g.aS == g.Move().Dir() * g.a && g.vS == g.Move().Dir() * g.v
    requires g.t2 <= s <= t <= g.t3 && (g.t3 - g.t2) * g.a == g.v
    ensures g.Along(g.DecelPos(s)) <= g.Along(g.DecelPos(t))
  {
    BrakeAlong(g, g.vS, s - g.t2, g.CruisePos(g.t2));
    BrakeAlong(g, g.vS, t - g.t2, g.CruisePos(g.t2));
    assert g.Move().Dir() * g.vS == g.v by {
      if g.xf > g.x0 {
        assert g.Move().Dir() == 1.0;
      } else {
        assert g.Move().Dir() == -1.0;
      }
    }
    BrakeRises(g.a, g.v, g.t3 - g.t2, s - g.t2, t - g.t2);
  }

  /** Braking from the triangular peak moves forward until rest at `t2`. */
  lemma TriangleDecelForward(g: CurveGenerator, s: real, t: real)
    requires g.a > 0.0 && g.aS == g.Move().Dir() * g.a
    requires s <= t <= g.t2 && (g.t2 - g.t1) * g.a == g.Move().Dir() * g.v1
    ensures g.Along(g.TriangleDecelPos(s)) <= g.Along(g.TriangleDecelPos(t))
  {
    BrakeAlong(g, g.v1, s - g.t1, g.AccelPos(g.t1));
    BrakeAlong(g, g.v1, t - g.t1, g.AccelPos(g.t1));
    BrakeRises(g.a, g.Move().Dir() * g.v1, g.t2 - g.t1, s - g.t1, t - g.t1);
  }

  /** In the trapezoidal shape, with `v0` not pointing against the travel,
      the curve never moves back against the travel. */
  lemma TrapezoidForward(g: CurveGenerator, s: real, t: real)
    requires g.Valid() && g.trapezoidal
    requires 0.0 <= g.Move().Dir() * g.v0 && 0.0 <= s <= t
    ensures g.Along(g.PositionAt(s)) <= g.Along(g.PositionAt(t))
  {
    var t1, t2, t3 := g.t1, g.t2, g.t3;
    if s < t1 {
      AccelForward(g, s, if t < t1 then t else t1);
      if t1 <= t {
        CruiseForward(g, t1, if t < t2 then t else t2);
      }
      if t2 <= t {
        DecelForward(g, t2, if t < t3 then t else t3);
      }
    } else if s < t2 {
      CruiseForward(g, s, if t < t2 then t else t2);
      if t2 <= t {
        DecelForward(g, t2, if t < t3 then t else t3);
      }
    } else if s < t3 {
      DecelForward(g, s, if t < t3 then t else t3);
    }
  }

  /** When the triangular first gate is negative, the first query does not
      start at `x0`: it starts on the braking formula, `a t1^2` behind `x0`
      against the travel. */
  lemma TriangleStartsBehind(g: CurveGenerator)
    requires g.Valid() && !g.trapezoidal && g.t1 < 0.0
    ensures g.Along(g.PositionAt(0.0)) == -(g.a * (g.t1 * g.t1)) < 0.0
  {
    assert g.PositionAt(0.0) == g.TriangleDecelPos(0.0);
    assert g.TriangleDecelPos(0.0) - g.x0 == g.t1 * (g.v0 - g.v1);
    StartBehind(g.Move().Dir(), g.a, g.aS, g.t1, g.v0, g.v1);
  }

  /** The arithmetic behind TriangleStartsBehind: braking from `v1` back to
      time 0 from a negative gate `t1` leaves the mass `a t1^2` behind. */
  lemma StartBehind(dir: real, a: real, aS: real, t1: real, v0: real, v1: real)
    requires dir == 1.0 || dir == -1.0
    requires a > 0.0 && aS == dir * a && t1 < 0.0 && t1 * aS == v1 - v0
    ensures dir * (t1 * (v0 - v1)) == -(a * (t1 * t1)) < 0.0
  {
    assert t1 * (v0 - v1) == -(t1 * (t1 * aS));
    assert dir * dir == 1.0;
    assert 0.0 < t1 * t1;
  }

  /** In the triangular shape, with `v0` not pointing against the travel,
      the curve never moves back against the travel. This holds even when
      the first gate is negative and queries start on the braking formula,
      behind `x0` (TriangleStartsBehind). */
  lemma TriangleForward(g: CurveGenerator, s: real, t: real)
    requires g.Valid() && !g.trapezoidal
    requires 0.0 <= g.Move().Dir() * g.v0 && 0.0 <= s <= t
    ensures g.Along(g.PositionAt(s)) <= g.Along(g.PositionAt(t))
  {
    var t1, t2 := g.t1, g.t2;
    if s < t1 {
      AccelForward(g, s, if t < t1 then t else t1);
      if t1 <= t {
        TriangleDecelForward(g, t1, if t < t2 then t else t2);
      }
    } else if s < t2 {
      TriangleDecelForward(g, s, if t < t2 then t else t2);
    }
  }

  /** Starting with a velocity against the travel, the acceleration formula
      first moves backwards: at u = -w/(2a) it is behind the start. */
  lemma AccelBacktracks(g: CurveGenerator, u: real)
    requires g.a > 0.0 && g.aS == g.Move().Dir() * g.a
    requires g.Move().Dir() * g.v0 < 0.0
    requires u * (2.0 * g.a) == -(g.Move().Dir() * g.v0)
    ensures 0.0 < u
    ensures g.Along(g.AccelPos(u)) < g.Along(g.AccelPos(0.0))
  {
    AccelAlong(g, u);
    AccelAlong(g, 0.0);
    RetreatDistance(g.a, g.Move().Dir() * g.v0, u);
  }

  /** With `v0` against the travel, the first gate comes after the
      acceleration formula has turned back towards the travel, at -w/a with
      `w` the velocity along the travel. */
  lemma FirstGateAfterBacktrack(g: CurveGenerator)
    requires g.Valid() && g.Move().Dir() * g.v0 < 0.0
    ensures -(g.Move().Dir() * g.v0) < g.t1 * g.a
  {
    if g.xf > g.x0 {
      assert g.Move().Dir() == 1.0;
    } else {
      assert g.Move().Dir() == -1.0;
    }
  }

  /** With `v0` not pointing against the travel, the curve never moves
      against it, in either shape. */
  lemma CurveForward(g: CurveGenerator)
    requires g.Valid() && g.tscale != 0.0
    requires 0.0 <= g.Move().Dir() * g.v0
    ensures g.MonotoneAlongTravel()
  {
    forall tc1, tc2 | 0.0 <= g.Elapsed(tc1) <= g.Elapsed(tc2)
      ensures g.Along(g.GetCurvePos(tc1).value) <= g.Along(g.GetCurvePos(tc2).value)
    {
      if g.trapezoidal {
        TrapezoidForward(g, g.Elapsed(tc1), g.Elapsed(tc2));
      } else {
        TriangleForward(g, g.Elapsed(tc1), g.Elapsed(tc2));
      }
    }
  }

  /** With `v0` pointing against the travel, the curve first retreats from
      `x0`, in either shape. */
  lemma CurveBacktracks(g: CurveGenerator)
    requires g.Valid() && g.tscale != 0.0
    requires g.Move().Dir() * g.v0 < 0.0
    ensures !g.MonotoneAlongTravel()
  {
    FirstGateAfterBacktrack(g);
    RetreatWitness(g);
  }

  /** While the acceleration formula is in force for the first -w/a seconds,
      a query -w/(2a) seconds in is behind the query at the start. */
  lemma RetreatWitness(g: CurveGenerator)
    requires g.tscale != 0.0 && g.a > 0.0 && g.aS == g.Move().Dir() * g.a
    requires g.Move().Dir() * g.v0 < 0.0 && -(g.Move().Dir() * g.v0) < g.t1 * g.a
    ensures !g.MonotoneAlongTravel()
  {
    var w := g.Move().Dir() * g.v0;
    var u := -w / (2.0 * g.a);
    AccelBacktracks(g, u);
    LaterTime(g.a, -w, u, g.t1);
    var tc := g.t0 + u * g.tscale;
    assert g.Elapsed(g.t0) == 0.0;
    assert g.Elapsed(tc) == u;
    assert g.Along(g.GetCurvePos(tc).value) < g.Along(g.GetCurvePos(g.t0).value);
  }

  /** In either shape the curve never moves against the travel exactly when
      `v0` does not point against the travel. A backwards `v0` is possible
      input (it is signed), and the curve then first retreats from `x0`. */
  lemma CurveMonotone(g: CurveGenerator)
    requires g.Valid() && g.tscale != 0.0
    ensures g.MonotoneAlongTravel() <==> 0.0 <= g.Move().Dir() * g.v0
  {
    if 0.0 <= g.Move().Dir() * g.v0 {
      CurveForward(g);
    } else {
      CurveBacktracks(g);
    }
  }
}
