# Trapezoidal motion curve generator, modelled in Dafny

`TrapezoidalMotionTester.py` plans a one-dimensional move of a mass. The
move starts at position `x0` with velocity `v0` and ends at rest at `xf`. It
accelerates and brakes at rate `a` and is meant to cruise at speed `v`. The
code does not check that `v0` is within `v`. When `v0` exceeds `v` along the
travel, the first phase still accelerates along the travel, and the speed it
reaches at `t1` is `2·|v0| - v`, not `v`. The planner is the class
`CurveGenerator`:

- **Construction** (`__init__`) stores the seven inputs. It then derives the
  signed acceleration `a_s` and the signed cruise velocity `v_s`. Next it
  computes a trapezoidal plan: accelerate to cruise until gate `t1`, cruise
  until `t2`, brake to rest until `t3`. It keeps that plan when the cruise
  displacement `dx2` strictly has the sign of the travel. Otherwise it falls
  back to a triangular plan: accelerate to a peak velocity `v1` until `t1`,
  then brake to rest until `t2`.
- **Querying** (`getCurvePos`) turns a timestamp on the caller's clock into
  elapsed seconds, `(tc - t0) / tscale`. It rejects a negative elapsed time.
  Otherwise it evaluates the position formula of the phase that time falls
  in, and returns `xf` once the final gate is reached.

The project has four modules:

- `RealArith` (`real_arith.dfy`): absolute value and small lemmas about
  signs and squares of reals.
- `MotionPlan` (`motion_plan.dfy`): the datatype `MoveSpec` holds the five
  motion parameters. Each quantity the constructor computes is a function of
  it, in the source's order: `SignedAccel`, `SignedCruise`, `Dt1`, `Dx1`,
  `X1`, `Dt3`, `Dx3`, `Dx2`, `Dt2`, `T2`, `T3`, the classification
  `IsTrapezoidal`, and the triangular `Radicand`, `Peak`, `TriangleT1` and
  `TriangleT2`. `SignedAccel`, `SignedCruise`, `Dt1`, `Dx1`, `Dt3`, `Dx3`,
  `Dx2`, `Dt2`, `T2`, `T3` and `Radicand` state in their own contracts what
  the quantity means. The rest have no contract, and lemmas
  give them their meaning: `ShapeClassification` for `IsTrapezoidal`,
  `TrapezoidArrives` for `X1`, `PeakVelocity` for `Peak`, and
  `TriangleKinematics` for `TriangleT1` and `TriangleT2`. The other lemmas
  prove the kinematics of both shapes. `WellFormed()` names the move's
  preconditions: positive `a` and `v` and a move of non-zero length.
- `CurveGen` (`curve_generator.dfy`): the class `CurveGenerator`. Its
  fields are `const`: only the constructor writes them. As in the source,
  its triangular branch overwrites `t1` and `t2`, which the trapezoid plan
  wrote first. `Move()` packs the five motion inputs into a `MoveSpec`. The
  constructor ensures two invariants:
  - `Planned()`: the fields hold the plan's formulas;
  - `Valid()`: the closed-form gate facts that queries rely on.

  `GetCurvePos` is a function returning a `Result`, because it writes no
  field. The lemmas describe the curve it traces: where it lands, when it
  is continuous, when it is monotone, and when the triangular first gate is
  negative.
- `TrapezoidalDemo` (`demo.dfy`): the move that `main` plots (0 to 100 in,
  from rest, v = 10 in/s, a = 2 in/s², timestamps in ms) and two
  triangular moves.

All quantities are exact `real`s. The square root that the triangular branch
takes with the power `**(0.5)` at line 113 is a constructor parameter `sqrt`. The constructor requires `sqrt` to
return the non-negative square root of the radicand, and only when the move
is triangular.

Behaviour of the code that the proofs make explicit:

- **Triangular first gate.** In the triangular shape, `t1` is negative
  exactly when `v0` points along the travel and `v0² > 2·a·|xf - x0|`
  (`CurveGen.TriangleStart`). That is the case where the mass cannot stop in
  time. Queries then begin on the braking formula: the first query lies
  `a·t1²` behind `x0`, against the travel (`CurveGen.TriangleStartsBehind`),
  and the curve then moves along the travel, past `x0`, to `xf`. The source's comment at line 69 takes gate 0 to be at `t = 0`, and
  so `t1` to come after it. That holds only outside this case.
- **Velocity jump at `t1`.** `dt1` takes `|v_s - v0|`, so the acceleration
  phase always accelerates along the travel. The velocity at `t1` equals
  `v_s` exactly when `v0` does not exceed `v` along the travel
  (`CurveGen.TrapezoidVelocity`). Otherwise the velocity jumps at `t1`. The
  source has no guard against `|v0| > v`.
- **Monotonicity.** The curve never moves back against the travel exactly
  when `v0` does not point against it (`CurveGen.CurveMonotone`).
- **Triangular peak speed.** The source's comment at line 112 says the peak
  velocity should be less than the cruise velocity. When `v0` does not
  exceed `v` along the travel, `|v1| <= v`, and `|v1| == v` exactly when
  `dx2 == 0`, which the code classifies as triangular
  (`MotionPlan.TrianglePeakBelowCruise`). When `v0` exceeds `v` along the
  travel, the peak can exceed `v`, and the comment fails outright. For
  example, `x0 = 0`, `v0 = 12`, `a = 2`, `v = 10` and `xf = 38` give
  `dt1 = 1`, `dx1 = 13`, `dx3 = 25` and `dx2 = 0`. That move is triangular,
  with radicand 148, so `|v1| > 10`. This example is not among the proved
  lemmas. The model follows the code.

## Model

| member | source | states |
|---|---|---|
| `MotionPlan.MoveSpec.SignedAccel` | TrapezoidalMotionTester.py:58 | `a_s` is the acceleration magnitude with the sign of the travel, `Dir() * a` |
| `MotionPlan.MoveSpec.SignedCruise` | TrapezoidalMotionTester.py:59 | `v_s` is the cruise speed with the sign of the travel, `Dir() * v` |
| `MotionPlan.MoveSpec.Dt1` | TrapezoidalMotionTester.py:68-70 | `dt1` (= `t1`) is non-negative, and `dt1 · a` is the gap between the cruise speed and `v0` measured along the travel |
| `MotionPlan.MoveSpec.Dx1` | TrapezoidalMotionTester.py:73 | when `v0` does not exceed `v` along the travel, `dx1` is the kinematic distance `(v² - v0²)/(2a)` in the direction of travel |
| `MotionPlan.MoveSpec.X1` | TrapezoidalMotionTester.py:75 | no contract of its own; `MotionPlan.TrapezoidArrives` proves that from `x1` the cruise and braking displacements reach exactly `xf` in a trapezoidal move |
| `MotionPlan.MoveSpec.Dt3` | TrapezoidalMotionTester.py:78 | `dt3` is positive and is the time to brake from `v` to rest at rate `a` |
| `MotionPlan.MoveSpec.Dx3` | TrapezoidalMotionTester.py:80 | `dx3` is the braking distance `v²/(2a)` in the direction of travel |
| `MotionPlan.MoveSpec.Dx2` | TrapezoidalMotionTester.py:84 | the three phase displacements add up to the whole move `xf - x0` |
| `MotionPlan.MoveSpec.Dt2` | TrapezoidalMotionTester.py:86 | `dt2` is non-negative and cruising at `v` for `dt2` covers `abs(dx2)` |
| `MotionPlan.MoveSpec.T2` | TrapezoidalMotionTester.py:87 | the second gate is not before the first |
| `MotionPlan.MoveSpec.T3` | TrapezoidalMotionTester.py:90 | the third gate is strictly after the second |
| `MotionPlan.MoveSpec.IsTrapezoidal` | TrapezoidalMotionTester.py:100 | no contract of its own; `MotionPlan.ShapeClassification` proves it holds exactly when `dx2` points strictly along the travel, and `MotionPlan.CruiseReachable` ties it to the length of the move |
| `MotionPlan.MoveSpec.Radicand` | TrapezoidalMotionTester.py:113 | the radicand of the peak velocity is `a·abs(xf - x0) + v0²/2`, always positive, so the square root is always real |
| `MotionPlan.MoveSpec.Peak` | TrapezoidalMotionTester.py:113 | no contract of its own; `MotionPlan.PeakVelocity` proves that for a non-negative root of the radicand it squares to the radicand and points along the travel |
| `MotionPlan.MoveSpec.TriangleT1` | TrapezoidalMotionTester.py:114 | no contract of its own; `MotionPlan.TriangleKinematics` proves that accelerating from `v0` for `t1` reaches the peak |
| `MotionPlan.MoveSpec.TriangleT2` | TrapezoidalMotionTester.py:115 | no contract of its own; `MotionPlan.TriangleKinematics` proves that braking from the peak comes to rest at `t2 >= t1`, exactly on `xf` |
| `MotionPlan.AccelDistance` | TrapezoidalMotionTester.py:68-73 | accelerating from `v0` for `t1` at `a_s` covers `(v² - v0²)/(2a)` along the travel |
| `MotionPlan.ShapeClassification` | TrapezoidalMotionTester.py:100 | the strict sign test holds exactly when `dx2` points along the travel; `dx2 == 0` is triangular |
| `MotionPlan.ShapeByBrakingDistance` | TrapezoidalMotionTester.py:75-100 | the move is trapezoidal exactly when the distance left after `x1` exceeds the braking distance `v²/(2a)` |
| `MotionPlan.CruiseReachable` | TrapezoidalMotionTester.py:68-100 | for `v0` not above cruise along the travel: trapezoidal exactly when `2a·abs(xf - x0) > 2v² - v0²` |
| `MotionPlan.CruiseCoversGap` | TrapezoidalMotionTester.py:84-100 | cruising for `dt2` at `v_s` covers `dx2` exactly when the move is trapezoidal or `dx2 == 0`, which is why the fallback exists |
| `MotionPlan.CoverArithmetic` | TrapezoidalMotionTester.py:86 | cruising at `dir·v` for `abs(dx2)/v` covers `dx2` exactly when `dx2` does not point against `dir` |
| `MotionPlan.CruisePhaseNonEmpty` | TrapezoidalMotionTester.py:84-102 | `dt2 > 0` exactly when `dx2 != 0`; a trapezoidal move has a cruise phase of positive duration |
| `MotionPlan.TrapezoidArrives` | TrapezoidalMotionTester.py:73-90 | in a trapezoidal move, `x1` plus the cruise and braking displacements is exactly `xf` |
| `MotionPlan.BrakeDistance` | TrapezoidalMotionTester.py:78-80 | braking at `a_s` from `v_s` for `dt3` covers exactly `dx3` |
| `MotionPlan.PeakVelocity` | TrapezoidalMotionTester.py:113 | the peak `v1` squares to the radicand and has the sign of the travel |
| `MotionPlan.TriangleKinematics` | TrapezoidalMotionTester.py:113-115 | with the triangular gates, velocity reaches `v1` at `t1` and rest at `t2`, `t1 <= t2`, and braking ends exactly on `xf` |
| `MotionPlan.PeakReachable` | TrapezoidalMotionTester.py:114 | the time from `w` to peak speed `p` is non-negative exactly when `w <= 0` or `w² <= 2aD` |
| `MotionPlan.PeakOutrunsStart` | TrapezoidalMotionTester.py:113 | the peak speed exceeds half the initial velocity along the travel |
| `MotionPlan.PeakEndsAfterStart` | TrapezoidalMotionTester.py:114-115 | the triangular second gate is strictly after the start |
| `MotionPlan.TriangleGateSigns` | TrapezoidalMotionTester.py:113-115 | triangular `t1 >= 0` exactly when `v0` points against the travel or `v0² <= 2a·abs(xf - x0)`, and `t2 > 0` |
| `MotionPlan.TriangleRadicandBound` | TrapezoidalMotionTester.py:112-113 | for `v0` not above cruise along the travel, a triangular radicand is at most `v²`, strictly less exactly when `dx2 != 0` |
| `MotionPlan.RadicandGap` | TrapezoidalMotionTester.py:73-113 | the radicand exceeds `v²` by `a` times `dx2` measured along the travel, which is negative for a triangle, so a triangular radicand falls short of `v²` |
| `MotionPlan.GapArithmetic` | TrapezoidalMotionTester.py:84 | the arithmetic of that gap, from the phase distances |
| `MotionPlan.TrianglePeakBelowCruise` | TrapezoidalMotionTester.py:112-113 | for `v0` not above cruise along the travel, `abs(v1) <= v`, strictly less exactly when `dx2 != 0` |
| `MotionPlan.PeakBound` | TrapezoidalMotionTester.py:112 | a peak whose square is at most `v²` has magnitude at most `v`, strictly less exactly when its square is |
| `MotionPlan.AccelRises` | TrapezoidalMotionTester.py:135 | accelerating along the travel from a velocity not pointing backwards never loses ground |
| `MotionPlan.BrakeRises` | TrapezoidalMotionTester.py:148 | braking from speed `p` gains ground until rest |
| `MotionPlan.RetreatDistance` | TrapezoidalMotionTester.py:135 | starting against the travel, the accelerating mass is behind the start at `-w/(2a)` |
| `CurveGen.CurveGenerator.constructor` | TrapezoidalMotionTester.py:48-117 | stores the inputs; the derived fields equal the plan's formulas for the chosen shape (`Planned`), and the gate invariant `Valid` holds |
| `CurveGen.CurveGenerator.GetCurvePos` | TrapezoidalMotionTester.py:122-171 | an error exactly when the elapsed time `(tc - t0)/tscale` is negative, in either shape; otherwise the position of the phase that time falls in, `xf` past the final gate |
| `CurveGen.CurveGenerator.Elapsed` | TrapezoidalMotionTester.py:124 | no contract of its own; `GetCurvePos` rejects a timestamp exactly when this elapsed time is negative |
| `CurveGen.CurveGenerator.AccelPos` | TrapezoidalMotionTester.py:135 | no contract of its own; the acceleration phase at lines 135 and 160, and `x1` at lines 140, 146 and 165. `CurveGen.AccelAlong` and `CurveGen.AccelForward` give its shape along the travel |
| `CurveGen.CurveGenerator.CruisePos` | TrapezoidalMotionTester.py:140-141 | no contract of its own; `CurveGen.GateJoins` proves it starts where acceleration ends, and `CurveGen.CruiseForward` that it moves along the travel |
| `CurveGen.CurveGenerator.DecelPos` | TrapezoidalMotionTester.py:146-148 | no contract of its own; `CurveGen.GateJoins` proves it starts where cruise ends, `CurveGen.TrapezoidLanding` that it ends on `xf` at `t3`, and `CurveGen.DecelForward` that it moves along the travel until then |
| `CurveGen.CurveGenerator.TriangleDecelPos` | TrapezoidalMotionTester.py:165-166 | no contract of its own; `CurveGen.GateJoins` proves it starts where acceleration ends, `CurveGen.TriangleProfile` that it rests on `xf` at `t2`, and `CurveGen.TriangleDecelForward` that it moves along the travel until then |
| `CurveGen.CurveGenerator.PositionAt` | TrapezoidalMotionTester.py:127-171 | no contract of its own; the phase chain of both shapes. `CurveGen.QueryAfterFinalGate` proves it is `xf` from the final gate on, and `CurveGen.CurveMonotone` when it is monotone along the travel |
| `CurveGen.PlannedIsValid` | TrapezoidalMotionTester.py:58-115 | the fields construction computes satisfy the gate invariant of their shape |
| `CurveGen.TrapezoidGatesHold` | TrapezoidalMotionTester.py:68-90 | the trapezoid gates are ordered, `t1` and `t3 - t2` are the acceleration and braking times, and braking ends on `xf` |
| `CurveGen.TriangleGatesHold` | TrapezoidalMotionTester.py:113-115 | the triangular gates satisfy the peak, timing, sign and landing facts |
| `CurveGen.TriangleGatesFromPeak` | TrapezoidalMotionTester.py:113-115 | those facts follow from the peak's square, sign and the joining velocities |
| `CurveGen.GateJoins` | TrapezoidalMotionTester.py:135-166 | position is continuous at the gates: cruise and triangular braking start where acceleration ends, trapezoidal braking where cruise ends |
| `CurveGen.TrapezoidLanding` | TrapezoidalMotionTester.py:143-152 | trapezoidal braking reaches exactly `xf` at `t3`, so the clamp to `xf` adds no jump |
| `CurveGen.TriangleProfile` | TrapezoidalMotionTester.py:113-170 | the triangular peak squares to `a_s(xf - x0) + v0²/2` and points along the travel; velocity and position join at `t1`; braking ends at rest on `xf` at `t2 >= t1` |
| `CurveGen.TrapezoidVelocity` | TrapezoidalMotionTester.py:132-148 | velocity is zero at `t3`; velocity is continuous at `t1` exactly when `v0` does not exceed `v` along the travel |
| `CurveGen.TriangleStart` | TrapezoidalMotionTester.py:114-160 | triangular `t1 >= 0` exactly when `v0` points against the travel or `v0² <= 2a·abs(xf - x0)` |
| `CurveGen.QueryAfterFinalGate` | TrapezoidalMotionTester.py:150-171 | the final gate is after the start, and a query at or past it returns exactly `xf` |
| `CurveGen.AccelAlong` | TrapezoidalMotionTester.py:135 | the acceleration formula measured along the travel is `a/2·t² + (dir·v0)·t` |
| `CurveGen.AccelForward` | TrapezoidalMotionTester.py:135 | the acceleration phase moves forward when `v0` does not point backwards |
| `CurveGen.CruiseForward` | TrapezoidalMotionTester.py:141 | the cruise phase moves forward |
| `CurveGen.BrakeAlong` | TrapezoidalMotionTester.py:148 | a braking formula measured along the travel |
| `CurveGen.DecelForward` | TrapezoidalMotionTester.py:148 | trapezoidal braking moves forward until `t3` |
| `CurveGen.TriangleDecelForward` | TrapezoidalMotionTester.py:166 | triangular braking moves forward until `t2` |
| `CurveGen.TrapezoidForward` | TrapezoidalMotionTester.py:127-152 | trapezoidal curve: for `v0` not pointing backwards, the position never moves back against the travel as elapsed time grows |
| `CurveGen.TriangleForward` | TrapezoidalMotionTester.py:153-170 | triangular curve: the same, including when `t1 < 0`, where the curve starts behind `x0` |
| `CurveGen.TriangleStartsBehind` | TrapezoidalMotionTester.py:114-166 | when the triangular `t1` is negative, the query at elapsed time 0 lies `a·t1²` behind `x0`, against the travel |
| `CurveGen.StartBehind` | TrapezoidalMotionTester.py:114-166 | the arithmetic of that offset, for either direction |
| `CurveGen.AccelBacktracks` | TrapezoidalMotionTester.py:135 | with `v0` against the travel, the acceleration formula is behind the start at `-w/(2a)` |
| `CurveGen.FirstGateAfterBacktrack` | TrapezoidalMotionTester.py:68-114 | with `v0` against the travel, `t1` comes after the turning point, in either shape |
| `CurveGen.CurveForward` | TrapezoidalMotionTester.py:122-171 | `v0` not pointing backwards makes queries monotone along the travel |
| `CurveGen.CurveBacktracks` | TrapezoidalMotionTester.py:122-171 | `v0` pointing backwards makes queries non-monotone |
| `CurveGen.RetreatWitness` | TrapezoidalMotionTester.py:124-135 | a query `-w/(2a)` seconds in lies behind the query at `t0` |
| `CurveGen.CurveMonotone` | TrapezoidalMotionTester.py:122-171 | in either shape, queries never move back against the travel exactly when `v0` does not point against it |
| `TrapezoidalDemo.PlottedMoveGates` | TrapezoidalMotionTester.py:15-27 | the plotted move is trapezoidal with `t1 = 5`, `t2 = 10`, `t3 = 15`, `dx1 = dx3 = 25`, `dx2 = 50` |
| `TrapezoidalDemo.PlottedSamples` | TrapezoidalMotionTester.py:27-32 | the plotted curve gives 75 at 10000 ms and 100 at 20000 ms |
| `TrapezoidalDemo.ShortMoveIsTriangular` | TrapezoidalMotionTester.py:100-113 | a 20 in move has `dx2 = -30`, is triangular, and peaks strictly between 0 and 10 |
| `TrapezoidalDemo.TriangleExample` | TrapezoidalMotionTester.py:112-115 | a 32 in move is triangular with peak 8, `t1 = 4`, `t2 = 8` |
| `TrapezoidalDemo.TriangleSamples` | TrapezoidalMotionTester.py:122-171 | a triangular generator for the 32 in move can be built, and gives 16 at 4000 ms, 32 at 8000 ms and an error at -1 ms |

## Left out

- `main`'s sampling loop and plot, and every `print`: output only. `PlottedSamples` checks two of the plotted samples instead.
- Floating-point rounding: all quantities are exact reals. Python's integer inputs are divided with true division, which the reals match.
- The power `**(0.5)` at line 113 is the constructor parameter `sqrt`. It is required to be a non-negative root only of the radicand it is applied to.
- CurveGen.CurveGenerator.constructor: requires `a > 0`, `v > 0` and `xf != x0`. The source checks none of these. With `xf == x0` it divides by zero at line 58. With `a == 0` it divides by zero at lines 59, 68 and 78, and with `v == 0` at line 86. With `a < 0` its magnitudes and signs lose their meaning. With `v < 0` it does not crash: `v_s` points against the travel, and `dt2 = abs(dx2)/v` is not positive, so `t2` can come before `t1`.
- CurveGen.CurveGenerator.GetCurvePos: requires `tscale != 0`, because the source divides by it at line 124.
- `v1` is read only in the triangular shape, so its value is not stated in the trapezoidal one. The source leaves the attribute unset there.
- In the triangular shape `t3` keeps its trapezoidal value. No query of that shape reads it.
- The error case is `Err(NegativeTime)`, in place of the raised exception. Its message text is not modelled.
- Repeated queries return the same value and change no state, with nothing to prove: every field is `const` and `GetCurvePos` is a function.
