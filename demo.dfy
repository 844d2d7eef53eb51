/** The scenario that TrapezoidalMotionTester.py's `main` plots: a move from
    rest at 0 to 100 in, cruise 10 in/s, acceleration 2 in/s^2, timestamps in
    milliseconds. Plus a shorter move that falls back to a triangle. */
module TrapezoidalDemo {
  import opened RealArith
  import opened MotionPlan
  import opened CurveGen

  /** The plotted move: 0 -> 100 from rest, v = 10, a = 2. */
  function PlottedMove(): MoveSpec { MoveSpec(0.0, 0.0, 2.0, 10.0, 100.0) }

  /** It is trapezoidal: 5 s of acceleration over 25 in, 5 s of cruise over
      50 in, 5 s of braking over 25 in. */
  lemma PlottedMoveGates()
    ensures PlottedMove().WellFormed() && PlottedMove().IsTrapezoidal()
    ensures PlottedMove().Dt1() == 5.0 && PlottedMove().T2() == 10.0 && PlottedMove().T3() == 15.0
    ensures PlottedMove().Dx1() == 25.0 && PlottedMove().Dx2() == 50.0 && PlottedMove().Dx3() == 25.0
  {
    var m := PlottedMove();
    assert m.WellFormed() && m.Dir() == 1.0;
    var dt1, dx1, dt3, dx3 := m.Dt1(), m.Dx1(), m.Dt3(), m.Dx3();
    assert dt1 * 2.0 == 10.0 && 4.0 * dx1 == 100.0;
    assert dt3 * 2.0 == 10.0 && 4.0 * dx3 == 100.0;
    var dx2 := m.Dx2();
    assert dx2 == 50.0;
    assert m.Dt2() * 10.0 == 50.0;
  }

  /** Sampling the plotted move's curve at 10000 ms and at 20000 ms: the end
      of the cruise phase at 75 in, and the clamp to the final position. */
  method PlottedSamples() returns (at10s: Result<real>, at20s: Result<real>)
    ensures at10s == Ok(75.0) && at20s == Ok(100.0)
  {
    PlottedMoveGates();
    var curve := new CurveGenerator(0.0, 0.0, 2.0, 10.0, 100.0, 0.0, 1000.0, x => 0.0);
    assert curve.t1 == 5.0 && curve.t2 == 10.0 && curve.t3 == 15.0;
    at10s := curve.GetCurvePos(10000.0);
    at20s := curve.GetCurvePos(20000.0);
  }

  /** The same move cut to 20 in: the cruise phase would have to run
      backwards (dx2 = -30), so the move is triangular, and its peak speed
      sqrt(40) stays under the cruise speed of 10. */
  lemma ShortMoveIsTriangular(peak: real)
    requires MoveSpec(0.0, 0.0, 2.0, 10.0, 20.0).IsPeak(peak)
    ensures !MoveSpec(0.0, 0.0, 2.0, 10.0, 20.0).IsTrapezoidal()
    ensures MoveSpec(0.0, 0.0, 2.0, 10.0, 20.0).Dx2() == -30.0
    ensures 0.0 < peak < 10.0
  {
    var m := MoveSpec(0.0, 0.0, 2.0, 10.0, 20.0);
    assert m.WellFormed() && m.Dir() == 1.0;
    var dx1, dx3 := m.Dx1(), m.Dx3();
    assert 4.0 * dx1 == 100.0 && 4.0 * dx3 == 100.0;
    assert m.Dx2() == -30.0;
    assert m.SignedCruise() == 10.0;
    assert m.SignedAccel() == 2.0;
    TrianglePeakBelowCruise(m, peak);
  }

  /** A 32 in move from rest is triangular with a whole-number peak: 8 in/s
      reached at 4 s, and rest on 32 in at 8 s. */
  lemma TriangleExample()
    ensures MoveSpec(0.0, 0.0, 2.0, 10.0, 32.0).WellFormed()
    ensures !MoveSpec(0.0, 0.0, 2.0, 10.0, 32.0).IsTrapezoidal()
    ensures MoveSpec(0.0, 0.0, 2.0, 10.0, 32.0).IsPeak(8.0)
    ensures MoveSpec(0.0, 0.0, 2.0, 10.0, 32.0).TriangleT1(8.0) == 4.0
    ensures MoveSpec(0.0, 0.0, 2.0, 10.0, 32.0).TriangleT2(8.0) == 8.0
  {
    var m := MoveSpec(0.0, 0.0, 2.0, 10.0, 32.0);
    assert m.WellFormed() && m.Dir() == 1.0;
    var dx1, dx3 := m.Dx1(), m.Dx3();
    assert 4.0 * dx1 == 100.0 && 4.0 * dx3 == 100.0;
    assert m.Dx2() == -18.0;
    assert m.SignedCruise() == 10.0;
    assert m.SignedAccel() == 2.0;
    assert Abs(m.xf - m.x0) == 32.0;
    assert m.Radicand() == 64.0;
    var t1 := m.TriangleT1(8.0);
    assert t1 * 2.0 == 8.0;
  }

  /** Sampling the 32 in triangular move, built with a square root that
      returns the peak 8 for the radicand 64: 16 in at the peak (4000 ms),
      32 in at rest (8000 ms), and a rejected timestamp before `t0`. */
  method TriangleSamples() returns (atPeak: Result<real>, atRest: Result<real>, early: Result<real>)
    ensures atPeak == Ok(16.0) && atRest == Ok(32.0) && early == Err(NegativeTime)
  {
    TriangleExample();
    var curve := new CurveGenerator(0.0, 0.0, 2.0, 10.0, 32.0, 0.0, 1000.0, x => 8.0);
    assert curve.v1 == 8.0 && curve.t1 == 4.0 && curve.t2 == 8.0;
    atPeak := curve.GetCurvePos(4000.0);
    atRest := curve.GetCurvePos(8000.0);
    early := curve.GetCurvePos(-1.0);
  }
}
