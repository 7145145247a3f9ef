/**
 * The reach estimate of `Bhv_Block::getBlockCycle`: how many cycles a
 * teammate needs to take control of a point on the opponent's dribble
 * path. This module holds its specification (the functions a method is
 * proved against) and what is proved about it; the method itself is
 * `BhvBlock.Block.GetBlockCycle`.
 */
module Reach {
  import opened Vectors
  import opened WorldModel

  /** The turn loop stops once the heading is within this many degrees. */
  const TurnTolerance: real := 15.0

  /**
   * An upper bound on the turn commands still needed for an angle
   * difference d when each turns by at least minTurn: the termination
   * measure of the turn loop.
   */
  function TurnMeasure(d: real, minTurn: real): (n: int)
    requires 0.0 < minTurn
    ensures 0 <= n
    ensures n == 0 <==> d <= TurnTolerance
  {
    if d <= TurnTolerance then 0 else ((d - TurnTolerance) / minTurn).Floor + 1
  }

  /** One turn of at least minTurn lowers the measure by at least one. */
  lemma TurnMeasureDecreases(d: real, e: real, minTurn: real)
    requires 0.0 < minTurn <= e
    requires TurnTolerance < d
    ensures TurnMeasure(d - e, minTurn) < TurnMeasure(d, minTurn)
  {
    if d - e > TurnTolerance {
      var x := (d - TurnTolerance) / minTurn;
      var y := (d - e - TurnTolerance) / minTurn;
      DivideStep(d - TurnTolerance, e, minTurn);
      assert y <= x - 1.0;
      assert y.Floor <= (x - 1.0).Floor;
    }
  }

  /** Dividing by m after taking away at least m lowers the quotient by at least one. */
  lemma DivideStep(a: real, e: real, m: real)
    requires 0.0 < m <= e
    ensures (a - e) / m <= a / m - 1.0
  {
    assert (a - e) / m == a / m - e / m;
    assert e / m >= 1.0;
  }

  /**
   * The number of passes the turn loop makes: while the angle difference
   * exceeds the tolerance, turn by the effective turn at the current speed
   * and let the speed decay.
   */
  ghost function TurnCycles(pt: PlayerType, diffAngle: real, speed: real, minTurn: real): (n: nat)
    requires TurnRateBounded(pt, minTurn, speed)
    decreases TurnMeasure(diffAngle, minTurn)
  {
    if diffAngle <= TurnTolerance then 0
    else
      TurnMeasureDecreases(diffAngle, pt.effectiveTurn(speed), minTurn);
      1 + TurnCycles(pt, diffAngle - pt.effectiveTurn(speed), Decayed(pt, speed), minTurn)
  }

  /** The angle difference left when the turn loop stops. */
  ghost function TurnResidual(pt: PlayerType, diffAngle: real, speed: real, minTurn: real): real
    requires TurnRateBounded(pt, minTurn, speed)
    decreases TurnMeasure(diffAngle, minTurn)
  {
    if diffAngle <= TurnTolerance then diffAngle
    else
      TurnMeasureDecreases(diffAngle, pt.effectiveTurn(speed), minTurn);
      TurnResidual(pt, diffAngle - pt.effectiveTurn(speed), Decayed(pt, speed), minTurn)
  }

  /** One pass of the turn loop costs one cycle. */
  lemma TurnCyclesStep(pt: PlayerType, diffAngle: real, speed: real, minTurn: real)
    requires TurnRateBounded(pt, minTurn, speed)
    requires TurnTolerance < diffAngle
    ensures TurnCycles(pt, diffAngle, speed, minTurn)
         == 1 + TurnCycles(pt, diffAngle - pt.effectiveTurn(speed), Decayed(pt, speed), minTurn)
  {
  }

  /** One pass of the turn loop leaves the final angle difference as it is. */
  lemma TurnResidualStep(pt: PlayerType, diffAngle: real, speed: real, minTurn: real)
    requires TurnRateBounded(pt, minTurn, speed)
    requires TurnTolerance < diffAngle
    ensures TurnResidual(pt, diffAngle, speed, minTurn)
         == TurnResidual(pt, diffAngle - pt.effectiveTurn(speed), Decayed(pt, speed), minTurn)
  {
  }

  /**
   * `getBlockCycle(tm, dribblePos, cycle)`: zero when the teammate's current
   * position or its position after `cycle` cycles of inertia is strictly
   * within its kickable area of the point; otherwise the dash cycles for the
   * distance beyond the kickable area plus the turn cycles for the heading
   * difference towards the point.
   */
  ghost function BlockReach(geo: Geometry, tm: Teammate, dribblePos: Vec, cycle: int, minTurn: real): int
    requires TurnRateBounded(tm.ptype, minTurn, tm.speed)
  {
    var tmPos := tm.inertiaPoint(cycle);
    var kickableArea := tm.ptype.kickableArea;
    if geo.dist(tm.pos, dribblePos) < kickableArea || geo.dist(tmPos, dribblePos) < kickableArea then 0
    else
      tm.ptype.cyclesToReachDistance(geo.dist(tmPos, dribblePos) - kickableArea)
      + TurnCycles(tm.ptype, geo.headingDiff(Sub(dribblePos, tmPos), tm.body), tm.speed, minTurn)
  }

  /** The turn loop makes no pass exactly when the heading is already within tolerance. */
  lemma TurnCyclesZeroIff(pt: PlayerType, diffAngle: real, speed: real, minTurn: real)
    requires TurnRateBounded(pt, minTurn, speed)
    ensures TurnCycles(pt, diffAngle, speed, minTurn) == 0 <==> diffAngle <= TurnTolerance
  {
  }

  /**
   * The turn loop stops after at most floor((d - 15) / minTurn) + 1 passes;
   * for a heading difference of at most 180 degrees the work is bounded by
   * a constant of the player type.
   */
  lemma {:induction false} TurnCyclesBound(pt: PlayerType, diffAngle: real, speed: real, minTurn: real)
    requires TurnRateBounded(pt, minTurn, speed)
    ensures TurnCycles(pt, diffAngle, speed, minTurn) <= TurnMeasure(diffAngle, minTurn)
    ensures diffAngle <= 180.0 ==>
      TurnCycles(pt, diffAngle, speed, minTurn) <= TurnMeasure(180.0, minTurn)
    decreases TurnMeasure(diffAngle, minTurn)
  {
    if diffAngle > TurnTolerance {
      var e := pt.effectiveTurn(speed);
      TurnMeasureDecreases(diffAngle, e, minTurn);
      TurnCyclesBound(pt, diffAngle - e, Decayed(pt, speed), minTurn);
      TurnCyclesStep(pt, diffAngle, speed, minTurn);
    }
    if diffAngle <= 180.0 {
      TurnMeasureMonotone(diffAngle, 180.0, minTurn);
    }
  }

  /** A larger angle difference never needs fewer turn commands by the measure. */
  lemma TurnMeasureMonotone(d: real, d': real, minTurn: real)
    requires 0.0 < minTurn && d <= d'
    ensures TurnMeasure(d, minTurn) <= TurnMeasure(d', minTurn)
  {
    if d > TurnTolerance {
      assert (d - TurnTolerance) / minTurn <= (d' - TurnTolerance) / minTurn;
    }
  }

  /** When the turn loop stops, the heading is within the tolerance. */
  lemma {:induction false} TurnResidualWithinTolerance(pt: PlayerType, diffAngle: real, speed: real, minTurn: real)
    requires TurnRateBounded(pt, minTurn, speed)
    ensures TurnResidual(pt, diffAngle, speed, minTurn) <= TurnTolerance
    ensures diffAngle <= TurnTolerance ==> TurnResidual(pt, diffAngle, speed, minTurn) == diffAngle
    ensures TurnResidual(pt, diffAngle, speed, minTurn) <= diffAngle
    decreases TurnMeasure(diffAngle, minTurn)
  {
    if diffAngle > TurnTolerance {
      var e := pt.effectiveTurn(speed);
      TurnMeasureDecreases(diffAngle, e, minTurn);
      TurnResidualWithinTolerance(pt, diffAngle - e, Decayed(pt, speed), minTurn);
      TurnResidualStep(pt, diffAngle, speed, minTurn);
    }
  }

  /** A teammate already in control of the point needs no cycles at all. */
  lemma BlockReachZeroInControl(geo: Geometry, tm: Teammate, dribblePos: Vec, cycle: int, minTurn: real)
    requires TurnRateBounded(tm.ptype, minTurn, tm.speed)
    requires geo.dist(tm.pos, dribblePos) < tm.ptype.kickableArea
          || geo.dist(tm.inertiaPoint(cycle), dribblePos) < tm.ptype.kickableArea
    ensures BlockReach(geo, tm, dribblePos, cycle, minTurn) == 0
  {
  }

  /**
   * Otherwise the estimate is never below the dash cycles and, when the
   * dash-cycle table is non-negative, is never negative; it exceeds the dash
   * cycles exactly when the heading is off by more than the tolerance.
   */
  lemma BlockReachOutOfControl(geo: Geometry, tm: Teammate, dribblePos: Vec, cycle: int, minTurn: real)
    requires TurnRateBounded(tm.ptype, minTurn, tm.speed)
    requires geo.dist(tm.pos, dribblePos) >= tm.ptype.kickableArea
    requires geo.dist(tm.inertiaPoint(cycle), dribblePos) >= tm.ptype.kickableArea
    ensures var tmPos := tm.inertiaPoint(cycle);
            var dist := geo.dist(tmPos, dribblePos) - tm.ptype.kickableArea;
            var dash := tm.ptype.cyclesToReachDistance(dist);
            && 0.0 <= dist
            && dash <= BlockReach(geo, tm, dribblePos, cycle, minTurn)
            && (dash == BlockReach(geo, tm, dribblePos, cycle, minTurn)
                <==> geo.headingDiff(Sub(dribblePos, tmPos), tm.body) <= TurnTolerance)
  {
    var tmPos := tm.inertiaPoint(cycle);
    TurnCyclesZeroIff(tm.ptype, geo.headingDiff(Sub(dribblePos, tmPos), tm.body), tm.speed, minTurn);
  }

  /** With a non-negative dash-cycle table the estimate is never negative. */
  lemma BlockReachNonNegative(geo: Geometry, tm: Teammate, dribblePos: Vec, cycle: int, minTurn: real)
    requires TurnRateBounded(tm.ptype, minTurn, tm.speed)
    requires forall d: real :: 0.0 <= d ==> 0 <= tm.ptype.cyclesToReachDistance(d)
    ensures 0 <= BlockReach(geo, tm, dribblePos, cycle, minTurn)
  {
  }
}
