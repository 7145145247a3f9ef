/**
 * `Bhv_BasicMove::execute`: the order in which a field player without the
 * ball tries tackling, chasing the ball, blocking the opponent's dribble and
 * moving to its formation position, and the arrival threshold it uses for
 * the formation move.
 */
module BhvBasicMove {
  import opened Vectors
  import opened WorldModel
  import opened BhvBlock

  /** The body action the behaviour commits to in one cycle. */
  datatype Action =
    | Tackle
    | Intercept
    | BlockAt(target: Vec, distThr: real, dashPower: real)
    | Formation(distThr: real)

  /**
   * The intercept guard: no teammate has the ball, and the agent reaches it
   * within 3 cycles or no later than any teammate and less than 3 cycles
   * after the fastest opponent.
   */
  predicate ChaseBall(kickableMate: bool, selfMin: int, mateMin: int, oppMin: int) {
    !kickableMate && (selfMin <= 3 || (selfMin <= mateMin && selfMin < oppMin + 3))
  }

  /** The block guard: an opponent reaches the ball no later than the agent and every teammate. */
  predicate OpponentFirst(selfMin: int, mateMin: int, oppMin: int) {
    oppMin <= if selfMin <= mateMin then selfMin else mateMin
  }

  /** The formation-move arrival threshold: a tenth of the ball distance, but at least one metre. */
  function DistThr(ballDist: real): (r: real)
    ensures 1.0 <= r && ballDist * 0.1 <= r
    ensures r == 1.0 || r == ballDist * 0.1
  {
    var thr := ballDist * 0.1;
    if thr < 1.0 then 1.0 else thr
  }

  /** The threshold follows the ball distance exactly once that is at least ten metres. */
  lemma DistThrFollowsBall(ballDist: real)
    ensures DistThr(ballDist) == 1.0 <==> ballDist <= 10.0
    ensures 10.0 <= ballDist ==> DistThr(ballDist) == ballDist * 0.1
  {
  }

  /** An agent that gets to the ball within 3 cycles always chases it unless a teammate has it. */
  lemma ChaseWhenClose(kickableMate: bool, selfMin: int, mateMin: int, oppMin: int)
    ensures selfMin <= 3 ==> (ChaseBall(kickableMate, selfMin, mateMin, oppMin) <==> !kickableMate)
  {
  }

  /**
   * Blocking is tried only when the agent does not chase and an opponent is
   * first to the ball. The opponent is then no later than the agent and its
   * teammates; and unless a teammate has the ball, the agent is more than 3
   * cycles away from it and behind some teammate or at least 3 cycles
   * behind the opponent.
   */
  lemma BlockGuard(kickableMate: bool, selfMin: int, mateMin: int, oppMin: int)
    requires !ChaseBall(kickableMate, selfMin, mateMin, oppMin) && OpponentFirst(selfMin, mateMin, oppMin)
    ensures oppMin <= selfMin && oppMin <= mateMin
    ensures !kickableMate ==> 3 < selfMin && (mateMin < selfMin || oppMin + 3 <= selfMin)
  {
  }

  /**
   * One call of `Bhv_BasicMove::execute`. `tackled` is what the tackle
   * behaviour reported; a fresh `Bhv_Block` starts from `initialBlocker` and
   * `initialPos`, the values its declaration gives (not part of this model).
   */
  method Execute(geo: Geometry, w: World, tackled: bool, initialBlocker: int, initialPos: Vec, ghost minTurn: real)
    returns (a: Action)
    requires TeamTurnBounded(w, minTurn) && CycleInRange(w)
    requires GoalieUnum <= w.selfUnum <= LastUnum
    ensures a.Tackle? <==> tackled
    ensures a.Intercept? <==>
      !tackled && ChaseBall(w.existKickableTeammate, w.selfReachCycle, w.teammateReachCycle, w.opponentReachCycle)
    ensures a.BlockAt? <==>
      && !tackled
      && !ChaseBall(w.existKickableTeammate, w.selfReachCycle, w.teammateReachCycle, w.opponentReachCycle)
      && OpponentFirst(w.selfReachCycle, w.teammateReachCycle, w.opponentReachCycle)
      && PlannedBlocker(geo, w, minTurn, initialBlocker) == w.selfUnum
    ensures a.BlockAt? ==>
      && a.target == PlannedPos(geo, w, w.selfUnum, minTurn, initialPos)
      && a.distThr == BlockDistThr && a.dashPower == BlockDashPower
    ensures a.Formation? ==> a.distThr == DistThr(w.ballDistFromSelf)
  {
    if tackled {
      return Tackle;
    }
    var selfMin := w.selfReachCycle;
    var mateMin := w.teammateReachCycle;
    var oppMin := w.opponentReachCycle;
    if !w.existKickableTeammate && (selfMin <= 3 || (selfMin <= mateMin && selfMin < oppMin + 3)) {
      return Intercept;
    }
    if oppMin <= (if selfMin <= mateMin then selfMin else mateMin) {
      var block := new Block(initialBlocker, initialPos);
      var target := block.Execute(geo, w, minTurn);
      if target.Some? {
        return BlockAt(target.value, BlockDistThr, BlockDashPower);
      }
    }
    var distThr := w.ballDistFromSelf * 0.1;
    if distThr < 1.0 {
      distThr := 1.0;
    }
    a := Formation(distThr);
  }
}
