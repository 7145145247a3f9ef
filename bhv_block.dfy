/**
 * `Bhv_Block`: predict the opponent's dribble towards our goal, find for
 * every teammate the first sampled cycle at which it can reach the dribble
 * path in time, pick the field player with the earliest such cycle (lowest
 * unum on ties), and send the agent there when it is the one picked.
 */
module BhvBlock {
  import opened Vectors
  import opened WorldModel
  import opened Reach

  /** The assumed dribble speed of the opponent, per cycle. */
  const DribbleSpeed: real := 0.8
  /** Cycles are sampled from oppMin + 1 while below oppMin + Horizon. */
  const Horizon: int := 30
  /** The goalie (unum 1) is never chosen: the choice starts at unum 2. */
  const FirstFieldPlayer: int := 2
  /** Arrival threshold and dash power the blocker moves with. */
  const BlockDistThr: real := 0.1
  const BlockDashPower: real := 100.0

  /** The loop bound oppMin + Horizon still fits a C++ int, so every sampled cycle stays below the sentinel. */
  predicate CycleInRange(w: World) {
    w.opponentReachCycle <= IntMax - Horizon
  }

  /** The dribble position k cycles after the opponent gains the ball. */
  function KickPosAt(start: Vec, vel: Vec, k: int): Vec {
    Add(start, Scale(k as real, vel))
  }

  /** Where the opponent is assumed to gain the ball: the ball's inertia point at oppMin. */
  function DribbleStart(w: World): Vec {
    w.ballInertiaPoint(w.opponentReachCycle)
  }

  /** The dribble velocity: DribbleSpeed towards our goal. */
  function DribbleVel(geo: Geometry, w: World): Vec {
    geo.polar(DribbleSpeed, Sub(w.ourTeamGoalPos, DribbleStart(w)))
  }

  /** Advancing the running kick position by one velocity step moves it to the next sample. */
  lemma KickPosStep(start: Vec, vel: Vec, k: int)
    ensures Add(KickPosAt(start, vel, k), vel) == KickPosAt(start, vel, k + 1)
  {
    assert (k + 1) as real * vel.x == k as real * vel.x + vel.x;
    assert (k + 1) as real * vel.y == k as real * vel.y + vel.y;
  }

  /** A teammate can block at cycle c: its reach estimate for the sample of cycle c is at most c. */
  ghost predicate CanBlockAt(geo: Geometry, tm: Teammate, start: Vec, vel: Vec, oppMin: int, c: int, minTurn: real)
    requires TurnRateBounded(tm.ptype, minTurn, tm.speed)
  {
    BlockReach(geo, tm, KickPosAt(start, vel, c - oppMin), c, minTurn) <= c
  }

  /** The first cycle from c on, below oppMin + Horizon, at which tm can block; IntMax if none. */
  ghost function FirstBlockCycle(geo: Geometry, tm: Teammate, start: Vec, vel: Vec, oppMin: int, c: int, minTurn: real): int
    requires TurnRateBounded(tm.ptype, minTurn, tm.speed)
    decreases oppMin + Horizon - c
  {
    if c >= oppMin + Horizon then IntMax
    else if CanBlockAt(geo, tm, start, vel, oppMin, c, minTurn) then c
    else FirstBlockCycle(geo, tm, start, vel, oppMin, c + 1, minTurn)
  }

  /**
   * The scan finds the earliest feasible cycle: the result is the sentinel
   * or a cycle of the horizon at which tm can block, and tm can block at no
   * earlier cycle of the horizon (so at none when the result is the sentinel).
   */
  lemma {:induction false} FirstBlockCycleIsEarliest(geo: Geometry, tm: Teammate, start: Vec, vel: Vec, oppMin: int, c: int, minTurn: real)
    requires TurnRateBounded(tm.ptype, minTurn, tm.speed)
    requires oppMin + Horizon <= IntMax
    ensures var r := FirstBlockCycle(geo, tm, start, vel, oppMin, c, minTurn);
            && (r == IntMax || (c <= r < oppMin + Horizon && CanBlockAt(geo, tm, start, vel, oppMin, r, minTurn)))
            && (forall k :: c <= k < oppMin + Horizon && k < r ==> !CanBlockAt(geo, tm, start, vel, oppMin, k, minTurn))
    decreases oppMin + Horizon - c
  {
    if c < oppMin + Horizon && !CanBlockAt(geo, tm, start, vel, oppMin, c, minTurn) {
      FirstBlockCycleIsEarliest(geo, tm, start, vel, oppMin, c + 1, minTurn);
    }
  }

  /**
   * The converse: a scan from c that finds no feasible cycle before r, and
   * stops at r because tm can block there or the horizon ends, yields r or
   * the sentinel.
   */
  lemma {:induction false} FirstBlockCycleOfScan(geo: Geometry, tm: Teammate, start: Vec, vel: Vec, oppMin: int, c: int, r: int, minTurn: real)
    requires TurnRateBounded(tm.ptype, minTurn, tm.speed)
    requires c <= r <= oppMin + Horizon
    requires forall k :: c <= k < r ==> !CanBlockAt(geo, tm, start, vel, oppMin, k, minTurn)
    requires r < oppMin + Horizon ==> CanBlockAt(geo, tm, start, vel, oppMin, r, minTurn)
    ensures FirstBlockCycle(geo, tm, start, vel, oppMin, c, minTurn) == if r < oppMin + Horizon then r else IntMax
    decreases r - c
  {
    if c < r {
      FirstBlockCycleOfScan(geo, tm, start, vel, oppMin, c + 1, r, minTurn);
    }
  }

  /** The cycle `updateBlockCycle` records for slot u: the scan's result, or IntMax for an empty or mismatched slot. */
  ghost function PlannedCycle(geo: Geometry, w: World, u: int, minTurn: real): int
    requires TeamTurnBounded(w, minTurn) && GoalieUnum <= u <= LastUnum
  {
    if InSlot(w, u) then
      FirstBlockCycle(geo, w.ourPlayer(u).value, DribbleStart(w), DribbleVel(geo, w),
                      w.opponentReachCycle, w.opponentReachCycle + 1, minTurn)
    else IntMax
  }

  /** The position `updateBlockCycle` leaves for slot u; p0 is what the slot held before. */
  ghost function PlannedPos(geo: Geometry, w: World, u: int, minTurn: real, p0: Vec): Vec
    requires TeamTurnBounded(w, minTurn) && GoalieUnum <= u <= LastUnum
  {
    var c := PlannedCycle(geo, w, u, minTurn);
    if c != IntMax then KickPosAt(DribbleStart(w), DribbleVel(geo, w), c - w.opponentReachCycle) else p0
  }

  /** For a teammate in its slot, the plan is the scan's result. */
  lemma PlannedOfScan(geo: Geometry, w: World, u: int, minTurn: real, found: int, kickPos: Vec, p0: Vec)
    requires TeamTurnBounded(w, minTurn) && GoalieUnum <= u <= LastUnum && InSlot(w, u)
    requires found == FirstBlockCycle(geo, w.ourPlayer(u).value, DribbleStart(w), DribbleVel(geo, w),
                                      w.opponentReachCycle, w.opponentReachCycle + 1, minTurn)
    requires found != IntMax ==> kickPos == KickPosAt(DribbleStart(w), DribbleVel(geo, w), found - w.opponentReachCycle)
    ensures PlannedCycle(geo, w, u, minTurn) == found
    ensures PlannedPos(geo, w, u, minTurn, p0) == if found != IntMax then kickPos else p0
  {
  }

  /** The cycle table for unums 1..11 (slot 0 is never used). */
  ghost function PlannedTable(geo: Geometry, w: World, minTurn: real): (t: seq<int>)
    requires TeamTurnBounded(w, minTurn)
    ensures |t| == Slots
    ensures forall u :: GoalieUnum <= u <= LastUnum ==> t[u] == PlannedCycle(geo, w, u, minTurn)
  {
    seq(Slots, u => if GoalieUnum <= u <= LastUnum then PlannedCycle(geo, w, u, minTurn) else IntMax)
  }

  /**
   * What `updateBlockCycle` records for slot u. An empty or mismatched slot
   * gets the sentinel and keeps its position. Otherwise a cycle below the
   * sentinel is a sampled cycle oppMin + 1 .. oppMin + Horizon - 1 at which
   * the teammate can block and before which it cannot, and the position is
   * the dribble position of that cycle; the sentinel means it can block at
   * no sampled cycle, and the position is kept.
   */
  lemma PlannedSlot(geo: Geometry, w: World, u: int, minTurn: real, p0: Vec)
    requires TeamTurnBounded(w, minTurn) && CycleInRange(w) && GoalieUnum <= u <= LastUnum
    ensures !InSlot(w, u) ==> PlannedCycle(geo, w, u, minTurn) == IntMax && PlannedPos(geo, w, u, minTurn, p0) == p0
    ensures InSlot(w, u) && PlannedCycle(geo, w, u, minTurn) == IntMax ==>
      && PlannedPos(geo, w, u, minTurn, p0) == p0
      && forall k :: w.opponentReachCycle + 1 <= k < w.opponentReachCycle + Horizon ==>
           !CanBlockAt(geo, w.ourPlayer(u).value, DribbleStart(w), DribbleVel(geo, w), w.opponentReachCycle, k, minTurn)
    ensures var c := PlannedCycle(geo, w, u, minTurn);
      c != IntMax ==>
        && InSlot(w, u)
        && w.opponentReachCycle + 1 <= c < w.opponentReachCycle + Horizon
        && CanBlockAt(geo, w.ourPlayer(u).value, DribbleStart(w), DribbleVel(geo, w), w.opponentReachCycle, c, minTurn)
        && (forall k :: w.opponentReachCycle + 1 <= k < c ==>
              !CanBlockAt(geo, w.ourPlayer(u).value, DribbleStart(w), DribbleVel(geo, w), w.opponentReachCycle, k, minTurn))
        && PlannedPos(geo, w, u, minTurn, p0) == KickPosAt(DribbleStart(w), DribbleVel(geo, w), c - w.opponentReachCycle)
  {
    if InSlot(w, u) {
      FirstBlockCycleIsEarliest(geo, w.ourPlayer(u).value, DribbleStart(w), DribbleVel(geo, w),
                                w.opponentReachCycle, w.opponentReachCycle + 1, minTurn);
    }
  }

  /**
   * u is the lowest index of [lo, hi) at which t takes its minimum over
   * [lo, hi).
   */
  predicate IsLowestMin(t: seq<int>, lo: int, hi: int, u: int)
    requires 0 <= lo && hi <= |t|
  {
    && lo <= u < hi
    && (forall v :: lo <= v < hi ==> t[u] <= t[v])
    && (forall v :: lo <= v < u ==> t[u] < t[v])
  }

  /** The lowest index of a minimum is unique. */
  lemma LowestMinUnique(t: seq<int>, lo: int, hi: int, u: int, u': int)
    requires 0 <= lo && hi <= |t|
    requires IsLowestMin(t, lo, hi, u) && IsLowestMin(t, lo, hi, u')
    ensures u == u'
  {
    assert t[u] <= t[u'] && t[u'] <= t[u];
  }

  /** Some field player (unum 2..11) has a cycle below the sentinel. */
  predicate SomeoneCanBlock(t: seq<int>)
    requires |t| == Slots
  {
    exists u :: FirstFieldPlayer <= u <= LastUnum && t[u] < IntMax
  }

  /** The lowest index of the minimum of t over [lo, Slots). */
  function ArgMin(t: seq<int>, lo: int): (r: int)
    requires |t| == Slots && 0 <= lo < Slots
    ensures IsLowestMin(t, lo, Slots, r)
    decreases Slots - lo
  {
    if lo == Slots - 1 then lo
    else
      var m := ArgMin(t, lo + 1);
      if t[lo] <= t[m] then lo else m
  }

  /**
   * The blocker `updateBlockerUnum` chooses from the cycle table t when the
   * previous choice was prev: the lowest field-player unum with the least
   * cycle, provided that cycle is below the sentinel; otherwise prev stays.
   */
  function Blocker(t: seq<int>, prev: int): (r: int)
    requires |t| == Slots
    ensures SomeoneCanBlock(t) ==>
      && FirstFieldPlayer <= r <= LastUnum
      && t[r] < IntMax
      && IsLowestMin(t, FirstFieldPlayer, Slots, r)
    ensures !SomeoneCanBlock(t) ==> r == prev
  {
    var m := ArgMin(t, FirstFieldPlayer);
    if t[m] < IntMax then m else prev
  }

  /** The choice depends on unums 2..11 only: the goalie's entry and slot 0 play no part. */
  lemma BlockerIgnoresGoalie(t: seq<int>, t': seq<int>, prev: int)
    requires |t| == Slots && |t'| == Slots
    requires forall u :: FirstFieldPlayer <= u <= LastUnum ==> t[u] == t'[u]
    ensures Blocker(t, prev) == Blocker(t', prev)
  {
    var m, m' := ArgMin(t, FirstFieldPlayer), ArgMin(t', FirstFieldPlayer);
    assert IsLowestMin(t, FirstFieldPlayer, Slots, m');
    LowestMinUnique(t, FirstFieldPlayer, Slots, m, m');
  }

  /** The blocker `Bhv_Block::execute` settles on for a snapshot, given the previous choice. */
  ghost function PlannedBlocker(geo: Geometry, w: World, minTurn: real, prev: int): int
    requires TeamTurnBounded(w, minTurn)
  {
    Blocker(PlannedTable(geo, w, minTurn), prev)
  }

  /**
   * The state of one `Bhv_Block` object: the cycle and position tables,
   * indexed by unum, and the chosen blocker.
   */
  class Block {
    var blockCycle: array<int>
    var blockPos: array<Vec>
    var blockerUnum: int

    ghost predicate Valid()
      reads this
    {
      blockCycle.Length == Slots && blockPos.Length == Slots
    }

    /**
     * A fresh object. The class declaration is not part of this model, so
     * the initial blocker and the initial positions are parameters.
     */
    constructor (initialBlocker: int, initialPos: Vec)
      ensures Valid() && fresh(blockCycle) && fresh(blockPos)
      ensures blockerUnum == initialBlocker
      ensures forall u :: 0 <= u < Slots ==> blockCycle[u] == IntMax && blockPos[u] == initialPos
    {
      blockCycle := new int[Slots](_ => IntMax);
      blockPos := new Vec[Slots](_ => initialPos);
      blockerUnum := initialBlocker;
    }

    /**
     * `getBlockCycle`: the cycles tm needs to control dribblePos, with the
     * turn loop run until the heading is within TurnTolerance.
     */
    static method GetBlockCycle(geo: Geometry, tm: Teammate, dribblePos: Vec, cycle: int, ghost minTurn: real)
      returns (reach: int)
      requires TurnRateBounded(tm.ptype, minTurn, tm.speed)
      ensures reach == BlockReach(geo, tm, dribblePos, cycle, minTurn)
    {
      var tmPos := tm.inertiaPoint(cycle);
      var kickableArea := tm.ptype.kickableArea;
      if geo.dist(tm.pos, dribblePos) < kickableArea {
        return 0;
      }
      if geo.dist(tmPos, dribblePos) < kickableArea {
        return 0;
      }
      var dist := geo.dist(tmPos, dribblePos) - kickableArea;
      var dashCycle := tm.ptype.cyclesToReachDistance(dist);
      var turnCycle := 0;
      var diffAngle := geo.headingDiff(Sub(dribblePos, tmPos), tm.body);
      var speed := tm.speed;
      while diffAngle > TurnTolerance
        invariant TurnRateBounded(tm.ptype, minTurn, speed)
        invariant turnCycle + TurnCycles(tm.ptype, diffAngle, speed, minTurn)
               == TurnCycles(tm.ptype, geo.headingDiff(Sub(dribblePos, tmPos), tm.body), tm.speed, minTurn)
        invariant TurnResidual(tm.ptype, diffAngle, speed, minTurn)
               == TurnResidual(tm.ptype, geo.headingDiff(Sub(dribblePos, tmPos), tm.body), tm.speed, minTurn)
        decreases TurnMeasure(diffAngle, minTurn)
      {
        TurnMeasureDecreases(diffAngle, tm.ptype.effectiveTurn(speed), minTurn);
        TurnCyclesStep(tm.ptype, diffAngle, speed, minTurn);
        TurnResidualStep(tm.ptype, diffAngle, speed, minTurn);
        diffAngle := diffAngle - tm.ptype.effectiveTurn(speed);
        speed := Decayed(tm.ptype, speed);
        turnCycle := turnCycle + 1;
      }
      // The loop stops at the angle TurnResidual describes, which
      // TurnResidualWithinTolerance bounds.
      assert diffAngle == TurnResidual(tm.ptype, geo.headingDiff(Sub(dribblePos, tmPos), tm.body), tm.speed, minTurn);
      reach := dashCycle + turnCycle;
    }

    /**
     * `updateBlockCycle`: for unums 1..11, the first cycle of the horizon at
     * which the teammate can block, and the dribble position of that cycle;
     * the sentinel, and an untouched position, for an empty or mismatched
     * slot and for a teammate that cannot block in time. Slot 0 is untouched.
     */
    method UpdateBlockCycle(geo: Geometry, w: World, ghost minTurn: real)
      requires Valid() && TeamTurnBounded(w, minTurn) && CycleInRange(w)
      modifies blockCycle, blockPos
      ensures forall u :: GoalieUnum <= u <= LastUnum ==> blockCycle[u] == PlannedCycle(geo, w, u, minTurn)
      ensures forall u :: GoalieUnum <= u <= LastUnum ==>
        blockPos[u] == PlannedPos(geo, w, u, minTurn, old(blockPos[u]))
      ensures blockCycle[0] == old(blockCycle[0]) && blockPos[0] == old(blockPos[0])
    {
      var oppMin := w.opponentReachCycle;
      var startDribble := w.ballInertiaPoint(oppMin);
      var dribbleVel := geo.polar(DribbleSpeed, Sub(w.ourTeamGoalPos, startDribble));
      for unum := GoalieUnum to Slots
        invariant forall u :: GoalieUnum <= u < unum ==> blockCycle[u] == PlannedCycle(geo, w, u, minTurn)
        invariant forall u :: GoalieUnum <= u < unum ==>
          blockPos[u] == PlannedPos(geo, w, u, minTurn, old(blockPos[u]))
        invariant forall u :: (u == 0 || unum <= u < Slots) ==>
          blockCycle[u] == old(blockCycle[u]) && blockPos[u] == old(blockPos[u])
      {
        UpdateSlot(geo, w, unum, startDribble, dribbleVel, minTurn);
      }
    }

    /**
     * One pass of `updateBlockCycle`'s loop over unums: reset the slot to the
     * sentinel, skip an empty or mismatched slot, else record the first
     * feasible cycle of the horizon and its dribble position.
     */
    method UpdateSlot(geo: Geometry, w: World, unum: int, startDribble: Vec, dribbleVel: Vec, ghost minTurn: real)
      requires Valid() && TeamTurnBounded(w, minTurn) && CycleInRange(w)
      requires GoalieUnum <= unum <= LastUnum
      requires startDribble == DribbleStart(w) && dribbleVel == DribbleVel(geo, w)
      modifies blockCycle, blockPos
      ensures blockCycle[unum] == PlannedCycle(geo, w, unum, minTurn)
      ensures blockPos[unum] == PlannedPos(geo, w, unum, minTurn, old(blockPos[unum]))
      ensures forall u :: 0 <= u < Slots && u != unum ==>
        blockCycle[u] == old(blockCycle[u]) && blockPos[u] == old(blockPos[u])
    {
      blockCycle[unum] := IntMax;
      var player := w.ourPlayer(unum);
      if player.None? || player.value.unum != unum {
        return;
      }
      var cycle, kickPos := ScanDribble(geo, player.value, startDribble, dribbleVel, w.opponentReachCycle, minTurn);
      PlannedOfScan(geo, w, unum, minTurn, cycle, kickPos, blockPos[unum]);
      if cycle != IntMax {
        blockCycle[unum] := cycle;
        blockPos[unum] := kickPos;
      }
    }

    /**
     * The inner loop of `updateBlockCycle` for one teammate: advance the kick
     * position one dribble step per cycle from oppMin + 1 and stop at the
     * first cycle whose reach estimate is within that cycle; the sentinel if
     * the horizon ends first.
     */
    static method ScanDribble(geo: Geometry, tm: Teammate, startDribble: Vec, dribbleVel: Vec, oppMin: int, ghost minTurn: real)
      returns (found: int, kickPos: Vec)
      requires TurnRateBounded(tm.ptype, minTurn, tm.speed)
      ensures found == FirstBlockCycle(geo, tm, startDribble, dribbleVel, oppMin, oppMin + 1, minTurn)
      ensures found != IntMax ==> kickPos == KickPosAt(startDribble, dribbleVel, found - oppMin)
    {
      kickPos := startDribble;
      var cycle := oppMin + 1;
      while cycle < oppMin + Horizon
        invariant oppMin + 1 <= cycle <= oppMin + Horizon
        invariant kickPos == KickPosAt(startDribble, dribbleVel, cycle - 1 - oppMin)
        invariant forall k :: oppMin + 1 <= k < cycle ==> !CanBlockAt(geo, tm, startDribble, dribbleVel, oppMin, k, minTurn)
      {
        KickPosStep(startDribble, dribbleVel, cycle - 1 - oppMin);
        kickPos := Add(kickPos, dribbleVel);
        var reachCycle := GetBlockCycle(geo, tm, kickPos, cycle, minTurn);
        if reachCycle <= cycle {
          FirstBlockCycleOfScan(geo, tm, startDribble, dribbleVel, oppMin, oppMin + 1, cycle, minTurn);
          return cycle, kickPos;
        }
        cycle := cycle + 1;
      }
      FirstBlockCycleOfScan(geo, tm, startDribble, dribbleVel, oppMin, oppMin + 1, cycle, minTurn);
      found := IntMax;
    }

    /**
     * `updateBlockerUnum`: scan unums 2..11 keeping the strictly smallest
     * cycle seen so far, starting from the sentinel.
     */
    method UpdateBlockerUnum()
      requires Valid()
      modifies this`blockerUnum
      ensures blockerUnum == Blocker(blockCycle[..], old(blockerUnum))
    {
      var blockC := IntMax;
      for unum := FirstFieldPlayer to Slots
        invariant blockC <= IntMax
        invariant blockC == IntMax ==>
          blockerUnum == old(blockerUnum) && forall v :: FirstFieldPlayer <= v < unum ==> blockCycle[v] >= IntMax
        invariant blockC < IntMax ==>
          IsLowestMin(blockCycle[..], FirstFieldPlayer, unum, blockerUnum) && blockC == blockCycle[blockerUnum]
      {
        if blockCycle[unum] < blockC {
          blockC := blockCycle[unum];
          blockerUnum := unum;
        }
      }
      var m := ArgMin(blockCycle[..], FirstFieldPlayer);
      if blockC < IntMax {
        LowestMinUnique(blockCycle[..], FirstFieldPlayer, Slots, m, blockerUnum);
      }
    }

    /**
     * `Bhv_Block::execute`: recompute the tables and the blocker; the agent
     * acts (and gets its recorded block position as target) exactly when it
     * is the blocker.
     */
    method Execute(geo: Geometry, w: World, ghost minTurn: real) returns (target: Option<Vec>)
      requires Valid() && TeamTurnBounded(w, minTurn) && CycleInRange(w)
      requires GoalieUnum <= w.selfUnum <= LastUnum
      modifies blockCycle, blockPos, this`blockerUnum
      ensures forall u :: GoalieUnum <= u <= LastUnum ==> blockCycle[u] == PlannedCycle(geo, w, u, minTurn)
      ensures forall u :: GoalieUnum <= u <= LastUnum ==>
        blockPos[u] == PlannedPos(geo, w, u, minTurn, old(blockPos[u]))
      ensures blockerUnum == PlannedBlocker(geo, w, minTurn, old(blockerUnum))
      ensures target.Some? <==> blockerUnum == w.selfUnum
      ensures target.Some? ==> target.value == PlannedPos(geo, w, w.selfUnum, minTurn, old(blockPos[w.selfUnum]))
    {
      UpdateBlockCycle(geo, w, minTurn);
      UpdateBlockerUnum();
      BlockerIgnoresGoalie(blockCycle[..], PlannedTable(geo, w, minTurn), old(blockerUnum));
      if blockerUnum == w.selfUnum {
        target := Some(blockPos[w.selfUnum]);
      } else {
        target := None;
      }
    }
  }
}
