/**
 * The per-cycle snapshot of the world that the behaviour reads: the
 * interception table, the ball, the goal and the teammates with their
 * player types. Nothing in the behaviour changes it.
 */
module WorldModel {
  import opened Vectors

  datatype Option<T> = None | Some(value: T)

  /** The largest value of a C++ `int`; the "cannot block" sentinel. */
  const IntMax: int := 2147483647

  /** Teammate slots are unums 1..11; the tables are indexed 0..11. */
  const Slots: int := 12
  const GoalieUnum: int := 1
  const LastUnum: int := 11

  /**
   * The player-type physics the behaviour queries:
   *  - kickableArea: the control radius;
   *  - playerDecay: the per-cycle speed decay factor;
   *  - cyclesToReachDistance: dash cycles needed to cover a distance;
   *  - effectiveTurn: the turn (degrees) one turn command at the server's
   *    maximum moment achieves at a given speed.
   */
  datatype PlayerType = PlayerType(
    kickableArea: real,
    playerDecay: real,
    cyclesToReachDistance: real -> int,
    effectiveTurn: real -> real)

  /**
   * The speed one cycle later: `speed * playerDecay`. With a decay factor
   * in [0, 1] a non-negative speed never grows.
   */
  function Decayed(pt: PlayerType, speed: real): (r: real)
    ensures 0.0 <= speed && 0.0 <= pt.playerDecay <= 1.0 ==> 0.0 <= r <= speed
  {
    speed * pt.playerDecay
  }

  /**
   * A teammate as the world model sees it. `speed` is the length of its
   * velocity, `body` its body direction in degrees, and `inertiaPoint(n)`
   * where it comes to be after n cycles without new commands.
   */
  datatype Teammate = Teammate(
    unum: int,
    pos: Vec,
    speed: real,
    body: real,
    inertiaPoint: int -> Vec,
    ptype: PlayerType)

  /**
   * The snapshot: reach cycles from the interception table, the ball, our
   * goal, and `ourPlayer(unum)`, which is None where the world model has no
   * such teammate (a null pointer in the source).
   */
  datatype World = World(
    selfUnum: int,
    selfReachCycle: int,
    teammateReachCycle: int,
    opponentReachCycle: int,
    existKickableTeammate: bool,
    ballDistFromSelf: real,
    ballInertiaPoint: int -> Vec,
    ourTeamGoalPos: Vec,
    ourPlayer: int -> Option<Teammate>)

  /**
   * What the turn loop needs of a player type to stop, for a start speed
   * `speed`: the decay factor lies in [0, 1], so the loop only ever asks for
   * the effective turn at speeds in [0, speed], and there one turn command
   * turns by at least minTurn > 0.
   */
  ghost predicate TurnRateBounded(pt: PlayerType, minTurn: real, speed: real) {
    && 0.0 < minTurn
    && 0.0 <= pt.playerDecay <= 1.0
    && 0.0 <= speed
    && forall s: real :: 0.0 <= s <= speed ==> minTurn <= pt.effectiveTurn(s)
  }

  /** Every teammate the world model reports has a turn rate bounded by minTurn up to its own speed. */
  ghost predicate TeamTurnBounded(w: World, minTurn: real) {
    forall u :: GoalieUnum <= u <= LastUnum && w.ourPlayer(u).Some? ==>
      TurnRateBounded(w.ourPlayer(u).value.ptype, minTurn, w.ourPlayer(u).value.speed)
  }

  /** Slot u holds a teammate that carries unum u. */
  predicate InSlot(w: World, u: int) {
    w.ourPlayer(u).Some? && w.ourPlayer(u).value.unum == u
  }
}
