# Dribble blocking in `Bhv_BasicMove`

This project models the blocking logic of a RoboCup 2D soccer agent. It covers
`Bhv_Block` in `src/bhv_basic_move.cpp` and the part of
`Bhv_BasicMove::execute` that decides when blocking is tried.

The opponent that reaches the ball first (after `oppMin` cycles) is assumed to
dribble towards our goal at 0.8 per cycle. For every teammate (unums 1..11),
`updateBlockCycle` samples that dribble path at cycles `oppMin + 1` up to
`oppMin + 29`. It records the first cycle at which the teammate's reach estimate
(`getBlockCycle`) is within that cycle, together with the dribble position of
that cycle. `updateBlockerUnum` then picks the field player (unums 2..11) with
the earliest such cycle, lowest unum on ties. `Bhv_Block::execute` moves the
agent to its recorded position when it is the one picked.
`Bhv_BasicMove::execute` tries, in order:

- a tackle;
- chasing the ball;
- blocking, when an opponent is first to the ball;
- a move to the formation position, with an arrival threshold of
  `max(0.1 * ballDist, 1.0)`.

Modules:

- `Vectors` (`vectors.dfy`): plane vectors, and the geometric queries (distance,
  heading difference, polar construction) as supplied functions, gathered in a
  `Geometry` value that every operation takes as a separate parameter `geo`.
- `WorldModel` (`world_model.dfy`): the per-cycle snapshot and the player-type
  physics (kickable area, speed decay, dash cycles for a distance, effective
  turn), again as supplied functions. It also holds the turn-rate assumption
  `TurnRateBounded(pt, minTurn, speed)`: the decay factor lies in [0, 1], and at
  every speed in [0, speed] (the only speeds the turn loop reaches) one turn
  command turns by at least some `minTurn > 0`.
- `Reach` (`reach.dfy`): the reach estimate as specification functions
  (`BlockReach`, `TurnCycles`, `TurnResidual`) and what is proved about them.
- `BhvBlock` (`bhv_block.dfy`): the cycle scan and its specification
  (`FirstBlockCycle`, `PlannedCycle`, `PlannedPos`), the argmin (`ArgMin`,
  `Blocker`), and the class `Block`. `Block` holds the tables `blockCycle`,
  `blockPos` and the field `blockerUnum`, and its methods update them in place.
- `BhvBasicMove` (`bhv_basic_move.dfy`): the chase and block guards, the
  threshold clamp, and `Execute`, which returns the action chosen.

Two behaviours of the code worth noting:

- The scan bound is `cycle < oppMin + 30`, so 29 cycles are sampled
  (`Horizon` is 30 and is used as an exclusive bound).
- When no field player can block, `blockerUnum` keeps its previous value
  (`Blocker(t, prev) == prev`), so there is no separate "no assignment" result.

## Model

| member | source | states |
|---|---|---|
| `BhvBlock.Block.GetBlockCycle` | src/bhv_basic_move.cpp:198-221 | the returned estimate equals `BlockReach`: 0 when the teammate's position or its inertia point at `cycle` is strictly inside its kickable area, else dash cycles plus the passes of the turn loop (the loop's invariants tie the running count to `TurnCycles` and the final angle to `TurnResidual`, and its termination rests on `minTurn`) |
| `Reach.TurnMeasure` | src/bhv_basic_move.cpp:215 | the termination measure of the turn loop is non-negative and is zero exactly when the angle is within 15 degrees |
| `Reach.TurnMeasureDecreases` | src/bhv_basic_move.cpp:215-217 | one turn of at least `minTurn` strictly lowers the measure, so the turn loop terminates |
| `Reach.TurnCyclesZeroIff` | src/bhv_basic_move.cpp:211-220 | the turn count is 0 exactly when the initial heading difference is at most 15 degrees |
| `Reach.TurnCyclesBound` | src/bhv_basic_move.cpp:215-220 | the turn count is at most `floor((d - 15) / minTurn) + 1`; for a difference of at most 180 degrees it is at most the bound for 180 |
| `Reach.TurnResidualWithinTolerance` | src/bhv_basic_move.cpp:215-220 | when the turn loop stops the heading difference is at most 15 degrees and no larger than at the start; unchanged if it was already within 15 |
| `Reach.BlockReachZeroInControl` | src/bhv_basic_move.cpp:200-205 | a teammate whose current or forecast position is strictly within its kickable area of the point gets estimate 0 |
| `Reach.BlockReachOutOfControl` | src/bhv_basic_move.cpp:209-221 | otherwise the distance beyond the kickable area is non-negative, the estimate is at least the dash cycles, and it equals them exactly when the heading is within 15 degrees |
| `Reach.BlockReachNonNegative` | src/bhv_basic_move.cpp:202-221 | with a non-negative dash-cycle table the estimate is never negative |
| `BhvBlock.KickPosStep` | src/bhv_basic_move.cpp:184 | adding the dribble velocity to the k-th sampled kick position gives the (k+1)-th, so the running sum equals `start + k * vel` |
| `BhvBlock.FirstBlockCycleIsEarliest` | src/bhv_basic_move.cpp:182-193 | the scan result is the sentinel or a sampled cycle at which the teammate can block, and it can block at no earlier sampled cycle |
| `BhvBlock.FirstBlockCycleOfScan` | src/bhv_basic_move.cpp:182-193 | conversely, a scan that finds nothing before r and stops at r (a hit, or the end of the horizon) yields r, or the sentinel at the end of the horizon |
| `BhvBlock.PlannedSlot` | src/bhv_basic_move.cpp:174-195 | for each unum 1..11: an empty or mismatched slot gets `INT_MAX` and keeps its position; a recorded cycle lies in `oppMin+1 .. oppMin+29`, is feasible, has no feasible earlier cycle, and its position is `start + (cycle - oppMin) * vel`; the sentinel for a teammate in its slot means no sampled cycle is feasible |
| `BhvBlock.Block.ScanDribble` | src/bhv_basic_move.cpp:182-194 | the inner loop returns the first feasible sampled cycle (the sentinel if none) and, on a hit, the kick position of that cycle |
| `BhvBlock.Block.UpdateSlot` | src/bhv_basic_move.cpp:176-194 | one pass of the outer loop sets slot `unum` to its planned cycle and position and changes no other slot |
| `BhvBlock.Block.UpdateBlockCycle` | src/bhv_basic_move.cpp:166-196 | after the call every slot 1..11 holds its planned cycle and position (the old position where nothing is written); slot 0 is untouched |
| `BhvBlock.ArgMin` | src/bhv_basic_move.cpp:156-163 | the result is the lowest index of the minimum of the table over `[lo, 12)` |
| `BhvBlock.LowestMinUnique` | src/bhv_basic_move.cpp:158 | the lowest index of a minimum is unique, which is why the strict `<` fixes the choice |
| `BhvBlock.Blocker` | src/bhv_basic_move.cpp:156-163 | if some unum 2..11 has a cycle below `INT_MAX`, the choice is the lowest unum in 2..11 with the least cycle (never the goalie); otherwise it is the previous blocker |
| `BhvBlock.BlockerIgnoresGoalie` | src/bhv_basic_move.cpp:157 | the choice depends only on the entries of unums 2..11 |
| `BhvBlock.Block.UpdateBlockerUnum` | src/bhv_basic_move.cpp:154-164 | the loop with its running minimum `blockC` sets `blockerUnum` to `Blocker` of the cycle table and the old blocker, and changes nothing else |
| `BhvBlock.Block.constructor` | src/bhv_basic_move.cpp:96 | a fresh `Bhv_Block` has 12-slot tables, all cycles at the sentinel |
| `BhvBlock.Block.Execute` | src/bhv_basic_move.cpp:134-152 | leaves every slot 1..11 at its planned cycle and position (the old position where nothing is written) and the blocker at `PlannedBlocker` of those cycles and the old blocker; yields a target exactly when the agent is the blocker, and the target is its planned position |
| `BhvBasicMove.DistThr` | src/bhv_basic_move.cpp:103-104 | the threshold is the larger of `0.1 * ballDist` and 1.0: at least both of them, and equal to one of them |
| `BhvBasicMove.DistThrFollowsBall` | src/bhv_basic_move.cpp:103-104 | the threshold is 1.0 exactly when the ball is at most 10 away, and `0.1 * ballDist` from 10 on |
| `BhvBasicMove.ChaseWhenClose` | src/bhv_basic_move.cpp:79-84 | an agent that reaches the ball within 3 cycles chases it exactly when no teammate has it |
| `BhvBasicMove.BlockGuard` | src/bhv_basic_move.cpp:79-98 | when blocking is tried the opponent is no later than the agent and its teammates; and with no kickable teammate the agent needs more than 3 cycles and is behind a teammate or at least 3 cycles behind the opponent |
| `BhvBasicMove.Execute` | src/bhv_basic_move.cpp:60-132 | tackle exactly when the tackle succeeded; intercept exactly when it did not and the chase guard holds; block exactly when neither happened, an opponent is first and the planned blocker (starting from the fresh object's blocker) is the agent, with its planned position, threshold 0.1 and dash power 100; otherwise the formation move with threshold `DistThr(ballDist)` |

## Left out

- Logging and debug output (`dlog`, `debugClient`, the `std::cout` line of `Bhv_Block::execute`) have no effect on the decision and are not modelled.
- Motor and neck commands (`Body_Intercept`, `Body_GoToPoint`, `Body_GoToPoint2010`, `Body_TurnToPoint`, `Body_TurnToBall`, the `Neck_*` actions) are simulator commands. Only which branch issues them is modelled, as the returned `Action`. Their fallbacks are left out: the turn when the go-to-point does not move, and the neck choice depending on a kickable opponent within 18.
- The tackle behaviour `Bhv_BasicTackle(0.8, 80.0)` is not part of this model. Its outcome is the parameter `tackled`.
- The formation target and dash power (`Strategy::getPosition`, `get_normal_dash_power`) come from an external configuration, so `Formation` carries only the threshold.
- The world-model queries (intercept table, `ourPlayer`, inertia points, our goal position) are fields of the snapshot `World`. The geometry (distance, `th()`, `AngleDeg` normalisation and `.abs()`, `polar2vector`) and the player-type physics (`cyclesToReachDistance`, `effectiveTurn` at the server's maximum moment, `playerDecay`, `kickableArea`) are supplied functions. Their internals are not part of this model.
- Floating point: all quantities are exact reals, and IEEE rounding is not modelled.
- The unreachable `FieldAnalyzer::predict_player_reach_cycle` call after the `return` in `getBlockCycle` is dead code and is not modelled.
- Termination of the turn loop is proved under `TurnRateBounded`: a decay factor in [0, 1] and an effective turn of at least `minTurn > 0` at every speed from 0 up to the teammate's speed, the only speeds the loop reads. The source states no such bound. A turn rate that is positive and falls as speed grows, as one of the shape `maxMoment / (1 + inertia * speed)` does, meets it with `minTurn` its value at the teammate's speed. A rate that is 0 or negative at some reachable speed can keep the loop from stopping, and that case is not modelled.
- `BhvBlock.Block.GetBlockCycle`: `dashCycle + turnCycle` is an unbounded sum in the model, so the C++ `int` overflow of that sum is not modelled.
- `BhvBlock.Block.UpdateBlockCycle`: it requires `oppMin <= INT_MAX - 30`. In the source, a larger `oppMin` overflows the loop bound `oppMin + 30`.
- `BhvBasicMove.Execute`: it asks for that range and for a turn-rate bound on every path, although the source only reaches them on the block path.
- The `break` of the inner loop of `updateBlockCycle` is modelled as a return from `ScanDribble`, whose result `UpdateSlot` then writes to the tables. The writes happen once, at the same point of the pass.
- The declaration of `Bhv_Block` (the header) is not part of this model. The initial `blockerUnum` and initial `blockPos` entries are parameters of the constructor, so the stale-blocker case returns whatever that declaration provides. The constructor also sets every initial cycle to `INT_MAX`, which the declaration may not do. That choice is harmless: `updateBlockCycle` overwrites the cycles of slots 1..11 before anything reads them, and slot 0 is never read. `Block.Execute` states its result through `PlannedCycle` and `PlannedBlocker` alone, which do not depend on the initial cycles.
- Two properties are not proved: that the estimate is monotone in distance, and that the candidate points are evenly spaced beyond what `KickPosStep` states. The dash-cycle table is a supplied function with no stated monotonicity.
