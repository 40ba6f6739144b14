# Traffic grid simulator core, in Dafny

This project models the discrete core of the `gym_traffic` traffic simulator
(`gym_traffic/envs/traffic_env.py`) and proves properties of that model. The core has three
parts.

- **The road graph `GridRoad`** (`grid.dfy`, module `Grid`). It is an m-by-n grid of
  intersections with no turns.
  - There are `v = m*n` intersections and `4v` train roads in four direction blocks.
  - There are also `2n+2m` border roads, through which cars leave the grid.
  - It provides `next`, the destination intersection of each road, the phase tag of each road,
    and the entrypoints chosen by a four-bit side mask.
- **The per-road ring buffer** (`ring.dfy`, module `Ring`). Every road has `CAPACITY = 20`
  slots.
  - The cursors `leading` and `lastcar` move with `wrap`, so they stay in slots 1..19.
  - Slot 0 is scratch space for the physics pass.
  - The slot at `leading` holds the sentinel. The cars sit in the slots circularly after it,
    up to `lastcar`.
  - `QueueOf` reads a road's slots as the queue of its cars, front first. Every buffer
    operation is stated against this view.
- **Cars as queues** (`transfer.dfy`, module `Transfer`). This module gives the queue-level
  meaning of the operations that move cars:
  - `Enqueue` is `add_car` on a queue.
  - `CarsFor`/`EnqueueAll` describe the arrivals of a tick.
  - `Pass`, `Shift`, `Leave`, `Drain` and `CrossFrom`/`Cross` describe `advance_finished_cars`
    over a table `next` of successor roads.
  - A `Flow` value holds every road's queue and how many cars have left each road.
  - The lemmas characterise these functions: what enters, what leaves, what stays in order.
- **The tick pipeline** (`env.dfy`, module `Traffic`). The class `TrafficEnv` owns a
  `roads x CAPACITY` array of car slots, the `leading`/`lastcar` cursor arrays and the
  per-intersection `counts` array. Its methods mirror the source's functions:
  - `UpdateLights` (signal sentinels);
  - `AddCar` and `AddNewCars` (arrivals);
  - `SimSlice`, `SimRoad` and `MoveCars` (the physics pass of `_step`, including the wrap into
    slot 0);
  - `AdvanceFinishedCars` (cars crossing intersections, with the throughput counters);
  - `Step` (`_step`) and `Reset` (`_reset`).

  Each method states its effect on the roads' queues through the `Transfer` functions. The
  cars handed across intersections are threaded through `advance_finished_cars` as a ghost
  `Flow`, so its result is stated as `Cross` of the queues it started from. The graph
  carries `next` tabulated as a ghost sequence `nexts` for this purpose.

Car records and positions are in `cars.dfy` (module `Cars`). Positions have an explicit `Inf`
case for the sentinel's `np.inf`. The car-following update is in `physics.dfy` (module
`Physics`). Its acceleration term is a parameter. The displacement, the velocity update and
their two clamps are modelled exactly. The `int8` cast that `_step` applies to the action is
modelled by `Int8`.

Points about the source's behaviour that are easy to misread:

- **Counters.** `advance_finished_cars` increments a counter only inside `if newrd >= 0`, so
  departures from border roads are never counted. The model proves that the index `dest[e]` is
  always an intersection there.
- **Lights.** `update_lights` takes the position of the next road's *last* car (its `lastcar`
  slot), not of its leading car.
- **Entrypoints.** They are train roads (indices below `4v`) on the grid's outer rows and
  columns, not border roads.
- **Reset.** `_reset` does not clear `counts`. They are cleared at the start of every
  `advance_finished_cars`.

## Model

| member | source | states |
|---|---|---|
| Ring.Wrap | gym_traffic/envs/traffic_env.py:133-134 | any index in [1, CAPACITY] wraps into the cursor range 1..CAPACITY-1 (slot 0 is never addressed) |
| Ring.Advance | gym_traffic/envs/traffic_env.py:178-184 | a cursor moved any number of `wrap(a+1)` steps stays in 1..CAPACITY-1 |
| Ring.AdvanceShort | gym_traffic/envs/traffic_env.py:133-134 | within one lap, k steps of `wrap(a+1)` are a+k, folded back by the ring length 19 |
| Ring.AdvanceMod | gym_traffic/envs/traffic_env.py:133-134 | k steps of `wrap(a+1)` land on (a-1+k) mod 19 + 1 |
| Ring.AdvanceSucc | gym_traffic/envs/traffic_env.py:178-184 | k+1 steps are k steps followed by one more `wrap(a+1)` |
| Ring.Occupancy | gym_traffic/envs/traffic_env.py:186-190 | the count lies in [0, CAPACITY-2] and is 0 exactly when leading == lastcar |
| Ring.OccupancyIsDistance | gym_traffic/envs/traffic_env.py:186-190 | the count is (lastcar-leading) mod 19, and it is the least number of cursor steps from leading to lastcar |
| Ring.HoldsCarIsQueued | gym_traffic/envs/traffic_env.py:206-216 | a slot lies circularly in (leading, lastcar] iff it is reached from leading in 1..occupancy steps |
| Ring.FullIff | gym_traffic/envs/traffic_env.py:160-171 | `add_car` finds `pos == leading` exactly when the road already holds CAPACITY-2 cars |
| Ring.QueueOf | gym_traffic/envs/traffic_env.py:186-190 | the queue read from the slots has as many cars as `cars_on_roads` counts |
| Ring.Push | gym_traffic/envs/traffic_env.py:160-171 | writing the slot after lastcar and moving lastcar there appends exactly that car to the queue; the count rises by one |
| Ring.Relight | gym_traffic/envs/traffic_env.py:147-158 | rewriting the sentinel slot (at `leading`) leaves the queue unchanged |
| Ring.Pop | gym_traffic/envs/traffic_env.py:177-184 | copying the sentinel into the front car's slot and moving leading there removes exactly the front car; the count falls by one |
| Cars.Plus | gym_traffic/envs/traffic_env.py:154-155 | adding a non-negative length never moves a position back; infinity stays infinity |
| Cars.BehindTail | gym_traffic/envs/traffic_env.py:164-166 | `x - len - s0` of the last car: not ahead of it when length plus gap is non-negative; infinite exactly when its position is |
| Cars.EntryPosition | gym_traffic/envs/traffic_env.py:162-169 | `min(0, start_pos)`: at most 0, at most the start position, and equal to one of them |
| Physics.SimCar | gym_traffic/envs/traffic_env.py:136-145 | after `sim` the velocity is non-negative, the position has not decreased, and only position and velocity changed |
| Physics.SimQueue | gym_traffic/envs/traffic_env.py:206-216 | the physics pass of a road maps its queue to a queue of the same length |
| Physics.SimQueueClamps | gym_traffic/envs/traffic_env.py:144-145 | after the pass every car's velocity is non-negative and no car moved back |
| Physics.SimSlots | gym_traffic/envs/traffic_env.py:208-216 | one `sim` call on two overlapping slices leaves the row length unchanged |
| Physics.SimRow | gym_traffic/envs/traffic_env.py:206-216 | the one-or-two-slice physics step of a road keeps all CAPACITY slots |
| Physics.SimRowSlot | gym_traffic/envs/traffic_env.py:206-216 | slot by slot: a slot holding a car becomes `sim` of it against the old content of the slot before it circularly (slot 19 for slot 1); every other ring slot keeps its content |
| Physics.SimRowIsSimQueue | gym_traffic/envs/traffic_env.py:206-216 | in both the plain and the wrapped case, every car is updated exactly once with its circular predecessor (the sentinel for the front car) as leader; other slots are untouched, and slot 0 holds slot 19's copy in the wrapped case |
| Physics.SimRowSlots | gym_traffic/envs/traffic_env.py:206-216 | slot by slot over the whole ring: a slot holding a car becomes `sim` of it against its circular predecessor's old content; other ring slots keep theirs |
| Physics.SimRowQueue | gym_traffic/envs/traffic_env.py:206-216 | any row that updates each car slot that way carries the queue to SimQueue of the old queue under the old sentinel |
| Grid.Join | gym_traffic/envs/traffic_env.py:104-109 | road b*v+row*n+col is a train road of block b, row `row` and column `col` |
| Grid.Split | gym_traffic/envs/traffic_env.py:104-109 | every train road decomposes into block, row and column in range |
| Grid.NextAt | gym_traffic/envs/traffic_env.py:103-113 | `next` of the road at block, row and column, case by case |
| Grid.Next | gym_traffic/envs/traffic_env.py:102-113 | for a non-negative road index, `next` is -1 exactly when the road is a border road (index at least 4v) |
| Grid.NextMoves | gym_traffic/envs/traffic_env.py:103-113 | from a train road `next` is another existing road; inside the grid it stays in its block and moves one column or row the block's way; at the far edge it enters a border road |
| Grid.NextAlongRow | gym_traffic/envs/traffic_env.py:110-111 | for an east- or westbound road: `next` is the neighbour one column further in the same row, or a border road at the row's end |
| Grid.NextAlongColumn | gym_traffic/envs/traffic_env.py:112-113 | for a south- or northbound road: `next` is the neighbour one row further in the same column, or a border road at the column's end |
| Grid.RankDecreases | gym_traffic/envs/traffic_env.py:103-113 | each `next` step lowers a road's distance to leaving the grid by one; that distance is at most max(m,n)+1 |
| Grid.WalkTerminates | gym_traffic/envs/traffic_env.py:103-113 | iterating `next` from any road reaches -1 after exactly Rank steps, at most max(m,n)+1 |
| Grid.Entrypoints | gym_traffic/envs/traffic_env.py:87-96 | the number of entrypoints is m per open horizontal side plus n per open vertical side (2m+2n for mask 0) |
| Grid.SideRoadsAre | gym_traffic/envs/traffic_env.py:92-96 | a road is in a side's list iff it is the train road of that block on that side's edge column or row |
| Grid.OnSideListed | gym_traffic/envs/traffic_env.py:92-96 | every train road of a side's block on that side's edge column or row is in the side's list |
| Grid.SideRoadAt | gym_traffic/envs/traffic_env.py:92-96 | every listed road of a side lies on that side |
| Grid.WestEntry | gym_traffic/envs/traffic_env.py:93 | `n*r` is block 0, row r, column 0 |
| Grid.EastEntry | gym_traffic/envs/traffic_env.py:94 | `v+n*(r+1)-1` is block 1, row r, column n-1 |
| Grid.SouthEntry | gym_traffic/envs/traffic_env.py:95 | `2v+c` is block 2, row 0, column c |
| Grid.NorthEntry | gym_traffic/envs/traffic_env.py:96 | `3v+n*(m-1)+c` is block 3, row m-1, column c |
| Grid.EntrypointsAre | gym_traffic/envs/traffic_env.py:87-96 | a road is an entrypoint iff it lies on a side whose mask bit is clear; every entrypoint is a train road |
| Grid.GridRoad.constructor | gym_traffic/envs/traffic_env.py:72-84 | the counts, phase tags (`i // v < 2`) and destinations (`i % v`, or -1 for border roads) are as laid out; every train road's destination is an intersection and its `next` is another existing road |
| Grid.GridRoad.GenerateEntrypoints | gym_traffic/envs/traffic_env.py:87-96 | the entrypoints become `Entrypoints(m, n, choices)`, all of them train roads |
| Transfer.Enqueue | gym_traffic/envs/traffic_env.py:160-171 | on a full queue (CAPACITY-2 cars) the car is dropped; otherwise exactly that car is appended, with only its position changed, at or behind the road start and not ahead of the point behind the last car |
| Transfer.CarsFor | gym_traffic/envs/traffic_env.py:231-235 | the cars drawn for road e (defined in draw order; CarsForStep gives the step): no more than there are draws, and none when no draw names e |
| Transfer.EnqueueAll | gym_traffic/envs/traffic_env.py:231-235 | `add_car` folded over a road's arrivals: the old cars stay in front, and at most one car is added per arrival |
| Transfer.CarsForStep | gym_traffic/envs/traffic_env.py:231-235 | the arrivals up to and including arrival i offer, to each road, the cars offered before plus arrival i's car when it is for that road |
| Transfer.EnqueueAllAppends | gym_traffic/envs/traffic_env.py:231-235 | the arrivals for a road are appended in order behind its old cars until it is full, the rest dropped; each keeps its parameters and enters at or behind the road start |
| Transfer.Pass | gym_traffic/envs/traffic_env.py:179-182 | a departing car is offered to the next road unless the road leaves the network; one more departure is counted; the road's own queue is untouched |
| Transfer.Shift | gym_traffic/envs/traffic_env.py:183-184 | the front car leaves the road's queue, which gets shorter |
| Transfer.Leave | gym_traffic/envs/traffic_env.py:177-184 | one turn of the inner loop: the front car is handed on and leaves; the queue gets shorter |
| Transfer.Drain | gym_traffic/envs/traffic_env.py:177-184 | the inner loop for one road: afterwards its queue is empty or its front car is within the road |
| Transfer.CrossFrom | gym_traffic/envs/traffic_env.py:176-184 | the outer loop from road e on keeps one queue and one count per road |
| Transfer.TraceFrom | gym_traffic/envs/traffic_env.py:176-184 | the flows the outer loop passes through: each is the previous one with one more road drained, from the start to CrossFrom's result |
| Transfer.Start | gym_traffic/envs/traffic_env.py:175 | the queues with every departure count zero |
| Transfer.Cross | gym_traffic/envs/traffic_env.py:173-184 | `advance_finished_cars` on a set of queues keeps one queue and one count per road |
| Transfer.DrainedPop | gym_traffic/envs/traffic_env.py:177-184 | a front car past the road end is the next car of the old queue, and its departure keeps the remaining cars in order |
| Transfer.DrainedPush | gym_traffic/envs/traffic_env.py:160-171 | appending a car inside the road keeps the departure relation, and a settled road stays settled |
| Transfer.LeaveKeeps | gym_traffic/envs/traffic_env.py:177-184 | for a road length of at least zero, a departure keeps every road's departure relation, and other settled roads stay settled, because the car handed on enters at or behind the road start |
| Transfer.DrainKeeps | gym_traffic/envs/traffic_env.py:177-184 | draining one road keeps every road's departure relation and leaves other settled roads settled |
| Transfer.CrossFromKeeps | gym_traffic/envs/traffic_env.py:176-184 | draining the roads from e on keeps every departure relation; afterwards every road is settled |
| Transfer.CrossDrains | gym_traffic/envs/traffic_env.py:173-184 | for a road length of at least zero, `advance_finished_cars` removes from each road exactly its old front cars past the end, keeps the rest in front in order, appends only cars within the road, and leaves no front car past the end |
| Transfer.CrossFromBounded | gym_traffic/envs/traffic_env.py:173-184 | `advance_finished_cars` never lets a road hold more than CAPACITY-2 cars |
| Traffic.Int8 | gym_traffic/envs/traffic_env.py:203 | the `int8` cast: a value in [-128, 128) congruent to the input modulo 256, and the input itself when it is already in range |
| Traffic.Int8s | gym_traffic/envs/traffic_env.py:203 | the action cast entry by entry, same length |
| Traffic.CarsOnRoads | gym_traffic/envs/traffic_env.py:186-190 | one count per road, each in the observation bounds [0, CAPACITY-2] and 0 exactly for an empty road |
| Traffic.Crossings | gym_traffic/envs/traffic_env.py:180-182 | `counts[d]` after the departure loop: non-negative and at least the departures from each of the four train roads ending at d |
| Traffic.CrossingsBump | gym_traffic/envs/traffic_env.py:180-182 | a departure from train road e raises the count of intersection e mod v by one and no other |
| Traffic.CrossingsPrefix | gym_traffic/envs/traffic_env.py:173-184 | the counts of the first k intersections sum to the departures from the first k roads of each block |
| Traffic.CrossingsBlocks | gym_traffic/envs/traffic_env.py:173-184 | all counts together sum to the departures from all train roads |
| Traffic.CrossingsTotal | gym_traffic/envs/traffic_env.py:173-184 | a counter array that holds the crossings sums to the number of cars that left train roads |
| Traffic.TrafficEnv.constructor | gym_traffic/envs/traffic_env.py:288-294 | `set_graph` sizes the slot array and the counters for the graph |
| Traffic.TrafficEnv.Reset | gym_traffic/envs/traffic_env.py:222-229 | every road is empty with both cursors at 1 and the empty sentinel at slot 1; phases and observation are all zero; no other slot changes |
| Traffic.TrafficEnv.Signal | gym_traffic/envs/traffic_env.py:150-158 | for a road whose phase tag differs from its intersection's phase: the next road's tail car position plus the length, or infinity when that road is empty |
| Traffic.TrafficEnv.Lit | gym_traffic/envs/traffic_env.py:149-158 | the sentinel `update_lights` leaves a road: only its position may change; a train road's becomes its Signal position, and a border road's stays as it was |
| Traffic.TrafficEnv.SetLight | gym_traffic/envs/traffic_env.py:149-158 | one turn of the loop: the road's sentinel takes its Signal position; no other slot changes |
| Traffic.TrafficEnv.UpdateLights | gym_traffic/envs/traffic_env.py:147-158 | each train road's sentinel position becomes its Signal, computed from the slots before the call; nothing else changes, and no queue changes |
| Traffic.TrafficEnv.AddCar | gym_traffic/envs/traffic_env.py:160-171 | the road's queue becomes Enqueue of the old queue: on a full road nothing changes; otherwise the car is appended at `min(0, tail.x - tail.len - tail.s0)` (0 for an empty road); only that slot and that road's lastcar change |
| Traffic.TrafficEnv.Arrive | gym_traffic/envs/traffic_env.py:234 | one arrival: its road's queue becomes the next step of the fold of Enqueue; other roads and all sentinels are untouched |
| Traffic.TrafficEnv.AddNewCars | gym_traffic/envs/traffic_env.py:231-235 | every road's queue becomes the fold of Enqueue over the cars that arrived for it, in order; roads without an arrival and all sentinels are untouched |
| Traffic.TrafficEnv.SimSlice | gym_traffic/envs/traffic_env.py:136-145 | the in-place slice update equals the all-reads-first `sim` on the slices (SimSlots) |
| Traffic.TrafficEnv.SimRoad | gym_traffic/envs/traffic_env.py:206-216 | the road's slots become SimRow of the old slots, so its queue becomes SimQueue of the old queue under the old sentinel; sentinel, free slots and other roads unchanged |
| Traffic.TrafficEnv.MoveCars | gym_traffic/envs/traffic_env.py:206-216 | every road's queue becomes SimQueue of its old queue; every sentinel is unchanged |
| Traffic.TrafficEnv.Offer | gym_traffic/envs/traffic_env.py:181 | `add_car` on road `road`: its queue becomes Enqueue of the old queue, every other queue and every sentinel is unchanged |
| Traffic.TrafficEnv.Tally | gym_traffic/envs/traffic_env.py:182 | one more departure from train road e is counted at its intersection |
| Traffic.TrafficEnv.Hand | gym_traffic/envs/traffic_env.py:179-182 | the departing car is handed on as Pass says: the next road's queue becomes Enqueue of its old queue with that car (no queue changes for a border road), and the departure is counted |
| Traffic.TrafficEnv.Forward | gym_traffic/envs/traffic_env.py:179-182 | for a train road: the car is offered to the next road's queue as Enqueue says and the intersection counter goes up |
| Traffic.TrafficEnv.DropFront | gym_traffic/envs/traffic_env.py:183-184 | the sentinel is copied onto the front car's slot and leading moves there: the queue becomes the old queue minus its front car, which is the car in the slot after the old leading; other queues unchanged |
| Traffic.TrafficEnv.Depart | gym_traffic/envs/traffic_env.py:177-184 | one turn of the inner loop is Leave on the flow: the front car is handed on and removed, leading moves one step with the sentinel |
| Traffic.TrafficEnv.DrainRoad | gym_traffic/envs/traffic_env.py:177-184 | the inner loop for one road is Drain on the flow, and afterwards the road is empty or its front car is within the road |
| Traffic.TrafficEnv.DrainAll | gym_traffic/envs/traffic_env.py:176-184 | the outer loop is CrossFrom on the flow |
| Traffic.TrafficEnv.ClearCounts | gym_traffic/envs/traffic_env.py:175 | all counters are zero, matching a flow of the current queues with no departures |
| Traffic.TrafficEnv.AdvanceFinishedCars | gym_traffic/envs/traffic_env.py:173-184 | the new queues and departures are Cross of the old queues; leading moves once per departure with the sentinel; every counter counts the departures from the four train roads ending at its intersection; for a non-negative length the old front cars past the end leave, the rest stay in front in order, and no front car is left past the end |
| Traffic.TrafficEnv.Observe | gym_traffic/envs/traffic_env.py:219 | the observation is the number of cars on each train road, within [0, CAPACITY-2] |
| Traffic.TrafficEnv.Throughput | gym_traffic/envs/traffic_env.py:220 | the reward is the per-intersection crossing counts, and sums to the departures from train roads |
| Traffic.TrafficEnv.Drive | gym_traffic/envs/traffic_env.py:205-216 | each road's queue becomes SimQueue, under its sentinel, of its old queue with its arrivals offered in turn; sentinels keep their content |
| Traffic.TrafficEnv.Move | gym_traffic/envs/traffic_env.py:203-216 | the cast phases are stored, each sentinel is as the lights made it, and each queue becomes SimQueue, under the lit sentinel, of the old queue with its arrivals |
| Traffic.TrafficEnv.Finish | gym_traffic/envs/traffic_env.py:217-220 | the new queues and departures are Cross of the old queues; the observation counts the cars on each train road; the reward is the crossings of those departures and sums to the departures from train roads; sentinels travel with leading |
| Traffic.TrafficEnv.Step | gym_traffic/envs/traffic_env.py:202-220 | the cursor arrays stay the same arrays, so ticks can follow each other; the queues after the physics pass are SimQueue, under the lit sentinels, of the old queues with their arrivals; the end queues and departures are Cross of those; observation and reward as in Finish; done is always false; each sentinel ends the tick as the lights made it (whole record), a train road's at its Signal position |

## Left out

- The acceleration term of `sim` (`gym_traffic/envs/traffic_env.py:138-142`) is an abstract parameter `accel`. It uses a square root and a real power in float32. Its result is only used through the two clamps, which are modelled exactly.
- Floating point: positions, velocities and counters are exact reals and integers. float32 rounding, NaN, and `counts` being a float32 array are not modelled.
- The arrival process (`poisson` and `np.random.choice` in `add_new_cars`) is random. `AddNewCars` receives its draws for the tick as a sequence of (entry road, car) pairs.
- Traffic.TrafficEnv.AdvanceFinishedCars: the departure and front-car guarantees are stated for a road length of at least zero. With a negative length the loop also pops freshly added cars, because they enter at position 0 or behind it.
- Traffic.TrafficEnv.AddNewCars: `np.random.choice` on an empty entrypoint list (all four sides closed by the mask) raises an error as soon as a car arrives. The model requires every arrival's road to be an entrypoint, so that error path is not modelled.
- Traffic.TrafficEnv.Finish: the source returns the `counts` array itself as the reward, and the next tick's `counts[:] = 0` clears that same array in place. The model returns a copy, so this aliasing is not captured.
- The rendering code is not part of this model: `Lines`, `get_rot`, `get_locs_gridroad`, `init_viewer`, `_render`, `update_colors` and `update_locs`. So is `GridRoad.locs`.
- The gym/tensorflow glue is not part of this model: flags, the `spaces` objects of `set_graph`, and the numba decorators. `rate`, `m`, `n` and the road length are parameters.
- `util.py`, `gym_traffic/wrappers/history.py`, `profiler.py` and the algorithms under `gym_traffic/algorithms/` are not part of this model. They are statistics, wrappers and driver loops outside the simulator core.
- `GridRoad.length` returns the one configured length for every road. It appears as `GridRoad.Length`, without a contract of its own.
