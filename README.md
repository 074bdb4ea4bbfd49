# pi-blocks simulation: the exact-rational physics kernel in Dafny

The program shows two blocks sliding on a frictionless line next to a wall.
The number of collisions counts the digits of pi when the mass ratio is a
power of 100. Every quantity is an exact `Fraction`. The denominators are
capped now and then with `Fraction.limit_denominator` so that they stay small.

This project models the kernel of that program: the classes `Block2D` and
`Simulation` in `simulation.py`. Dafny's `real` is exact rational arithmetic,
so the model computes with the same numbers as the program.

The model has four modules:

- `Rational` (rational.dfy) handles `limit_denominator`.
  - `Limit(r, cap)` is its specification: the fraction closest to `r` whose
    denominator is at most `cap`. On a tie it is the one with the smaller
    denominator, as the library's closing comparison keeps the convergent
    over the semiconvergent.
  - `LimitDenominator` computes that fraction and is proved to return `Limit`.
  - Lemmas state what callers rely on:
    - a value that already fits is returned unchanged;
    - capping twice equals capping once;
    - capping keeps order, and a non-negative value stays non-negative.
- `Physics` (physics.dfy) holds the block values and the pure physics:
  - the collision detector, in its fixed priority order;
  - the wall reflection;
  - the 1-D elastic collision with overlap correction;
  - the cached energy and momentum.
- `Engine` (engine.dfy) holds the whole state of a `Simulation` as one value,
  `World`.
  - The state changes of `handle_collision`, `update`, `simplify_fractions`,
    `reset` and `adjust_precision` are functions on `World`.
  - `adjust_speed` changes only the speed, so it is the function
    `NextSpeed` on an integer.
  - `Consistent` is the invariant kept between calls:
    - masses are at least 1 and sizes are positive;
    - `total == wall + block` for the collision counters;
    - the periodic counter is below 100;
    - the precision cap is within [10**3, 10**12];
    - the speed is within [1, 100000];
    - the time step is exactly 1/100.
- `Simulation` (simulation.dfy) holds the classes `Block2D` and `Simulation`.
  Their fields are updated in place.
  - Each method that changes state is proved to move `State()` exactly as
    the matching `Engine` function says.
  - The constructor, `HandleCollision`, `MoveAndHandle`, `Update`, `Reset`,
    `AdjustSpeed` and `AdjustPrecision` are also proved to keep `Valid()`.
    `SimplifyFractions` keeps it whenever the old state was consistent. The
    smaller steps these methods are built from are only proved to follow
    their `Engine` functions.
  - Methods that only read, such as `ComputeEnergy`, return exactly the
    value of the matching `Physics` function.

The properties proved include:

- a paused `update` changes nothing;
- every resolution counts exactly one collision, so `update` counts at most
  one;
- the detector's priority order, as an if-and-only-if for each answer;
- wall reflection is exact and leaves the other block alone;
- before capping, the elastic velocities conserve momentum and kinetic
  energy;
- before capping, the overlap corrections are non-negative, inversely
  proportional to the masses, and add up to the overlap;
- both tuning knobs stay within their clamps;
- repeated presses of the precision key saturate after nine presses;
- after `reset`, all counters are zero and the new totals are the baseline.

## Model

| member | source | states |
|---|---|---|
| `Rational.Limit` | simulation.py:9-12 | definition of `limit_denominator(cap)`: the fraction with denominator at most cap closest to r, with the smaller denominator on a tie (the smaller value when the denominators are equal); it satisfies `IsLimit` |
| `Rational.LimitDenominator` | simulation.py:9-12 | `limit_denominator(cap)` returns a fraction with denominator at most cap that no such fraction beats in distance to r, and that fraction is `Limit(r, cap)` |
| `Rational.TieKeepsSmallerDenominator` | simulation.py:132-133 | 1/3 and 1/2 are equally close to 5/12, and capping 5/12 at 3 gives 1/2, the one with the smaller denominator |
| `Rational.LimitExists` | simulation.py:19-20 | for every r and every cap >= 1 some fraction is the limit of r, so `Limit` is defined everywhere it is called |
| `Rational.LimitUnique` | simulation.py:19-20 | at most one fraction is the closest with denominator at most cap and the smallest denominator among equally close ones, so the limit is a function of r and cap |
| `Rational.CloserExtends` | simulation.py:19-20 | the best fraction for denominators up to d - 1, compared with the nearest fraction of denominator d, gives the best fraction up to d |
| `Rational.NearestIsClosest` | simulation.py:19-20 | the nearest fraction with denominator exactly d has that denominator and no fraction with denominator d is closer |
| `Rational.LimitKeepsFitting` | simulation.py:38 | a value that already has a denominator within the cap comes back unchanged |
| `Rational.LimitOfInteger` | simulation.py:29-30 | integers (the constructor's masses, velocities, positions and sizes) are never changed by capping |
| `Rational.LimitOfHundredth` | simulation.py:38 | 1/100 is unchanged by every cap of at least 100, so `time_step` stays exactly 1/100 |
| `Rational.LimitIdempotent` | simulation.py:80-84 | capping an already capped value changes nothing |
| `Rational.LimitBetween` | simulation.py:146-151 | a fitting value below (above) r stays below (above) the capped r |
| `Rational.LimitNonNegative` | simulation.py:146-151 | capping a non-negative value gives a non-negative value |
| `Rational.LimitMonotone` | simulation.py:132-133 | capping keeps the order of two values |
| `Physics.Detect` | simulation.py:86-103 | `wall_0` exactly when block 0 is at or past the wall and moving left; `wall_1` exactly when that fails and block 1 is; `blocks` exactly when both fail and the blocks touch with v0 > v1; `None` exactly when all three fail |
| `Physics.Reflect` | simulation.py:107-121 | reflection keeps mass and size, keeps the speed, and a block that was at the wall moves away from it and is no longer at it |
| `Physics.ElasticConservesMomentum` | simulation.py:127-130 | the uncapped elastic velocities keep m1 v1 + m2 v2 and reverse the relative velocity |
| `Physics.ElasticConservesEnergy` | simulation.py:127-130 | the uncapped elastic velocities keep m1 v1^2 + m2 v2^2 |
| `Physics.ElasticVelocities` | simulation.py:128-130 | definition: the uncapped velocities ((m1 - m2) v1 + 2 m2 v2) / (m1 + m2) and ((m2 - m1) v2 + 2 m1 v1) / (m1 + m2) |
| `Physics.OverlapShift` | simulation.py:141-151 | definition: the uncapped corrections overlap * m2 / (m1 + m2) for block 0 and overlap * m1 / (m1 + m2) for block 1 |
| `Physics.OverlapShiftSplits` | simulation.py:140-151 | the uncapped corrections add up to the overlap, satisfy m1 * adj1 == m2 * adj2, and are non-negative for positive masses and overlap |
| `Physics.OverlapRestoresContact` | simulation.py:135-154 | the uncapped corrections put the blocks exactly at the contact distance |
| `Physics.Collide` | simulation.py:123-154 | a block collision keeps masses and sizes, and blocks that were approaching no longer approach; positions change only when the blocks overlap, block 0 only moves left and block 1 only right |
| `Physics.NewBlock` | simulation.py:8-12 | a mass or size of at least 1 is still at least 1 after capping at 10**9 |
| `Physics.NewBlockKeepsFitting` | simulation.py:8-12 | every field that already fits denominator 10**9 is stored unchanged |
| `Physics.KineticEnergyNonNegative` | simulation.py:57-62 | kinetic energy is never negative for non-negative masses |
| `Physics.TotalEnergy` | simulation.py:57-62 | the capped energy is never negative for non-negative masses |
| `Physics.TotalMomentum` | simulation.py:64-68 | definition of `_total_momentum`: m0 v0 + m1 v1 capped at denominator 10**9 |
| `Physics.TotalsExactWhenFitting` | simulation.py:57-68 | the cached energy and momentum equal the exact values whenever those fit denominator 10**9 |
| `Physics.MassRatio` | simulation.py:70-73 | the ratio times m0 is m1, and it is positive for positive masses |
| `Engine.Hit` | simulation.py:107-157 | definition: the branch of `handle_collision` for the kind, reflecting a block at the wall or colliding the blocks, plus one collision counted for that kind |
| `Engine.Refresh` | simulation.py:159-161 | definition: the cached energy and momentum recomputed from the blocks |
| `Engine.Resolve` | simulation.py:105-161 | definition of `handle_collision`: `Hit` followed by `Refresh` |
| `Engine.Advance` | simulation.py:175-176 | definition: a block moved by v * time_step, exactly |
| `Engine.SimplifyAll` | simulation.py:80-84 | definition of `simplify_fractions`: both blocks' velocity and position and the time step capped at the current cap |
| `Engine.Tick` | simulation.py:183-187 | definition: the periodic counter counts the tick; on reaching 100 the fractions are capped and the counter restarts at 0 |
| `Engine.MoveAndResolve` | simulation.py:174-181 | definition: both blocks advanced, then a collision detected after the move resolved |
| `Engine.Step` | simulation.py:163-187 | definition of `update`: nothing when paused; a collision found before moving is resolved and ends the tick; otherwise move, resolve, count the tick |
| `Engine.ResetWorld` | simulation.py:189-202 | definition of `reset`: fresh blocks, zero counters, refreshed totals, and those totals as the baseline |
| `Engine.InitialWorld` | simulation.py:25-55 | definition of the state `__init__` builds |
| `Engine.RetunePrecision` | simulation.py:211-218 | definition of `adjust_precision`: the cap moved by `NextPrecision`, then `SimplifyAll` at the new cap |
| `Engine.NextSpeed` | simulation.py:204-209 | the new speed stays in [1, 100000] if the old one was; doubling up to the clamp, halving (floor) down to it |
| `Engine.NextPrecision` | simulation.py:211-216 | the new cap stays in [10**3, 10**12] if the old one was; raising never lowers it, lowering never raises it |
| `Engine.RaisingReaches` | simulation.py:213-214 | k increases give min(10**12, cap * 10**k) |
| `Engine.LoweringReaches` | simulation.py:215-216 | k decreases give max(10**3, cap // 10**k) |
| `Engine.PrecisionSaturatesHigh` | simulation.py:213-214 | nine or more increases from any in-range cap give exactly 10**12 |
| `Engine.PrecisionSaturatesLow` | simulation.py:215-216 | nine or more decreases from any in-range cap give exactly 10**3 |
| `Engine.PausedStepIsNoOp` | simulation.py:165-166 | a paused `update` returns the state unchanged |
| `Engine.ResolveCountsOne` | simulation.py:105-161 | a resolution adds exactly 1 to the total and 1 to the wall or block counter matching its kind, and changes no mass, size or setting |
| `Engine.ResolveWallIsExact` | simulation.py:107-121 | after a wall resolution the block's velocity is exactly negated, it sits exactly at size/2, and the other block is unchanged |
| `Engine.ResolveBlocksIsElastic` | simulation.py:123-158 | a block resolution stores the elastic velocities capped at the current cap, keeps positions when there was no overlap, and otherwise moves block 0 left by its capped share of the overlap and block 1 right by its own |
| `Engine.ResolvedCollisionIsCleared` | simulation.py:86-158 | right after a collision is resolved, the detector no longer reports the same kind |
| `Engine.SimplifyAllIsIdempotent` | simulation.py:80-84 | capping the fractions changes only velocities, positions and the time step, and doing it twice equals doing it once |
| `Engine.SimplifyKeepsTimeStep` | simulation.py:84 | with a cap of at least 100 the time step stays exactly 1/100 |
| `Engine.StepCountsAtMostOne` | simulation.py:163-187 | one `update` adds 0 or 1 to the total, never lowers a counter, and adds 1 exactly when unpaused and a collision was found before or after the move |
| `Engine.SimplifyAllPreservesConsistent` | simulation.py:80-84 | `simplify_fractions` keeps the invariant: masses, sizes, counters and settings are untouched and the time step stays 1/100 |
| `Engine.ResolvePreservesConsistent` | simulation.py:105-161 | `handle_collision` keeps the invariant, including total == wall + block |
| `Engine.TickPreservesConsistent` | simulation.py:183-187 | the periodic counter stays below 100 and the time step stays 1/100 |
| `Engine.StepPreservesConsistent` | simulation.py:163-187 | `update` keeps the invariant |
| `Engine.RetunePrecisionIsConsistent` | simulation.py:211-218 | `adjust_precision` keeps the invariant |
| `Engine.ResetSetsBaseline` | simulation.py:189-202 | after `reset` all counters are 0; block 0 is at rest at 150 and block 1 at 600 moves at v_1 (capped, and exact when it fits); the baselines equal the new totals; the settings and pause flag are kept |
| `Engine.ResetIsConsistent` | simulation.py:189-202 | `reset` from a consistent state with masses of at least 1 gives a consistent state; the current masses always qualify, since `Consistent` keeps them at least 1 |
| `Engine.InitialWorldValues` | simulation.py:25-55 | the constructor's blocks are exact, energy is 125000, momentum is -50000, and the state is consistent |
| `Simulation.Block2D.constructor` | simulation.py:8-12 | the stored block is every argument capped at 10**9 |
| `Simulation.Block2D.Bounce` | simulation.py:107-111 | the block's new value is its wall reflection |
| `Simulation.Block2D.Simplify` | simulation.py:17-21 | velocity and position are capped at the given cap; mass and size are kept |
| `Simulation.Simulation.constructor` | simulation.py:25-55 | the new object is in the initial state and satisfies the invariant |
| `Simulation.Simulation.CurrentMassRatio` | simulation.py:70-73 | `mass_ratio`: the ratio times block 0's mass is block 1's mass; defined only when block 0's mass is not 0, as the source divides by it |
| `Simulation.Simulation.DetectCollisions` | simulation.py:86-103 | definition of `detect_collisions` on the current blocks: `Physics.Detect` of their values |
| `Simulation.Simulation.ComputeEnergy` | simulation.py:57-62 | returns the kinetic energy of the current blocks capped at 10**9, non-negative for non-negative masses |
| `Simulation.Simulation.ComputeMomentum` | simulation.py:64-68 | returns the momentum of the current blocks capped at 10**9 |
| `Simulation.Simulation.SimplifyFractions` | simulation.py:80-84 | the new state is the old one with velocities, positions and time step capped, and a consistent state stays `Valid()` |
| `Simulation.Simulation.CollideBlocks` | simulation.py:123-154 | the blocks' new values are the capped elastic collision of their old values |
| `Simulation.Simulation.Impact` | simulation.py:106-157 | the branch for the collision kind moves the blocks and counts the collision |
| `Simulation.Simulation.RefreshTotals` | simulation.py:160-161 | the cached energy and momentum are recomputed from the blocks and nothing else changes |
| `Simulation.Simulation.HandleCollision` | simulation.py:105-161 | the new state is `Resolve` of the old one, and the invariant is kept |
| `Simulation.Simulation.MoveAndHandle` | simulation.py:174-181 | both blocks advance by v * time_step, then a collision found after the move is resolved |
| `Simulation.Simulation.CountTick` | simulation.py:183-187 | the tick is counted, and every 100th tick caps the fractions and restarts the count |
| `Simulation.Simulation.Update` | simulation.py:163-187 | the new state is `Step` of the old one, and the invariant is kept |
| `Simulation.Simulation.ClearCounters` | simulation.py:194-197 | all collision counters and the periodic counter become 0 |
| `Simulation.Simulation.TakeBaseline` | simulation.py:201-202 | the current energy and momentum become the baseline |
| `Simulation.Simulation.Reset` | simulation.py:189-202 | the new state is `ResetWorld` of the old one with fresh blocks, and the invariant is kept |
| `Simulation.Simulation.AdjustSpeed` | simulation.py:204-209 | only the speed changes, to `NextSpeed`, and the invariant is kept |
| `Simulation.Simulation.AdjustPrecision` | simulation.py:211-218 | the new state is the old one with the cap moved by `NextPrecision` and the fractions capped with it, and the invariant is kept |

## Left out

- Rendering, fonts, the window, the clock, the FPS counter, the main event
  loop and keyboard handling (simulation.py:221-418) are left out. They are
  graphics and I/O.
- The pause flag is toggled only by the event loop. The model keeps the
  field and proves that a paused `update` is a no-op, but has no toggle
  method.
- `pi_approximation` is left out. It uses `math.sqrt` on a float and is for
  display only.
- `width` is stored as a constant and used nowhere else, as in the source.
- `__repr__` is left out; it only formats text.
- Default arguments are not modelled: `reset(mass_0=1, mass_1=10000,
  v_1=-5)`, `Block2D(size=30)`, `simplify(max_denominator=10**9)` and
  `increase=True` on both tuning knobs. The Dafny members take every
  argument explicitly. A caller gets the default behaviour by passing
  those values, as the constructor does with size 30.
- `Fraction.limit_denominator` is given by its documented result: the
  closest fraction with a denominator of at most the cap.
  - `LimitDenominator` finds it by trying every denominator in turn. The
    continued-fraction search of the library is not modelled.
  - When two fractions are equally close, the model takes the one with the
    smaller denominator, and the smaller value when the denominators are
    equal. That is what the library's closing comparison does: on a tie it
    keeps the convergent p1/q1 over the semiconvergent. For example, 5/12
    capped at 3 gives 1/2, not 1/3 (`Rational.TieKeepsSmallerDenominator`).
- `Fraction(x)` of a Python float is the float's exact binary value. The
  model takes its arguments as exact rationals. The float conversions the
  event loop does before `reset` are not modelled.
- Simulation.Simulation.Reset requires both masses to be at least 1.
  - The source accepts any value.
  - Every call in the event loop passes an existing mass, `max(1, m / 10)`
    or `m * 10`, and the masses start at 1 and 10000.
  - `Engine.Consistent` includes masses of at least 1, so a caller holding
    `Valid()` can always pass the current masses.
  - A mass of 0 for block 0 would make `mass_ratio` (simulation.py:73)
    divide by zero. `handle_collision` divides only by m1 + m2.
- Simulation.Simulation.HandleCollision takes only the three collision
  kinds. Calling it with any other value only refreshes the totals, and
  `update` never does that.
- Conservation of energy and momentum after capping is not claimed. The
  source states no bound for it. The identities are proved before capping,
  and the cached totals are exact whenever the exact values fit the cap
  (`Physics.TotalsExactWhenFitting`).
- The state-changing methods are split into smaller steps: `Impact`,
  `RefreshTotals`, `MoveAndHandle`, `CountTick`, `ClearCounters`,
  `TakeBaseline`, `CollideBlocks` and `Bounce`.
  - Each step follows a contiguous block of the source's method.
  - The order of field updates inside each step is the source's.
