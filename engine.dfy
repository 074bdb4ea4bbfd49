/** The whole state of a `Simulation` as a value, and the state changes of
    `handle_collision`, `update`, `simplify_fractions`, `reset` and
    `adjust_precision` as functions on it. `adjust_speed` changes only the
    speed, so it is `NextSpeed` on an integer. The class in simulation.dfy is
    proved to follow these functions; the lemmas here state what the
    functions promise. */
module Engine {
  import opened Rational
  import opened Physics

  /** `simplify_interval`: every this many moving ticks the fractions are capped. */
  const SimplifyInterval: int := 100
  /** The clamp of `simplify_denominator`: [10**3, 10**12]. */
  const MinPrecision: int := 1000
  const MaxPrecision: int := 1_000_000_000_000
  /** The clamp of `simulation_speed`: [1, 100000]. */
  const MinSpeed: int := 1
  const MaxSpeed: int := 100000
  /** The fixed time step 1/100. */
  const TimeStep: real := 1.0 / 100.0

  datatype World = World(
    b0: Body, b1: Body,
    wallCollisions: int, blockCollisions: int, totalCollisions: int,
    timeStep: real, simulationSpeed: int,
    simplifyCounter: int, simplifyDenominator: int,
    totalEnergy: real, totalMomentum: real,
    initialEnergy: real, initialMomentum: real,
    paused: bool)

  /** What holds of the state between calls: masses of at least 1 (the
      starting masses are 1 and 10000, and `reset` is only given masses of at
      least 1), positive sizes, the collision total is the sum of its two parts, the periodic counter is
      below the interval, both knobs are within their clamps, and the time
      step is still exactly 1/100. */
  predicate Consistent(w: World) {
    && w.b0.mass >= 1.0 && w.b1.mass >= 1.0
    && w.b0.size > 0.0 && w.b1.size > 0.0
    && 0 <= w.wallCollisions && 0 <= w.blockCollisions
    && w.totalCollisions == w.wallCollisions + w.blockCollisions
    && 0 <= w.simplifyCounter < SimplifyInterval
    && MinPrecision <= w.simplifyDenominator <= MaxPrecision
    && MinSpeed <= w.simulationSpeed <= MaxSpeed
    && w.timeStep == TimeStep
  }

  /** The collision itself: the blocks after the impact, and one more
      collision of the right kind counted. */
  ghost function Hit(w: World, kind: Collision): World
    requires w.b0.mass > 0.0 && w.b1.mass > 0.0 && w.simplifyDenominator >= 1
  {
    match kind
    case Wall0 =>
      w.(b0 := Reflect(w.b0),
         wallCollisions := w.wallCollisions + 1, totalCollisions := w.totalCollisions + 1)
    case Wall1 =>
      w.(b1 := Reflect(w.b1),
         wallCollisions := w.wallCollisions + 1, totalCollisions := w.totalCollisions + 1)
    case Blocks =>
      var c := Collide(w.b0, w.b1, w.simplifyDenominator);
      w.(b0 := c.0, b1 := c.1,
         blockCollisions := w.blockCollisions + 1, totalCollisions := w.totalCollisions + 1)
  }

  /** The cached energy and momentum recomputed from the blocks. */
  ghost function Refresh(w: World): World {
    w.(totalEnergy := TotalEnergy(w.b0, w.b1), totalMomentum := TotalMomentum(w.b0, w.b1))
  }

  /** `handle_collision(kind)`: resolve the collision, count it, and refresh
      the cached energy and momentum. */
  ghost function Resolve(w: World, kind: Collision): World
    requires w.b0.mass > 0.0 && w.b1.mass > 0.0 && w.simplifyDenominator >= 1
  {
    Refresh(Hit(w, kind))
  }

  /** Straight-line motion over one time step, exact (no capping). */
  function Advance(b: Body, dt: real): Body {
    b.(x := b.x + b.v * dt)
  }

  /** `simplify_fractions`: cap the velocities, the positions and the time
      step at the current denominator cap. */
  ghost function SimplifyAll(w: World): World
    requires w.simplifyDenominator >= 1
  {
    var cap := w.simplifyDenominator;
    w.(b0 := w.b0.(v := Limit(w.b0.v, cap), x := Limit(w.b0.x, cap)),
       b1 := w.b1.(v := Limit(w.b1.v, cap), x := Limit(w.b1.x, cap)),
       timeStep := Limit(w.timeStep, cap))
  }

  /** The end of a moving tick: count it, and on reaching the interval cap the
      fractions and start counting again. */
  ghost function Tick(w: World): World
    requires w.simplifyDenominator >= 1
  {
    var c := w.simplifyCounter + 1;
    if c >= SimplifyInterval then SimplifyAll(w).(simplifyCounter := 0)
    else w.(simplifyCounter := c)
  }

  /** The blocks after the moving part of a tick, with any collision found
      after the move resolved. */
  ghost function MoveAndResolve(w: World): World
    requires w.b0.mass > 0.0 && w.b1.mass > 0.0 && w.simplifyDenominator >= 1
  {
    var moved := w.(b0 := Advance(w.b0, w.timeStep), b1 := Advance(w.b1, w.timeStep));
    match Detect(moved.b0, moved.b1)
    case Some(kind) => Resolve(moved, kind)
    case None => moved
  }

  /** `update`: nothing when paused; otherwise a collision found before moving
      is resolved and ends the tick, else the blocks move, a collision found
      after the move is resolved, and the tick is counted. */
  ghost function Step(w: World): World
    requires w.b0.mass > 0.0 && w.b1.mass > 0.0 && w.simplifyDenominator >= 1
  {
    if w.paused then w
    else match Detect(w.b0, w.b1)
      case Some(kind) => Resolve(w, kind)
      case None => Tick(MoveAndResolve(w))
  }

  /** `reset(mass_0, mass_1, v_1)`: fresh blocks, zero counters, and the new
      energy and momentum taken as the baseline. */
  ghost function ResetWorld(w: World, mass0: real, mass1: real, v1: real): World {
    var renewed := w.(b0 := NewBlock(mass0, 0.0, 150.0, 30.0), b1 := NewBlock(mass1, v1, 600.0, 60.0));
    var r := Refresh(ZeroCounters(renewed));
    r.(initialEnergy := r.totalEnergy, initialMomentum := r.totalMomentum)
  }

  /** All collision counters and the periodic counter back to zero. */
  function ZeroCounters(w: World): World {
    w.(wallCollisions := 0, blockCollisions := 0, totalCollisions := 0, simplifyCounter := 0)
  }

  /** The state `Simulation.__init__` builds. */
  ghost function InitialWorld(): World {
    var b0 := NewBlock(1.0, 0.0, 150.0, 30.0);
    var b1 := NewBlock(10000.0, -5.0, 600.0, 60.0);
    var e, p := TotalEnergy(b0, b1), TotalMomentum(b0, b1);
    World(b0, b1, 0, 0, 0, Limit(TimeStep, DefaultCap), 256, 0, DefaultCap, e, p, e, p, false)
  }

  /** `adjust_speed`: double up to 100000 or halve (floor) down to 1. */
  function NextSpeed(speed: int, increase: bool): (r: int)
    ensures MinSpeed <= speed <= MaxSpeed ==> MinSpeed <= r <= MaxSpeed
    ensures increase && speed >= 0 ==> speed <= r || r == MaxSpeed
    ensures !increase && speed >= MinSpeed ==> r <= speed
    ensures increase && 2 * speed < MaxSpeed ==> r == 2 * speed
    ensures !increase && speed >= 2 * MinSpeed ==> r == speed / 2
  {
    if increase then (if MaxSpeed < speed * 2 then MaxSpeed else speed * 2)
    else (if MinSpeed > speed / 2 then MinSpeed else speed / 2)
  }

  /** `adjust_precision`'s new cap: ten times larger up to 10**12 or ten times
      smaller (floor) down to 10**3. */
  function NextPrecision(cap: int, increase: bool): (r: int)
    ensures MinPrecision <= cap <= MaxPrecision ==> MinPrecision <= r <= MaxPrecision
    ensures increase && cap >= 0 ==> cap <= r || r == MaxPrecision
    ensures !increase && cap >= MinPrecision ==> r <= cap
  {
    if increase then (if MaxPrecision < cap * 10 then MaxPrecision else cap * 10)
    else (if MinPrecision > cap / 10 then MinPrecision else cap / 10)
  }

  /** `adjust_precision`: move the cap, then cap the fractions with it at once. */
  ghost function RetunePrecision(w: World, increase: bool): World
    requires w.simplifyDenominator >= MinPrecision
  {
    SimplifyAll(w.(simplifyDenominator := NextPrecision(w.simplifyDenominator, increase)))
  }

  // ---------------------------------------------------------------------------
  // Properties

  /** A paused simulation does not change at all. */
  lemma PausedStepIsNoOp(w: World)
    requires w.b0.mass > 0.0 && w.b1.mass > 0.0 && w.simplifyDenominator >= 1
    ensures w.paused ==> Step(w) == w
  {
  }

  /** Each resolution counts exactly one collision, as a wall collision or as
      a block collision, and touches no mass, size or setting. */
  lemma ResolveCountsOne(w: World, kind: Collision)
    requires w.b0.mass > 0.0 && w.b1.mass > 0.0 && w.simplifyDenominator >= 1
    ensures var r := Resolve(w, kind);
      && r.totalCollisions == w.totalCollisions + 1
      && r.wallCollisions == w.wallCollisions + (if kind == Blocks then 0 else 1)
      && r.blockCollisions == w.blockCollisions + (if kind == Blocks then 1 else 0)
      && r.b0.mass == w.b0.mass && r.b1.mass == w.b1.mass
      && r.b0.size == w.b0.size && r.b1.size == w.b1.size
      && r.(b0 := w.b0, b1 := w.b1, wallCollisions := w.wallCollisions,
            blockCollisions := w.blockCollisions, totalCollisions := w.totalCollisions,
            totalEnergy := w.totalEnergy, totalMomentum := w.totalMomentum) == w
  {
  }

  /** Exact wall reflection: the block's velocity is exactly negated, it sits
      exactly against the wall, and the other block is untouched. */
  lemma ResolveWallIsExact(w: World, kind: Collision)
    requires w.b0.mass > 0.0 && w.b1.mass > 0.0 && w.simplifyDenominator >= 1
    requires kind != Blocks
    ensures var r := Resolve(w, kind);
      var (hit, hitNow, other, otherNow) :=
        if kind == Wall0 then (w.b0, r.b0, w.b1, r.b1) else (w.b1, r.b1, w.b0, r.b0);
      && hitNow.v == -hit.v && hitNow.x == hit.size / 2.0
      && hitNow.mass == hit.mass && hitNow.size == hit.size
      && otherNow == other
  {
  }

  /** The block-block resolution stores the elastic velocities capped at the
      current cap; when the blocks did not overlap their positions are kept,
      and when they did, each block moves by its capped overlap share. */
  lemma ResolveBlocksIsElastic(w: World)
    requires w.b0.mass > 0.0 && w.b1.mass > 0.0 && w.simplifyDenominator >= 1
    ensures var r := Resolve(w, Blocks);
      var nv := ElasticVelocities(w.b0.mass, w.b0.v, w.b1.mass, w.b1.v);
      && r.b0.v == Limit(nv.0, w.simplifyDenominator)
      && r.b1.v == Limit(nv.1, w.simplifyDenominator)
      && (w.b1.x - w.b0.x >= MinDistance(w.b0, w.b1) ==> r.b0.x == w.b0.x && r.b1.x == w.b1.x)
      && (w.b1.x - w.b0.x < MinDistance(w.b0, w.b1) ==>
            var s := OverlapShift(w.b0.mass, w.b1.mass, MinDistance(w.b0, w.b1) - (w.b1.x - w.b0.x));
            r.b0.x == w.b0.x - Limit(s.0, w.simplifyDenominator)
            && r.b1.x == w.b1.x + Limit(s.1, w.simplifyDenominator))
      && r.b0.x <= w.b0.x && w.b1.x <= r.b1.x
  {
  }

  /** A collision that has just been resolved is not reported again at once:
      the reflected block moves away from the wall, and the blocks no longer
      approach each other. */
  lemma ResolvedCollisionIsCleared(w: World, kind: Collision)
    requires w.b0.mass > 0.0 && w.b1.mass > 0.0 && w.simplifyDenominator >= 1
    requires Detect(w.b0, w.b1) == Some(kind)
    ensures var r := Resolve(w, kind); Detect(r.b0, r.b1) != Some(kind)
  {
  }

  /** Capping the fractions changes only velocities, positions and the time
      step, and doing it twice is the same as doing it once. */
  lemma SimplifyAllIsIdempotent(w: World)
    requires w.simplifyDenominator >= 1
    ensures var s := SimplifyAll(w);
      && s.b0.mass == w.b0.mass && s.b1.mass == w.b1.mass
      && s.b0.size == w.b0.size && s.b1.size == w.b1.size
      && s.(b0 := w.b0, b1 := w.b1, timeStep := w.timeStep) == w
      && SimplifyAll(s) == s
  {
    var cap := w.simplifyDenominator;
    LimitIdempotent(w.b0.v, cap);
    LimitIdempotent(w.b0.x, cap);
    LimitIdempotent(w.b1.v, cap);
    LimitIdempotent(w.b1.x, cap);
    LimitIdempotent(w.timeStep, cap);
  }

  /** One tick of `update` counts at most one collision: the total grows by
      0 or 1, each part never shrinks, and the total grows exactly when a
      collision was found before or after the move. */
  lemma StepCountsAtMostOne(w: World)
    requires w.b0.mass > 0.0 && w.b1.mass > 0.0 && w.simplifyDenominator >= 1
    ensures var r := Step(w);
      && (r.totalCollisions == w.totalCollisions || r.totalCollisions == w.totalCollisions + 1)
      && w.wallCollisions <= r.wallCollisions && w.blockCollisions <= r.blockCollisions
      && r.totalCollisions - w.totalCollisions
         == (r.wallCollisions - w.wallCollisions) + (r.blockCollisions - w.blockCollisions)
      && (r.totalCollisions == w.totalCollisions + 1 <==>
            !w.paused &&
            (Detect(w.b0, w.b1) != None ||
             Detect(Advance(w.b0, w.timeStep), Advance(w.b1, w.timeStep)) != None))
  {
  }

  /** The time step is 1/100 for good, because the cap never drops below 100. */
  lemma SimplifyKeepsTimeStep(w: World)
    requires w.simplifyDenominator >= 100 && w.timeStep == TimeStep
    ensures SimplifyAll(w).timeStep == TimeStep
  {
    LimitOfHundredth(w.simplifyDenominator);
  }

  /** `simplify_fractions` keeps the state consistent. */
  lemma SimplifyAllPreservesConsistent(w: World)
    requires Consistent(w)
    ensures Consistent(SimplifyAll(w))
  {
    SimplifyKeepsTimeStep(w);
    SimplifyAllIsIdempotent(w);
  }

  /** `handle_collision` keeps the state consistent. */
  lemma ResolvePreservesConsistent(w: World, kind: Collision)
    requires Consistent(w)
    ensures Consistent(Resolve(w, kind))
  {
  }

  /** The end of a moving tick keeps the state consistent. */
  lemma TickPreservesConsistent(w: World)
    requires Consistent(w)
    ensures Consistent(Tick(w))
  {
    if w.simplifyCounter + 1 >= SimplifyInterval {
      SimplifyKeepsTimeStep(w);
      SimplifyAllIsIdempotent(w);
    }
  }

  /** `update` keeps the state consistent. */
  lemma StepPreservesConsistent(w: World)
    requires Consistent(w)
    ensures Consistent(Step(w))
  {
    if !w.paused {
      match Detect(w.b0, w.b1)
      case Some(kind) => ResolvePreservesConsistent(w, kind);
      case None =>
        var moved := w.(b0 := Advance(w.b0, w.timeStep), b1 := Advance(w.b1, w.timeStep));
        assert Consistent(moved);
        var found := Detect(moved.b0, moved.b1);
        if found.Some? {
          ResolvePreservesConsistent(moved, found.value);
        }
        TickPreservesConsistent(MoveAndResolve(w));
    }
  }

  /** `reset` zeroes all counters, starts block 0 at rest and block 1 at the
      given velocity (capped), and makes the current energy and momentum the
      new baseline. */
  lemma ResetSetsBaseline(w: World, mass0: real, mass1: real, v1: real)
    ensures var r := ResetWorld(w, mass0, mass1, v1);
      && r.wallCollisions == 0 && r.blockCollisions == 0 && r.totalCollisions == 0
      && r.simplifyCounter == 0
      && r.b0.v == 0.0 && r.b1.v == Limit(v1, DefaultCap)
      && (Fits(v1, DefaultCap) ==> r.b1.v == v1)
      && r.b0.x == 150.0 && r.b1.x == 600.0 && r.b0.size == 30.0 && r.b1.size == 60.0
      && r.initialEnergy == r.totalEnergy == TotalEnergy(r.b0, r.b1)
      && r.initialMomentum == r.totalMomentum == TotalMomentum(r.b0, r.b1)
      && r.paused == w.paused && r.simplifyDenominator == w.simplifyDenominator
      && r.simulationSpeed == w.simulationSpeed && r.timeStep == w.timeStep
  {
    LimitOfInteger(0, DefaultCap);
    LimitOfInteger(150, DefaultCap);
    LimitOfInteger(600, DefaultCap);
    LimitKeepsFitting(v1, DefaultCap);
    LimitOfInteger(30, DefaultCap);
    LimitOfInteger(60, DefaultCap);
  }

  /** `reset` with masses of at least 1 gives a consistent state. */
  lemma ResetIsConsistent(w: World, mass0: real, mass1: real, v1: real)
    requires Consistent(w) && mass0 >= 1.0 && mass1 >= 1.0
    ensures Consistent(ResetWorld(w, mass0, mass1, v1))
  {
  }

  /** The constructor's state: masses 1 and 10000, block 0 at rest at 150,
      block 1 at 600 moving left at 5, energy 125000 and momentum -50000. */
  lemma InitialWorldValues()
    ensures var w := InitialWorld();
      && w.b0 == Body(1.0, 0.0, 150.0, 30.0)
      && w.b1 == Body(10000.0, -5.0, 600.0, 60.0)
      && w.timeStep == TimeStep
      && w.totalEnergy == w.initialEnergy == 125000.0
      && w.totalMomentum == w.initialMomentum == -50000.0
      && Consistent(w)
  {
    LimitOfInteger(1, DefaultCap);
    LimitOfInteger(0, DefaultCap);
    LimitOfInteger(150, DefaultCap);
    LimitOfInteger(30, DefaultCap);
    LimitOfInteger(10000, DefaultCap);
    LimitOfInteger(-5, DefaultCap);
    LimitOfInteger(600, DefaultCap);
    LimitOfInteger(60, DefaultCap);
    LimitOfHundredth(DefaultCap);
    var w := InitialWorld();
    assert KineticEnergy(w.b0, w.b1) == 125000.0;
    assert Momentum(w.b0, w.b1) == -50000.0;
    LimitOfInteger(125000, DefaultCap);
    LimitOfInteger(-50000, DefaultCap);
  }

  /** `adjust_precision` keeps the state consistent. */
  lemma RetunePrecisionIsConsistent(w: World, increase: bool)
    requires Consistent(w)
    ensures Consistent(RetunePrecision(w, increase))
  {
    var moved := w.(simplifyDenominator := NextPrecision(w.simplifyDenominator, increase));
    SimplifyKeepsTimeStep(moved);
    SimplifyAllIsIdempotent(moved);
  }

  /** The cap after k presses of the same precision key. */
  function RepeatPrecision(cap: int, increase: bool, k: nat): int
    decreases k
  {
    if k == 0 then cap else RepeatPrecision(NextPrecision(cap, increase), increase, k - 1)
  }

  /** c multiplied by 10, k times over: c * 10**k. */
  function Scale(c: int, k: nat): int
    decreases k
  {
    if k == 0 then c else Scale(10 * c, k - 1)
  }

  /** c divided by 10 (floor), k times over: c // 10**k. */
  function Shrink(c: int, k: nat): int
    decreases k
  {
    if k == 0 then c else Shrink(c / 10, k - 1)
  }

  /** Scaling never shrinks a non-negative value, and grows with the value
      and with the number of steps. */
  lemma {:induction false} ScaleMonotone(c: int, d: int, j: nat, k: nat)
    requires 0 <= c <= d && j <= k
    ensures c <= Scale(c, j) <= Scale(d, k)
    decreases k
  {
    if k > 0 {
      if j == k {
        ScaleMonotone(10 * c, 10 * d, j - 1, k - 1);
      } else {
        ScaleMonotone(c, 10 * d, j, k - 1);
      }
    }
  }

  /** Shrinking never grows a non-negative value, and shrinks further with a
      smaller value and more steps. */
  lemma {:induction false} ShrinkMonotone(c: int, d: int, j: nat, k: nat)
    requires 0 <= d <= c && j <= k
    ensures 0 <= Shrink(d, k) <= Shrink(c, j) <= c
    decreases k
  {
    if k > 0 {
      if j == k {
        ShrinkMonotone(c / 10, d / 10, j - 1, k - 1);
      } else {
        ShrinkMonotone(c, d / 10, j, k - 1);
      }
    }
  }

  /** k presses of "more precision" multiply the cap by 10**k, clamped at 10**12. */
  lemma {:induction false} RaisingReaches(cap: int, k: nat)
    requires MinPrecision <= cap <= MaxPrecision
    ensures RepeatPrecision(cap, true, k) == if Scale(cap, k) < MaxPrecision then Scale(cap, k) else MaxPrecision
    decreases k
  {
    if k > 0 {
      var next := NextPrecision(cap, true);
      RaisingReaches(next, k - 1);
      ScaleMonotone(next, next, k - 1, k - 1);
      ScaleMonotone(10 * cap, 10 * cap, k - 1, k - 1);
    }
  }

  /** k presses of "less precision" divide the cap by 10**k (floor), clamped at 10**3. */
  lemma {:induction false} LoweringReaches(cap: int, k: nat)
    requires MinPrecision <= cap <= MaxPrecision
    ensures RepeatPrecision(cap, false, k) == if Shrink(cap, k) > MinPrecision then Shrink(cap, k) else MinPrecision
    decreases k
  {
    if k > 0 {
      var next := NextPrecision(cap, false);
      LoweringReaches(next, k - 1);
      ShrinkMonotone(next, next, k - 1, k - 1);
      ShrinkMonotone(cap / 10, cap / 10, k - 1, k - 1);
    }
  }

  /** Repeated increases saturate at 10**12: nine presses reach it from any
      in-range cap, and further presses keep it there. */
  lemma PrecisionSaturatesHigh(cap: int, k: nat)
    requires MinPrecision <= cap <= MaxPrecision && k >= 9
    ensures RepeatPrecision(cap, true, k) == MaxPrecision
  {
    RaisingReaches(cap, k);
    ScaleMonotone(MinPrecision, cap, 9, k);
    assert Scale(MinPrecision, 9) == MaxPrecision;
  }

  /** Repeated decreases saturate at 10**3: nine presses reach it from any
      in-range cap, and further presses keep it there. */
  lemma PrecisionSaturatesLow(cap: int, k: nat)
    requires MinPrecision <= cap <= MaxPrecision && k >= 9
    ensures RepeatPrecision(cap, false, k) == MinPrecision
  {
  }
}
