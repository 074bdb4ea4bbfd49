/** The two classes of the kernel, `Block2D` and `Simulation`, with the fields
    the source updates in place. Every state-changing method of `Simulation`
    is proved to take the state exactly where the matching function of
    `Engine` says; `Block2D.Bounce` and `Block2D.Simplify` follow
    `Physics.Reflect` and `Limit`. The constructor, `HandleCollision`,
    `MoveAndHandle`, `Update`, `Reset`, `AdjustSpeed` and `AdjustPrecision`
    also keep `Valid()`; `SimplifyFractions` keeps it from a consistent
    state. The smaller steps those are built from promise only their
    `Engine` function. */
module Simulation {
  import opened Rational
  import opened Physics
  import opened Engine

  /** One block: exact rational mass, velocity, position and size. */
  class Block2D {
    var mass: real
    var v: real
    var x: real
    var size: real

    /** Every field is capped at denominator 10**9 on construction. */
    constructor (mass: real, v: real, x: real, size: real)
      ensures Value() == NewBlock(mass, v, x, size)
    {
      var m := LimitDenominator(mass, DefaultCap);
      var u := LimitDenominator(v, DefaultCap);
      var p := LimitDenominator(x, DefaultCap);
      var s := LimitDenominator(size, DefaultCap);
      this.mass, this.v, this.x, this.size := m, u, p, s;
    }

    function Value(): Body
      reads this
    {
      Body(mass, v, x, size)
    }

    /** The wall branch of `handle_collision` for this block: reverse the
        velocity and put the block exactly against the wall. */
    method Bounce()
      modifies this
      ensures Value() == Reflect(old(Value()))
    {
      v := -v;
      x := size / 2.0;
    }

    /** `simplify`: cap velocity and position; mass and size are kept. */
    method Simplify(maxDenominator: int)
      requires maxDenominator >= 1
      modifies this
      ensures Value() == old(Value()).(v := Limit(old(v), maxDenominator), x := Limit(old(x), maxDenominator))
    {
      v := LimitDenominator(v, maxDenominator);
      x := LimitDenominator(x, maxDenominator);
    }
  }

  /** The stepping engine: two blocks, the collision counters, the precision
      settings, the cached conserved quantities and the pause flag. */
  class Simulation {
    const width: int
    var block0: Block2D
    var block1: Block2D
    var wallCollisions: int
    var blockCollisions: int
    var totalCollisions: int
    var timeStep: real
    var simulationSpeed: int
    var simplifyCounter: int
    var simplifyDenominator: int
    var totalEnergy: real
    var totalMomentum: real
    var initialEnergy: real
    var initialMomentum: real
    var paused: bool

    /** The whole state as a value. */
    function State(): World
      reads this, block0, block1
    {
      World(block0.Value(), block1.Value(),
            wallCollisions, blockCollisions, totalCollisions,
            timeStep, simulationSpeed, simplifyCounter, simplifyDenominator,
            totalEnergy, totalMomentum, initialEnergy, initialMomentum, paused)
    }

    ghost predicate Valid()
      reads this, block0, block1
    {
      block0 != block1 && Consistent(State())
    }

    /** `__init__`: the fixed starting configuration. */
    constructor (width: int)
      ensures this.width == width && State() == InitialWorld()
      ensures fresh(block0) && fresh(block1)
      ensures Valid()
    {
      this.width := width;
      var b0 := new Block2D(1.0, 0.0, 150.0, 30.0);
      var b1 := new Block2D(10000.0, -5.0, 600.0, 60.0);
      var step := LimitDenominator(TimeStep, DefaultCap);
      block0, block1 := b0, b1;
      wallCollisions, blockCollisions, totalCollisions := 0, 0, 0;
      timeStep := step;
      simulationSpeed := 256;
      simplifyCounter := 0;
      simplifyDenominator := DefaultCap;
      paused := false;
      new;
      RefreshTotals();
      TakeBaseline();
      ghost var w := State();
      assert w == InitialWorld();
      InitialWorldValues();
    }

    /** `_total_energy`: the kinetic energy of both blocks, capped at 10**9. */
    method ComputeEnergy() returns (e: real)
      ensures e == TotalEnergy(block0.Value(), block1.Value())
      ensures block0.mass >= 0.0 && block1.mass >= 0.0 ==> e >= 0.0
    {
      var exact := block0.mass * block0.v * block0.v / 2.0 + block1.mass * block1.v * block1.v / 2.0;
      assert exact == KineticEnergy(block0.Value(), block1.Value());
      e := LimitDenominator(exact, DefaultCap);
      assert e == Limit(KineticEnergy(block0.Value(), block1.Value()), DefaultCap);
    }

    /** `_total_momentum`: the momentum of both blocks, capped at 10**9. */
    method ComputeMomentum() returns (p: real)
      ensures p == TotalMomentum(block0.Value(), block1.Value())
    {
      var exact := block0.mass * block0.v + block1.mass * block1.v;
      assert exact == Momentum(block0.Value(), block1.Value());
      p := LimitDenominator(exact, DefaultCap);
    }

    /** `mass_ratio`: m1 / m0; the source divides by block 0's mass. */
    function CurrentMassRatio(): (q: real)
      reads this, block0, block1
      requires block0.mass != 0.0
      ensures q * block0.mass == block1.mass
    {
      MassRatio(block0.Value(), block1.Value())
    }

    /** `detect_collisions`. */
    function DetectCollisions(): Option<Collision>
      reads this, block0, block1
    {
      Detect(block0.Value(), block1.Value())
    }

    /** `simplify_fractions`: cap both blocks' velocity and position and the
        time step at the current cap. */
    method SimplifyFractions()
      requires block0 != block1 && simplifyDenominator >= 1
      modifies this, block0, block1
      ensures block0 == old(block0) && block1 == old(block1)
      ensures State() == SimplifyAll(old(State()))
      ensures Consistent(old(State())) ==> Valid()
    {
      if Consistent(State()) {
        SimplifyAllPreservesConsistent(State());
      }
      block0.Simplify(simplifyDenominator);
      block1.Simplify(simplifyDenominator);
      timeStep := LimitDenominator(timeStep, simplifyDenominator);
    }

    /** The block-block branch of `handle_collision`: elastic velocities and
        overlap corrections, each capped at the current denominator. */
    method CollideBlocks()
      requires block0 != block1 && block0.mass > 0.0 && block1.mass > 0.0 && simplifyDenominator >= 1
      modifies block0, block1
      ensures (block0.Value(), block1.Value()) == Collide(old(block0.Value()), old(block1.Value()), simplifyDenominator)
    {
      ghost var b0, b1 := block0.Value(), block1.Value();
      var m1, m2 := block0.mass, block1.mass;
      var v1, v2 := block0.v, block1.v;
      var newV1 := ((m1 - m2) * v1 + 2.0 * m2 * v2) / (m1 + m2);
      var newV2 := ((m2 - m1) * v2 + 2.0 * m1 * v1) / (m1 + m2);
      assert newV1 == ElasticVelocities(m1, v1, m2, v2).0;
      assert newV2 == ElasticVelocities(m1, v1, m2, v2).1;
      block0.v := LimitDenominator(newV1, simplifyDenominator);
      block1.v := LimitDenominator(newV2, simplifyDenominator);
      ghost var c0, c1 := block0.Value(), block1.Value();
      var minDistance := (block0.size + block1.size) / 2.0;
      var actualDistance := block1.x - block0.x;
      assert minDistance == MinDistance(c0, c1) && actualDistance == c1.x - c0.x;
      if actualDistance < minDistance {
        var overlap := minDistance - actualDistance;
        var totalMass := m1 + m2;
        assert overlap * m2 / totalMass == OverlapShift(m1, m2, overlap).0;
        assert overlap * m1 / totalMass == OverlapShift(m1, m2, overlap).1;
        var posAdj1 := LimitDenominator(overlap * m2 / totalMass, simplifyDenominator);
        var posAdj2 := LimitDenominator(overlap * m1 / totalMass, simplifyDenominator);
        block0.x := block0.x - posAdj1;
        block1.x := block1.x + posAdj2;
        assert block0.Value() == c0.(x := c0.x - posAdj1);
      }
    }

    /** The branch of `handle_collision` that matches the collision kind:
        move the blocks and count the collision. */
    method Impact(kind: Collision)
      requires block0 != block1 && block0.mass > 0.0 && block1.mass > 0.0 && simplifyDenominator >= 1
      modifies this, block0, block1
      ensures block0 == old(block0) && block1 == old(block1)
      ensures State() == Hit(old(State()), kind)
    {
      match kind {
        case Wall0 =>
          block0.Bounce();
          wallCollisions, totalCollisions := wallCollisions + 1, totalCollisions + 1;
        case Wall1 =>
          block1.Bounce();
          wallCollisions, totalCollisions := wallCollisions + 1, totalCollisions + 1;
        case Blocks =>
          CollideBlocks();
          blockCollisions, totalCollisions := blockCollisions + 1, totalCollisions + 1;
      }
    }

    /** The cached energy and momentum recomputed from the current blocks. */
    method RefreshTotals()
      modifies this
      ensures block0 == old(block0) && block1 == old(block1)
      ensures State() == Refresh(old(State()))
    {
      totalEnergy := ComputeEnergy();
      totalMomentum := ComputeMomentum();
    }

    /** `handle_collision`: resolve a detected collision in place, count it and
        refresh the cached energy and momentum. */
    method HandleCollision(kind: Collision)
      requires Valid()
      modifies this, block0, block1
      ensures block0 == old(block0) && block1 == old(block1)
      ensures State() == Resolve(old(State()), kind)
      ensures Valid()
    {
      ghost var before := State();
      Impact(kind);
      RefreshTotals();
      ResolvePreservesConsistent(before, kind);
    }

    /** The moving part of `update`: advance both blocks by one time step and
        resolve a collision found after the move. */
    method MoveAndHandle()
      requires Valid()
      modifies this, block0, block1
      ensures block0 == old(block0) && block1 == old(block1)
      ensures State() == MoveAndResolve(old(State()))
      ensures Valid()
    {
      block0.x := block0.x + block0.v * timeStep;
      block1.x := block1.x + block1.v * timeStep;
      var collision := DetectCollisions();
      if collision.Some? {
        HandleCollision(collision.value);
      }
    }

    /** The end of a moving tick of `update`: count it and cap the fractions
        every `SimplifyInterval` ticks. */
    method CountTick()
      requires block0 != block1 && simplifyDenominator >= 1
      modifies this, block0, block1
      ensures block0 == old(block0) && block1 == old(block1)
      ensures State() == Tick(old(State()))
    {
      simplifyCounter := simplifyCounter + 1;
      if simplifyCounter >= SimplifyInterval {
        SimplifyFractions();
        simplifyCounter := 0;
      }
    }

    /** `update`: one tick. Paused: nothing changes. Otherwise at most one
        collision is counted. */
    method Update()
      requires Valid()
      modifies this, block0, block1
      ensures block0 == old(block0) && block1 == old(block1)
      ensures State() == Step(old(State()))
      ensures Valid()
    {
      ghost var before := State();
      StepPreservesConsistent(before);
      if paused {
        return;
      }
      var collision := DetectCollisions();
      if collision.Some? {
        HandleCollision(collision.value);
        return;
      }
      MoveAndHandle();
      CountTick();
    }

    /** The counters `reset` clears: all collision counts and the periodic counter. */
    method ClearCounters()
      modifies this
      ensures block0 == old(block0) && block1 == old(block1)
      ensures State() == ZeroCounters(old(State()))
    {
      wallCollisions, blockCollisions, totalCollisions := 0, 0, 0;
      simplifyCounter := 0;
    }

    /** The current energy and momentum become the baseline. */
    method TakeBaseline()
      modifies this
      ensures block0 == old(block0) && block1 == old(block1)
      ensures State() == old(State()).(initialEnergy := old(totalEnergy), initialMomentum := old(totalMomentum))
    {
      initialEnergy, initialMomentum := totalEnergy, totalMomentum;
    }

    /** `reset`: new blocks with the given masses and block 1's velocity, zero
        counters, and the new energy and momentum as baseline. */
    method Reset(mass0: real, mass1: real, v1: real)
      requires Valid() && mass0 >= 1.0 && mass1 >= 1.0
      modifies this
      ensures fresh(block0) && fresh(block1)
      ensures State() == ResetWorld(old(State()), mass0, mass1, v1)
      ensures Valid()
    {
      ghost var before := State();
      var b0 := new Block2D(mass0, 0.0, 150.0, 30.0);
      var b1 := new Block2D(mass1, v1, 600.0, 60.0);
      block0, block1 := b0, b1;
      ClearCounters();
      RefreshTotals();
      TakeBaseline();
      ResetIsConsistent(before, mass0, mass1, v1);
    }

    /** `adjust_speed`: double or halve the steps per frame within [1, 100000]. */
    method AdjustSpeed(increase: bool)
      requires Valid()
      modifies this
      ensures block0 == old(block0) && block1 == old(block1)
      ensures State() == old(State()).(simulationSpeed := NextSpeed(old(simulationSpeed), increase))
      ensures Valid()
    {
      if increase {
        simulationSpeed := if MaxSpeed < simulationSpeed * 2 then MaxSpeed else simulationSpeed * 2;
      } else {
        simulationSpeed := if MinSpeed > simulationSpeed / 2 then MinSpeed else simulationSpeed / 2;
      }
    }

    /** `adjust_precision`: move the cap by a factor of ten within
        [10**3, 10**12], then cap the fractions at once. */
    method AdjustPrecision(increase: bool)
      requires Valid()
      modifies this, block0, block1
      ensures block0 == old(block0) && block1 == old(block1)
      ensures State() == RetunePrecision(old(State()), increase)
      ensures Valid()
    {
      RetunePrecisionIsConsistent(State(), increase);
      if increase {
        simplifyDenominator :=
          if MaxPrecision < simplifyDenominator * 10 then MaxPrecision else simplifyDenominator * 10;
      } else {
        simplifyDenominator := if MinPrecision > simplifyDenominator / 10 then MinPrecision else simplifyDenominator / 10;
      }
      SimplifyFractions();
    }
  }
}
