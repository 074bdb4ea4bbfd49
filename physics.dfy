/** The physics of the two blocks as pure functions of their values: collision
    detection in its fixed priority order, wall reflection, the 1-D elastic
    collision with overlap correction, and the conserved quantities. */
module Physics {
  import opened Rational

  /** The value of one `Block2D`: mass, velocity, position of its centre, size. */
  datatype Body = Body(mass: real, v: real, x: real, size: real)

  /** The three collision kinds `detect_collisions` reports. */
  datatype Collision = Wall0 | Wall1 | Blocks

  datatype Option<T> = None | Some(value: T)

  /** The denominator cap used when a block is built and for the cached
      energy and momentum (10**9 in the source). */
  const DefaultCap: int := 1_000_000_000

  /** The block touches or has passed the wall at 0 and moves towards it. */
  predicate AtWall(b: Body) {
    b.x <= b.size / 2.0 && b.v < 0.0
  }

  /** Distance between the centres of the two blocks when their faces touch. */
  function MinDistance(b0: Body, b1: Body): real {
    (b0.size + b1.size) / 2.0
  }

  /** The blocks touch or overlap and block 0 is faster to the right than block 1. */
  predicate Approaching(b0: Body, b1: Body) {
    b1.x - b0.x <= MinDistance(b0, b1) && b0.v > b1.v
  }

  /** `detect_collisions`: wall 0 first, then wall 1, then the blocks; the first
      condition that holds decides the answer. */
  function Detect(b0: Body, b1: Body): (r: Option<Collision>)
    ensures r == Some(Wall0) <==> AtWall(b0)
    ensures r == Some(Wall1) <==> !AtWall(b0) && AtWall(b1)
    ensures r == Some(Blocks) <==> !AtWall(b0) && !AtWall(b1) && Approaching(b0, b1)
    ensures r == None <==> !AtWall(b0) && !AtWall(b1) && !Approaching(b0, b1)
  {
    if AtWall(b0) then Some(Wall0)
    else if AtWall(b1) then Some(Wall1)
    else if Approaching(b0, b1) then Some(Blocks)
    else None
  }

  /** Wall reflection: the velocity is negated exactly and the block is put
      exactly against the wall. */
  function Reflect(b: Body): (r: Body)
    ensures r.mass == b.mass && r.size == b.size
    ensures r.v * r.v == b.v * b.v
    ensures AtWall(b) ==> r.v > 0.0 && !AtWall(r)
  {
    b.(v := -b.v, x := b.size / 2.0)
  }

  /** The velocities after a 1-D elastic collision of masses m0 and m1 moving
      at v0 and v1, before any capping. */
  function ElasticVelocities(m0: real, v0: real, m1: real, v1: real): (real, real)
    requires m0 + m1 != 0.0
  {
    (((m0 - m1) * v0 + 2.0 * m1 * v1) / (m0 + m1),
     ((m1 - m0) * v1 + 2.0 * m0 * v0) / (m0 + m1))
  }

  /** The elastic velocities keep the momentum and reverse the relative
      velocity. */
  lemma ElasticConservesMomentum(m0: real, v0: real, m1: real, v1: real)
    requires m0 + m1 != 0.0
    ensures var r := ElasticVelocities(m0, v0, m1, v1);
      m0 * r.0 + m1 * r.1 == m0 * v0 + m1 * v1 && r.1 - r.0 == v0 - v1
  {
  }

  /** The elastic velocities also preserve kinetic energy (2x, to avoid halves). */
  lemma ElasticConservesEnergy(m0: real, v0: real, m1: real, v1: real)
    requires m0 + m1 != 0.0
    ensures var r := ElasticVelocities(m0, v0, m1, v1);
      m0 * r.0 * r.0 + m1 * r.1 * r.1 == m0 * v0 * v0 + m1 * v1 * v1
  {
  }

  /** The position corrections after a block collision: block 0 moves back by
      the first amount and block 1 forward by the second, before capping. */
  function OverlapShift(m0: real, m1: real, overlap: real): (real, real)
    requires m0 + m1 != 0.0
  {
    var total := m0 + m1;
    (overlap * m1 / total, overlap * m0 / total)
  }

  /** The corrections add up to the overlap, are in inverse proportion to the
      masses, and are never negative for positive masses and overlap. */
  lemma OverlapShiftSplits(m0: real, m1: real, overlap: real)
    requires m0 + m1 != 0.0
    ensures var r := OverlapShift(m0, m1, overlap);
      && r.0 + r.1 == overlap
      && m0 * r.0 == m1 * r.1
      && (m0 > 0.0 && m1 > 0.0 && overlap >= 0.0 ==> r.0 >= 0.0 && r.1 >= 0.0)
  {
  }

  /** The exact corrections restore the contact distance exactly. */
  lemma OverlapRestoresContact(b0: Body, b1: Body)
    requires b0.mass + b1.mass != 0.0
    requires b1.x - b0.x < MinDistance(b0, b1)
    ensures var s := OverlapShift(b0.mass, b1.mass, MinDistance(b0, b1) - (b1.x - b0.x));
      (b1.x + s.1) - (b0.x - s.0) == MinDistance(b0, b1)
  {
  }

  /** The block-block branch of `handle_collision`: elastic velocities capped at
      `cap`, then, if the blocks overlap, the capped position corrections. */
  ghost function Collide(b0: Body, b1: Body, cap: int): (r: (Body, Body))
    requires b0.mass > 0.0 && b1.mass > 0.0 && cap >= 1
    ensures r.0.mass == b0.mass && r.0.size == b0.size
    ensures r.1.mass == b1.mass && r.1.size == b1.size
    ensures Approaching(b0, b1) ==> r.0.v <= r.1.v && !Approaching(r.0, r.1)
    ensures b1.x - b0.x >= MinDistance(b0, b1) ==> r.0.x == b0.x && r.1.x == b1.x
    ensures r.0.x <= b0.x && b1.x <= r.1.x
  {
    var nv := ElasticVelocities(b0.mass, b0.v, b1.mass, b1.v);
    ElasticConservesMomentum(b0.mass, b0.v, b1.mass, b1.v);
    var c0 := b0.(v := Limit(nv.0, cap));
    var c1 := b1.(v := Limit(nv.1, cap));
    assert nv.0 <= nv.1 ==> Limit(nv.0, cap) <= Limit(nv.1, cap) by {
      if nv.0 <= nv.1 { LimitMonotone(nv.0, nv.1, cap); }
    }
    var actual := c1.x - c0.x;
    if actual < MinDistance(c0, c1) then
      var shift := OverlapShift(b0.mass, b1.mass, MinDistance(c0, c1) - actual);
      OverlapShiftSplits(b0.mass, b1.mass, MinDistance(c0, c1) - actual);
      LimitNonNegative(shift.0, cap);
      LimitNonNegative(shift.1, cap);
      (c0.(x := c0.x - Limit(shift.0, cap)), c1.(x := c1.x + Limit(shift.1, cap)))
    else
      (c0, c1)
  }

  /** `Block2D.__init__`: every field is capped at denominator 10**9. A mass
      or size of at least 1 stays at least 1. */
  ghost function NewBlock(mass: real, v: real, x: real, size: real): (b: Body)
    ensures mass >= 1.0 ==> b.mass >= 1.0
    ensures size >= 1.0 ==> b.size >= 1.0
  {
    IntegerFits(1, DefaultCap);
    LimitBetween(mass, 1.0, DefaultCap);
    LimitBetween(size, 1.0, DefaultCap);
    Body(Limit(mass, DefaultCap), Limit(v, DefaultCap), Limit(x, DefaultCap), Limit(size, DefaultCap))
  }

  /** A new block keeps every field that already fits denominator 10**9. */
  lemma NewBlockKeepsFitting(mass: real, v: real, x: real, size: real)
    ensures var b := NewBlock(mass, v, x, size);
      && (Fits(mass, DefaultCap) ==> b.mass == mass)
      && (Fits(v, DefaultCap) ==> b.v == v)
      && (Fits(x, DefaultCap) ==> b.x == x)
      && (Fits(size, DefaultCap) ==> b.size == size)
  {
    LimitKeepsFitting(mass, DefaultCap);
    LimitKeepsFitting(v, DefaultCap);
    LimitKeepsFitting(x, DefaultCap);
    LimitKeepsFitting(size, DefaultCap);
  }

  /** Exact total kinetic energy m0 v0^2 / 2 + m1 v1^2 / 2. */
  function KineticEnergy(b0: Body, b1: Body): real {
    b0.mass * b0.v * b0.v / 2.0 + b1.mass * b1.v * b1.v / 2.0
  }

  /** Kinetic energy is never negative when no mass is. */
  lemma KineticEnergyNonNegative(b0: Body, b1: Body)
    ensures b0.mass >= 0.0 && b1.mass >= 0.0 ==> KineticEnergy(b0, b1) >= 0.0
  {
  }

  /** Exact total momentum m0 v0 + m1 v1. */
  function Momentum(b0: Body, b1: Body): real {
    b0.mass * b0.v + b1.mass * b1.v
  }

  /** `_total_energy`: the kinetic energy capped at denominator 10**9. It is
      never negative for non-negative masses. */
  ghost function TotalEnergy(b0: Body, b1: Body): (e: real)
    ensures b0.mass >= 0.0 && b1.mass >= 0.0 ==> e >= 0.0
  {
    var exact := KineticEnergy(b0, b1);
    KineticEnergyNonNegative(b0, b1);
    LimitNonNegative(exact, DefaultCap);
    Limit(exact, DefaultCap)
  }

  /** `_total_momentum`: the momentum capped at denominator 10**9. */
  ghost function TotalMomentum(b0: Body, b1: Body): real {
    Limit(Momentum(b0, b1), DefaultCap)
  }

  /** The cached energy and momentum are exact whenever the exact values
      already fit denominator 10**9. */
  lemma TotalsExactWhenFitting(b0: Body, b1: Body)
    ensures Fits(KineticEnergy(b0, b1), DefaultCap) ==> TotalEnergy(b0, b1) == KineticEnergy(b0, b1)
    ensures Fits(Momentum(b0, b1), DefaultCap) ==> TotalMomentum(b0, b1) == Momentum(b0, b1)
  {
    LimitKeepsFitting(KineticEnergy(b0, b1), DefaultCap);
    LimitKeepsFitting(Momentum(b0, b1), DefaultCap);
  }

  /** `mass_ratio`: m1 / m0. */
  function MassRatio(b0: Body, b1: Body): (q: real)
    requires b0.mass != 0.0
    ensures q * b0.mass == b1.mass
    ensures b0.mass > 0.0 && b1.mass > 0.0 ==> q > 0.0
  {
    b1.mass / b0.mass
  }
}
