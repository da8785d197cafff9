/** A circular rigid body of the N-body toy (`Circle` in src/point.rs): its
    record of state, the integration step, the two in-place force edits and
    the accumulation of pairwise gravity.

    The pure operations and the specifications of the state-changing ones
    are functions on the value type `Circle`; the state-changing operations
    themselves are methods of the class `Body`, whose fields are those of
    the record and whose `Value()` packs them into one. Lists of bodies are
    sequences of `Circle` values, as the source passes copies of them. */
module Point {
  import opened Vectors
  import opened Floats

  type U32 = x: int | 0 <= x < 0x1_0000_0000

  /** The gravitational constant `add_gravity_to_force` passes on. */
  const G: real := 0.1
  /** The factor `air_drag` multiplies force and velocity by. */
  const DragFactor: real := 0.99
  /** The vertical force `gravity` sets. */
  const DownForce: real := -100.0
  /** The divisor of the accumulated potential energy. */
  const PotentialDivisor: real := 10.0

  /** One body. Force and potential energy may hold NaN; the other
      quantities are the reals they are when no NaN has reached them. */
  datatype Circle = Circle(
    pos: Vec2,
    prevVel: Vec2,
    velocity: Vec2,
    force: NumVec2,
    isKinematic: bool,
    mass: real,
    potentialEnergy: Num,
    kineticEnergy: real,
    radius: real,
    id: U32)

  /** A fresh body: at the origin, at rest, unit mass and radius, id 0, with
      a previous velocity of (1, 0). It is not frozen, and it starts with no
      force and no energy of either kind. */
  function New(): (c: Circle)
    ensures !Frozen(c)
    ensures c.force == Finite(Zero) && c.potentialEnergy == Val(0.0) && c.kineticEnergy == 0.0
  {
    Circle(Zero, Vec2(1.0, 0.0), Zero, Finite(Zero), false, 1.0, Val(0.0), 0.0, 1.0, 0)
  }

  /** What `new()` builds: a body at the origin and at rest, with previous
      velocity (1, 0), unit mass, id 0, and the radius the square root of the
      mass. */
  lemma NewAtRest(sqrt: real -> real)
    requires IsSqrt(sqrt)
    ensures New().pos == Zero && New().velocity == Zero && New().prevVel == Vec2(1.0, 0.0)
    ensures New().mass == 1.0 && New().radius == 1.0 && New().id == 0
    ensures New().radius == sqrt(New().mass)
  {
    RootIsUnique(sqrt, 1.0);
    assert Sq(1.0) == 1.0;
  }

  /** `update` leaves a body alone when it is kinematic or its force is NaN. */
  predicate Frozen(c: Circle) { c.isKinematic || c.force.IsNaN() }

  /** Kinetic energy, one half of mass times squared speed. */
  function KineticEnergy(c: Circle): real { 0.5 * c.mass * LengthSq(c.velocity) }

  // ---------------------------------------------------------------------
  // Integration step

  /** The state after `verlet_integration(dt)`: every right-hand side uses
      the values before the step, the force is used as an acceleration, and
      the difference of the current and the previous velocity stands in for
      the acceleration at the end of the step. */
  function Integrated(c: Circle, dt: real): Circle
    requires !c.force.IsNaN()
  {
    var f := c.force.Real();
    var futureAcceleration := Sub(c.velocity, c.prevVel);
    c.(pos := Add(Add(c.pos, Scale(dt, c.velocity)), Scale(dt * dt * 0.5, f)),
       velocity := Add(c.velocity, Scale(dt * 0.5, Add(f, futureAcceleration))),
       prevVel := c.velocity)
  }

  /** The state after `update(dt)`. */
  function Updated(sqrt: real -> real, c: Circle, dt: real): Circle {
    if Frozen(c) then c
    else
      var n := Integrated(c, dt);
      n.(kineticEnergy := 0.5 * n.mass * Length(sqrt, n.velocity) * Length(sqrt, n.velocity))
  }

  /** The state after `n` calls of `update(dt)`. */
  function Steps(sqrt: real -> real, c: Circle, dt: real, n: nat): Circle {
    if n == 0 then c else Updated(sqrt, Steps(sqrt, c, dt, n - 1), dt)
  }

  // ---------------------------------------------------------------------
  // Field edits

  /** The state after `air_drag()`. */
  function Dragged(c: Circle): Circle {
    c.(force := TimesV(DragFactor, c.force), velocity := Scale(DragFactor, c.velocity))
  }

  /** The state after `gravity(dt)`, which does not depend on `dt`. */
  function WithGravity(c: Circle): Circle {
    c.(force := c.force.(y := Val(DownForce)))
  }

  // ---------------------------------------------------------------------
  // Gravity between bodies

  /** `gravity_to_place(p2, g)`: the pull of `p2` on `c`, divided by the mass
      of `c`. The magnitude is `g * m1 * m2 / distance * distance`, which
      groups as `((g * m1 * m2) / distance) * distance`; the angle's cosine and
      sine are the distance components over the distance. A zero distance
      makes the magnitude NaN (a quotient by zero times zero), and so does a
      zero mass of `c` (zero over zero); NaN then reaches both components. */
  function GravityToPlace(sqrt: real -> real, c: Circle, p2: Circle, g: real): (f: NumVec2)
    ensures f.IsNaN() <==> Length(sqrt, Sub(p2.pos, c.pos)) == 0.0 || c.mass == 0.0
    ensures f.x.NaN? <==> f.y.NaN?
  {
    var offset := Sub(p2.pos, c.pos);
    var distance := Length(sqrt, offset);
    if distance == 0.0 then NaNVec
    else
      var force := g * c.mass * p2.mass / distance * distance;
      if c.mass == 0.0 then NaNVec
      else NumVec2(Val(offset.x / distance * force / c.mass),
                   Val(offset.y / distance * force / c.mass))
  }

  /** What one other body adds to the potential energy before the final
      division: the body's mass times the length of the pull times the
      distance between the two. */
  function PotentialTerm(sqrt: real -> real, c: Circle, p: Circle): (e: Num)
    ensures e.NaN? <==> GravityToPlace(sqrt, c, p, G).IsNaN()
  {
    var l := LengthN(sqrt, GravityToPlace(sqrt, c, p, G));
    if l.NaN? then NaN else Val(c.mass * l.r * Length(sqrt, Sub(c.pos, p.pos)))
  }

  /** The force `add_gravity_to_force` accumulates over `ps`, skipping every
      entry whose id is that of `c`. */
  function GravitySum(sqrt: real -> real, c: Circle, ps: seq<Circle>): NumVec2 {
    if |ps| == 0 then Finite(Zero)
    else
      var s := GravitySum(sqrt, c, ps[..|ps| - 1]);
      var p := ps[|ps| - 1];
      if p.id == c.id then s else PlusV(s, GravityToPlace(sqrt, c, p, G))
  }

  /** The potential energy `add_gravity_to_force` accumulates over `ps`. */
  function PotentialSum(sqrt: real -> real, c: Circle, ps: seq<Circle>): Num {
    if |ps| == 0 then Val(0.0)
    else
      var s := PotentialSum(sqrt, c, ps[..|ps| - 1]);
      var p := ps[|ps| - 1];
      if p.id == c.id then s else Plus(s, PotentialTerm(sqrt, c, p))
  }

  /** The state after `add_gravity_to_force(c, ps)`. */
  function Attracted(sqrt: real -> real, c: Circle, ps: seq<Circle>): Circle {
    c.(force := GravitySum(sqrt, c, ps),
       potentialEnergy := Quot(PotentialSum(sqrt, c, ps), PotentialDivisor))
  }

  /** The entries of `ps` whose id differs from that of `c`, in order. */
  function Others(c: Circle, ps: seq<Circle>): (r: seq<Circle>)
    ensures forall q :: q in r <==> q in ps && q.id != c.id
  {
    if |ps| == 0 then []
    else if ps[|ps| - 1].id == c.id then Others(c, ps[..|ps| - 1])
    else Others(c, ps[..|ps| - 1]) + [ps[|ps| - 1]]
  }

  /** An entry of another id is kept as often as it occurs in `ps`, and an
      entry of the body's own id not at all. */
  lemma {:induction false} OthersCount(c: Circle, ps: seq<Circle>)
    ensures forall q :: multiset(Others(c, ps))[q] == (if q.id != c.id then multiset(ps)[q] else 0)
  {
    if |ps| > 0 {
      var init, p := ps[..|ps| - 1], ps[|ps| - 1];
      OthersCount(c, init);
      assert ps == init + [p];
    }
  }

  /** The plain sum of the pulls of all entries of `qs` on `c`. */
  function TotalPull(sqrt: real -> real, c: Circle, qs: seq<Circle>): NumVec2 {
    if |qs| == 0 then Finite(Zero)
    else PlusV(TotalPull(sqrt, c, qs[..|qs| - 1]), GravityToPlace(sqrt, c, qs[|qs| - 1], G))
  }

  /** The plain sum of the potential terms of all entries of `qs`. */
  function TotalPotential(sqrt: real -> real, c: Circle, qs: seq<Circle>): Num {
    if |qs| == 0 then Val(0.0)
    else Plus(TotalPotential(sqrt, c, qs[..|qs| - 1]), PotentialTerm(sqrt, c, qs[|qs| - 1]))
  }

  // ---------------------------------------------------------------------
  // The body with its fields updated in place

  class Body {
    var pos: Vec2
    var prevVel: Vec2
    var velocity: Vec2
    var force: NumVec2
    var isKinematic: bool
    var mass: real
    var potentialEnergy: Num
    var kineticEnergy: real
    var radius: real
    var id: U32

    /** The fields as one record. */
    function Value(): Circle
      reads this
    {
      Circle(pos, prevVel, velocity, force, isKinematic, mass,
             potentialEnergy, kineticEnergy, radius, id)
    }

    /** A body holding the state `c`. */
    constructor (c: Circle)
      ensures Value() == c
    {
      pos, prevVel, velocity, force := c.pos, c.prevVel, c.velocity, c.force;
      isKinematic, mass := c.isKinematic, c.mass;
      potentialEnergy, kineticEnergy := c.potentialEnergy, c.kineticEnergy;
      radius, id := c.radius, c.id;
    }

    /** `update(dt)`: one integration step and the new kinetic energy, unless
        the body is frozen. */
    method Update(sqrt: real -> real, dt: real)
      modifies this
      ensures Value() == Updated(sqrt, old(Value()), dt)
    {
      if isKinematic || force.IsNaN() {
        return;
      }
      VerletIntegration(dt);
      kineticEnergy := 0.5 * mass * Length(sqrt, velocity) * Length(sqrt, velocity);
    }

    /** `verlet_integration(dt)`. */
    method VerletIntegration(dt: real)
      requires !force.IsNaN()
      modifies this
      ensures Value() == Integrated(old(Value()), dt)
    {
      var savedVelocity := velocity;
      var futureAcceleration := Sub(velocity, prevVel);
      var f := force.Real();
      pos := Add(Add(pos, Scale(dt, velocity)), Scale(dt * dt * 0.5, f));
      velocity := Add(velocity, Scale(dt * 0.5, Add(f, futureAcceleration)));
      prevVel := savedVelocity;
    }

    /** `air_drag()`. */
    method AirDrag()
      modifies this
      ensures Value() == Dragged(old(Value()))
    {
      force := TimesV(DragFactor, force);
      velocity := Scale(DragFactor, velocity);
    }

    /** `gravity(dt)`; `dt` is not used. */
    method Gravity(dt: real)
      modifies this
      ensures Value() == WithGravity(old(Value()))
    {
      force := force.(y := Val(DownForce));
    }

    /** `add_gravity_to_force(self, planets)`: sums the pull and the potential
        energy of every entry whose id is not this body's, then stores both. */
    method AddGravityToForce(sqrt: real -> real, planets: seq<Circle>)
      modifies this
      ensures Value() == Attracted(sqrt, old(Value()), planets)
    {
      var me := Value();
      var sum := Finite(Zero);
      var potential := Val(0.0);
      for i := 0 to |planets|
        invariant Value() == me
        invariant sum == GravitySum(sqrt, me, planets[..i])
        invariant potential == PotentialSum(sqrt, me, planets[..i])
      {
        var planet := planets[i];
        assert planets[..i + 1][..i] == planets[..i];
        if planet.id == id {
          continue;
        }
        potential := Plus(potential, PotentialTerm(sqrt, me, planet));
        sum := PlusV(sum, GravityToPlace(sqrt, me, planet, G));
      }
      assert planets[..|planets|] == planets;
      potentialEnergy := Quot(potential, PotentialDivisor);
      force := sum;
    }
  }

  // ---------------------------------------------------------------------
  // Properties of gravity between bodies

  /** One component of the pull, simplified over the reals. */
  lemma PullComponent(u: real, d: real, g: real, m1: real, m2: real)
    requires d != 0.0 && m1 != 0.0
    ensures u / d * (g * m1 * m2 / d * d) / m1 == g * m2 / d * u
  {
    var f := g * m1 * m2;
    assert f / d * d == f;
    var q := u / d;
    assert q * d == u;
    var k := g * m2 / d;
    assert k * d == g * m2;
    assert q * f == (u * g * m2) / d * m1;
    assert q * f / m1 == (u * g * m2) / d;
  }

  /** Away from coincident positions and a zero mass of `c`, the pull is
      `g * m2 / d` times the offset to `p2`, with `d` the distance. */
  lemma GravityToPlaceClosedForm(sqrt: real -> real, c: Circle, p2: Circle, g: real)
    requires IsSqrt(sqrt) && c.pos != p2.pos && c.mass != 0.0
    ensures 0.0 < Length(sqrt, Sub(p2.pos, c.pos))
    ensures GravityToPlace(sqrt, c, p2, g)
      == Finite(Scale(g * p2.mass / Length(sqrt, Sub(p2.pos, c.pos)), Sub(p2.pos, c.pos)))
  {
    var u := Sub(p2.pos, c.pos);
    SubIsZero(p2.pos, c.pos);
    LengthIsRoot(sqrt, u);
    var d := Length(sqrt, u);
    PullComponent(u.x, d, g, c.mass, p2.mass);
    PullComponent(u.y, d, g, c.mass, p2.mass);
  }

  /** The pull is NaN exactly when the two positions coincide or `c` has no
      mass, and then in both components at once. */
  lemma GravityToPlaceIsNaN(sqrt: real -> real, c: Circle, p2: Circle, g: real)
    requires IsSqrt(sqrt)
    ensures GravityToPlace(sqrt, c, p2, g).IsNaN() <==> c.pos == p2.pos || c.mass == 0.0
    ensures GravityToPlace(sqrt, c, p2, g).x.NaN? <==> GravityToPlace(sqrt, c, p2, g).y.NaN?
  {
    var u := Sub(p2.pos, c.pos);
    SubIsZero(p2.pos, c.pos);
    LengthIsRoot(sqrt, u);
  }

  /** The strength of the pull does not depend on the distance: its length is
      `|g * m2|` wherever it is defined. */
  lemma GravityMagnitude(sqrt: real -> real, c: Circle, p2: Circle, g: real)
    requires IsSqrt(sqrt) && c.pos != p2.pos && c.mass != 0.0
    ensures !GravityToPlace(sqrt, c, p2, g).IsNaN()
    ensures LengthSq(GravityToPlace(sqrt, c, p2, g).Real()) == Sq(g * p2.mass)
    ensures LengthN(sqrt, GravityToPlace(sqrt, c, p2, g)) == Val(Abs(g * p2.mass))
  {
    GravityToPlaceClosedForm(sqrt, c, p2, g);
    var u := Sub(p2.pos, c.pos);
    LengthIsRoot(sqrt, u);
    var d := Length(sqrt, u);
    var k := g * p2.mass / d;
    ScaleLengthSq(k, u);
    assert k * d == g * p2.mass;
    assert Sq(k) * Sq(d) == Sq(k * d);
    RootIsUnique(sqrt, g * p2.mass);
  }

  /** The pull points from `c` towards `p2`: its component along the offset
      is `g * m2` times the distance. */
  lemma GravityPointsAtPartner(sqrt: real -> real, c: Circle, p2: Circle, g: real)
    requires IsSqrt(sqrt) && c.pos != p2.pos && c.mass != 0.0
    ensures !GravityToPlace(sqrt, c, p2, g).IsNaN()
    ensures Dot(GravityToPlace(sqrt, c, p2, g).Real(), Sub(p2.pos, c.pos))
      == g * p2.mass * Length(sqrt, Sub(p2.pos, c.pos))
  {
    GravityToPlaceClosedForm(sqrt, c, p2, g);
    var u := Sub(p2.pos, c.pos);
    LengthIsRoot(sqrt, u);
    var d := Length(sqrt, u);
    var k := g * p2.mass / d;
    calc {
      Dot(Scale(k, u), u);
      k * (u.x * u.x + u.y * u.y);
      k * LengthSq(u);
      k * Sq(d);
      (k * d) * d;
      g * p2.mass * d;
    }
  }

  /** Action and reaction: the pulls of two bodies on each other, each
      multiplied back by the mass it was divided by, cancel. */
  lemma GravityThirdLaw(sqrt: real -> real, a: Circle, b: Circle, g: real)
    requires IsSqrt(sqrt) && a.pos != b.pos && a.mass != 0.0 && b.mass != 0.0
    ensures !GravityToPlace(sqrt, a, b, g).IsNaN() && !GravityToPlace(sqrt, b, a, g).IsNaN()
    ensures Add(Scale(a.mass, GravityToPlace(sqrt, a, b, g).Real()),
                Scale(b.mass, GravityToPlace(sqrt, b, a, g).Real())) == Zero
  {
    GravityToPlaceClosedForm(sqrt, a, b, g);
    GravityToPlaceClosedForm(sqrt, b, a, g);
    LengthSymmetric(sqrt, b.pos, a.pos);
    var u := Sub(b.pos, a.pos);
    var d := Length(sqrt, u);
    var k1, k2 := g * b.mass / d, g * a.mass / d;
    assert a.mass * k1 == b.mass * k2;
    assert Sub(a.pos, b.pos) == Scale(-1.0, u);
  }

  /** Where the pull is defined, a body's share of the potential energy is its
      mass times `|G * m2|` times the distance; it is NaN exactly where the
      pull is. */
  lemma PotentialTermClosedForm(sqrt: real -> real, c: Circle, p: Circle)
    requires IsSqrt(sqrt)
    ensures PotentialTerm(sqrt, c, p).NaN? <==> c.pos == p.pos || c.mass == 0.0
    ensures c.pos != p.pos && c.mass != 0.0 ==>
      PotentialTerm(sqrt, c, p) == Val(c.mass * Abs(G * p.mass) * Length(sqrt, Sub(c.pos, p.pos)))
  {
    GravityToPlaceIsNaN(sqrt, c, p, G);
    if c.pos != p.pos && c.mass != 0.0 {
      GravityMagnitude(sqrt, c, p, G);
    }
  }

  // ---------------------------------------------------------------------
  // Properties of the accumulated gravity

  /** The accumulated force is the plain sum of the pulls of the entries
      whose id differs from the body's own: entries with its id add nothing. */
  lemma {:induction false} GravitySumOverOthers(sqrt: real -> real, c: Circle, ps: seq<Circle>)
    ensures GravitySum(sqrt, c, ps) == TotalPull(sqrt, c, Others(c, ps))
  {
    if |ps| > 0 {
      var init, p := ps[..|ps| - 1], ps[|ps| - 1];
      GravitySumOverOthers(sqrt, c, init);
      if p.id != c.id {
        var o := Others(c, init);
        assert (o + [p])[..|o|] == o;
      }
    }
  }

  /** The accumulated potential energy, before the division, is the plain sum
      of the terms of the entries whose id differs from the body's own. */
  lemma {:induction false} PotentialSumOverOthers(sqrt: real -> real, c: Circle, ps: seq<Circle>)
    ensures PotentialSum(sqrt, c, ps) == TotalPotential(sqrt, c, Others(c, ps))
    ensures Attracted(sqrt, c, ps).potentialEnergy
      == Quot(TotalPotential(sqrt, c, Others(c, ps)), PotentialDivisor)
  {
    if |ps| > 0 {
      var init, p := ps[..|ps| - 1], ps[|ps| - 1];
      PotentialSumOverOthers(sqrt, c, init);
      if p.id != c.id {
        var o := Others(c, init);
        assert (o + [p])[..|o|] == o;
      }
    }
  }

  /** With no entry of another id (an empty list, or the body alone), the
      force and the potential energy are zero. */
  lemma {:induction false} NoOthersNoGravity(sqrt: real -> real, c: Circle, ps: seq<Circle>)
    requires forall i :: 0 <= i < |ps| ==> ps[i].id == c.id
    ensures GravitySum(sqrt, c, ps) == Finite(Zero)
    ensures PotentialSum(sqrt, c, ps) == Val(0.0)
    ensures Attracted(sqrt, c, ps).force == Finite(Zero)
    ensures Attracted(sqrt, c, ps).potentialEnergy == Val(0.0)
  {
    if |ps| > 0 {
      NoOthersNoGravity(sqrt, c, ps[..|ps| - 1]);
    }
  }

  /** Some entry of another id sits on the body, or there is some entry of
      another id while the body has no mass: the cases that make a pull NaN. */
  predicate Singular(c: Circle, ps: seq<Circle>) {
    exists i :: 0 <= i < |ps| && ps[i].id != c.id && (ps[i].pos == c.pos || c.mass == 0.0)
  }

  /** `Singular` of a non-empty list: of its prefix, or because of its last
      entry. */
  lemma SingularLast(c: Circle, ps: seq<Circle>)
    requires |ps| > 0
    ensures Singular(c, ps) <==>
      Singular(c, ps[..|ps| - 1])
      || (ps[|ps| - 1].id != c.id && (ps[|ps| - 1].pos == c.pos || c.mass == 0.0))
  {
    var init := ps[..|ps| - 1];
    if Singular(c, init) {
      var i :| 0 <= i < |init| && init[i].id != c.id && (init[i].pos == c.pos || c.mass == 0.0);
      assert ps[i] == init[i];
    }
    if Singular(c, ps) && !Singular(c, init) {
      var i :| 0 <= i < |ps| && ps[i].id != c.id && (ps[i].pos == c.pos || c.mass == 0.0);
      assert i == |init|;
    }
  }

  /** The accumulated force, and likewise the potential energy, is NaN exactly
      when some other entry makes its pull NaN. */
  lemma {:induction false} GravitySumIsNaN(sqrt: real -> real, c: Circle, ps: seq<Circle>)
    requires IsSqrt(sqrt)
    ensures GravitySum(sqrt, c, ps).IsNaN() <==> Singular(c, ps)
    ensures PotentialSum(sqrt, c, ps).NaN? <==> Singular(c, ps)
  {
    if |ps| > 0 {
      var init, p := ps[..|ps| - 1], ps[|ps| - 1];
      GravitySumIsNaN(sqrt, c, init);
      SingularLast(c, ps);
      if p.id != c.id {
        GravityToPlaceIsNaN(sqrt, c, p, G);
        PotentialTermClosedForm(sqrt, c, p);
      }
    }
  }

  // ---------------------------------------------------------------------
  // Properties of the integration step and the field edits

  /** A frozen body stays exactly as it is over any number of updates. */
  lemma {:induction false} FrozenStaysPut(sqrt: real -> real, c: Circle, dt: real, n: nat)
    requires Frozen(c)
    ensures Steps(sqrt, c, dt, n) == c
  {
    if n > 0 {
      FrozenStaysPut(sqrt, c, dt, n - 1);
    }
  }

  /** The kinetic energy as `update` computes it, from the length of the
      velocity, is one half of mass times squared speed. */
  lemma KineticEnergyFromLength(sqrt: real -> real, c: Circle)
    requires IsSqrt(sqrt)
    ensures 0.5 * c.mass * Length(sqrt, c.velocity) * Length(sqrt, c.velocity) == KineticEnergy(c)
  {
    var l := Length(sqrt, c.velocity);
    LengthIsRoot(sqrt, c.velocity);
    assert 0.5 * c.mass * l * l == 0.5 * c.mass * Sq(l);
  }

  /** An update that is not skipped is one integration step followed by
      setting the kinetic energy to one half of mass times squared speed,
      taken with the new velocity. */
  lemma UpdateMoves(sqrt: real -> real, c: Circle, dt: real)
    requires IsSqrt(sqrt) && !Frozen(c)
    ensures Updated(sqrt, c, dt) == Integrated(c, dt).(kineticEnergy := KineticEnergy(Integrated(c, dt)))
  {
    KineticEnergyFromLength(sqrt, Integrated(c, dt));
  }

  /** After an update the stored kinetic energy agrees with the velocity. */
  lemma UpdateKineticEnergy(sqrt: real -> real, c: Circle, dt: real)
    requires IsSqrt(sqrt) && c.kineticEnergy == KineticEnergy(c)
    ensures Updated(sqrt, c, dt).kineticEnergy == KineticEnergy(Updated(sqrt, c, dt))
  {
    if !Frozen(c) {
      UpdateMoves(sqrt, c, dt);
    }
  }

  /** Updates change the position, the two velocities and the kinetic
      energy, and nothing else. */
  lemma {:induction false} StepsKeepTheRest(sqrt: real -> real, c: Circle, dt: real, n: nat)
    ensures Steps(sqrt, c, dt, n).force == c.force
    ensures Steps(sqrt, c, dt, n).isKinematic == c.isKinematic
    ensures Steps(sqrt, c, dt, n).mass == c.mass
    ensures Steps(sqrt, c, dt, n).potentialEnergy == c.potentialEnergy
    ensures Steps(sqrt, c, dt, n).radius == c.radius
    ensures Steps(sqrt, c, dt, n).id == c.id
  {
    if n > 0 {
      StepsKeepTheRest(sqrt, c, dt, n - 1);
    }
  }

  /** Free of force, with equal current and previous velocity, one
      integration step moves the body by `dt` times its velocity and keeps
      both velocities. */
  lemma IntegratedForceFree(c: Circle, dt: real)
    requires c.force == Finite(Zero) && c.prevVel == c.velocity
    ensures Integrated(c, dt).pos == Add(c.pos, Scale(dt, c.velocity))
    ensures Integrated(c, dt).velocity == c.velocity
    ensures Integrated(c, dt).prevVel == c.velocity
  {
    var v := c.velocity;
    ScaleLaws(dt * dt * 0.5, dt * 0.5, Add(c.pos, Scale(dt, v)), v);
    ScaleLaws(dt * 0.5, 0.0, v, v);
    assert c.force.Real() == Zero;
    assert Add(Zero, Sub(v, v)) == Zero;
  }

  /** Free of force, a body whose previous velocity equals its velocity
      moves along a straight line at that velocity, `dt` per update. */
  lemma {:induction false} UniformMotion(sqrt: real -> real, c: Circle, dt: real, n: nat)
    requires !c.isKinematic && c.force == Finite(Zero) && c.prevVel == c.velocity
    ensures Steps(sqrt, c, dt, n).pos == Add(c.pos, Scale(n as real * dt, c.velocity))
    ensures Steps(sqrt, c, dt, n).velocity == c.velocity
    ensures Steps(sqrt, c, dt, n).prevVel == c.velocity
    ensures Steps(sqrt, c, dt, n).force == c.force
    ensures !Steps(sqrt, c, dt, n).isKinematic
  {
    var v := c.velocity;
    if n == 0 {
      ScaleLaws(0.0, 0.0, c.pos, v);
      assert Scale(0.0, v) == Scale(0.0 + 0.0, v);
    } else {
      UniformMotion(sqrt, c, dt, n - 1);
      var s := Steps(sqrt, c, dt, n - 1);
      var t := (n - 1) as real * dt;
      IntegratedForceFree(s, dt);
      var i := Integrated(s, dt);
      ScaleLaws(t, dt, c.pos, v);
      assert t + dt == n as real * dt;
      assert i.pos == Add(c.pos, Scale(n as real * dt, v));
      assert Steps(sqrt, c, dt, n) == i.(kineticEnergy := Steps(sqrt, c, dt, n).kineticEnergy);
    }
  }

  /** A fresh body under no force does not stay at rest: its previous
      velocity (1, 0) against its zero velocity gives it the velocity
      (-dt/2, 0) after one update, while it keeps its place. A fresh body is
      not frozen, so the update does run. */
  lemma FreshBodyDrifts(sqrt: real -> real, dt: real)
    ensures Updated(sqrt, New(), dt).pos == Zero
    ensures Updated(sqrt, New(), dt).prevVel == Zero
    ensures Updated(sqrt, New(), dt).velocity == Vec2(-0.5 * dt, 0.0)
  {
    var n := Integrated(New(), dt);
    assert n.pos == Zero && n.prevVel == Zero && n.velocity == Vec2(-0.5 * dt, 0.0);
    assert Updated(sqrt, New(), dt) == n.(kineticEnergy := Updated(sqrt, New(), dt).kineticEnergy);
  }

  /** Multiplying a non-negative quantity by the squared drag factor does not
      increase it, and decreases it when it is positive. */
  lemma DragShrinks(q: real)
    requires 0.0 <= q
    ensures Sq(DragFactor) * q <= q
    ensures 0.0 < q ==> Sq(DragFactor) * q < q
  {
    assert Sq(DragFactor) == 0.9801;
  }

  /** Drag changes only the force and the velocity, keeps whether the force
      is NaN, and so whether the body is frozen. */
  lemma DragKeepsFrozen(c: Circle)
    ensures Dragged(c).(force := c.force, velocity := c.velocity) == c
    ensures Dragged(c).force.IsNaN() <==> c.force.IsNaN()
    ensures Frozen(Dragged(c)) <==> Frozen(c)
  {
  }

  /** Drag never speeds a body up: the squared speed shrinks by the square of
      the drag factor, strictly unless the body is at rest. */
  lemma DragSlowsDown(c: Circle)
    ensures LengthSq(Dragged(c).velocity) == Sq(DragFactor) * LengthSq(c.velocity)
    ensures LengthSq(Dragged(c).velocity) <= LengthSq(c.velocity)
    ensures c.velocity != Zero ==> LengthSq(Dragged(c).velocity) < LengthSq(c.velocity)
  {
    var v := c.velocity;
    var q, a := LengthSq(v), LengthSq(Dragged(c).velocity);
    assert a == Sq(DragFactor) * q by {
      ScaleLengthSq(DragFactor, v);
    }
    assert 0.0 <= q && (v != Zero ==> 0.0 < q) by {
      LengthSqFacts(v);
    }
    DragShrinks(q);
  }

  /** For a non-negative mass, drag does not increase the kinetic energy. */
  lemma DragLosesEnergy(c: Circle)
    requires 0.0 <= c.mass
    ensures KineticEnergy(Dragged(c)) <= KineticEnergy(c)
  {
    var before, after := LengthSq(c.velocity), LengthSq(Dragged(c).velocity);
    assert after <= before by {
      DragSlowsDown(c);
    }
    HalfMassMonotone(c.mass, after, before);
  }

  /** For a non-negative mass, one half of mass times a quantity is monotone
      in the quantity. */
  lemma HalfMassMonotone(m: real, a: real, b: real)
    requires 0.0 <= m && a <= b
    ensures 0.5 * m * a <= 0.5 * m * b
  {
    var h := 0.5 * m;
    assert h * b - h * a == h * (b - a);
  }

  /** `gravity` sets the vertical force to -100, keeps the horizontal one and
      everything else, repeats harmlessly, and leaves the force NaN exactly
      when its horizontal component was. */
  lemma GravitySetsDownForce(c: Circle)
    ensures WithGravity(c).force.x == c.force.x
    ensures WithGravity(c).force.y == Val(DownForce)
    ensures WithGravity(c).(force := c.force) == c
    ensures WithGravity(WithGravity(c)) == WithGravity(c)
    ensures WithGravity(c).force.IsNaN() <==> c.force.x.NaN?
  {
  }
}
