/** Collision geometry between circular bodies (the third `impl Circle`
    block of src/point.rs): which bodies touch, the velocities after an
    elastic collision, and the displacement that removes an overlap. */
module Collision {
  import opened Vectors
  import opened Point

  datatype Option<T> = None | Some(value: T)

  // ---------------------------------------------------------------------
  // Which bodies touch

  /** The squared distance of the centres. */
  function DistSq(c: Circle, p: Circle): real { LengthSq(Sub(c.pos, p.pos)) }

  /** The test both collision checks apply to `p`: another id, and a squared
      distance between the squared difference and the squared sum of the
      radii, bounds included when `edge` holds and excluded otherwise. */
  predicate Reported(c: Circle, p: Circle, edge: bool) {
    var radiusDiff := Sq(c.radius - p.radius);
    var radiusAdd := Sq(c.radius + p.radius);
    var distSq := DistSq(c, p);
    p.id != c.id
      && ((radiusDiff <= distSq && distSq <= radiusAdd && edge)
          || (radiusDiff < distSq && distSq < radiusAdd && !edge))
  }

  /** What `check_collisions` returns: the entries of `ps` that pass the
      test, in their order, each as often as it occurs in `ps`. */
  function Collisions(c: Circle, ps: seq<Circle>, edge: bool): (r: seq<Circle>)
    ensures forall q :: q in r ==> q in ps && Reported(c, q, edge)
    ensures forall i :: 0 <= i < |ps| && Reported(c, ps[i], edge) ==> ps[i] in r
  {
    if |ps| == 0 then []
    else
      var init := Collisions(c, ps[..|ps| - 1], edge);
      var p := ps[|ps| - 1];
      assert forall i :: 0 <= i < |ps| - 1 ==> ps[..|ps| - 1][i] == ps[i];
      if Reported(c, p, edge) then init + [p] else init
  }

  /** `a` is `b` with some entries left out, the others kept in order. */
  predicate IsSubsequence(a: seq<Circle>, b: seq<Circle>) {
    if |a| == 0 then true
    else if |b| == 0 then false
    else if a[|a| - 1] == b[|b| - 1] then IsSubsequence(a[..|a| - 1], b[..|b| - 1])
    else IsSubsequence(a, b[..|b| - 1])
  }

  /** `check_collisions(self, planets, edge)`. */
  method CheckCollisions(c: Circle, planets: seq<Circle>, edge: bool) returns (r: seq<Circle>)
    ensures r == Collisions(c, planets, edge)
  {
    r := [];
    for i := 0 to |planets|
      invariant r == Collisions(c, planets[..i], edge)
    {
      var planet := planets[i];
      assert planets[..i + 1][..i] == planets[..i];
      if planet.id == c.id {
        continue;
      }
      var radiusDiff := Sq(c.radius - planet.radius);
      var radiusAdd := Sq(c.radius + planet.radius);
      var distSq := Sq(c.pos.x - planet.pos.x) + Sq(c.pos.y - planet.pos.y);
      if (radiusDiff <= distSq && distSq <= radiusAdd && edge)
        || (radiusDiff < distSq && distSq < radiusAdd && !edge)
      {
        r := r + [planet];
      }
    }
    assert planets[..|planets|] == planets;
  }

  /** `check_collision(self, planet, edge)`: `p` itself exactly when it passes
      the test. */
  function CheckCollision(c: Circle, p: Circle, edge: bool): (r: Option<Circle>)
    ensures r.Some? <==> Reported(c, p, edge)
    ensures r.Some? ==> r.value == p
  {
    if p.id == c.id then None
    else if Reported(c, p, edge) then Some(p)
    else None
  }

  // ---------------------------------------------------------------------
  // Properties of the collision checks

  /** The inclusive test accepts whatever the exclusive one does, and the two
      disagree only on an entry that lies exactly on one of the bounds. */
  lemma EdgeDifference(c: Circle, p: Circle)
    ensures Reported(c, p, false) ==> Reported(c, p, true)
    ensures Reported(c, p, true) && !Reported(c, p, false) ==>
      DistSq(c, p) == Sq(c.radius - p.radius) || DistSq(c, p) == Sq(c.radius + p.radius)
  {
  }

  /** Each entry appears in the result of `check_collisions` as often as in
      the input when it passes the test, and not at all otherwise. */
  lemma {:induction false} CollisionsCount(c: Circle, ps: seq<Circle>, edge: bool)
    ensures forall q ::
      multiset(Collisions(c, ps, edge))[q] == (if Reported(c, q, edge) then multiset(ps)[q] else 0)
  {
    if |ps| > 0 {
      var init, p := ps[..|ps| - 1], ps[|ps| - 1];
      CollisionsCount(c, init, edge);
      assert ps == init + [p];
    }
  }

  /** The result of `check_collisions` keeps the order of the input. */
  lemma {:induction false} CollisionsKeepOrder(c: Circle, ps: seq<Circle>, edge: bool)
    ensures IsSubsequence(Collisions(c, ps, edge), ps)
  {
    if |ps| > 0 {
      var init, p := ps[..|ps| - 1], ps[|ps| - 1];
      var r := Collisions(c, init, edge);
      CollisionsKeepOrder(c, init, edge);
      if Reported(c, p, edge) {
        assert (r + [p])[..|r|] == r;
      } else if |r| > 0 {
        assert r[|r| - 1] in r;
      }
    }
  }

  /** Whatever the exclusive check reports, the inclusive one reports too, in
      the same order. */
  lemma {:induction false} ExclusiveWithinInclusive(c: Circle, ps: seq<Circle>)
    ensures IsSubsequence(Collisions(c, ps, false), Collisions(c, ps, true))
  {
    if |ps| > 0 {
      var init, p := ps[..|ps| - 1], ps[|ps| - 1];
      var a, b := Collisions(c, init, false), Collisions(c, init, true);
      ExclusiveWithinInclusive(c, init);
      EdgeDifference(c, p);
      if Reported(c, p, false) {
        assert (a + [p])[..|a|] == a;
        assert (b + [p])[..|b|] == b;
      } else if Reported(c, p, true) {
        assert (b + [p])[..|b|] == b;
        if |a| > 0 {
          assert a[|a| - 1] in a;
        }
      }
    }
  }

  /** When no entry lies exactly on a bound, `edge` makes no difference. */
  lemma {:induction false} OnlyBoundariesDiffer(c: Circle, ps: seq<Circle>)
    requires forall i :: 0 <= i < |ps| ==>
      DistSq(c, ps[i]) != Sq(c.radius - ps[i].radius) && DistSq(c, ps[i]) != Sq(c.radius + ps[i].radius)
    ensures Collisions(c, ps, true) == Collisions(c, ps, false)
  {
    if |ps| > 0 {
      var init := ps[..|ps| - 1];
      assert forall i :: 0 <= i < |init| ==> init[i] == ps[i];
      OnlyBoundariesDiffer(c, init);
      EdgeDifference(c, ps[|ps| - 1]);
    }
  }

  /** `check_collision(p, edge)` is `Some(p)` exactly when `check_collisions`
      on the one-entry list `[p]` returns `[p]`, and `None` otherwise, in
      particular when `p` has the id of `c`. */
  lemma CheckCollisionAgrees(c: Circle, p: Circle, edge: bool)
    ensures CheckCollision(c, p, edge) == Some(p) <==> Collisions(c, [p], edge) == [p]
    ensures CheckCollision(c, p, edge) == None <==> Collisions(c, [p], edge) == []
    ensures p.id == c.id ==> CheckCollision(c, p, edge) == None
  {
    assert [p][..0] == [];
  }

  /** With a non-negative sum of radii, the test says that the circles touch:
      the distance `d` of the centres lies between the difference and the sum
      of the radii, bounds included exactly when `edge` holds. */
  lemma ReportedMeansTouching(sqrt: real -> real, c: Circle, p: Circle, edge: bool)
    requires IsSqrt(sqrt) && 0.0 <= c.radius + p.radius
    ensures Reported(c, p, edge) <==> (p.id != c.id &&
      var d := Length(sqrt, Sub(c.pos, p.pos));
      if edge then Abs(c.radius - p.radius) <= d <= c.radius + p.radius
      else Abs(c.radius - p.radius) < d < c.radius + p.radius)
  {
    var d := Length(sqrt, Sub(c.pos, p.pos));
    var lo, hi := Abs(c.radius - p.radius), c.radius + p.radius;
    assert Sq(d) == DistSq(c, p) && 0.0 <= d by {
      LengthIsRoot(sqrt, Sub(c.pos, p.pos));
    }
    assert Sq(lo) == Sq(c.radius - p.radius);
    SquareOrder(lo, d);
    SquareOrder(d, hi);
  }

  /** A circle strictly inside the other, so that the distance of the centres
      is below the difference of the radii, is not reported. */
  lemma NestedNotReported(sqrt: real -> real, c: Circle, p: Circle, edge: bool)
    requires IsSqrt(sqrt)
    requires Length(sqrt, Sub(c.pos, p.pos)) < Abs(c.radius - p.radius)
    ensures !Reported(c, p, edge)
  {
    var d := Length(sqrt, Sub(c.pos, p.pos));
    var lo := Abs(c.radius - p.radius);
    assert Sq(d) == DistSq(c, p) && 0.0 <= d by {
      LengthIsRoot(sqrt, Sub(c.pos, p.pos));
    }
    assert Sq(lo) == Sq(c.radius - p.radius);
    SquareOrder(d, lo);
  }

  /** Circles that touch from outside, at a distance equal to the sum of
      non-negative radii, are reported by the inclusive check only. */
  lemma TangentOnlyWithEdge(sqrt: real -> real, c: Circle, p: Circle)
    requires IsSqrt(sqrt) && 0.0 <= c.radius && 0.0 <= p.radius && p.id != c.id
    requires Length(sqrt, Sub(c.pos, p.pos)) == c.radius + p.radius
    ensures Reported(c, p, true) && !Reported(c, p, false)
  {
    ReportedMeansTouching(sqrt, c, p, true);
    ReportedMeansTouching(sqrt, c, p, false);
  }

  // ---------------------------------------------------------------------
  // Response to a collision

  /** The unit normal of the contact, pointing from `p` to `c`: a unit vector
      that scales back to the offset by the distance. */
  function Normal(sqrt: real -> real, c: Circle, p: Circle): (n: Vec2)
    requires IsSqrt(sqrt) && c.pos != p.pos
    ensures LengthSq(n) == 1.0
    ensures Scale(Length(sqrt, Sub(c.pos, p.pos)), n) == Sub(c.pos, p.pos)
  {
    SubIsZero(c.pos, p.pos);
    NormalizeIsUnit(sqrt, Sub(c.pos, p.pos));
    Normalize(sqrt, Sub(c.pos, p.pos))
  }

  /** The speeds along the normal after a one-dimensional elastic collision
      of masses `m1` and `m2` arriving with speeds `a1` and `a2`: the
      momentum is kept and the relative speed is reversed. */
  function Exchange(m1: real, m2: real, a1: real, a2: real): (e: (real, real))
    requires m1 + m2 != 0.0
    ensures m1 * e.0 + m2 * e.1 == m1 * a1 + m2 * a2
    ensures e.0 - e.1 == a2 - a1
  {
    var f1 := (a1 * (m1 - m2) + 2.0 * m2 * a2) / (m1 + m2);
    var f2 := (a2 * (m2 - m1) + 2.0 * m1 * a1) / (m1 + m2);
    ExchangeAlgebra(m1, m2, a1, a2, f1, f2);
    (f1, f2)
  }

  /** The total momentum of two bodies. */
  function Momentum(m1: real, v1: Vec2, m2: real, v2: Vec2): Vec2 {
    Add(Scale(m1, v1), Scale(m2, v2))
  }

  /** Twice the total kinetic energy of two bodies. */
  function Energy(m1: real, v1: Vec2, m2: real, v2: Vec2): real {
    m1 * LengthSq(v1) + m2 * LengthSq(v2)
  }

  /** The velocities after an elastic collision along the unit normal `n`
      of a body of mass `m1` and velocity `v1` with one of mass `m2` and
      velocity `v2`: along the normal the speeds are exchanged as in a
      one-dimensional elastic collision, along the tangent `Perp(n)` they
      pass through. */
  function Bounce(n: Vec2, m1: real, v1: Vec2, m2: real, v2: Vec2): (r: (Vec2, Vec2))
    requires LengthSq(n) == 1.0 && m1 + m2 != 0.0
    ensures (Dot(n, r.0), Dot(n, r.1)) == Exchange(m1, m2, Dot(n, v1), Dot(n, v2))
    ensures Dot(Perp(n), r.0) == Dot(Perp(n), v1) && Dot(Perp(n), r.1) == Dot(Perp(n), v2)
  {
    var t := Perp(n);
    var v1n, v1t := Dot(n, v1), Dot(t, v1);
    var v2n, v2t := Dot(n, v2), Dot(t, v2);
    var e := Exchange(m1, m2, v1n, v2n);
    Coordinates(n, e.0, v1t);
    Coordinates(n, e.1, v2t);
    (Add(Scale(e.0, n), Scale(v1t, t)), Add(Scale(e.1, n), Scale(v2t, t)))
  }

  /** `calculate_new_velocity_after_col(self, planet)`: the bounce along the
      contact normal, which keeps the total momentum and the total kinetic
      energy of the two bodies. */
  function VelocitiesAfterCollision(sqrt: real -> real, c: Circle, p: Circle): (r: (Vec2, Vec2))
    requires IsSqrt(sqrt) && c.pos != p.pos && c.mass + p.mass != 0.0
    ensures Momentum(c.mass, r.0, p.mass, r.1) == Momentum(c.mass, c.velocity, p.mass, p.velocity)
    ensures Energy(c.mass, r.0, p.mass, r.1) == Energy(c.mass, c.velocity, p.mass, p.velocity)
  {
    var n := Normal(sqrt, c, p);
    BounceConservesMomentum(n, c.mass, c.velocity, p.mass, p.velocity);
    BounceConservesEnergy(n, c.mass, c.velocity, p.mass, p.velocity);
    Bounce(n, c.mass, c.velocity, p.mass, p.velocity)
  }

  /** `calculate_correction(self, planet)`: the overlap depth, the sum of the
      radii less the distance, along the normal. Moving `c` by it puts the
      centres exactly the sum of the radii apart (in squares). */
  function Correction(sqrt: real -> real, c: Circle, p: Circle): (v: Vec2)
    requires IsSqrt(sqrt) && c.pos != p.pos
    ensures LengthSq(Sub(Add(c.pos, v), p.pos)) == Sq(c.radius + p.radius)
  {
    var overlap := (c.radius + p.radius) - Length(sqrt, Sub(p.pos, c.pos));
    var n := Normal(sqrt, c, p);
    LengthSymmetric(sqrt, p.pos, c.pos);
    MoveAlongNormal(Sub(c.pos, p.pos), n, Length(sqrt, Sub(c.pos, p.pos)), c.radius + p.radius);
    assert Sub(Add(c.pos, Scale(overlap, n)), p.pos) == Add(Sub(c.pos, p.pos), Scale(overlap, n));
    Scale(overlap, n)
  }

  // ---------------------------------------------------------------------
  // Properties of the collision response

  /** `x == y` follows from `x * m == y * m` for a non-zero `m`. */
  lemma Cancel(x: real, y: real, m: real)
    requires m != 0.0 && x * m == y * m
    ensures x == y
  {
    assert x == (x * m) / m;
    assert y == (y * m) / m;
  }

  /** Total mass times kinetic energy (doubled) is the squared momentum plus
      the reduced term of the relative speed. */
  lemma EnergyIdentity(m1: real, m2: real, x1: real, x2: real)
    ensures (m1 * Sq(x1) + m2 * Sq(x2)) * (m1 + m2) == Sq(m1 * x1 + m2 * x2) + m1 * m2 * Sq(x1 - x2)
  {
    calc {
      (m1 * Sq(x1) + m2 * Sq(x2)) * (m1 + m2);
      m1 * m1 * x1 * x1 + m1 * m2 * x1 * x1 + m1 * m2 * x2 * x2 + m2 * m2 * x2 * x2;
      (m1 * x1 + m2 * x2) * (m1 * x1 + m2 * x2) + m1 * m2 * ((x1 - x2) * (x1 - x2));
    }
  }

  /** The algebra of the exchange, on its two results `f1` and `f2`. */
  lemma ExchangeAlgebra(m1: real, m2: real, a1: real, a2: real, f1: real, f2: real)
    requires m1 + m2 != 0.0
    requires f1 == (a1 * (m1 - m2) + 2.0 * m2 * a2) / (m1 + m2)
    requires f2 == (a2 * (m2 - m1) + 2.0 * m1 * a1) / (m1 + m2)
    ensures m1 * f1 + m2 * f2 == m1 * a1 + m2 * a2
    ensures f1 - f2 == a2 - a1
    ensures m1 * Sq(f1) + m2 * Sq(f2) == m1 * Sq(a1) + m2 * Sq(a2)
  {
    var m := m1 + m2;
    assert f1 * m == a1 * (m1 - m2) + 2.0 * m2 * a2;
    assert f2 * m == a2 * (m2 - m1) + 2.0 * m1 * a1;
    calc {
      (m1 * f1 + m2 * f2) * m;
      m1 * (f1 * m) + m2 * (f2 * m);
      m1 * (a1 * (m1 - m2) + 2.0 * m2 * a2) + m2 * (a2 * (m2 - m1) + 2.0 * m1 * a1);
      (m1 * a1 + m2 * a2) * m;
    }
    Cancel(m1 * f1 + m2 * f2, m1 * a1 + m2 * a2, m);
    calc {
      (f1 - f2) * m;
      f1 * m - f2 * m;
      (a1 * (m1 - m2) + 2.0 * m2 * a2) - (a2 * (m2 - m1) + 2.0 * m1 * a1);
      (a2 - a1) * m;
    }
    Cancel(f1 - f2, a2 - a1, m);
    EnergyIdentity(m1, m2, f1, f2);
    EnergyIdentity(m1, m2, a1, a2);
    assert Sq(f1 - f2) == Sq(a1 - a2);
    Cancel(m1 * Sq(f1) + m2 * Sq(f2), m1 * Sq(a1) + m2 * Sq(a2), m);
  }

  /** The one-dimensional exchange keeps the kinetic energy. */
  lemma ExchangeIsElastic(m1: real, m2: real, a1: real, a2: real)
    requires m1 + m2 != 0.0
    ensures m1 * Sq(Exchange(m1, m2, a1, a2).0) + m2 * Sq(Exchange(m1, m2, a1, a2).1)
      == m1 * Sq(a1) + m2 * Sq(a2)
  {
    var e := Exchange(m1, m2, a1, a2);
    ExchangeAlgebra(m1, m2, a1, a2, e.0, e.1);
  }

  /** Equal masses swap their speeds. */
  lemma ExchangeEqualMasses(m: real, a1: real, a2: real)
    requires m != 0.0
    ensures Exchange(m, m, a1, a2) == (a2, a1)
  {
    var e := Exchange(m, m, a1, a2);
    assert (e.0 + e.1) * m == (a1 + a2) * m;
    Cancel(e.0 + e.1, a1 + a2, m);
  }

  /** The contact normal flips when the two bodies swap roles. */
  lemma NormalFlips(sqrt: real -> real, c: Circle, p: Circle)
    requires IsSqrt(sqrt) && c.pos != p.pos
    ensures Normal(sqrt, p, c) == Scale(-1.0, Normal(sqrt, c, p))
  {
    var u := Sub(c.pos, p.pos);
    SubIsZero(c.pos, p.pos);
    LengthIsRoot(sqrt, u);
    LengthSymmetric(sqrt, p.pos, c.pos);
    var k := 1.0 / Length(sqrt, u);
    assert Sub(p.pos, c.pos) == Scale(-1.0, u);
    ScaleTwice(k, -1.0, u);
    ScaleTwice(-1.0, k, u);
  }

  /** One component of the momentum balance: `x1`, `x2` are the components
      after the bounce, `y1`, `y2` those before. */
  lemma MomentumComponent(m1: real, m2: real, f1: real, f2: real, a1: real, a2: real,
                          b1: real, b2: real, nx: real, tx: real,
                          x1: real, x2: real, y1: real, y2: real)
    requires m1 * f1 + m2 * f2 == m1 * a1 + m2 * a2
    requires x1 == f1 * nx + b1 * tx && x2 == f2 * nx + b2 * tx
    requires y1 == a1 * nx + b1 * tx && y2 == a2 * nx + b2 * tx
    ensures m1 * x1 + m2 * x2 == m1 * y1 + m2 * y2
  {
    calc {
      m1 * x1 + m2 * x2;
      m1 * (f1 * nx + b1 * tx) + m2 * (f2 * nx + b2 * tx);
      (m1 * f1 + m2 * f2) * nx + (m1 * b1 + m2 * b2) * tx;
      (m1 * a1 + m2 * a2) * nx + (m1 * b1 + m2 * b2) * tx;
      m1 * (a1 * nx + b1 * tx) + m2 * (a2 * nx + b2 * tx);
      m1 * y1 + m2 * y2;
    }
  }

  /** Momentum in the frame of `n` and `t`: when the speeds along `n` keep
      their momentum and the speeds along `t` are the same, so does the total. */
  lemma MomentumInFrame(n: Vec2, t: Vec2, m1: real, m2: real, f1: real, f2: real,
                        a1: real, a2: real, b1: real, b2: real)
    requires m1 * f1 + m2 * f2 == m1 * a1 + m2 * a2
    ensures Momentum(m1, Add(Scale(f1, n), Scale(b1, t)), m2, Add(Scale(f2, n), Scale(b2, t)))
      == Momentum(m1, Add(Scale(a1, n), Scale(b1, t)), m2, Add(Scale(a2, n), Scale(b2, t)))
  {
    var r1, r2 := Add(Scale(f1, n), Scale(b1, t)), Add(Scale(f2, n), Scale(b2, t));
    var w1, w2 := Add(Scale(a1, n), Scale(b1, t)), Add(Scale(a2, n), Scale(b2, t));
    MomentumComponent(m1, m2, f1, f2, a1, a2, b1, b2, n.x, t.x, r1.x, r2.x, w1.x, w2.x);
    MomentumComponent(m1, m2, f1, f2, a1, a2, b1, b2, n.y, t.y, r1.y, r2.y, w1.y, w2.y);
  }

  /** Along any unit normal the bounce keeps the total momentum. */
  lemma BounceConservesMomentum(n: Vec2, m1: real, v1: Vec2, m2: real, v2: Vec2)
    requires LengthSq(n) == 1.0 && m1 + m2 != 0.0
    ensures Momentum(m1, Bounce(n, m1, v1, m2, v2).0, m2, Bounce(n, m1, v1, m2, v2).1)
      == Momentum(m1, v1, m2, v2)
  {
    var t := Perp(n);
    var a1, a2 := Dot(n, v1), Dot(n, v2);
    var b1, b2 := Dot(t, v1), Dot(t, v2);
    var e := Exchange(m1, m2, a1, a2);
    Decompose(n, v1);
    Decompose(n, v2);
    MomentumInFrame(n, t, m1, m2, e.0, e.1, a1, a2, b1, b2);
  }

  /** Along any unit normal the bounce keeps the total kinetic energy. */
  lemma BounceConservesEnergy(n: Vec2, m1: real, v1: Vec2, m2: real, v2: Vec2)
    requires LengthSq(n) == 1.0 && m1 + m2 != 0.0
    ensures Energy(m1, Bounce(n, m1, v1, m2, v2).0, m2, Bounce(n, m1, v1, m2, v2).1)
      == Energy(m1, v1, m2, v2)
  {
    var t := Perp(n);
    var a1, a2 := Dot(n, v1), Dot(n, v2);
    var b1, b2 := Dot(t, v1), Dot(t, v2);
    var e := Exchange(m1, m2, a1, a2);
    var f1, f2 := e.0, e.1;
    assert m1 * Sq(f1) + m2 * Sq(f2) == m1 * Sq(a1) + m2 * Sq(a2) by {
      ExchangeIsElastic(m1, m2, a1, a2);
    }
    assert LengthSq(Bounce(n, m1, v1, m2, v2).0) == Sq(f1) + Sq(b1) by { Coordinates(n, f1, b1); }
    assert LengthSq(Bounce(n, m1, v1, m2, v2).1) == Sq(f2) + Sq(b2) by { Coordinates(n, f2, b2); }
    assert LengthSq(v1) == Sq(a1) + Sq(b1) by { Decompose(n, v1); Coordinates(n, a1, b1); }
    assert LengthSq(v2) == Sq(a2) + Sq(b2) by { Decompose(n, v2); Coordinates(n, a2, b2); }
  }

  /** Along the contact normal the velocities after the collision are those
      of the one-dimensional elastic exchange; along the tangent they pass
      through unchanged. */
  lemma CollisionAlongNormal(sqrt: real -> real, c: Circle, p: Circle)
    requires IsSqrt(sqrt) && c.pos != p.pos && c.mass + p.mass != 0.0
    ensures var n := Normal(sqrt, c, p);
      var r := VelocitiesAfterCollision(sqrt, c, p);
      (Dot(n, r.0), Dot(n, r.1)) == Exchange(c.mass, p.mass, Dot(n, c.velocity), Dot(n, p.velocity))
      && Dot(Perp(n), r.0) == Dot(Perp(n), c.velocity)
      && Dot(Perp(n), r.1) == Dot(Perp(n), p.velocity)
  {
    var n := Normal(sqrt, c, p);
    assert VelocitiesAfterCollision(sqrt, c, p) == Bounce(n, c.mass, c.velocity, p.mass, p.velocity);
  }

  /** Bodies of equal mass swap their velocities along the normal. */
  lemma CollisionEqualMassesSwap(sqrt: real -> real, c: Circle, p: Circle)
    requires IsSqrt(sqrt) && c.pos != p.pos && c.mass == p.mass && c.mass != 0.0
    ensures Dot(Normal(sqrt, c, p), VelocitiesAfterCollision(sqrt, c, p).0) == Dot(Normal(sqrt, c, p), p.velocity)
    ensures Dot(Normal(sqrt, c, p), VelocitiesAfterCollision(sqrt, c, p).1) == Dot(Normal(sqrt, c, p), c.velocity)
  {
    var n := Normal(sqrt, c, p);
    CollisionAlongNormal(sqrt, c, p);
    ExchangeEqualMasses(c.mass, Dot(n, c.velocity), Dot(n, p.velocity));
  }

  // ---------------------------------------------------------------------
  // Properties of the overlap correction

  /** Moving a point at `u = d*n` by `(r - d)*n` along a unit `n` puts it
      at squared distance `Sq(r)` from the origin. */
  lemma MoveAlongNormal(u: Vec2, n: Vec2, d: real, r: real)
    requires LengthSq(n) == 1.0 && Scale(d, n) == u
    ensures LengthSq(Add(u, Scale(r - d, n))) == Sq(r)
  {
    assert Add(u, Scale(r - d, n)) == Scale(r, n) by {
      ScaleLaws(d, r - d, Zero, n);
    }
    ScaleLengthSq(r, n);
  }

  /** The correction's squared length is the squared overlap. It points from
      `p` to `c` while the circles overlap, and from `c` towards `p` once
      they are apart. */
  lemma CorrectionDepth(sqrt: real -> real, c: Circle, p: Circle)
    requires IsSqrt(sqrt) && c.pos != p.pos
    ensures LengthSq(Correction(sqrt, c, p))
      == Sq(c.radius + p.radius - Length(sqrt, Sub(c.pos, p.pos)))
    ensures Dot(Correction(sqrt, c, p), Sub(c.pos, p.pos))
      == (c.radius + p.radius - Length(sqrt, Sub(c.pos, p.pos))) * Length(sqrt, Sub(c.pos, p.pos))
  {
    var n := Normal(sqrt, c, p);
    LengthSymmetric(sqrt, p.pos, c.pos);
    var d := Length(sqrt, Sub(c.pos, p.pos));
    var overlap := c.radius + p.radius - d;
    assert Correction(sqrt, c, p) == Scale(overlap, n);
    ScaleLengthSq(overlap, n);
    DotOfScales(overlap, d, n);
  }

  /** Swapping the two bodies reverses the correction. */
  lemma CorrectionAntisymmetric(sqrt: real -> real, c: Circle, p: Circle)
    requires IsSqrt(sqrt) && c.pos != p.pos
    ensures Correction(sqrt, p, c) == Scale(-1.0, Correction(sqrt, c, p))
  {
    var n := Normal(sqrt, c, p);
    NormalFlips(sqrt, c, p);
    LengthSymmetric(sqrt, p.pos, c.pos);
    var overlap := c.radius + p.radius - Length(sqrt, Sub(p.pos, c.pos));
    assert p.radius + c.radius - Length(sqrt, Sub(c.pos, p.pos)) == overlap;
    ScaleTwice(overlap, -1.0, n);
    ScaleTwice(-1.0, overlap, n);
  }
}
