# Circular bodies of the N-body toy

Dafny model of `Circle` in `src/point.rs`, the circular rigid body of a 2-D
N-body gravity and collision demo. There are four modules:

- `Vectors` — a real-valued `Vec2` with only the operations the body uses.
  The square root is a parameter `sqrt` constrained by `IsSqrt`, and the
  length, normalisation and their laws are built on it.
- `Floats` — just enough of floating point to follow NaN. A number is
  `Val(r)` or `NaN`, and NaN spreads through sums, products and quotients.
  A vector is NaN when either component is, as `is_nan` on a vector.
- `Point` — the `Circle` record and a `Body` class.
  - `Body` has the same ten fields. Its methods `Update`,
    `VerletIntegration`, `AirDrag`, `Gravity` and `AddGravityToForce` change
    them in place.
  - Each method is specified by a function on the record: `Updated`,
    `Integrated`, `Dragged`, `WithGravity`, `Attracted`.
  - The pairwise pull `GravityToPlace` is modelled as written.
- `Collision` — the overlap test shared by `check_collisions` (a loop,
  `CheckCollisions`) and `check_collision` (a function). It also has the
  velocity exchange of `calculate_new_velocity_after_col`
  (`VelocitiesAfterCollision`, built on `Bounce` for any unit normal) and
  the overlap correction of `calculate_correction` (`Correction`).

The model follows the code's arithmetic literally.
- The magnitude in `gravity_to_place` is `g_const * m1 * m2 / distance * distance`, which groups as
  `((g·m1·m2)/distance)·distance`. Over the reals the pull therefore has
  length `|g·m2|` after the division by `m1`, whatever the distance. The
  comment at src/point.rs:62 gives `((m1*m2)/r^2)*G`; the code does not
  compute that, and the model follows the code.
- A fresh body has previous velocity (1, 0). Under no force, its first
  update therefore gives it velocity (-dt/2, 0) (`Point.FreshBodyDrifts`).

## Model

| member | source | states |
|---|---|---|
| Point.New | src/point.rs:29-42 | a fresh body is not frozen and starts with zero force, zero potential energy and zero kinetic energy |
| Point.GravityToPlace | src/point.rs:61-76 | the pull is NaN exactly when the distance is zero or the own mass is zero, and then in both components at once |
| Point.NewAtRest | src/point.rs:29-42 | a fresh body sits at the origin at rest, with previous velocity (1, 0), mass 1, id 0, and radius 1, the square root of its mass |
| Point.PotentialTerm | src/point.rs:85 | a partner's potential term is NaN exactly when its pull is |
| Point.Body.constructor | src/point.rs:8-19 | a body holds exactly the ten fields of the record it is built from |
| Point.Body.Update | src/point.rs:22-28 | the new state is `Updated` of the old: unchanged when kinematic or the force is NaN, otherwise one Verlet step followed by the kinetic energy from the new speed |
| Point.Body.VerletIntegration | src/point.rs:43-50 | new position `pos + v·dt + f·dt²/2`, new velocity `v + (f + (v − prevVel))·dt/2`, new previous velocity `v`, all from the values before the call; every other field unchanged |
| Point.Body.AirDrag | src/point.rs:51-54 | force (NaN included) and velocity multiplied by 0.99, nothing else changed |
| Point.Body.Gravity | src/point.rs:55-57 | only the vertical force changes, to -100; `dt` is ignored |
| Point.Body.AddGravityToForce | src/point.rs:77-91 | the loop stores in `force` the sum of the pulls of the entries with another id and in `potentialEnergy` the accumulated term divided by 10, as `Attracted` |
| Point.Others | src/point.rs:80-84 | an entry is kept exactly when it is in the list and its id differs from the body's |
| Point.OthersCount | src/point.rs:80-84 | an entry of another id is kept as often as it occurs in the list, and one of the body's own id never |
| Point.GravityToPlaceClosedForm | src/point.rs:61-76 | for distinct positions and non-zero own mass, the pull is `g·m2/d` times the offset towards the partner, `d` the positive distance |
| Point.GravityToPlaceIsNaN | src/point.rs:61-76 | the pull is NaN exactly when the positions coincide or the own mass is zero, and then in both components |
| Point.GravityMagnitude | src/point.rs:67-75 | where defined, the pull has length `abs(g·m2)` and squared length `(g·m2)²`, independent of the distance |
| Point.GravityPointsAtPartner | src/point.rs:70-75 | the pull's component along the offset to the partner is `g·m2·d`: it points at the partner when `g·m2 > 0` |
| Point.GravityThirdLaw | src/point.rs:61-76 | the pulls of two bodies on each other, multiplied back by their masses, cancel |
| Point.PotentialTermClosedForm | src/point.rs:85 | a partner's potential term is NaN exactly when its pull is, and otherwise is `m1·abs(0.1·m2)·distance` |
| Point.GravitySumOverOthers | src/point.rs:80-86 | the accumulated force is the plain sum of the pulls of the entries whose id differs from the body's own |
| Point.PotentialSumOverOthers | src/point.rs:80-90 | the accumulated potential energy, before and after the division by 10, is the plain sum of the terms of the entries whose id differs from the body's own |
| Point.NoOthersNoGravity | src/point.rs:77-91 | with no entry of another id, force and potential energy become zero |
| Point.GravitySumIsNaN | src/point.rs:80-90 | the accumulated force, and also the potential energy, is NaN exactly when some entry of another id sits on the body, or there is such an entry and the body has no mass |
| Point.FrozenStaysPut | src/point.rs:22-25 | a kinematic body or one with NaN force is unchanged by any number of updates |
| Point.KineticEnergyFromLength | src/point.rs:27 | `0.5·mass·length·length` is one half of mass times squared speed |
| Point.UpdateMoves | src/point.rs:22-28 | an update that is not skipped is one Verlet step with kinetic energy one half of mass times the squared new speed |
| Point.UpdateKineticEnergy | src/point.rs:22-28 | if the stored kinetic energy agrees with the velocity before an update, it does after |
| Point.StepsKeepTheRest | src/point.rs:22-50 | any number of updates keep force, kinematic flag, mass, potential energy, radius and id |
| Point.IntegratedForceFree | src/point.rs:43-50 | with zero force and equal current and previous velocity, one step moves by `dt·v` and keeps both velocities |
| Point.UniformMotion | src/point.rs:22-50 | under such conditions, `n` updates move the body by `n·dt·v` along a straight line |
| Point.FreshBodyDrifts | src/point.rs:29-50 | one update of a fresh body under no force leaves it at the origin, with previous velocity zero and velocity (-dt/2, 0) |
| Point.DragKeepsFrozen | src/point.rs:51-54 | drag touches only force and velocity and keeps whether the body is frozen |
| Point.DragSlowsDown | src/point.rs:53 | the squared speed shrinks by the factor 0.99², strictly unless the body is at rest |
| Point.DragLosesEnergy | src/point.rs:51-54 | for a non-negative mass, drag does not increase the kinetic energy |
| Point.GravitySetsDownForce | src/point.rs:55-57 | `gravity` keeps the horizontal force and everything else, sets the vertical force to -100, is idempotent, and leaves the force NaN exactly when its horizontal part was |
| Collision.Collisions | src/point.rs:94-108 | every returned entry is in the list and passes the test (other id, squared distance within the bounds); every entry of the list that passes is returned |
| Collision.CheckCollisions | src/point.rs:94-108 | the loop returns `Collisions` of its list |
| Collision.CollisionsCount | src/point.rs:94-108 | an entry appears in the result as often as in the input when it passes the test, and not at all otherwise |
| Collision.CheckCollision | src/point.rs:109-120 | the result is `Some(p)` exactly when `p` passes the test (another id and within the bounds), and `None` otherwise |
| Collision.CollisionsKeepOrder | src/point.rs:96-107 | the result is a subsequence of the input, in input order |
| Collision.EdgeDifference | src/point.rs:103 | the inclusive test accepts what the exclusive one does; they differ only on an entry exactly on a bound |
| Collision.ExclusiveWithinInclusive | src/point.rs:94-108 | the exclusive result is a subsequence of the inclusive one |
| Collision.OnlyBoundariesDiffer | src/point.rs:94-108 | with no entry on a bound, both settings of `edge` give the same result |
| Collision.CheckCollisionAgrees | src/point.rs:109-120 | `check_collision(p)` is `Some(p)` exactly when `check_collisions([p])` is `[p]`, `None` exactly when it is empty, and `None` for the body's own id |
| Collision.ReportedMeansTouching | src/point.rs:95-103 | with a non-negative radius sum, the squared test holds exactly when the distance lies between the difference and the sum of the radii (bounds included with `edge`) and the id differs |
| Collision.NestedNotReported | src/point.rs:95-103 | a circle strictly inside the other is not reported |
| Collision.TangentOnlyWithEdge | src/point.rs:103 | circles touching from outside are reported by the inclusive test only |
| Collision.Exchange | src/point.rs:133-134 | the one-dimensional exchange keeps the momentum `m1·a1 + m2·a2` and reverses the relative speed |
| Collision.ExchangeIsElastic | src/point.rs:133-134 | the one-dimensional exchange keeps the kinetic energy |
| Collision.ExchangeEqualMasses | src/point.rs:133-134 | equal masses swap their speeds |
| Collision.Normal | src/point.rs:125 | the contact normal is a unit vector that, scaled by the distance, gives the offset from `p` to `c` |
| Collision.NormalFlips | src/point.rs:125 | the contact normal flips when the bodies swap roles |
| Collision.Bounce | src/point.rs:126-139 | along any unit normal the new velocities have the exchanged normal speeds and the incoming tangential speeds |
| Collision.VelocitiesAfterCollision | src/point.rs:124-140 | the collision keeps the total momentum and the total kinetic energy of the two bodies |
| Collision.BounceConservesMomentum | src/point.rs:124-140 | along any unit normal the total momentum is kept |
| Collision.BounceConservesEnergy | src/point.rs:124-140 | along any unit normal the total kinetic energy is kept |
| Collision.CollisionAlongNormal | src/point.rs:124-140 | along the contact normal the new velocities carry the elastic exchange, and along the tangent they equal the inputs' |
| Collision.CollisionEqualMassesSwap | src/point.rs:124-140 | bodies of equal mass swap their velocities along the normal |
| Collision.CorrectionDepth | src/point.rs:141-146 | the correction's squared length is the squared overlap depth, and its component along the offset from `p` to `c` is the overlap times the distance |
| Collision.Correction | src/point.rs:141-146 | after moving `c` by the correction, the centres are exactly the sum of the radii apart |
| Collision.CorrectionAntisymmetric | src/point.rs:141-146 | swapping the two bodies reverses the correction |

## Left out

- Floating point: all quantities are reals rather than `f32`/`f64`. So there is no rounding, no `dt as f32` casts, no infinities and no signed zeros. A division by zero yields NaN only in `gravity_to_place`, where the source reaches `0/0` or `x/0·0`.
- Square root, `atan2`, `cos` and `sin`. `sqrt` is a parameter constrained by `IsSqrt`. The cosine and sine of the offset's angle are the offset's components over the distance.
- The `Vec2` of the graphics library is not modelled. Its `length`, `dot`, `distance`, `normalize` and `mul` are restated in `Vectors`.
- `src/main.rs` and the per-tick driver that calls these operations are not part of this model. These include the window, drawing, cursor spring and energy totals.
- Point.Body.VerletIntegration: requires a force that is not NaN; its only caller, `update`, has already returned in that case.
- Collision.VelocitiesAfterCollision: requires distinct positions and `c.mass + p.mass != 0`. The source normalises the zero vector or divides by zero there, and the result is NaN or infinite.
- Collision.Correction: requires distinct positions, for the same reason.
- Collision.Bounce: requires a unit normal; `Normal` always gives one, as `normalize` does for a non-zero offset.
- Collision.ReportedMeansTouching: requires a non-negative sum of the radii. Without it the square of the sum no longer orders like the sum.
- `calculate_new_velocity_after_col` takes `&mut self` but changes nothing. It is a function here, so it cannot change either body.
