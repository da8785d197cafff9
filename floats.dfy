/** Just enough of floating-point behaviour for the bodies: a number is either
    a real value or NaN, and NaN spreads through every operation it meets.
    Rounding, infinities and signed zeros are not modelled. */
module Floats {
  import opened Vectors

  datatype Num = Val(r: real) | NaN

  /** `a + b`; NaN if either operand is. */
  function Plus(a: Num, b: Num): (s: Num)
    ensures s.NaN? <==> a.NaN? || b.NaN?
    ensures s.Val? ==> s.r == a.r + b.r
  {
    if a.NaN? || b.NaN? then NaN else Val(a.r + b.r)
  }

  /** `k * a` for a real factor `k`. */
  function Times(k: real, a: Num): (s: Num)
    ensures s.NaN? <==> a.NaN?
    ensures s.Val? ==> s.r == k * a.r
  {
    if a.NaN? then NaN else Val(k * a.r)
  }

  /** `a / k` for a non-zero real divisor `k`. */
  function Quot(a: Num, k: real): (s: Num)
    requires k != 0.0
    ensures s.NaN? <==> a.NaN?
    ensures s.Val? ==> s.r * k == a.r
  {
    if a.NaN? then NaN else Val(a.r / k)
  }

  /** A vector whose components may each be NaN. */
  datatype NumVec2 = NumVec2(x: Num, y: Num) {
    /** True when any component is NaN, as `is_nan` on a vector. */
    predicate IsNaN() { x.NaN? || y.NaN? }

    /** The real vector of a vector with no NaN component. */
    function Real(): (v: Vec2)
      requires !IsNaN()
      ensures Finite(v) == this
    {
      Vec2(x.r, y.r)
    }
  }

  const NaNVec: NumVec2 := NumVec2(NaN, NaN)

  function Finite(v: Vec2): (n: NumVec2)
    ensures !n.IsNaN()
  {
    NumVec2(Val(v.x), Val(v.y))
  }

  /** Componentwise `a + b`. */
  function PlusV(a: NumVec2, b: NumVec2): (s: NumVec2)
    ensures s.IsNaN() <==> a.IsNaN() || b.IsNaN()
    ensures !a.IsNaN() && !b.IsNaN() ==> s == Finite(Add(a.Real(), b.Real()))
  {
    NumVec2(Plus(a.x, b.x), Plus(a.y, b.y))
  }

  /** Componentwise `k * v`. */
  function TimesV(k: real, v: NumVec2): (s: NumVec2)
    ensures s.IsNaN() <==> v.IsNaN()
    ensures !v.IsNaN() ==> s == Finite(Scale(k, v.Real()))
  {
    NumVec2(Times(k, v.x), Times(k, v.y))
  }

  /** The length of a vector, NaN when a component is. */
  function LengthN(sqrt: real -> real, v: NumVec2): (l: Num)
    ensures l.NaN? <==> v.IsNaN()
    ensures l.Val? ==> l.r == Length(sqrt, v.Real())
  {
    if v.IsNaN() then NaN else Val(Length(sqrt, v.Real()))
  }
}
