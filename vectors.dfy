/** Two-dimensional vectors over the reals, standing in for the `Vec2` of the
    graphics library the bodies are written against. Only what the bodies use
    is defined here. The square root is not defined: every member that needs
    one takes it as a parameter `sqrt`, and the facts about lengths hold for
    any `sqrt` that satisfies `IsSqrt`. */
module Vectors {

  datatype Vec2 = Vec2(x: real, y: real)

  const Zero: Vec2 := Vec2(0.0, 0.0)

  function Add(a: Vec2, b: Vec2): Vec2 { Vec2(a.x + b.x, a.y + b.y) }

  function Sub(a: Vec2, b: Vec2): Vec2 { Vec2(a.x - b.x, a.y - b.y) }

  function Scale(k: real, v: Vec2): Vec2 { Vec2(k * v.x, k * v.y) }

  /** A difference is zero exactly when its operands are equal. */
  lemma SubIsZero(a: Vec2, b: Vec2)
    ensures Sub(a, b) == Zero <==> a == b
  {
  }

  /** Scaling laws used by the integration step. */
  lemma ScaleLaws(j: real, k: real, p: Vec2, v: Vec2)
    ensures Scale(k, Zero) == Zero
    ensures Add(p, Zero) == p
    ensures Sub(v, v) == Zero
    ensures Add(Scale(j, v), Scale(k, v)) == Scale(j + k, v)
    ensures Add(Add(p, Scale(j, v)), Scale(k, v)) == Add(p, Scale(j + k, v))
  {
    assert k * 0.0 == 0.0;
    assert j * v.x + k * v.x == (j + k) * v.x;
    assert j * v.y + k * v.y == (j + k) * v.y;
  }

  function Dot(a: Vec2, b: Vec2): real { a.x * b.x + a.y * b.y }

  /** The square of a real. Facts about squares are stated on `Sq` rather
      than on a product of a term with itself. */
  function Sq(x: real): real { x * x }

  /** On non-negative reals, squaring keeps strict order. */
  lemma SquareMonotone(x: real, y: real)
    requires 0.0 <= x < y
    ensures Sq(x) < Sq(y)
  {
    var xx, xy, yy := x * x, x * y, y * y;
    assert xx <= xy;
    assert xy < yy;
  }

  /** The square of a non-zero real is positive. */
  lemma SquarePositive(x: real)
    requires x != 0.0
    ensures 0.0 < Sq(x)
  {
    if 0.0 < x {
      SquareMonotone(0.0, x);
    } else {
      SquareMonotone(0.0, -x);
      assert Sq(-x) == Sq(x);
    }
  }

  lemma SquareNonNegative(x: real)
    ensures 0.0 <= Sq(x)
  {
    if x != 0.0 { SquarePositive(x); }
  }

  /** On non-negative reals, squaring keeps order both ways. */
  lemma SquareOrder(a: real, b: real)
    requires 0.0 <= a && 0.0 <= b
    ensures Sq(a) <= Sq(b) <==> a <= b
    ensures Sq(a) < Sq(b) <==> a < b
  {
    if a < b {
      SquareMonotone(a, b);
    } else if b < a {
      SquareMonotone(b, a);
    }
  }

  function LengthSq(v: Vec2): real { Sq(v.x) + Sq(v.y) }

  /** The squared length is non-negative, and positive away from the zero vector. */
  lemma LengthSqFacts(v: Vec2)
    ensures 0.0 <= LengthSq(v)
    ensures v != Zero ==> 0.0 < LengthSq(v)
  {
    SquareNonNegative(v.x);
    SquareNonNegative(v.y);
    if v.x != 0.0 {
      SquarePositive(v.x);
    } else if v.y != 0.0 {
      SquarePositive(v.y);
    }
  }

  /** The vector turned a quarter turn anticlockwise: (-y, x). */
  function Perp(v: Vec2): Vec2 { Vec2(-v.y, v.x) }

  function Abs(x: real): real { if x < 0.0 then -x else x }

  /** `sqrt` returns the non-negative square root of every non-negative real. */
  ghost predicate IsSqrt(sqrt: real -> real) {
    forall x :: 0.0 <= x ==> 0.0 <= sqrt(x) && Sq(sqrt(x)) == x
  }

  function Length(sqrt: real -> real, v: Vec2): real { sqrt(LengthSq(v)) }

  /** The root `sqrt` returns of a square is the absolute value. */
  lemma RootIsUnique(sqrt: real -> real, x: real)
    requires IsSqrt(sqrt)
    ensures sqrt(Sq(x)) == Abs(x)
  {
    SquareNonNegative(x);
    var s, a := sqrt(Sq(x)), Abs(x);
    assert 0.0 <= s && Sq(s) == Sq(x);
    assert Sq(a) == Sq(x);
    if s < a {
      SquareMonotone(s, a);
    } else if a < s {
      SquareMonotone(a, s);
    }
  }

  /** The length is the non-negative root of the squared length; it is zero
      for the zero vector and positive for every other. */
  lemma LengthIsRoot(sqrt: real -> real, v: Vec2)
    requires IsSqrt(sqrt)
    ensures 0.0 <= Length(sqrt, v)
    ensures Sq(Length(sqrt, v)) == LengthSq(v)
    ensures v == Zero ==> Length(sqrt, v) == 0.0
    ensures v != Zero ==> 0.0 < Length(sqrt, v)
  {
    LengthSqFacts(v);
    if v == Zero {
      RootIsUnique(sqrt, 0.0);
    } else if Length(sqrt, v) == 0.0 {
      assert Sq(Length(sqrt, v)) == 0.0;
    }
  }

  lemma LengthSymmetric(sqrt: real -> real, a: Vec2, b: Vec2)
    ensures Length(sqrt, Sub(a, b)) == Length(sqrt, Sub(b, a))
  {
    assert LengthSq(Sub(a, b)) == LengthSq(Sub(b, a));
  }

  lemma ScaleLengthSq(k: real, v: Vec2)
    ensures LengthSq(Scale(k, v)) == Sq(k) * LengthSq(v)
  {
    calc {
      LengthSq(Scale(k, v));
      (k * v.x) * (k * v.x) + (k * v.y) * (k * v.y);
      k * k * (v.x * v.x + v.y * v.y);
    }
  }

  /** The unit vector in the direction of `v`, as `normalize` gives it; the
      zero vector has none. */
  function Normalize(sqrt: real -> real, v: Vec2): Vec2
    requires IsSqrt(sqrt) && v != Zero
  {
    LengthIsRoot(sqrt, v);
    Scale(1.0 / Length(sqrt, v), v)
  }

  /** `Normalize` gives a unit vector that scales back to `v`. */
  lemma NormalizeIsUnit(sqrt: real -> real, v: Vec2)
    requires IsSqrt(sqrt) && v != Zero
    ensures LengthSq(Normalize(sqrt, v)) == 1.0
    ensures Scale(Length(sqrt, v), Normalize(sqrt, v)) == v
  {
    LengthIsRoot(sqrt, v);
    var len := Length(sqrt, v);
    var k := 1.0 / len;
    ScaleLengthSq(k, v);
    assert k * len == 1.0;
    assert Sq(k) * Sq(len) == Sq(k * len);
  }

  /** In the frame of a unit normal `n` and its tangent `Perp(n)`,
      `a*n + b*Perp(n)` has coordinates `a` and `b` and squared length
      `Sq(a) + Sq(b)`. */
  lemma Coordinates(n: Vec2, a: real, b: real)
    requires LengthSq(n) == 1.0
    ensures Dot(n, Add(Scale(a, n), Scale(b, Perp(n)))) == a
    ensures Dot(Perp(n), Add(Scale(a, n), Scale(b, Perp(n)))) == b
    ensures LengthSq(Add(Scale(a, n), Scale(b, Perp(n)))) == Sq(a) + Sq(b)
  {
    var w := Add(Scale(a, n), Scale(b, Perp(n)));
    assert w == Vec2(a * n.x - b * n.y, a * n.y + b * n.x);
    calc {
      Dot(n, w);
      n.x * (a * n.x - b * n.y) + n.y * (a * n.y + b * n.x);
      a * (n.x * n.x + n.y * n.y);
    }
    calc {
      Dot(Perp(n), w);
      -n.y * (a * n.x - b * n.y) + n.x * (a * n.y + b * n.x);
      b * (n.x * n.x + n.y * n.y);
    }
    calc {
      LengthSq(w);
      (a * n.x - b * n.y) * (a * n.x - b * n.y) + (a * n.y + b * n.x) * (a * n.y + b * n.x);
      (a * a + b * b) * (n.x * n.x + n.y * n.y);
    }
  }

  /** Scaling twice is scaling by the product. */
  lemma ScaleTwice(a: real, b: real, v: Vec2)
    ensures Scale(a, Scale(b, v)) == Scale(a * b, v)
  {
    assert a * (b * v.x) == (a * b) * v.x;
    assert a * (b * v.y) == (a * b) * v.y;
  }

  /** The dot product of two multiples of one vector. */
  lemma DotOfScales(a: real, b: real, n: Vec2)
    ensures Dot(Scale(a, n), Scale(b, n)) == a * b * LengthSq(n)
  {
    calc {
      Dot(Scale(a, n), Scale(b, n));
      (a * n.x) * (b * n.x) + (a * n.y) * (b * n.y);
      a * b * (n.x * n.x + n.y * n.y);
    }
  }

  /** Every vector is the sum of its normal and tangential parts. */
  lemma Decompose(n: Vec2, v: Vec2)
    requires LengthSq(n) == 1.0
    ensures v == Add(Scale(Dot(n, v), n), Scale(Dot(Perp(n), v), Perp(n)))
  {
    var a, b := Dot(n, v), Dot(Perp(n), v);
    calc {
      a * n.x - b * n.y;
      (n.x * v.x + n.y * v.y) * n.x - (-n.y * v.x + n.x * v.y) * n.y;
      v.x * (n.x * n.x + n.y * n.y);
    }
    calc {
      a * n.y + b * n.x;
      (n.x * v.x + n.y * v.y) * n.y + (-n.y * v.x + n.x * v.y) * n.x;
      v.y * (n.x * n.x + n.y * n.y);
    }
  }
}
