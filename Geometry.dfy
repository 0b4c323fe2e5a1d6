/** Unity's Vector3, with float components modelled as reals. */
module Geometry {
  datatype Vec3 = Vec3(x: real, y: real, z: real)

  /** float.MaxValue. */
  const FloatMax: real := 340282346638528859811704183484516925440.0

  function Abs(r: real): (a: real)
    ensures a >= 0.0 && (a == r || a == -r)
  {
    if r < 0.0 then -r else r
  }

  /** Vector3.Min: componentwise minimum. */
  function Min3(a: Vec3, b: Vec3): (m: Vec3)
    ensures m.x <= a.x && m.x <= b.x && (m.x == a.x || m.x == b.x)
    ensures m.z <= a.z && m.z <= b.z && (m.z == a.z || m.z == b.z)
  {
    Vec3(if a.x < b.x then a.x else b.x, if a.y < b.y then a.y else b.y, if a.z < b.z then a.z else b.z)
  }

  /** Vector3.Max: componentwise maximum. */
  function Max3(a: Vec3, b: Vec3): (m: Vec3)
    ensures m.x >= a.x && m.x >= b.x && (m.x == a.x || m.x == b.x)
    ensures m.z >= a.z && m.z >= b.z && (m.z == a.z || m.z == b.z)
  {
    Vec3(if a.x > b.x then a.x else b.x, if a.y > b.y then a.y else b.y, if a.z > b.z then a.z else b.z)
  }

  lemma MulPositive(x: real, y: real)
    requires x > 0.0 && y > 0.0
    ensures x * y > 0.0
  {
  }

  lemma SquaresDifference(a: real, b: real)
    ensures (b - a) * (b + a) == b * b - a * a
  {
  }

  lemma SquareMonotone(a: real, b: real)
    requires 0.0 <= a <= b
    ensures a * a <= b * b
  {
  }

  lemma SquareStrictlyMonotone(a: real, b: real)
    requires 0.0 <= a < b
    ensures a * a < b * b
  {
    MulPositive(b - a, b + a);
    SquaresDifference(a, b);
  }

  lemma AbsSquare(r: real)
    ensures Abs(r) * Abs(r) == r * r
  {
    if r < 0.0 {
      assert Abs(r) == -r;
    }
  }

  /** From d*d <= r*r follows |d| <= |r|. */
  lemma SquareBound(d: real, r: real)
    requires d * d <= r * r
    ensures Abs(d) <= Abs(r)
  {
    if Abs(d) > Abs(r) {
      AbsSquare(d);
      AbsSquare(r);
      SquareStrictlyMonotone(Abs(r), Abs(d));
    }
  }

  /** C#'s (int) conversion of a float: truncation toward zero (values beyond the int range are not modelled). */
  function Truncate(r: real): (i: int)
    ensures r >= 0.0 ==> 0 <= i && i as real <= r < i as real + 1.0
    ensures r < 0.0 ==> i <= 0 && i as real - 1.0 < r <= i as real
  {
    if r >= 0.0 then r.Floor else -((-r).Floor)
  }

  /** Truncation keeps the order of non-negative values. */
  lemma TruncateMonotone(a: real, b: real)
    requires 0.0 <= a <= b
    ensures Truncate(a) <= Truncate(b)
  {
  }
}
