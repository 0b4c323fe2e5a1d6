/**
 * The two point checkers a k-d tree range search accepts: an axis-aligned
 * rectangle and a circle, both on the flat (x, z) plane.
 */
module PointCheckers {
  import opened Geometry

  datatype PointChecker =
    | InRectangle(min: Vec3, max: Vec3)
    | InCircle(center: Vec3, radius: real)

  /** Mathf.Pow(d, 2). */
  function Square(d: real): real { d * d }

  /** IsInArea of PointCheckerInRectangle and PointCheckerInCircle. */
  predicate IsInArea(c: PointChecker, p: Vec3) {
    match c
    case InRectangle(min, max) => p.x >= min.x && p.x <= max.x && p.z >= min.z && p.z <= max.z
    case InCircle(center, r) => Square(p.x - center.x) + Square(p.z - center.z) <= r * r
  }

  /** The checker accepts nothing outside the rectangle spanned by `min` and `max`. */
  ghost predicate AreaWithin(c: PointChecker, min: Vec3, max: Vec3) {
    forall p :: IsInArea(c, p) ==> IsInArea(InRectangle(min, max), p)
  }

  function WithY(p: Vec3, y: real): Vec3 { Vec3(p.x, y, p.z) }

  function CheckerWithY(c: PointChecker, y1: real, y2: real): PointChecker {
    match c
    case InRectangle(min, max) => InRectangle(WithY(min, y1), WithY(max, y2))
    case InCircle(center, r) => InCircle(WithY(center, y1), r)
  }

  /** Neither the point's height nor the checker's heights affect the answer. */
  lemma IgnoresHeight(c: PointChecker, p: Vec3, y: real, y1: real, y2: real)
    ensures IsInArea(CheckerWithY(c, y1, y2), WithY(p, y)) == IsInArea(c, p)
  {
  }

  /** Every rectangle edge is inclusive: the four corners are accepted whenever min <= max. */
  lemma RectangleCornersInclusive(min: Vec3, max: Vec3)
    requires min.x <= max.x && min.z <= max.z
    ensures IsInArea(InRectangle(min, max), min) && IsInArea(InRectangle(min, max), max)
    ensures IsInArea(InRectangle(min, max), Vec3(min.x, 0.0, max.z))
    ensures IsInArea(InRectangle(min, max), Vec3(max.x, 0.0, min.z))
  {
  }

  /** An inverted rectangle accepts no point. */
  lemma InvertedRectangleEmpty(min: Vec3, max: Vec3, p: Vec3)
    requires min.x > max.x || min.z > max.z
    ensures !IsInArea(InRectangle(min, max), p)
  {
  }

  /** A rectangle with min = max in (x, z) accepts exactly the points with that (x, z). */
  lemma DegenerateRectangle(min: Vec3, max: Vec3, p: Vec3)
    requires min.x == max.x && min.z == max.z
    ensures IsInArea(InRectangle(min, max), p) <==> p.x == min.x && p.z == min.z
  {
  }

  /** The centre of a circle is accepted for every radius, negative or zero included. */
  lemma CircleContainsCentre(center: Vec3, r: real, p: Vec3)
    requires p.x == center.x && p.z == center.z
    ensures IsInArea(InCircle(center, r), p)
  {
    assert r * r >= 0.0;
  }

  /** The radius is not validated: r and -r accept the same points. */
  lemma CircleRadiusSignIrrelevant(center: Vec3, r: real, p: Vec3)
    ensures IsInArea(InCircle(center, r), p) == IsInArea(InCircle(center, -r), p)
  {
    assert r * r == (-r) * (-r);
  }

  /** The rectangle centre +- |r| bounds the circle of radius r, so it is a sound search box. */
  lemma CircleWithinBox(center: Vec3, r: real)
    ensures AreaWithin(InCircle(center, r), Vec3(center.x - Abs(r), center.y, center.z - Abs(r)),
                                             Vec3(center.x + Abs(r), center.y, center.z + Abs(r)))
  {
    forall p | IsInArea(InCircle(center, r), p)
      ensures IsInArea(InRectangle(Vec3(center.x - Abs(r), center.y, center.z - Abs(r)),
                                   Vec3(center.x + Abs(r), center.y, center.z + Abs(r))), p)
    {
      var dx, dz := p.x - center.x, p.z - center.z;
      assert Square(dz) >= 0.0 && Square(dx) >= 0.0;
      SquareBound(dx, r);
      SquareBound(dz, r);
    }
  }

  /** A rectangle checker searches within its own bounds. */
  lemma RectangleWithinItself(min: Vec3, max: Vec3)
    ensures AreaWithin(InRectangle(min, max), min, max)
  {
  }
}
