/**
 * UTM coordinate pairs and rectangular regions of the agent-mapping crate:
 * distances, the rescaling of a point into a region's unit square, the
 * Z-value of that rescaled point, and the region tests and corners.
 */
module Geo {
  import opened Wrappers
  import opened Numeric
  import opened Float64
  import opened MachineInts
  import opened UnitFixed
  import opened ZOrder

  /** `UTMCoordinates`: an easting and a northing, without a zone. */
  datatype Coords = Coords(x: real, y: real)

  /** `From<(f64, f64)> for UTMCoordinates`. */
  function FromTuple(t: (real, real)): (p: Coords)
    ensures p.x == t.0 && p.y == t.1
  {
    Coords(t.0, t.1)
  }

  /** `From<UTMCoordinates> for (f64, f64)`. */
  function ToTuple(p: Coords): (t: (real, real))
    ensures t.0 == p.x && t.1 == p.y
  {
    (p.x, p.y)
  }

  /** The two tuple conversions undo each other. */
  lemma TupleRoundTrip(p: Coords, t: (real, real))
    ensures FromTuple(ToTuple(p)) == p
    ensures ToTuple(FromTuple(t)) == t
  {
  }

  /** `squared_dist`: the sum of the squared coordinate differences. */
  function SquaredDist(a: Coords, b: Coords): (d: real)
    ensures d >= 0.0
    ensures d == 0.0 <==> a == b
  {
    var dx, dy := a.x - b.x, a.y - b.y;
    var sx, sy := dx * dx, dy * dy;
    SquareSign(dx, sx);
    SquareSign(dy, sy);
    sx + sy
  }

  /** The squared distance does not depend on the order of the points. */
  lemma SquaredDistSymmetric(a: Coords, b: Coords)
    ensures SquaredDist(a, b) == SquaredDist(b, a)
  {
    assert (a.x - b.x) * (a.x - b.x) == (b.x - a.x) * (b.x - a.x);
    assert (a.y - b.y) * (a.y - b.y) == (b.y - a.y) * (b.y - a.y);
  }

  /** `distance`: `hypot` of the coordinate differences, whose square is the squared distance. */
  function Distance(hypot: (real, real) -> real, a: Coords, b: Coords): (d: real)
    requires IsHypot(hypot)
    ensures d >= 0.0 && d * d == SquaredDist(a, b)
    ensures d == 0.0 <==> a == b
  {
    var d := hypot(a.x - b.x, a.y - b.y);
    SquareSign(d, d * d);
    d
  }

  /** Distances order points as squared distances do, which is why the tree searches compare the latter. */
  lemma DistanceOrder(hypot: (real, real) -> real, p: Coords, a: Coords, b: Coords)
    requires IsHypot(hypot)
    ensures Distance(hypot, p, a) <= Distance(hypot, p, b) <==> SquaredDist(p, a) <= SquaredDist(p, b)
  {
    SquareMonotone(Distance(hypot, p, a), Distance(hypot, p, b));
  }

  /** `Region`: the four bounds, in the field order of `Region::new`. */
  datatype Region = Region(east: real, west: real, north: real, south: real)

  /** A region whose bounds are in order, so that it spans a non-empty rectangle. */
  predicate Ordered(r: Region)
  {
    r.west <= r.east && r.south <= r.north
  }

  /** A region of positive width and height, the kind `normalize` can rescale into. */
  predicate Proper(r: Region)
  {
    r.west < r.east && r.south < r.north
  }

  /** `Region::from_points`: east and north from the first point, west and south from the second. */
  function FromPoints(northeast: Coords, southwest: Coords): (r: Region)
    ensures Northeast(r) == northeast && Southwest(r) == southwest
  {
    Region(northeast.x, southwest.x, northeast.y, southwest.y)
  }

  /** A region is rebuilt from its own north-east and south-west corners. */
  lemma FromPointsOfCorners(r: Region)
    ensures FromPoints(Northeast(r), Southwest(r)) == r
  {
  }

  function Southwest(r: Region): Coords { Coords(r.west, r.south) }
  function Southeast(r: Region): Coords { Coords(r.east, r.south) }
  function Northwest(r: Region): Coords { Coords(r.west, r.north) }
  function Northeast(r: Region): Coords { Coords(r.east, r.north) }

  /** `contains`: the point is neither west, east, south nor north of the bounds, which are inclusive. */
  function Contains(r: Region, p: Coords): (b: bool)
    ensures b <==> r.west <= p.x <= r.east && r.south <= p.y <= r.north
  {
    !(p.x < r.west || p.x > r.east || p.y < r.south || p.y > r.north)
  }

  /** An ordered region contains its four corners, and only an ordered region contains any point. */
  lemma CornersContained(r: Region, p: Coords)
    ensures Ordered(r) ==> Contains(r, Southwest(r)) && Contains(r, Southeast(r))
                           && Contains(r, Northwest(r)) && Contains(r, Northeast(r))
    ensures Contains(r, p) ==> Ordered(r)
  {
  }

  /** `intersects`: the two regions overlap in an area, not just along an edge. */
  function Intersects(a: Region, b: Region): (i: bool)
    ensures i <==> a.west < b.east && b.west < a.east && a.south < b.north && b.south < a.north
  {
    a.west < b.east && a.east > b.west && a.south < b.north && a.north > b.south
  }

  /** Intersection does not depend on the order of the regions. */
  lemma IntersectsSymmetric(a: Region, b: Region)
    ensures Intersects(a, b) == Intersects(b, a)
  {
  }

  /** The point strictly inside both bounds in each direction. */
  predicate Interior(r: Region, p: Coords)
  {
    r.west < p.x < r.east && r.south < p.y < r.north
  }

  /**
   * Regions with a point interior to both intersect, and intersecting regions
   * of positive size have the middle of their overlap interior to both.
   * Regions that only share an edge do not intersect.
   */
  lemma IntersectsInterior(a: Region, b: Region, p: Coords)
    ensures Interior(a, p) && Interior(b, p) ==> Intersects(a, b)
    ensures Proper(a) && Proper(b) && Intersects(a, b) ==>
              var c := Coords((Max(a.west, b.west) + Min(a.east, b.east)) / 2.0,
                              (Max(a.south, b.south) + Min(a.north, b.north)) / 2.0);
              Interior(a, c) && Interior(b, c)
    ensures a.east == b.west ==> !Intersects(a, b)
  {
  }

  /** `center`: the midpoint of the bounds. */
  function Center(r: Region): (c: Coords)
    ensures c.x - r.west == r.east - c.x && c.y - r.south == r.north - c.y
    ensures Ordered(r) ==> Contains(r, c)
    ensures Proper(r) ==> Interior(r, c)
  {
    Coords((r.east + r.west) / 2.0, (r.north + r.south) / 2.0)
  }

  /** A quotient of reals with a positive divisor lies in [0, 1] exactly when the dividend lies in [0, divisor]. */
  lemma UnitQuotient(a: real, d: real)
    requires d > 0.0
    ensures a / d >= 0.0 <==> a >= 0.0
    ensures a / d <= 1.0 <==> a <= d
  {
    var q := a / d;
    DivMul(a, d);
    if q < 0.0 {
      ProductPositive(-q, d, -a);
    } else if q > 0.0 {
      ProductPositive(q, d, a);
    }
    if q > 1.0 {
      ProductPositive(q - 1.0, d, a - d);
    } else if q < 1.0 {
      ProductPositive(1.0 - q, d, d - a);
    }
  }

  /** Over a positive divisor, 0 gives 0 and the divisor itself gives 1. */
  lemma QuotientEnds(d: real)
    requires d > 0.0
    ensures 0.0 / d == 0.0 && d / d == 1.0
  {
    var z, o := 0.0 / d, d / d;
    DivMul(0.0, d);
    DivMul(d, d);
    if z > 0.0 {
      ProductPositive(z, d, 0.0);
    } else if z < 0.0 {
      ProductPositive(-z, d, 0.0);
    }
    if o > 1.0 {
      ProductPositive(o - 1.0, d, 0.0);
    } else if o < 1.0 {
      ProductPositive(1.0 - o, d, 0.0);
    }
  }

  /** A larger dividend over the same positive divisor gives a quotient at least as large. */
  lemma QuotientMonotone(a1: real, a2: real, d: real)
    requires d > 0.0 && a1 <= a2
    ensures a1 / d <= a2 / d
  {
    var q1, q2 := a1 / d, a2 / d;
    DivMul(a1, d);
    DivMul(a2, d);
    if q1 > q2 {
      ProductPositive(q1 - q2, d, a1 - a2);
    }
  }

  /** The rescaled easting of `normalize`, as a double. */
  function RescaledX(p: Coords, r: Region): F64
  {
    Quotient(p.x - r.west, r.east - r.west)
  }

  /** The rescaled northing of `normalize`, as a double. */
  function RescaledY(p: Coords, r: Region): F64
  {
    Quotient(p.y - r.south, r.north - r.south)
  }

  /**
   * `normalize`: the point rescaled so that the south-west corner is (0, 0)
   * and the north-east corner is (1, 1), and `None` when a rescaled
   * coordinate is below 0 or above 1. In a region of zero width or height,
   * a point on that edge rescales to NaN, which passes the range test and
   * makes the conversion to fixed point panic (`Err`).
   */
  function Normalize(p: Coords, r: Region): (res: Result<Option<(UnitFixedPoint, UnitFixedPoint)>>)
    ensures res.Err? <==> !Rejected(p, r) && (RescaledX(p, r).NaN? || RescaledY(p, r).NaN?)
    ensures res.Err? ==> (r.east == r.west && p.x == r.west) || (r.north == r.south && p.y == r.south)
    ensures res.Ok? && res.value.Some? ==>
              Ok(res.value.value.0) == FromF64(RescaledX(p, r)) && Ok(res.value.value.1) == FromF64(RescaledY(p, r))
  {
    if Rejected(p, r) then
      Ok(None)
    else
      match (FromF64(RescaledX(p, r)), FromF64(RescaledY(p, r)))
      case (Ok(fx), Ok(fy)) => Ok(Some((fx, fy)))
      case (Err(e), _) => Err(e)
      case (_, Err(e)) => Err(e)
  }

  /** The range test of `normalize`: a rescaled coordinate below 0 or above 1. */
  predicate Rejected(p: Coords, r: Region)
  {
    var x, y := RescaledX(p, r), RescaledY(p, r);
    Less(x, 0.0) || Greater(x, 1.0) || Less(y, 0.0) || Greater(y, 1.0)
  }

  /**
   * In a region of positive width and height, `normalize` never panics, gives
   * a pair exactly for the points the region contains, and the pair is the
   * rescaled coordinates converted to fixed point.
   */
  lemma NormalizeProper(p: Coords, r: Region)
    requires Proper(r)
    ensures Normalize(p, r).Ok?
    ensures Normalize(p, r).value.Some? <==> Contains(r, p)
    ensures Normalize(p, r).value.Some? ==>
              Normalize(p, r).value.value == (FromReal((p.x - r.west) / (r.east - r.west)),
                                              FromReal((p.y - r.south) / (r.north - r.south)))
  {
    UnitQuotient(p.x - r.west, r.east - r.west);
    UnitQuotient(p.y - r.south, r.north - r.south);
  }

  /** The south-west corner rescales to (0, 0) and the north-east corner to (1, 1), as raw `0` and `u32::MAX`. */
  lemma NormalizeCorners(r: Region)
    requires Proper(r)
    ensures Normalize(Southwest(r), r) == Ok(Some((UnitFixedPoint(0), UnitFixedPoint(0))))
    ensures Normalize(Northeast(r), r) == Ok(Some((UnitFixedPoint(U32_MAX), UnitFixedPoint(U32_MAX))))
  {
    NormalizeProper(Southwest(r), r);
    NormalizeProper(Northeast(r), r);
    QuotientEnds(r.east - r.west);
    QuotientEnds(r.north - r.south);
  }

  /** Within a region, a point further east (north) never gets a smaller fixed-point x (y). */
  lemma NormalizeMonotone(p: Coords, q: Coords, r: Region)
    requires Proper(r) && Contains(r, p) && Contains(r, q)
    ensures Normalize(p, r).Ok? && Normalize(p, r).value.Some? && Normalize(q, r).Ok? && Normalize(q, r).value.Some?
    ensures p.x <= q.x ==> Normalize(p, r).value.value.0.raw <= Normalize(q, r).value.value.0.raw
    ensures p.y <= q.y ==> Normalize(p, r).value.value.1.raw <= Normalize(q, r).value.value.1.raw
  {
    NormalizeProper(p, r);
    NormalizeProper(q, r);
    if p.x <= q.x {
      QuotientMonotone(p.x - r.west, q.x - r.west, r.east - r.west);
      FromRealMonotone((p.x - r.west) / (r.east - r.west), (q.x - r.west) / (r.east - r.west));
    }
    if p.y <= q.y {
      QuotientMonotone(p.y - r.south, q.y - r.south, r.north - r.south);
      FromRealMonotone((p.y - r.south) / (r.north - r.south), (q.y - r.south) / (r.north - r.south));
    }
  }

  /** A region of zero width: a point on its one easting with an accepted northing makes `normalize` panic. */
  lemma NormalizeZeroWidth(p: Coords, r: Region)
    requires r.east == r.west && p.x == r.west && r.south < r.north && Contains(r, p)
    ensures Normalize(p, r).Err?
  {
    UnitQuotient(p.y - r.south, r.north - r.south);
  }

  /** `z_value`: the Z-value of the normalized pair, defined exactly where `normalize` gives one. */
  function ZValueOf(p: Coords, r: Region): (res: Result<Option<ZValue>>)
    ensures res.Err? <==> Normalize(p, r).Err?
    ensures res.Ok? ==> (res.value.Some? <==> Normalize(p, r).value.Some?)
    ensures res.Ok? && res.value.Some? ==>
              var (fx, fy) := Normalize(p, r).value.value;
              res.value.value.raw == Interleaved(fx.raw, fy.raw)
  {
    match Normalize(p, r)
    case Err(e) => Err(e)
    case Ok(None) => Ok(None)
    case Ok(Some((fx, fy))) => Ok(Some(FromFp(fx, fy)))
  }

  /** Within a region of positive width and height, the Z-value exists exactly for the contained points. */
  lemma ZValueProper(p: Coords, r: Region)
    requires Proper(r)
    ensures ZValueOf(p, r).Ok? && (ZValueOf(p, r).value.Some? <==> Contains(r, p))
  {
    NormalizeProper(p, r);
  }
}
