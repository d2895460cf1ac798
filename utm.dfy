/**
 * Latitude/longitude to Universal Transverse Mercator conversion on the WGS84
 * ellipsoid: zone meridian selection and the structure of the forward series.
 * The trigonometric functions, the square root and pi are supplied by the
 * caller; the series is kept term for term.
 */
module Utm {
  import opened Numeric

  /** Semi-major axis (m), inverse flattening and the central-meridian scale factor. */
  const S_MAJ: real := 6378137.0
  const INV_FLAT: real := 298.257223563
  const K0: real := 0.9996

  const FLAT: real := 1.0 / INV_FLAT
  /** First eccentricity squared and its powers. */
  const E2: real := (2.0 * FLAT) - (FLAT * FLAT)
  const E4: real := E2 * E2
  const E6: real := E2 * E2 * E2

  lemma EccentricityBounds()
    ensures 0.0 < FLAT < 1.0
    ensures 0.0 < E2 < 1.0
    ensures E2 == 1.0 - (1.0 - FLAT) * (1.0 - FLAT)
  {
  }

  /** Second eccentricity squared. */
  const EP2: real := E2 / (1.0 - E2)

  const M1: real := 1.0 - (E2 / 4.0) - (3.0 * E4 / 64.0) - (5.0 * E6 / 256.0)
  const M2: real := (3.0 * E2 / 8.0) + (3.0 * E4 / 32.0) + (45.0 * E6 / 1024.0)
  const M3: real := (15.0 * E4 / 256.0) + (45.0 * E6 / 1024.0)
  const M4: real := 35.0 * E6 / 3072.0

  /** False easting (500 km) and the false northing used south of the Equator (10 000 km). */
  const FALSE_EASTING: real := 500000.0
  const FALSE_NORTHING_SOUTH: real := 10000000.0

  /**
   * The central meridian of the six-degree zone holding `lon`, computed as
   * `((lon // -6) * -6) - 3` with Python's floor division.
   */
  function CentralLongitude(lon: real): (c: real)
    ensures -3.0 < lon - c <= 3.0
    ensures ((c + 3.0) / 6.0).Floor as real * 6.0 == c + 3.0
  {
    var q := (lon / -6.0).Floor;
    var c := (q as real) * -6.0 - 3.0;
    ZoneQuotient(lon, q, c);
    c
  }

  lemma ZoneQuotient(lon: real, q: int, c: real)
    requires q == (lon / -6.0).Floor && c == (q as real) * -6.0 - 3.0
    ensures -3.0 < lon - c <= 3.0
    ensures ((c + 3.0) / 6.0).Floor as real * 6.0 == c + 3.0
  {
    ZoneBounds(lon, lon / -6.0, q, c);
    ZoneStart(q, c);
  }

  /** The zone's meridian lies within three degrees of a longitude whose sixth lies in [q, q + 1). */
  lemma ZoneBounds(lon: real, x: real, q: int, c: real)
    requires x == lon / -6.0 && q as real <= x < q as real + 1.0 && c == (q as real) * -6.0 - 3.0
    ensures -3.0 < lon - c <= 3.0
  {
  }

  /** Three degrees east of the meridian is a whole multiple of six degrees. */
  lemma ZoneStart(q: int, c: real)
    requires c == (q as real) * -6.0 - 3.0
    ensures ((c + 3.0) / 6.0).Floor as real * 6.0 == c + 3.0
  {
    assert (c + 3.0) / 6.0 == (-q) as real;
  }

  lemma CentralLongitudeExamples()
    ensures CentralLongitude(-83.9232) == -81.0
    ensures CentralLongitude(-87.63) == -87.0
    ensures CentralLongitude(139.69) == 141.0
  {
    assert (-83.9232 / -6.0).Floor == 13;
    assert (-87.63 / -6.0).Floor == 14;
    assert (139.69 / -6.0).Floor == -24;
  }

  /** The transcendental functions the series needs, and pi. */
  datatype Trig = Trig(sin: real -> real, cos: real -> real, tan: real -> real, sqrt: real -> real, pi: real)

  function Radians(t: Trig, deg: real): real
  {
    deg * t.pi / 180.0
  }

  /** The radius of curvature denominator `sqrt(1 - E2 sin^2(lat))`, which the source divides by. */
  function CurvatureRoot(t: Trig, lat: real): real
  {
    t.sqrt(1.0 - E2 * (t.sin(lat) * t.sin(lat)))
  }

  /** A sine bounded by 1 in magnitude and a true square root, as the floating-point library supplies. */
  ghost predicate BoundedSine(t: Trig)
  {
    IsSqrt(t.sqrt) && forall x: real {:trigger t.sin(x)} :: -1.0 <= t.sin(x) <= 1.0
  }

  /** With such functions the curvature denominator is positive, so the conversion never divides by zero. */
  lemma CurvatureRootPositive(t: Trig, lat: real)
    requires BoundedSine(t)
    ensures CurvatureRoot(t, lat) > 0.0
  {
    var s := t.sin(lat);
    var ss := s * s;
    SquareSign(s, ss);
    if s >= 0.0 {
      SquareMonotone(s, 1.0);
    } else {
      SquareMonotone(-s, 1.0);
      assert (-s) * (-s) == ss;
    }
    EccentricityBounds();
    var e := E2 * ss;
    assert e <= E2 by {
      Scaled(E2, ss, e);
    }
    SqrtZero(t.sqrt, 1.0 - e);
  }

  lemma CurvatureRootsPositive(t: Trig)
    requires BoundedSine(t)
    ensures forall lat: real :: CurvatureRoot(t, lat) > 0.0
  {
    forall lat: real
      ensures CurvatureRoot(t, lat) > 0.0
    {
      CurvatureRootPositive(t, lat);
    }
  }

  /** The meridional arc length M of the forward series. */
  function MeridianArc(t: Trig, lat: real): real
  {
    S_MAJ * ((M1 * lat) - (M2 * t.sin(2.0 * lat)) + (M3 * t.sin(4.0 * lat)) - (M4 * t.sin(6.0 * lat)))
  }

  /** Easting before the false easting is added. */
  function SeriesEasting(n: real, tt: real, c: real, a: real): real
  {
    K0 * n * (a + ((1.0 - tt + c) * a * a * a / 6.0)
      + ((5.0 - (18.0 * tt) + (tt * tt) + (72.0 * c) - (58.0 * EP2)) * (a * a * a * a * a) / 120.0))
  }

  /** Northing before the southern false northing is added. */
  function SeriesNorthing(m: real, n: real, tanLat: real, tt: real, c: real, a: real): real
  {
    K0 * (m + n * tanLat * ((a * a / 2.0)
      + ((5.0 - tt + (9.0 * c) + (4.0 * c * c)) * (a * a * a * a) / 24.0)
      + ((61.0 - (58.0 * tt) + (tt * tt) + (600.0 * c) - (330.0 * EP2)) * (a * a * a * a * a * a) / 720.0)))
  }

  /**
   * `convert_to_utm(lat_deg, lon_deg, central_lon_deg)`: the series easting
   * plus 500 km, and the series northing plus 10 000 km exactly when the
   * latitude is south of the Equator.
   */
  function ConvertToUtm(t: Trig, latDeg: real, lonDeg: real, centralLonDeg: real): (xy: (real, real))
    requires CurvatureRoot(t, Radians(t, latDeg)) != 0.0
    ensures var lat := Radians(t, latDeg);
            var a := (Radians(t, lonDeg) - Radians(t, centralLonDeg)) * t.cos(lat);
            var n := S_MAJ / CurvatureRoot(t, lat);
            var tt := t.tan(lat) * t.tan(lat);
            var c := EP2 * (t.cos(lat) * t.cos(lat));
            xy.0 - FALSE_EASTING == SeriesEasting(n, tt, c, a)
            && xy.1 - SeriesNorthing(MeridianArc(t, lat), n, t.tan(lat), tt, c, a)
               == (if latDeg < 0.0 then FALSE_NORTHING_SOUTH else 0.0)
  {
    var lat := Radians(t, latDeg);
    var lon := Radians(t, lonDeg);
    var centLon := Radians(t, centralLonDeg);
    var n := S_MAJ / CurvatureRoot(t, lat);
    var tt := t.tan(lat) * t.tan(lat);
    var c := EP2 * (t.cos(lat) * t.cos(lat));
    var a := (lon - centLon) * t.cos(lat);
    var m := MeridianArc(t, lat);
    var x := SeriesEasting(n, tt, c, a);
    var y := SeriesNorthing(m, n, t.tan(lat), tt, c, a);
    (x + FALSE_EASTING, y + (if latDeg < 0.0 then FALSE_NORTHING_SOUTH else 0.0))
  }

  /** On the central meridian A is 0, so the easting is exactly the false easting. */
  lemma CentralMeridianEasting(t: Trig, latDeg: real, lonDeg: real)
    requires CurvatureRoot(t, Radians(t, latDeg)) != 0.0
    ensures ConvertToUtm(t, latDeg, lonDeg, lonDeg).0 == FALSE_EASTING
  {
    var lat := Radians(t, latDeg);
    var n := S_MAJ / CurvatureRoot(t, lat);
    var tt := t.tan(lat) * t.tan(lat);
    var c := EP2 * (t.cos(lat) * t.cos(lat));
    assert (Radians(t, lonDeg) - Radians(t, lonDeg)) * t.cos(lat) == 0.0;
    assert SeriesEasting(n, tt, c, 0.0) == 0.0;
  }

  /** The zone origin: latitude 0 on the central meridian maps to (500000, 0). */
  lemma ZoneOrigin(t: Trig, lonDeg: real)
    requires t.sin(0.0) == 0.0 && t.tan(0.0) == 0.0
    requires CurvatureRoot(t, 0.0) != 0.0
    ensures ConvertToUtm(t, 0.0, lonDeg, lonDeg) == (FALSE_EASTING, 0.0)
  {
    assert Radians(t, 0.0) == 0.0;
    CentralMeridianEasting(t, 0.0, lonDeg);
    assert MeridianArc(t, 0.0) == 0.0 by {
      assert 2.0 * 0.0 == 0.0 && 4.0 * 0.0 == 0.0 && 6.0 * 0.0 == 0.0;
    }
    var n := S_MAJ / CurvatureRoot(t, 0.0);
    var c := EP2 * (t.cos(0.0) * t.cos(0.0));
    var a := (Radians(t, lonDeg) - Radians(t, lonDeg)) * t.cos(0.0);
    assert SeriesNorthing(0.0, n, 0.0, 0.0, c, a) == 0.0;
  }
}
