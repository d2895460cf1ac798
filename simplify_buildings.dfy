/**
 * Building footprint simplification: each footprint's outer ring, given as
 * longitude/latitude pairs, is kept only when it lies inside a fixed box
 * around the downtown area; a kept ring is projected to UTM and reduced to
 * one row holding its sequence number, the mean of its vertices, its
 * shoelace area and its bounding box.
 */
module SimplifyBuildings {
  import opened Numeric
  import opened Utm
  import opened RoadNet

  /** The central meridian every footprint is projected with. */
  const CENT_LON: real := -87.0

  /** The corners of the box (longitude, latitude) a footprint must lie in. */
  const MIN_COORDS: Point := (-87.651190, 41.848287)
  const MAX_COORDS: Point := (-87.609778, 41.900419)

  /** A footprint's outer ring as (longitude, latitude) vertices. */
  type Ring = seq<Point>

  /** One output row: id, centroid, area and the east, west, north and south sides of the bounding box. */
  datatype FootprintRow = FootprintRow(id: int, centerX: real, centerY: real, area: real,
                                       east: real, west: real, north: real, south: real)

  /** No coordinate of the ring is below the box's minimum or above its maximum. */
  predicate InBox(ring: Ring)
  {
    forall k :: 0 <= k < |ring| ==>
      MIN_COORDS.0 <= ring[k].0 <= MAX_COORDS.0 && MIN_COORDS.1 <= ring[k].1 <= MAX_COORDS.1
  }

  /** Every vertex projected, latitude first, around the fixed central meridian. */
  function Project(t: Trig, ring: Ring): (pts: seq<Point>)
    requires BoundedSine(t)
    ensures |pts| == |ring|
  {
    CurvatureRootsPositive(t);
    seq(|ring|, k requires 0 <= k < |ring| => ConvertToUtm(t, ring[k].1, ring[k].0, CENT_LON))
  }

  /** Vertex k is projected on its own, latitude first, with a non-zero curvature denominator. */
  lemma ProjectedVertex(t: Trig, ring: Ring, k: int)
    requires BoundedSine(t) && 0 <= k < |ring|
    ensures CurvatureRoot(t, Radians(t, ring[k].1)) != 0.0
    ensures Project(t, ring)[k] == ConvertToUtm(t, ring[k].1, ring[k].0, CENT_LON)
  {
    CurvatureRootPositive(t, Radians(t, ring[k].1));
  }

  function Xs(pts: seq<Point>): (xs: seq<real>)
    ensures |xs| == |pts| && forall k :: 0 <= k < |pts| ==> xs[k] == pts[k].0
  {
    seq(|pts|, k requires 0 <= k < |pts| => pts[k].0)
  }

  function Ys(pts: seq<Point>): (ys: seq<real>)
    ensures |ys| == |pts| && forall k :: 0 <= k < |pts| ==> ys[k] == pts[k].1
  {
    seq(|pts|, k requires 0 <= k < |pts| => pts[k].1)
  }

  /** `np.roll(s, 1)`: every element moves one place on and the last comes first. */
  function Roll(s: seq<real>): (r: seq<real>)
    ensures |r| == |s|
    ensures |s| > 0 ==> r[0] == s[|s| - 1]
    ensures forall k :: 1 <= k < |s| ==> r[k] == s[k - 1]
  {
    if |s| == 0 then [] else [s[|s| - 1]] + s[..|s| - 1]
  }

  /** The elementwise terms `x * roll(y, 1) - y * roll(x, 1)` of the shoelace formula. */
  function Shoelace(x: seq<real>, y: seq<real>): (terms: seq<real>)
    requires |x| == |y|
    ensures |terms| == |x|
  {
    var rx := Roll(x);
    var ry := Roll(y);
    seq(|x|, k requires 0 <= k < |x| => x[k] * ry[k] - y[k] * rx[k])
  }

  function Sum(s: seq<real>): real
  {
    if |s| == 0 then 0.0 else s[0] + Sum(s[1..])
  }

  /** Half the absolute value of the shoelace sum. */
  function Area(x: seq<real>, y: seq<real>): (a: real)
    requires |x| == |y|
    ensures a >= 0.0
  {
    0.5 * Abs(Sum(Shoelace(x, y)))
  }

  /** The largest element (`np.max`, which raises on an empty array). */
  function MaxOf(s: seq<real>): (m: real)
    requires |s| > 0
    ensures m in s && forall k :: 0 <= k < |s| ==> s[k] <= m
  {
    if |s| == 1 then s[0] else Max(s[0], MaxOf(s[1..]))
  }

  /** The smallest element (`np.min`). */
  function MinOf(s: seq<real>): (m: real)
    requires |s| > 0
    ensures m in s && forall k :: 0 <= k < |s| ==> m <= s[k]
  {
    if |s| == 1 then s[0] else Min(s[0], MinOf(s[1..]))
  }

  /** `np.mean`: the average lies between the smallest and the largest element. */
  function Mean(s: seq<real>): (m: real)
    requires |s| > 0
    ensures MinOf(s) <= m <= MaxOf(s)
  {
    MeanBounds(s);
    Sum(s) / (|s| as real)
  }

  lemma MeanBounds(s: seq<real>)
    requires |s| > 0
    ensures MinOf(s) <= Sum(s) / (|s| as real) <= MaxOf(s)
  {
    MeanWithin(s, MinOf(s), MaxOf(s));
  }

  lemma MeanWithin(s: seq<real>, lo: real, hi: real)
    requires |s| > 0
    requires forall k :: 0 <= k < |s| ==> lo <= s[k] <= hi
    ensures lo <= Sum(s) / (|s| as real) <= hi
  {
    SumBounds(s, lo, hi);
    DivBounds(Sum(s), |s| as real, lo, hi);
  }

  /** A sum of n elements within [lo, hi] lies within [n * lo, n * hi]. */
  lemma {:induction false} SumBounds(s: seq<real>, lo: real, hi: real)
    requires forall k :: 0 <= k < |s| ==> lo <= s[k] <= hi
    ensures (|s| as real) * lo <= Sum(s) <= (|s| as real) * hi
  {
    if |s| > 0 {
      SumBounds(s[1..], lo, hi);
      assert (|s| as real) * lo == lo + ((|s| - 1) as real) * lo;
      assert (|s| as real) * hi == hi + ((|s| - 1) as real) * hi;
    }
  }

  lemma DivBounds(sum: real, n: real, lo: real, hi: real)
    requires n > 0.0 && n * lo <= sum <= n * hi
    ensures lo <= sum / n <= hi
  {
    var m := sum / n;
    DivMul(sum, n);
    if m < lo {
      ProductPositive(n, lo - m, n * lo - sum);
    }
    if m > hi {
      ProductPositive(n, m - hi, sum - n * hi);
    }
  }

  /** The row written for a kept footprint with projected coordinates x and y. */
  function Summarise(id: int, x: seq<real>, y: seq<real>): (r: FootprintRow)
    requires |x| == |y| > 0
    ensures r.id == id && r.area >= 0.0
    ensures r.west <= r.centerX <= r.east && r.south <= r.centerY <= r.north
    ensures r.east in x && r.west in x && r.north in y && r.south in y
  {
    FootprintRow(id, Mean(x), Mean(y), Area(x, y), MaxOf(x), MinOf(x), MaxOf(y), MinOf(y))
  }

  /** The rows of the rings, numbered in order among the kept ones. */
  function Rows(t: Trig, rings: seq<Ring>): (rows: seq<FootprintRow>)
    requires BoundedSine(t)
    requires forall k :: 0 <= k < |rings| ==> |rings[k]| > 0
  {
    if |rings| == 0 then []
    else
      var pre := Rows(t, rings[..|rings| - 1]);
      var ring := rings[|rings| - 1];
      if InBox(ring) then
        var pts := Project(t, ring);
        pre + [Summarise(|pre|, Xs(pts), Ys(pts))]
      else pre
  }

  /** The rings inside the box, in order. */
  function Kept(rings: seq<Ring>): (kept: seq<Ring>)
    ensures forall k :: 0 <= k < |kept| ==> InBox(kept[k]) && kept[k] in rings
  {
    if |rings| == 0 then []
    else
      var pre := Kept(rings[..|rings| - 1]);
      if InBox(rings[|rings| - 1]) then pre + [rings[|rings| - 1]] else pre
  }

  /**
   * The output has one row per ring inside the box, in input order, and row j
   * is the summary of the j-th such ring under id j.
   */
  lemma {:induction false} RowsOfKept(t: Trig, rings: seq<Ring>)
    requires BoundedSine(t)
    requires forall k :: 0 <= k < |rings| ==> |rings[k]| > 0
    ensures var rows := Rows(t, rings); var kept := Kept(rings);
            |rows| == |kept| &&
            forall j :: 0 <= j < |rows| ==>
              |kept[j]| > 0 && rows[j] == Summarise(j, Xs(Project(t, kept[j])), Ys(Project(t, kept[j])))
  {
    if |rings| > 0 {
      var init := rings[..|rings| - 1];
      var ring := rings[|rings| - 1];
      RowsOfKept(t, init);
      if InBox(ring) {
        SummariesStep(t, Rows(t, init), Kept(init), ring);
      }
    }
  }

  /** Row j of `rows` summarises ring j of `kept` under id j. */
  ghost predicate Summaries(t: Trig, rows: seq<FootprintRow>, kept: seq<Ring>)
    requires BoundedSine(t)
  {
    |rows| == |kept| &&
    forall j :: 0 <= j < |rows| ==>
      |kept[j]| > 0 && rows[j] == Summarise(j, Xs(Project(t, kept[j])), Ys(Project(t, kept[j])))
  }

  /** Appending one kept ring and its summary keeps rows and rings in step. */
  lemma SummariesStep(t: Trig, rows: seq<FootprintRow>, kept: seq<Ring>, ring: Ring)
    requires BoundedSine(t) && |ring| > 0
    requires Summaries(t, rows, kept)
    ensures Summaries(t, rows + [Summarise(|rows|, Xs(Project(t, ring)), Ys(Project(t, ring)))], kept + [ring])
  {
  }

  /** Row ids count 0, 1, 2, … with no gaps. */
  lemma RowIds(t: Trig, rings: seq<Ring>)
    requires BoundedSine(t)
    requires forall k :: 0 <= k < |rings| ==> |rings[k]| > 0
    ensures forall j :: 0 <= j < |Rows(t, rings)| ==> Rows(t, rings)[j].id == j
  {
    RowsOfKept(t, rings);
  }

  /**
   * The main loop. n counts the features read; rows are the rows written.
   * An empty ring makes the bounds comparison raise, which ends the run with
   * the rows written so far.
   */
  method SimplifyAll(t: Trig, rings: seq<Ring>) returns (ok: bool, rows: seq<FootprintRow>, n: nat)
    requires BoundedSine(t)
    ensures ok <==> forall k :: 0 <= k < |rings| ==> |rings[k]| > 0
    ensures ok ==> n == |rings| && rows == Rows(t, rings)
    ensures !ok ==> 0 < n <= |rings| && |rings[n - 1]| == 0
                    && (forall k :: 0 <= k < n - 1 ==> |rings[k]| > 0)
                    && rows == Rows(t, rings[..n - 1])
  {
    var i := 0;
    n := 0;
    rows := [];
    while n < |rings|
      invariant 0 <= n <= |rings|
      invariant forall k :: 0 <= k < n ==> |rings[k]| > 0
      invariant rows == Rows(t, rings[..n]) && i == |rows|
    {
      var ring := rings[n];
      if |ring| == 0 {
        return false, rows, n + 1;
      }
      RowsStep(t, rings, n);
      if InBox(ring) {
        var pts := Project(t, ring);
        rows := rows + [Summarise(i, Xs(pts), Ys(pts))];
        i := i + 1;
      }
      n := n + 1;
    }
    assert rings[..n] == rings;
    return true, rows, n;
  }

  /** Reading one more ring adds its row when it lies in the box. */
  lemma RowsStep(t: Trig, rings: seq<Ring>, n: nat)
    requires BoundedSine(t) && n < |rings|
    requires forall k :: 0 <= k <= n ==> |rings[k]| > 0
    ensures var pre := Rows(t, rings[..n]); var pts := Project(t, rings[n]);
            Rows(t, rings[..n + 1]) == if InBox(rings[n]) then pre + [Summarise(|pre|, Xs(pts), Ys(pts))] else pre
  {
    assert rings[..n + 1][..n] == rings[..n];
  }

  lemma {:induction false} SumAppend(a: seq<real>, b: seq<real>)
    ensures Sum(a + b) == Sum(a) + Sum(b)
  {
    if |a| > 0 {
      assert (a + b)[1..] == a[1..] + b;
      SumAppend(a[1..], b);
    } else {
      assert a + b == b;
    }
  }

  /** The shoelace area does not depend on which vertex the ring starts at. */
  lemma AreaRotate(x: seq<real>, y: seq<real>)
    requires |x| == |y| > 0
    ensures Area(x[1..] + [x[0]], y[1..] + [y[0]]) == Area(x, y)
  {
    var n := |x|;
    var rx, ry := x[1..] + [x[0]], y[1..] + [y[0]];
    var s := Shoelace(x, y);
    var r := Shoelace(rx, ry);
    if n == 1 {
      assert rx == x && ry == y;
    } else {
      forall k | 0 <= k < n
        ensures r[k] == (s[1..] + [s[0]])[k]
      {
        if k < n - 1 {
          assert Roll(ry)[k] == y[k];
          assert r[k] == x[k + 1] * y[k] - y[k + 1] * x[k];
          assert s[k + 1] == x[k + 1] * y[k] - y[k + 1] * x[k];
        } else {
          assert Roll(ry)[k] == y[n - 1] && Roll(rx)[k] == x[n - 1];
          assert s[0] == x[0] * y[n - 1] - y[0] * x[n - 1];
        }
      }
      assert r == s[1..] + [s[0]];
      SumAppend(s[1..], [s[0]]);
    }
  }

  function Reverse(s: seq<real>): (r: seq<real>)
    ensures |r| == |s| && forall k :: 0 <= k < |s| ==> r[k] == s[|s| - 1 - k]
  {
    seq(|s|, k requires 0 <= k < |s| => s[|s| - 1 - k])
  }

  function Negate(s: seq<real>): (r: seq<real>)
    ensures |r| == |s| && forall k :: 0 <= k < |s| ==> r[k] == -s[k]
  {
    seq(|s|, k requires 0 <= k < |s| => -s[k])
  }

  lemma {:induction false} SumReverse(s: seq<real>)
    ensures Sum(Reverse(s)) == Sum(s)
  {
    if |s| > 0 {
      assert Reverse(s) == Reverse(s[1..]) + [s[0]];
      SumAppend(Reverse(s[1..]), [s[0]]);
      SumReverse(s[1..]);
    }
  }

  lemma {:induction false} SumNegate(s: seq<real>)
    ensures Sum(Negate(s)) == -Sum(s)
  {
    if |s| > 0 {
      assert Negate(s)[1..] == Negate(s[1..]);
      SumNegate(s[1..]);
    }
  }

  /** Clockwise and counter-clockwise rings have the same area. */
  lemma AreaReverse(x: seq<real>, y: seq<real>)
    requires |x| == |y| > 0
    ensures Area(Reverse(x), Reverse(y)) == Area(x, y)
  {
    var n := |x|;
    var s := Shoelace(x, y);
    var r := Shoelace(Reverse(x), Reverse(y));
    var rest := Negate(Reverse(s[1..]));
    forall k | 0 <= k < n
      ensures r[k] == ([-s[0]] + rest)[k]
    {
      ReversedTerm(x, y, k);
    }
    assert r == [-s[0]] + rest;
    SumReversedTerms(s);
  }

  /** Reversing the ring negates every shoelace term and reverses all but the first. */
  lemma ReversedTerm(x: seq<real>, y: seq<real>, k: int)
    requires |x| == |y| > 0 && 0 <= k < |x|
    ensures Shoelace(Reverse(x), Reverse(y))[k] == -Shoelace(x, y)[if k == 0 then 0 else |x| - k]
  {
    var n := |x|;
    var rx, ry := Reverse(x), Reverse(y);
    var j := if k == 0 then 0 else n - k;
    var a, b, c, d := rx[k], Roll(ry)[k], ry[k], Roll(rx)[k];
    assert a == Roll(x)[j] && b == y[j] && c == Roll(y)[j] && d == x[j] by {
      if k > 0 {
        assert d == rx[k - 1];
      }
    }
    ShoelaceAt(rx, ry, k, a, b, c, d);
    ShoelaceAt(x, y, j, d, c, b, a);
    CrossNegate(a, b, c, d);
  }

  /** Term k of the shoelace formula, from the four values it multiplies. */
  lemma ShoelaceAt(x: seq<real>, y: seq<real>, k: int, p: real, q: real, r: real, s: real)
    requires |x| == |y| && 0 <= k < |x|
    requires p == x[k] && q == Roll(y)[k] && r == y[k] && s == Roll(x)[k]
    ensures Shoelace(x, y)[k] == p * q - r * s
  {
  }

  lemma CrossNegate(a: real, b: real, c: real, d: real)
    ensures a * b - c * d == -(d * c - b * a)
  {
  }

  lemma SumReversedTerms(s: seq<real>)
    requires |s| > 0
    ensures Sum([-s[0]] + Negate(Reverse(s[1..]))) == -Sum(s)
  {
    SumAppend([-s[0]], Negate(Reverse(s[1..])));
    SumNegate(Reverse(s[1..]));
    SumReverse(s[1..]);
  }

  /** An axis-aligned w by h rectangle, corner first, has area w * h. */
  lemma RectangleArea(w: real, h: real)
    requires w >= 0.0 && h >= 0.0
    ensures Area([0.0, w, w, 0.0], [0.0, 0.0, h, h]) == w * h
  {
    var s := Shoelace([0.0, w, w, 0.0], [0.0, 0.0, h, h]);
    assert Roll([0.0, w, w, 0.0]) == [0.0, 0.0, w, w];
    assert Roll([0.0, 0.0, h, h]) == [h, 0.0, 0.0, h];
    assert s[0] == 0.0 && s[1] == 0.0 && s[2] == -(h * w) && s[3] == -(h * w);
    assert s == [0.0, 0.0, -(h * w), -(h * w)];
    assert Sum(s[3..]) == -(h * w);
    assert Sum(s[2..]) == -(h * w) - (h * w);
    assert Sum(s) == -2.0 * (w * h);
    if w > 0.0 && h > 0.0 {
      ProductPositive(w, h, w * h);
    }
  }
}
