/**
 * Dense sampling of road links for snapping: every link is walked segment by
 * segment, emitting a row every SPACING metres along each segment and a final
 * row at the link's last point. The CSV writer is replaced by the sequence of
 * rows; rounding of the coordinates to two decimals is not modelled.
 */
module RoadSampling {
  import opened Numeric
  import opened RoadNet

  const SPACING: real := 2.5

  datatype Row = Row(x: real, y: real, linkId: int, offset: real)

  /** How many values `np.arange(0, len, SPACING)` holds: the least n with n * SPACING >= len. */
  function SampleCount(len: real): (n: nat)
    ensures n as real * SPACING >= len
    ensures n > 0 ==> (n - 1) as real * SPACING < len
  {
    if len <= 0.0 then 0
    else
      var q := -((-len / SPACING).Floor);
      assert q as real >= len / SPACING;
      assert (q - 1) as real < len / SPACING;
      q
  }

  /** The k-th sample of the segment from `prev` to `point`, `base` metres along the link. */
  function Sample(prev: Point, point: Point, base: real, segLen: real, linkId: int, k: nat): Row
    requires segLen != 0.0
  {
    var d := k as real * SPACING;
    var s := d / segLen;
    Row((s * point.0) + ((1.0 - s) * prev.0), (s * point.1) + ((1.0 - s) * prev.1), linkId, base + d)
  }

  function SegmentRows(prev: Point, point: Point, base: real, linkId: int, hypot: (real, real) -> real): (rows: seq<Row>)
    ensures |rows| == SampleCount(SegmentLength(prev, point, hypot))
  {
    var len := SegmentLength(prev, point, hypot);
    if len <= 0.0 then []
    else seq(SampleCount(len), k requires 0 <= k => Sample(prev, point, base, len, linkId, k))
  }

  /** The rows of the first `j` segments of `pts`. */
  function SegmentsUpTo(pts: seq<Point>, j: nat, linkId: int, hypot: (real, real) -> real): seq<Row>
    requires j < |pts|
  {
    if j == 0 then []
    else SegmentsUpTo(pts, j - 1, linkId, hypot) + SegmentRows(pts[j - 1], pts[j], PathLength(pts[..j], hypot), linkId, hypot)
  }

  /** All rows of one link: its segments' samples, then its last point at the full length. */
  function LinkRows(l: Link, hypot: (real, real) -> real): seq<Row>
    requires |l.points| >= 1
  {
    var pts := l.points;
    var last := pts[|pts| - 1];
    SegmentsUpTo(pts, |pts| - 1, l.id, hypot) + [Row(last.0, last.1, l.id, PathLength(pts, hypot))]
  }

  function NetworkRows(links: seq<Link>, hypot: (real, real) -> real): seq<Row>
    requires forall i :: 0 <= i < |links| ==> |links[i].points| >= 1
  {
    if links == [] then [] else NetworkRows(links[..|links| - 1], hypot) + LinkRows(links[|links| - 1], hypot)
  }

  /** The innermost loop: the samples of one segment. */
  method SampleSegment(prev: Point, point: Point, offset: real, linkId: int, hypot: (real, real) -> real)
    returns (rows: seq<Row>)
    ensures rows == SegmentRows(prev, point, offset, linkId, hypot)
  {
    var segmentLen := hypot(point.0 - prev.0, point.1 - prev.1);
    ghost var seg := SegmentRows(prev, point, offset, linkId, hypot);
    var n := SampleCount(segmentLen);
    rows := [];
    var k := 0;
    while k < n
      invariant 0 <= k <= n
      invariant rows == seg[..k]
    {
      rows := rows + [Sample(prev, point, offset, segmentLen, linkId, k)];
      assert seg[..k + 1] == seg[..k] + [seg[k]];
      k := k + 1;
    }
    assert seg[..n] == seg;
  }

  /** The loop over one link's segments, then the row at its last point. */
  method SampleLink(link: Link, hypot: (real, real) -> real) returns (rows: seq<Row>)
    requires |link.points| >= 1
    ensures rows == LinkRows(link, hypot)
  {
    var pts := link.points;
    var prev := pts[0];
    var offset := 0.0;
    rows := [];
    var j := 1;
    while j < |pts|
      invariant 1 <= j <= |pts|
      invariant prev == pts[j - 1]
      invariant offset == PathLength(pts[..j], hypot)
      invariant rows == SegmentsUpTo(pts, j - 1, link.id, hypot)
    {
      var point := pts[j];
      var segmentLen := hypot(point.0 - prev.0, point.1 - prev.1);
      var seg := SampleSegment(prev, point, offset, link.id, hypot);
      rows := rows + seg;
      assert pts[..j + 1][..j] == pts[..j];
      offset := offset + segmentLen;
      prev := point;
      j := j + 1;
    }
    var last := pts[|pts| - 1];
    assert pts[..|pts|] == pts;
    rows := rows + [Row(last.0, last.1, link.id, offset)];
  }

  /** The sampling loop of the script over all links. */
  method SampleNetwork(links: seq<Link>, hypot: (real, real) -> real) returns (rows: seq<Row>)
    requires forall i :: 0 <= i < |links| ==> |links[i].points| >= 1
    ensures rows == NetworkRows(links, hypot)
  {
    rows := [];
    var li := 0;
    while li < |links|
      invariant 0 <= li <= |links|
      invariant rows == NetworkRows(links[..li], hypot)
    {
      var linkRows := SampleLink(links[li], hypot);
      rows := rows + linkRows;
      assert links[..li + 1][..li] == links[..li];
      li := li + 1;
    }
    assert links[..li] == links;
  }

  /** Each sample lies `k * SPACING < segment length` metres past the start of its segment. */
  lemma SegmentSampleOffsets(prev: Point, point: Point, base: real, linkId: int, hypot: (real, real) -> real, k: nat)
    requires k < |SegmentRows(prev, point, base, linkId, hypot)|
    ensures var r := SegmentRows(prev, point, base, linkId, hypot)[k];
            var len := SegmentLength(prev, point, hypot);
            r.offset == base + k as real * SPACING && base <= r.offset < base + len
            && r == Sample(prev, point, base, len, linkId, k)
  {
    var n := |SegmentRows(prev, point, base, linkId, hypot)|;
    assert (n - 1) as real * SPACING < SegmentLength(prev, point, hypot);
    assert k as real * SPACING <= (n - 1) as real * SPACING;
  }

  ghost predicate OffsetsSorted(rows: seq<Row>)
  {
    forall i, j :: 0 <= i < j < |rows| ==> rows[i].offset <= rows[j].offset
  }

  ghost predicate OffsetsWithin(rows: seq<Row>, lo: real, hi: real)
  {
    forall i :: 0 <= i < |rows| ==> lo <= rows[i].offset < hi
  }

  lemma SegmentRowsOrdered(prev: Point, point: Point, base: real, linkId: int, hypot: (real, real) -> real)
    ensures var rows := SegmentRows(prev, point, base, linkId, hypot);
            OffsetsSorted(rows) && OffsetsWithin(rows, base, base + SegmentLength(prev, point, hypot))
  {
    var rows := SegmentRows(prev, point, base, linkId, hypot);
    forall i | 0 <= i < |rows|
      ensures base <= rows[i].offset < base + SegmentLength(prev, point, hypot)
    {
      SegmentSampleOffsets(prev, point, base, linkId, hypot, i);
    }
    forall i, j | 0 <= i < j < |rows| ensures rows[i].offset <= rows[j].offset {
      SegmentSampleOffsets(prev, point, base, linkId, hypot, i);
      SegmentSampleOffsets(prev, point, base, linkId, hypot, j);
    }
  }

  lemma PathLengthPrefixStep(pts: seq<Point>, j: nat, hypot: (real, real) -> real)
    requires 1 <= j < |pts|
    ensures PathLength(pts[..j + 1], hypot) == PathLength(pts[..j], hypot) + SegmentLength(pts[j - 1], pts[j], hypot)
  {
    assert pts[..j + 1][..j] == pts[..j];
  }

  /** Two runs of sorted offsets, the first below `mid` and the second from `mid`, concatenate to a sorted run. */
  lemma ConcatOrdered(a: seq<Row>, b: seq<Row>, lo: real, mid: real, hi: real)
    requires OffsetsSorted(a) && OffsetsSorted(b)
    requires OffsetsWithin(a, lo, mid) && OffsetsWithin(b, mid, hi) && lo <= mid
    ensures OffsetsSorted(a + b) && OffsetsWithin(a + b, lo, if |b| > 0 then hi else mid)
  {
    var rows := a + b;
    if |b| > 0 {
      assert mid <= b[0].offset < hi;
    }
    forall i, k | 0 <= i < k < |rows| ensures rows[i].offset <= rows[k].offset {
      if k < |a| {
        assert rows[i] == a[i] && rows[k] == a[k];
      } else if i >= |a| {
        assert rows[i] == b[i - |a|] && rows[k] == b[k - |a|];
      } else {
        assert rows[i] == a[i] && rows[k] == b[k - |a|];
      }
    }
    forall i | 0 <= i < |rows| ensures lo <= rows[i].offset < (if |b| > 0 then hi else mid) {
      if i >= |a| {
        assert rows[i] == b[i - |a|];
      } else {
        assert rows[i] == a[i];
      }
    }
  }

  lemma WithinWeaken(rows: seq<Row>, lo: real, hi: real, hi': real)
    requires OffsetsWithin(rows, lo, hi) && hi <= hi'
    ensures OffsetsWithin(rows, lo, hi')
  {
  }

  /** The rows of the first `j` segments have non-decreasing offsets in [0, length of those segments). */
  lemma {:induction false} SegmentsUpToOrdered(pts: seq<Point>, j: nat, linkId: int, hypot: (real, real) -> real)
    requires j < |pts| && NonNegativeHypot(hypot)
    ensures OffsetsSorted(SegmentsUpTo(pts, j, linkId, hypot))
    ensures OffsetsWithin(SegmentsUpTo(pts, j, linkId, hypot), 0.0, PathLength(pts[..j + 1], hypot))
  {
    if j > 0 {
      var a := SegmentsUpTo(pts, j - 1, linkId, hypot);
      var base := PathLength(pts[..j], hypot);
      var b := SegmentRows(pts[j - 1], pts[j], base, linkId, hypot);
      var whole := PathLength(pts[..j + 1], hypot);
      SegmentsUpToOrdered(pts, j - 1, linkId, hypot);
      SegmentRowsOrdered(pts[j - 1], pts[j], base, linkId, hypot);
      PathLengthPrefixStep(pts, j, hypot);
      assert SegmentLength(pts[j - 1], pts[j], hypot) >= 0.0;
      ExtendOrdered(a, b, base, whole);
    }
  }

  /** Sorted rows in [0, base) followed by sorted rows in [base, whole) are sorted rows in [0, whole). */
  lemma ExtendOrdered(a: seq<Row>, b: seq<Row>, base: real, whole: real)
    requires OffsetsSorted(a) && OffsetsWithin(a, 0.0, base)
    requires OffsetsSorted(b) && OffsetsWithin(b, base, whole)
    requires 0.0 <= base <= whole
    ensures OffsetsSorted(a + b) && OffsetsWithin(a + b, 0.0, whole)
  {
    ConcatOrdered(a, b, 0.0, base, whole);
    WithinWeaken(a + b, 0.0, if |b| > 0 then whole else base, whole);
  }

  /** The first row of the segments, if any, is at offset 0; with no rows the segments have length 0. */
  lemma {:induction false} SegmentsUpToStart(pts: seq<Point>, j: nat, linkId: int, hypot: (real, real) -> real)
    requires j < |pts| && NonNegativeHypot(hypot)
    ensures var rows := SegmentsUpTo(pts, j, linkId, hypot);
            (|rows| > 0 ==> rows[0].offset == 0.0) && (rows == [] ==> PathLength(pts[..j + 1], hypot) == 0.0)
  {
    if j == 0 {
      assert pts[..1][..0] == [];
    } else {
      var a := SegmentsUpTo(pts, j - 1, linkId, hypot);
      var base := PathLength(pts[..j], hypot);
      var b := SegmentRows(pts[j - 1], pts[j], base, linkId, hypot);
      SegmentsUpToStart(pts, j - 1, linkId, hypot);
      PathLengthPrefixStep(pts, j, hypot);
      EmptySegment(pts[j - 1], pts[j], base, linkId, hypot);
      if |b| > 0 {
        SegmentSampleOffsets(pts[j - 1], pts[j], base, linkId, hypot, 0);
      }
      StartStep(a, b, base, SegmentLength(pts[j - 1], pts[j], hypot));
    }
  }

  /** Rows starting at 0 followed by rows starting at their length still start at 0. */
  lemma StartStep(a: seq<Row>, b: seq<Row>, lenA: real, lenB: real)
    requires (|a| > 0 ==> a[0].offset == 0.0) && (a == [] ==> lenA == 0.0)
    requires (|b| > 0 ==> b[0].offset == lenA) && (b == [] ==> lenB == 0.0)
    ensures (|a + b| > 0 ==> (a + b)[0].offset == 0.0) && (a + b == [] ==> lenA + lenB == 0.0)
  {
    if |a| > 0 {
      assert (a + b)[0] == a[0];
    } else if |b| > 0 {
      assert (a + b)[0] == b[0];
    }
  }

  /** A segment with no samples has length 0. */
  lemma EmptySegment(prev: Point, point: Point, base: real, linkId: int, hypot: (real, real) -> real)
    requires NonNegativeHypot(hypot)
    ensures SegmentRows(prev, point, base, linkId, hypot) == [] ==> SegmentLength(prev, point, hypot) == 0.0
  {
    assert SegmentLength(prev, point, hypot) >= 0.0;
  }

  /**
   * The offsets a link emits are non-decreasing, start at 0 and end at the
   * link's length, and the last row is the link's last point.
   */
  lemma LinkRowsOrdered(l: Link, hypot: (real, real) -> real)
    requires ValidLink(l, hypot) && IsHypot(hypot)
    ensures var rows := LinkRows(l, hypot);
            OffsetsSorted(rows) && rows[0].offset == 0.0
            && rows[|rows| - 1] == Row(l.points[|l.points| - 1].0, l.points[|l.points| - 1].1, l.id, l.length)
  {
    var pts := l.points;
    var a := SegmentsUpTo(pts, |pts| - 1, l.id, hypot);
    SegmentsUpToOrdered(pts, |pts| - 1, l.id, hypot);
    SegmentsUpToStart(pts, |pts| - 1, l.id, hypot);
    assert pts[..|pts|] == pts;
    var last := Row(pts[|pts| - 1].0, pts[|pts| - 1].1, l.id, l.length);
    ConcatOrdered(a, [last], 0.0, l.length, l.length + 1.0);
    if |a| > 0 {
      assert (a + [last])[0] == a[0];
    }
  }
}
