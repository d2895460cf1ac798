/**
 * Road links as planar polylines in UTM metres: the link length, the point at
 * an arc-length offset, and the id ordering of the road network.
 */
module RoadNet {
  import opened Wrappers
  import opened Numeric
  import opened Sorting

  type Point = (real, real)

  /** A road link. `length` is fixed when the link is built (see NewLink). */
  datatype Link = Link(prev: int, next: int, direct: int, points: seq<Point>, id: int, linkType: string, length: real)

  function SegmentLength(p: Point, q: Point, hypot: (real, real) -> real): real
  {
    hypot(q.0 - p.0, q.1 - p.1)
  }

  /** The summed hypot length of consecutive point pairs. */
  function PathLength(points: seq<Point>, hypot: (real, real) -> real): (len: real)
    ensures NonNegativeHypot(hypot) ==> len >= 0.0
  {
    if |points| < 2 then 0.0
    else PathLength(points[..|points| - 1], hypot) + SegmentLength(points[|points| - 2], points[|points| - 1], hypot)
  }

  /** A link as built by the source: its length is the path length of its points. */
  ghost predicate ValidLink(l: Link, hypot: (real, real) -> real)
  {
    |l.points| >= 1 && l.length == PathLength(l.points, hypot)
  }

  /** `Link.__init__`: stores the fields and sums the segment lengths in a loop. */
  method NewLink(prevl: int, nextl: int, linkId: int, direct: int, points: seq<Point>, linkType: string,
                 hypot: (real, real) -> real) returns (l: Link)
    requires |points| >= 1
    ensures ValidLink(l, hypot)
    ensures l.prev == prevl && l.next == nextl && l.id == linkId && l.direct == direct
    ensures l.points == points && l.linkType == linkType
  {
    var prev := points[0];
    var length := 0.0;
    var i := 1;
    while i < |points|
      invariant 1 <= i <= |points|
      invariant prev == points[i - 1]
      invariant length == PathLength(points[..i], hypot)
    {
      var cur := points[i];
      assert points[..i + 1][..i] == points[..i];
      length := length + hypot(cur.0 - prev.0, cur.1 - prev.1);
      prev := cur;
      i := i + 1;
    }
    assert points[..|points|] == points;
    l := Link(prevl, nextl, direct, points, linkId, linkType, length);
  }

  /** `total_length`: the length of a built link is its path length, never negative. */
  function TotalLength(l: Link, ghost hypot: (real, real) -> real): (r: real)
    requires ValidLink(l, hypot) && IsHypot(hypot)
    ensures r == PathLength(l.points, hypot) && r >= 0.0
  {
    l.length
  }

  function Reversed<T>(s: seq<T>): (r: seq<T>)
    ensures |r| == |s|
    ensures forall k :: 0 <= k < |s| ==> r[k] == s[|s| - 1 - k]
  {
    if s == [] then [] else Reversed(s[1..]) + [s[0]]
  }

  /** The points in the order `offset_to_point` walks them: reversed when `direct` differs from the link's. */
  function Traversal(l: Link, direct: int): seq<Point>
  {
    if direct != l.direct then Reversed(l.points) else l.points
  }

  /**
   * The outcome of `offset_to_point`: a point, a point whose coordinates are
   * not numbers (a zero-length segment reached exactly, where the source
   * divides by a zero length), or the ValueError reporting the offset and the
   * accumulated length.
   */
  datatype Located = At(p: Point) | NotANumber | OutOfBounds(offset: real, length: real)

  function Lerp(prev: Point, cur: Point, s: real): Point
  {
    ((s * cur.0) + ((1.0 - s) * prev.0), (s * cur.1) + ((1.0 - s) * prev.1))
  }

  /** The walk from `pts[0]`, `prevLen` metres having been covered before it. */
  function Walk(pts: seq<Point>, offset: real, prevLen: real, hypot: (real, real) -> real): (r: Located)
    ensures r.OutOfBounds? ==> r.offset == offset
    ensures r.OutOfBounds? && |pts| >= 2 ==> r.length < offset
    ensures r.OutOfBounds? && NonNegativeHypot(hypot) ==> r.length >= prevLen
    decreases |pts|
  {
    if |pts| < 2 then OutOfBounds(offset, prevLen)
    else
      var l := SegmentLength(pts[0], pts[1], hypot);
      var curLen := prevLen + l;
      if curLen < offset then Walk(pts[1..], offset, curLen, hypot)
      else if l == 0.0 then NotANumber
      else At(Lerp(pts[0], pts[1], (offset - prevLen) / l))
  }

  /** `offset_to_point(offset, direct)`, proved to follow Walk over the traversal order. */
  method OffsetToPoint(l: Link, offset: real, direct: int, hypot: (real, real) -> real) returns (r: Located)
    requires |l.points| >= 1
    ensures r == Walk(Traversal(l, direct), offset, 0.0, hypot)
  {
    var points := Traversal(l, direct);
    var prevLen := 0.0;
    var prev := points[0];
    var i := 1;
    while i < |points|
      invariant 1 <= i <= |points|
      invariant prev == points[i - 1]
      invariant Walk(points, offset, 0.0, hypot) == Walk(points[i - 1..], offset, prevLen, hypot)
    {
      var cur := points[i];
      var rest := points[i - 1..];
      assert rest[0] == prev && rest[1] == cur && rest[1..] == points[i..];
      var len := hypot(cur.0 - prev.0, cur.1 - prev.1);
      var curLen := prevLen + len;
      assert Walk(rest, offset, prevLen, hypot) ==
        if curLen < offset then Walk(points[i..], offset, curLen, hypot)
        else if len == 0.0 then NotANumber
        else At(Lerp(prev, cur, (offset - prevLen) / len));
      if curLen < offset {
        prevLen := curLen;
        prev := cur;
        i := i + 1;
        continue;
      }
      if len == 0.0 {
        return NotANumber;
      }
      var s := (offset - prevLen) / len;
      return At(Lerp(prev, cur, s));
    }
    return OutOfBounds(offset, prevLen);
  }

  /** Offset 0 is the first point of the walk when the first segment has a positive length. */
  lemma OffsetZeroIsFirstPoint(pts: seq<Point>, hypot: (real, real) -> real)
    requires |pts| >= 2 && SegmentLength(pts[0], pts[1], hypot) > 0.0
    ensures Walk(pts, 0.0, 0.0, hypot) == At(pts[0])
  {
  }

  /** The length covered after the first `j` segments, summed from the front as the walk does. */
  lemma {:induction false} PathLengthFront(pts: seq<Point>, hypot: (real, real) -> real)
    requires |pts| >= 2
    ensures PathLength(pts, hypot) == SegmentLength(pts[0], pts[1], hypot) + PathLength(pts[1..], hypot)
    decreases |pts|
  {
    if |pts| > 2 {
      var init := pts[..|pts| - 1];
      PathLengthFront(init, hypot);
      assert init[1..] == pts[1..][..|pts| - 2];
      assert init[0] == pts[0] && init[1] == pts[1];
    } else {
      assert pts[..1][..0] == [];
    }
  }

  /** Under a true `hypot`, a zero-length segment joins two equal points. */
  lemma ZeroSegment(p: Point, q: Point, hypot: (real, real) -> real)
    requires IsHypot(hypot) && SegmentLength(p, q, hypot) == 0.0
    ensures p == q
  {
    var dx, dy := q.0 - p.0, q.1 - p.1;
    assert hypot(dx, dy) * hypot(dx, dy) == dx * dx + dy * dy;
    SquareSign(dx, dx * dx);
    SquareSign(dy, dy * dy);
  }

  /** A path of zero length under a true `hypot` stays at its first point. */
  lemma {:induction false} ZeroLengthConstant(pts: seq<Point>, hypot: (real, real) -> real)
    requires |pts| >= 1 && IsHypot(hypot) && PathLength(pts, hypot) == 0.0
    ensures pts[|pts| - 1] == pts[0]
    decreases |pts|
  {
    if |pts| >= 2 {
      PathLengthFront(pts, hypot);
      ZeroSegment(pts[0], pts[1], hypot);
      ZeroLengthConstant(pts[1..], hypot);
    }
  }

  /**
   * Walking `pts` from an accumulated length: an offset equal to the
   * accumulated length plus a positive path length ends at the last point.
   * Zero-length segments after the one that reaches the offset are never
   * looked at, and under a true `hypot` they end where it ends.
   */
  lemma WalkToEnd(pts: seq<Point>, prevLen: real, hypot: (real, real) -> real)
    requires |pts| >= 2 && IsHypot(hypot) && PathLength(pts, hypot) > 0.0
    ensures Walk(pts, prevLen + PathLength(pts, hypot), prevLen, hypot) == At(pts[|pts| - 1])
  {
    WalkToEndAt(pts, prevLen + PathLength(pts, hypot), prevLen, hypot);
  }

  /** `WalkToEnd` with the full length's offset named. */
  lemma {:induction false} WalkToEndAt(pts: seq<Point>, offset: real, prevLen: real, hypot: (real, real) -> real)
    requires |pts| >= 2 && IsHypot(hypot) && PathLength(pts, hypot) > 0.0
    requires offset == prevLen + PathLength(pts, hypot)
    ensures Walk(pts, offset, prevLen, hypot) == At(pts[|pts| - 1])
    decreases |pts|
  {
    var rest := pts[1..];
    var l := SegmentLength(pts[0], pts[1], hypot);
    PathLengthFront(pts, hypot);
    assert rest[|rest| - 1] == pts[|pts| - 1];
    if prevLen + l < offset {
      WalkToEndAt(rest, offset, prevLen + l, hypot);
      WalkSkip(pts, offset, prevLen, hypot);
    } else {
      assert PathLength(rest, hypot) == 0.0;
      ZeroLengthConstant(rest, hypot);
      WalkReachesSegmentEnd(pts, prevLen, hypot);
    }
  }

  /** A walk whose offset lies beyond the first segment continues from the second point. */
  lemma WalkSkip(pts: seq<Point>, offset: real, prevLen: real, hypot: (real, real) -> real)
    requires |pts| >= 2 && prevLen + SegmentLength(pts[0], pts[1], hypot) < offset
    ensures Walk(pts, offset, prevLen, hypot) == Walk(pts[1..], offset, prevLen + SegmentLength(pts[0], pts[1], hypot), hypot)
  {
  }

  /** An offset at the end of a positive first segment stops on its second point. */
  lemma WalkReachesSegmentEnd(pts: seq<Point>, prevLen: real, hypot: (real, real) -> real)
    requires |pts| >= 2 && SegmentLength(pts[0], pts[1], hypot) > 0.0
    ensures Walk(pts, prevLen + SegmentLength(pts[0], pts[1], hypot), prevLen, hypot) == At(pts[1])
  {
    var l := SegmentLength(pts[0], pts[1], hypot);
    assert (prevLen + l) - prevLen == l;
    assert l / l == 1.0;
    assert Lerp(pts[0], pts[1], 1.0) == pts[1];
  }

  /**
   * On a path of zero length, the offset already covered stops on the first
   * segment, which has length 0: the source divides 0 by 0.
   */
  lemma WalkZeroLength(pts: seq<Point>, prevLen: real, hypot: (real, real) -> real)
    requires |pts| >= 2 && NonNegativeHypot(hypot) && PathLength(pts, hypot) == 0.0
    ensures Walk(pts, prevLen, prevLen, hypot) == NotANumber
  {
    PathLengthFront(pts, hypot);
  }

  /**
   * `offset_to_point(length, self.direct)`: the link's last point when the
   * link has a positive length; NaN coordinates for a link of two or more
   * points and zero length; and the ValueError for a single point.
   */
  lemma OffsetLengthIsLastPoint(l: Link, hypot: (real, real) -> real)
    requires ValidLink(l, hypot) && IsHypot(hypot)
    ensures l.length > 0.0 ==> Walk(Traversal(l, l.direct), l.length, 0.0, hypot) == At(l.points[|l.points| - 1])
    ensures |l.points| >= 2 && l.length == 0.0 ==> Walk(Traversal(l, l.direct), l.length, 0.0, hypot) == NotANumber
    ensures |l.points| == 1 ==> Walk(Traversal(l, l.direct), l.length, 0.0, hypot) == OutOfBounds(0.0, 0.0)
  {
    if |l.points| >= 2 {
      if l.length > 0.0 {
        WalkToEnd(l.points, 0.0, hypot);
      } else {
        WalkZeroLength(l.points, 0.0, hypot);
      }
    }
  }

  /** Walking in the other direction starts from the link's last point. */
  lemma OppositeDirectionStartsAtLast(l: Link, direct: int, hypot: (real, real) -> real)
    requires direct != l.direct && |l.points| >= 2
    requires SegmentLength(l.points[|l.points| - 1], l.points[|l.points| - 2], hypot) > 0.0
    ensures Walk(Traversal(l, direct), 0.0, 0.0, hypot) == At(l.points[|l.points| - 1])
  {
    var t := Traversal(l, direct);
    assert t[0] == l.points[|l.points| - 1] && t[1] == l.points[|l.points| - 2];
    OffsetZeroIsFirstPoint(t, hypot);
  }

  /**
   * Beyond the accumulated length the walk runs off the end and reports the
   * offset together with the whole accumulated length.
   */
  lemma {:induction false} WalkPastEnd(pts: seq<Point>, offset: real, prevLen: real, hypot: (real, real) -> real)
    requires |pts| >= 1 && NonNegativeHypot(hypot)
    requires offset > prevLen + PathLength(pts, hypot)
    ensures Walk(pts, offset, prevLen, hypot) == OutOfBounds(offset, prevLen + PathLength(pts, hypot))
    decreases |pts|
  {
    if |pts| >= 2 {
      PathLengthFront(pts, hypot);
      WalkPastEnd(pts[1..], offset, prevLen + SegmentLength(pts[0], pts[1], hypot), hypot);
    }
  }

  /** `offset > length` raises ValueError, and the message reports the link's length. */
  lemma OffsetBeyondLength(l: Link, offset: real, hypot: (real, real) -> real)
    requires ValidLink(l, hypot) && IsHypot(hypot) && offset > l.length
    ensures Walk(Traversal(l, l.direct), offset, 0.0, hypot) == OutOfBounds(offset, l.length)
  {
    WalkPastEnd(l.points, offset, 0.0, hypot);
  }

  /**
   * From an offset between the accumulated length and the end of the path,
   * the walk does not run off the end: it yields the point `s*cur + (1-s)*prev`
   * of segment `k` with `0 <= s <= 1`, or NotANumber when it stops on a
   * zero-length segment. The lemma returns the segment and the fraction.
   */
  lemma {:induction false} WalkOnSegment(pts: seq<Point>, offset: real, prevLen: real, hypot: (real, real) -> real)
    returns (k: nat, s: real)
    requires |pts| >= 2 && NonNegativeHypot(hypot)
    requires prevLen <= offset <= prevLen + PathLength(pts, hypot)
    ensures !Walk(pts, offset, prevLen, hypot).OutOfBounds?
    ensures Walk(pts, offset, prevLen, hypot).At? ==>
      k < |pts| - 1 && 0.0 <= s <= 1.0 && Walk(pts, offset, prevLen, hypot).p == Lerp(pts[k], pts[k + 1], s)
    decreases |pts|
  {
    var l := SegmentLength(pts[0], pts[1], hypot);
    PathLengthFront(pts, hypot);
    if prevLen + l < offset {
      assert |pts| > 2;
      var k', s' := WalkOnSegment(pts[1..], offset, prevLen + l, hypot);
      k, s := k' + 1, s';
      assert Walk(pts, offset, prevLen, hypot) == Walk(pts[1..], offset, prevLen + l, hypot);
      assert k' < |pts| - 2 ==> pts[1..][k'] == pts[k] && pts[1..][k' + 1] == pts[k + 1];
    } else if l != 0.0 {
      k, s := 0, (offset - prevLen) / l;
      assert l > 0.0;
      assert 0.0 <= offset - prevLen <= l;
      DivideWithin(offset - prevLen, l);
    } else {
      k, s := 0, 0.0;
    }
  }

  lemma DivideWithin(a: real, l: real)
    requires l > 0.0 && 0.0 <= a <= l
    ensures 0.0 <= a / l <= 1.0
  {
  }

  /** Python's `list.insert(i, x)`: a too-large index appends, a negative one counts from the end. */
  function PyInsert<T>(s: seq<T>, i: int, x: T): (r: seq<T>)
    ensures multiset(r) == multiset(s) + multiset{x}
  {
    var k := if i < 0 then (if i + |s| < 0 then 0 else i + |s|) else (if i > |s| then |s| else i);
    assert s == s[..k] + s[k..];
    s[..k] + [x] + s[k..]
  }

  function IdKey(l: Link): real { l.id as real }

  /** The list after inserting each link, in turn, at the position of its id. */
  function InsertedById(features: seq<Link>): (r: seq<Link>)
    ensures multiset(r) == multiset(features)
  {
    if features == [] then []
    else
      var last := features[|features| - 1];
      assert features == features[..|features| - 1] + [last];
      PyInsert(InsertedById(features[..|features| - 1]), last.id, last)
  }

  /**
   * The link list of `RoadNetwork.__init__`: each link inserted at the
   * position of its id in turn, then the list sorted by id. The result is
   * sorted by ascending id and holds exactly the links read; links with
   * equal ids keep the order the insertions left them in, as `sorted` is
   * stable.
   */
  method BuildLinks(features: seq<Link>) returns (links: seq<Link>)
    ensures SortedBy(links, IdKey)
    ensures multiset(links) == multiset(features)
    ensures forall k :: KeyFilter(links, IdKey, k) == KeyFilter(InsertedById(features), IdKey, k)
  {
    links := [];
    var i := 0;
    while i < |features|
      invariant 0 <= i <= |features|
      invariant links == InsertedById(features[..i])
    {
      assert features[..i + 1][..i] == features[..i];
      links := PyInsert(links, features[i].id, features[i]);
      i := i + 1;
    }
    assert features[..i] == features;
    SortByCorrect(links, IdKey);
    var inserted := links;
    links := SortBy(links, IdKey);
    forall k
      ensures KeyFilter(links, IdKey, k) == KeyFilter(inserted, IdKey, k)
    {
      SortByStable(inserted, IdKey, k);
    }
  }
}
