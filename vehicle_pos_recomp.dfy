/**
 * Re-projection of simulated vehicle positions onto their links: each frame's
 * x is clamped to the x-extent of the link's first segment and its y is taken
 * from that segment; before that, frames off the map or far from the segment
 * are counted as erroneous, and the rule used for each coordinate is tallied.
 */
module VehiclePosRecomp {
  import opened Wrappers
  import opened Numeric
  import opened RoadNet
  import opened Heatmap
  import opened SimsIo

  /** Thirty bitmap cells, in metres, along each axis. */
  const DX_THRESHOLD: real := 30.0 * (X_MAX - X_MIN) / (BM_COLS as real)
  const DY_THRESHOLD: real := 30.0 * (Y_MAX - Y_MIN) / (BM_ROWS as real)

  /**
   * The re-projected point, and the rule that produced each coordinate:
   * x 0 = endpoint, 1 = original; y 0 = endpoint, 1 = midpoint, 2 = solved on the line.
   */
  datatype Recomp = Recomp(nx: real, ny: real, xMeth: int, yMeth: int)

  /** The x part of `comp_xy`: clamp to [a.x, b.x]. */
  function ClampX(vx: real, a: Point, b: Point): (real, int)
  {
    if vx < a.0 then (a.0, 0) else if vx > b.0 then (b.0, 0) else (vx, 1)
  }

  /**
   * `comp_xy` as written. The x is kept exactly when it lies in [a.x, b.x].
   * The y is the first endpoint's y for a horizontal segment, half the
   * y-extent for a vertical one, and on the segment's line otherwise.
   */
  function CompXYAsWritten(vx: real, a: Point, b: Point): (r: Recomp)
    ensures r.xMeth == 1 <==> a.0 <= vx <= b.0
    ensures r.xMeth == 1 ==> r.nx == vx
    ensures r.yMeth == 0 <==> a.1 == b.1
    ensures r.yMeth == 1 <==> a.1 != b.1 && a.0 == b.0
    ensures r.yMeth == 2 <==> a.1 != b.1 && a.0 != b.0
    ensures r.yMeth == 0 ==> r.ny == a.1
    ensures r.yMeth == 1 ==> r.ny == Abs(b.1 - a.1) / 2.0
    ensures r.yMeth == 2 ==> (r.ny - a.1) * (b.0 - a.0) == (b.1 - a.1) * (r.nx - a.0)
  {
    var (nx, xMeth) := ClampX(vx, a, b);
    if a.1 == b.1 then Recomp(nx, a.1, xMeth, 0)
    else if a.0 == b.0 then Recomp(nx, (Max(a.1, b.1) - Min(a.1, b.1)) / 2.0, xMeth, 1)
    else
      var m := (b.1 - a.1) / (b.0 - a.0);
      var yInt := a.1 - m * a.0;
      Recomp(nx, m * nx + yInt, xMeth, 2)
  }

  /**
   * `comp_xy` with the midpoint that its "USE MIDPOINT" rule names: the same
   * rules, except that a vertical segment gives the middle of its y range.
   */
  function CompXY(vx: real, a: Point, b: Point): (r: Recomp)
    ensures r.xMeth == 1 <==> a.0 <= vx <= b.0
    ensures r.xMeth == 1 ==> r.nx == vx
    ensures r.yMeth == 0 <==> a.1 == b.1
    ensures r.yMeth == 1 <==> a.1 != b.1 && a.0 == b.0
    ensures r.yMeth == 0 ==> r.ny == a.1
    ensures r.yMeth == 1 ==> r.ny == (a.1 + b.1) / 2.0
    ensures r.yMeth == 2 ==> (r.ny - a.1) * (b.0 - a.0) == (b.1 - a.1) * (r.nx - a.0)
  {
    var (nx, xMeth) := ClampX(vx, a, b);
    if a.1 == b.1 then Recomp(nx, a.1, xMeth, 0)
    else if a.0 == b.0 then Recomp(nx, (Max(a.1, b.1) + Min(a.1, b.1)) / 2.0, xMeth, 1)
    else
      var m := (b.1 - a.1) / (b.0 - a.0);
      var yInt := a.1 - m * a.0;
      Recomp(nx, m * nx + yInt, xMeth, 2)
  }

  /** The x rule: clamped into [a.x, b.x], kept exactly when already inside. */
  lemma CompXYClamp(vx: real, a: Point, b: Point)
    requires a.0 <= b.0
    ensures var r := CompXYAsWritten(vx, a, b);
            a.0 <= r.nx <= b.0
            && (r.xMeth == 1 <==> a.0 <= vx <= b.0)
            && (r.xMeth == 1 ==> r.nx == vx)
            && (vx < a.0 ==> r.nx == a.0 && r.xMeth == 0)
            && (vx > b.0 ==> r.nx == b.0 && r.xMeth == 0)
  {
  }

  /**
   * With `a` left of `b` the re-projected point lies on the segment ab:
   * the lemma returns its parameter along the segment.
   */
  lemma CompXYOnSegment(vx: real, a: Point, b: Point) returns (s: real)
    requires a.0 <= b.0
    ensures 0.0 <= s <= 1.0
    ensures CompXY(vx, a, b).nx == a.0 + s * (b.0 - a.0)
    ensures CompXY(vx, a, b).ny == a.1 + s * (b.1 - a.1)
  {
    var r := CompXY(vx, a, b);
    CompXYClamp(vx, a, b);
    AsWrittenAgrees(vx, a, b);
    if a.0 == b.0 {
      s := if a.1 == b.1 then 0.0 else 0.5;
    } else {
      s := ParamAlong(r.nx - a.0, b.0 - a.0);
      if a.1 != b.1 {
        var m := (b.1 - a.1) / (b.0 - a.0);
        DivMul(b.1 - a.1, b.0 - a.0);
        SlopeStep(m, b.0 - a.0, s, a.0, a.1, r.nx, b.1 - a.1);
      }
    }
  }

  /** The fraction `t / d` of a positive run, which lies in [0, 1] when `t` does in [0, d]. */
  lemma ParamAlong(t: real, d: real) returns (s: real)
    requires 0.0 <= t <= d && d > 0.0
    ensures 0.0 <= s <= 1.0 && s * d == t
  {
    s := t / d;
    DivMul(t, d);
    if s < 0.0 {
      ProductPositive(-s, d, -s * d);
    }
    if s > 1.0 {
      ProductPositive(s - 1.0, d, (s - 1.0) * d);
    }
  }

  /** On the line through a with slope m, the point at parameter s along a run d. */
  lemma SlopeStep(m: real, d: real, s: real, ax: real, ay: real, nx: real, rise: real)
    requires m * d == rise && s * d == nx - ax
    ensures m * nx + (ay - m * ax) == ay + s * rise
  {
    calc {
      m * nx + (ay - m * ax);
      ay + m * (nx - ax);
      ay + m * (s * d);
      ay + s * (m * d);
    }
  }

  /** Apart from a vertical segment the two versions agree. */
  lemma AsWrittenAgrees(vx: real, a: Point, b: Point)
    ensures CompXYAsWritten(vx, a, b).nx == CompXY(vx, a, b).nx
    ensures CompXYAsWritten(vx, a, b).xMeth == CompXY(vx, a, b).xMeth
    ensures CompXYAsWritten(vx, a, b).yMeth == CompXY(vx, a, b).yMeth
    ensures CompXY(vx, a, b).yMeth != 1 ==> CompXYAsWritten(vx, a, b) == CompXY(vx, a, b)
  {
  }

  /** As written, a vertical segment from (0, 10) to (0, 20) gets y = 5, below the segment. */
  lemma HalfExtentOffSegment()
    ensures CompXYAsWritten(0.0, (0.0, 10.0), (0.0, 20.0)) == Recomp(0.0, 5.0, 1, 1)
    ensures CompXY(0.0, (0.0, 10.0), (0.0, 20.0)) == Recomp(0.0, 15.0, 1, 1)
  {
  }

  /**
   * The endpoint ordering of `main`: `a` is the first point when it is strictly
   * left of the second, otherwise the second point.
   */
  function OrderEndpoints(start: Point, end: Point): (ab: (Point, Point))
    ensures ab.0.0 <= ab.1.0
    ensures (ab.0 == start && ab.1 == end) || (ab.0 == end && ab.1 == start)
    ensures start.0 == end.0 ==> ab.0 == end
  {
    if start.0 < end.0 then (start, end) else (end, start)
  }

  /** The error classification of one frame against the ordered endpoints. */
  datatype Errors = Errors(outsideX: bool, errX: bool, outsideY: bool, errY: bool)

  function FrameErrors(x: real, y: real, a: Point, b: Point): (e: Errors)
    ensures e.outsideX ==> e.errX
    ensures e.outsideY ==> e.errY
  {
    var outsideX := x < X_MIN || X_MAX < x;
    var outsideY := y < Y_MIN || Y_MAX < y;
    Errors(outsideX, outsideX || x < a.0 - DX_THRESHOLD || b.0 + DX_THRESHOLD < x,
           outsideY, outsideY || y < Min(a.1, b.1) - DY_THRESHOLD || Max(a.1, b.1) + DY_THRESHOLD < y)
  }

  predicate AnyError(e: Errors)
  {
    e.errX || e.errY
  }

  predicate ErrX(e: Errors) { e.errX }
  predicate ErrY(e: Errors) { e.errY }
  predicate OutsideX(e: Errors) { e.outsideX }
  predicate OutsideY(e: Errors) { e.outsideY }

  /** A position on the map and within the thresholds of the segment's box is not erroneous. */
  lemma NearSegmentIsFine(x: real, y: real, a: Point, b: Point)
    requires X_MIN <= x <= X_MAX && Y_MIN <= y <= Y_MAX
    requires a.0 - DX_THRESHOLD <= x <= b.0 + DX_THRESHOLD
    requires Min(a.1, b.1) - DY_THRESHOLD <= y <= Max(a.1, b.1) + DY_THRESHOLD
    ensures !AnyError(FrameErrors(x, y, a, b))
  {
  }

  /**
   * Re-projection removes every error for a segment on the map: the corrected
   * point is inside the segment's box, so it is neither off the map nor off the segment.
   */
  lemma RecompIsFine(vx: real, a: Point, b: Point)
    requires a.0 <= b.0
    requires X_MIN <= a.0 && b.0 <= X_MAX && Y_MIN <= a.1 <= Y_MAX && Y_MIN <= b.1 <= Y_MAX
    ensures var r := CompXY(vx, a, b); !AnyError(FrameErrors(r.nx, r.ny, a, b))
  {
    var s := CompXYOnSegment(vx, a, b);
    FineOnSegment(CompXY(vx, a, b), s, a, b);
  }

  /**
   * `comp_xy` as written removes every error for a segment on the map that is
   * not vertical; a vertical one is the case `AsWrittenLeavesMap` shows failing.
   */
  lemma RecompAsWrittenIsFine(vx: real, a: Point, b: Point)
    requires a.0 <= b.0 && (a.0 != b.0 || a.1 == b.1)
    requires X_MIN <= a.0 && b.0 <= X_MAX && Y_MIN <= a.1 <= Y_MAX && Y_MIN <= b.1 <= Y_MAX
    ensures var r := CompXYAsWritten(vx, a, b); !AnyError(FrameErrors(r.nx, r.ny, a, b))
  {
    AsWrittenAgrees(vx, a, b);
    RecompIsFine(vx, a, b);
  }

  /** A point at parameter s of a segment on the map has no error. */
  lemma FineOnSegment(r: Recomp, s: real, a: Point, b: Point)
    requires X_MIN <= a.0 <= r.nx <= b.0 <= X_MAX && Y_MIN <= a.1 <= Y_MAX && Y_MIN <= b.1 <= Y_MAX
    requires 0.0 <= s <= 1.0 && r.ny == a.1 + s * (b.1 - a.1)
    ensures !AnyError(FrameErrors(r.nx, r.ny, a, b))
  {
    BetweenEnds(a.1, b.1, s);
    ThresholdsPositive();
    NearSegmentIsFine(r.nx, r.ny, a, b);
  }

  lemma ThresholdsPositive()
    ensures DX_THRESHOLD > 0.0 && DY_THRESHOLD > 0.0
  {
  }

  /** A point at parameter s in [0, 1] between u and v lies between them. */
  lemma BetweenEnds(u: real, v: real, s: real)
    requires 0.0 <= s <= 1.0
    ensures Min(u, v) <= u + s * (v - u) <= Max(u, v)
  {
    var p := s * (v - u);
    if u <= v {
      ScaleWithin(s, v - u, p);
    } else {
      ScaleWithin(s, u - v, -p);
    }
  }

  /** Scaling by a fraction in [0, 1] keeps a non-negative real between 0 and itself. */
  lemma ScaleWithin(s: real, w: real, p: real)
    requires 0.0 <= s <= 1.0 && w >= 0.0 && p == s * w
    ensures 0.0 <= p <= w
  {
    if s > 0.0 && w > 0.0 {
      MulPositive(s, w);
      if s < 1.0 {
        MulPositive(1.0 - s, w);
        assert (1.0 - s) * w == w - p;
      }
    }
  }

  /** As written, the vertical segment from (446400, 4634600) to (446400, 4634700) is re-projected off the map. */
  lemma AsWrittenLeavesMap()
    ensures var a := (446400.0, 4634600.0);
            var b := (446400.0, 4634700.0);
            var r := CompXYAsWritten(446400.0, a, b);
            r.ny == 50.0 && FrameErrors(r.nx, r.ny, a, b).outsideY
  {
  }

  /** `network.links[i].points[0]` and `[1]`: Python list indexing, which wraps negative
   * indices and raises for an index out of range or a link with fewer than two points. */
  function Endpoints(links: seq<Link>, i: int): (r: Option<(Point, Point)>)
    ensures r.Some? <==> -|links| <= i < |links| && |links[if i < 0 then i + |links| else i].points| >= 2
  {
    if -|links| <= i < |links| then
      var l := links[if i < 0 then i + |links| else i];
      if |l.points| >= 2 then Some((l.points[0], l.points[1])) else None
    else None
  }

  /** A negative link number counts from the end of the list. */
  lemma EndpointsNegative(links: seq<Link>)
    requires |links| > 0 && |links[|links| - 1].points| >= 2
    ensures Endpoints(links, -1) == Some((links[|links| - 1].points[0], links[|links| - 1].points[1]))
  {
  }

  /** Counters kept across the frames, and how often each (x rule, y rule) pair was used. */
  datatype Counters = Counters(errX: nat, errY: nat, outsideX: nat, outsideY: nat, errTotal: nat,
                               total: nat, methods: map<(int, int), nat>)

  function Bump(b: bool): nat
  {
    if b then 1 else 0
  }

  function Tallied(methods: map<(int, int), nat>, key: (int, int)): nat
  {
    if key in methods then methods[key] else 0
  }

  /** One frame of `main`: classify the old position, then record the rules used. */
  function Step(c: Counters, f: Frame, a: Point, b: Point): Counters
  {
    var e := FrameErrors(f.x, f.y, a, b);
    var r := CompXYAsWritten(f.x, a, b);
    var key := (r.xMeth, r.yMeth);
    Counters(c.errX + Bump(e.errX), c.errY + Bump(e.errY), c.outsideX + Bump(e.outsideX),
             c.outsideY + Bump(e.outsideY), c.errTotal + Bump(AnyError(e)), c.total,
             c.methods[key := Tallied(c.methods, key) + 1])
  }

  /** The frame with its re-projected position. */
  function Recomputed(f: Frame, a: Point, b: Point): Frame
  {
    var r := CompXYAsWritten(f.x, a, b);
    f.(x := r.nx, y := r.ny)
  }

  predicate Resolved(fs: seq<Frame>, links: seq<Link>)
  {
    forall k :: 0 <= k < |fs| ==> Endpoints(links, fs[k].link).Some?
  }

  /** The number of leading frames whose link resolves. */
  function FirstUnresolved(fs: seq<Frame>, links: seq<Link>): (i: nat)
    ensures i <= |fs| && Resolved(fs[..i], links)
    ensures i < |fs| ==> Endpoints(links, fs[i].link).None?
  {
    if fs == [] then 0
    else if Endpoints(links, fs[0].link).None? then 0
    else
      var i := FirstUnresolved(fs[1..], links);
      assert fs[..i + 1] == [fs[0]] + fs[1..][..i];
      i + 1
  }

  function OrderedEndpoints(f: Frame, links: seq<Link>): (Point, Point)
    requires Endpoints(links, f.link).Some?
  {
    var se := Endpoints(links, f.link).value;
    OrderEndpoints(se.0, se.1)
  }

  /** Every frame re-projected onto its link. */
  function RecompAll(fs: seq<Frame>, links: seq<Link>): (r: seq<Frame>)
    requires Resolved(fs, links)
    ensures |r| == |fs|
  {
    if fs == [] then []
    else
      var ab := OrderedEndpoints(fs[|fs| - 1], links);
      RecompAll(fs[..|fs| - 1], links) + [Recomputed(fs[|fs| - 1], ab.0, ab.1)]
  }

  /** Each frame is re-projected onto its own link, and nothing but its position changes. */
  lemma {:induction false} RecompAllAt(fs: seq<Frame>, links: seq<Link>, k: nat)
    requires Resolved(fs, links) && k < |fs|
    ensures var ab := OrderedEndpoints(fs[k], links);
            RecompAll(fs, links)[k] == Recomputed(fs[k], ab.0, ab.1)
            && RecompAll(fs, links)[k] == fs[k].(x := RecompAll(fs, links)[k].x, y := RecompAll(fs, links)[k].y)
  {
    if k < |fs| - 1 {
      assert Resolved(fs[..|fs| - 1], links);
      RecompAllAt(fs[..|fs| - 1], links, k);
    }
  }

  /** The counters after the frames, in order. */
  function StepAll(fs: seq<Frame>, links: seq<Link>, c: Counters): Counters
    requires Resolved(fs, links)
  {
    if fs == [] then c
    else
      var ab := OrderedEndpoints(fs[|fs| - 1], links);
      Step(StepAll(fs[..|fs| - 1], links, c), fs[|fs| - 1], ab.0, ab.1)
  }

  /**
   * The frame loop of `main` for one snapshot: adds the frame count to the total,
   * then classifies and re-projects each frame in place. A frame whose link does not
   * resolve raises, leaving the frames before it re-projected and the rest untouched.
   */
  method RecomputeFrames(frames: array<Frame>, links: seq<Link>, c0: Counters) returns (ok: bool, c: Counters)
    modifies frames
    ensures var i := FirstUnresolved(old(frames[..]), links);
            (ok <==> i == frames.Length)
            && frames[..i] == RecompAll(old(frames[..])[..i], links)
            && frames[i..] == old(frames[..])[i..]
    ensures ok ==> c == StepAll(old(frames[..]), links, c0.(total := c0.total + frames.Length))
  {
    ghost var fs := frames[..];
    var start := c0.(total := c0.total + frames.Length);
    c := start;
    var i := 0;
    ghost var stop := FirstUnresolved(fs, links);
    while i < frames.Length
      invariant 0 <= i <= stop
      invariant Resolved(fs[..i], links)
      invariant frames[..i] == RecompAll(fs[..i], links)
      invariant frames[i..] == fs[i..]
      invariant c == StepAll(fs[..i], links, start)
    {
      var ends := Endpoints(links, frames[i].link);
      assert frames[i] == fs[i];
      if ends.None? {
        NoLaterStop(fs, links, i);
        return false, c;
      }
      var ab := OrderEndpoints(ends.value.0, ends.value.1);
      ghost var before := frames[..];
      ghost var c1 := c;
      c := Step(c, frames[i], ab.0, ab.1);
      frames[i] := Recomputed(frames[i], ab.0, ab.1);
      Advance(fs, links, i, start, before, frames[..], c1, c);
      i := i + 1;
    }
    assert fs[..i] == fs;
    ok := true;
  }

  /** The loop invariant of RecomputeFrames carries over one frame. */
  lemma Advance(fs: seq<Frame>, links: seq<Link>, i: nat, start: Counters, before: seq<Frame>, after: seq<Frame>,
                c: Counters, c': Counters)
    requires i < |fs| == |before| && i <= FirstUnresolved(fs, links) && Endpoints(links, fs[i].link).Some?
    requires before[..i] == RecompAll(fs[..i], links) && before[i..] == fs[i..]
    requires c == StepAll(fs[..i], links, start)
    requires var ab := OrderedEndpoints(fs[i], links);
             after == before[i := Recomputed(fs[i], ab.0, ab.1)] && c' == Step(c, fs[i], ab.0, ab.1)
    ensures i + 1 <= FirstUnresolved(fs, links) && Resolved(fs[..i + 1], links)
    ensures after[..i + 1] == RecompAll(fs[..i + 1], links) && after[i + 1..] == fs[i + 1..]
    ensures c' == StepAll(fs[..i + 1], links, start)
  {
    FirstUnresolvedAfter(fs, links, i);
    PrefixStep(fs, links, i, start);
    var ab := OrderedEndpoints(fs[i], links);
    UpdatedSlices(before, after, i, Recomputed(fs[i], ab.0, ab.1));
  }

  /** Replacing element `i` extends the prefix before it by the new value and keeps the rest. */
  lemma UpdatedSlices<T>(before: seq<T>, after: seq<T>, i: nat, x: T)
    requires i < |before| && after == before[i := x]
    ensures after[..i + 1] == before[..i] + [x] && after[i + 1..] == before[i + 1..]
  {
    assert after[..i + 1] == before[..i] + [x];
  }

  /** A resolvable frame at position i before the stop moves the stop past i. */
  lemma FirstUnresolvedAfter(fs: seq<Frame>, links: seq<Link>, i: nat)
    requires i <= FirstUnresolved(fs, links) && i < |fs| && Endpoints(links, fs[i].link).Some?
    ensures i < FirstUnresolved(fs, links)
    ensures Resolved(fs[..i + 1], links)
  {
    var stop := FirstUnresolved(fs, links);
    if i == stop {
      assert false;
    }
    assert forall k :: 0 <= k < i + 1 ==> fs[..i + 1][k] == fs[..stop][k];
  }

  /** One more frame extends the re-projected frames and the counters by one step. */
  lemma PrefixStep(fs: seq<Frame>, links: seq<Link>, i: nat, c: Counters)
    requires i < |fs| && Resolved(fs[..i + 1], links)
    ensures Resolved(fs[..i], links)
    ensures var ab := OrderedEndpoints(fs[i], links);
            RecompAll(fs[..i + 1], links) == RecompAll(fs[..i], links) + [Recomputed(fs[i], ab.0, ab.1)]
            && StepAll(fs[..i + 1], links, c) == Step(StepAll(fs[..i], links, c), fs[i], ab.0, ab.1)
  {
    assert fs[..i + 1][..i] == fs[..i];
    assert fs[..i + 1][i] == fs[i];
  }

  /** An unresolvable frame at or before the stop is the stop. */
  lemma NoLaterStop(fs: seq<Frame>, links: seq<Link>, i: nat)
    requires i <= FirstUnresolved(fs, links) && i < |fs| && Endpoints(links, fs[i].link).None?
    ensures FirstUnresolved(fs, links) == i
  {
  }

  /** Frames erroneous in x and in y, frames off the map, and frames with any error. */
  function CountWhere(fs: seq<Frame>, links: seq<Link>, which: Errors -> bool): (n: nat)
    requires Resolved(fs, links)
    ensures n <= |fs|
  {
    if fs == [] then 0
    else
      var ab := OrderedEndpoints(fs[|fs| - 1], links);
      CountWhere(fs[..|fs| - 1], links, which) + Bump(which(FrameErrors(fs[|fs| - 1].x, fs[|fs| - 1].y, ab.0, ab.1)))
  }

  /** The number of frames re-projected with the rule pair `key`. */
  function CountMethod(fs: seq<Frame>, links: seq<Link>, key: (int, int)): (n: nat)
    requires Resolved(fs, links)
    ensures n <= |fs|
  {
    if fs == [] then 0
    else
      var ab := OrderedEndpoints(fs[|fs| - 1], links);
      var r := CompXYAsWritten(fs[|fs| - 1].x, ab.0, ab.1);
      CountMethod(fs[..|fs| - 1], links, key) + Bump((r.xMeth, r.yMeth) == key)
  }

  /**
   * Each counter grows by the number of frames it describes: `err_total` by the frames
   * with any error, the others by their own frames, and the total is kept.
   */
  lemma {:induction false} StepAllCounts(fs: seq<Frame>, links: seq<Link>, c: Counters)
    requires Resolved(fs, links)
    ensures var c' := StepAll(fs, links, c);
            c'.total == c.total
            && c'.errTotal == c.errTotal + CountWhere(fs, links, AnyError)
            && c'.errX == c.errX + CountWhere(fs, links, ErrX)
            && c'.errY == c.errY + CountWhere(fs, links, ErrY)
            && c'.outsideX == c.outsideX + CountWhere(fs, links, OutsideX)
            && c'.outsideY == c.outsideY + CountWhere(fs, links, OutsideY)
  {
    if fs != [] {
      assert Resolved(fs[..|fs| - 1], links);
      StepAllCounts(fs[..|fs| - 1], links, c);
    }
  }

  /** Off-map frames are among the erroneous ones, which are among the frames with any error. */
  lemma {:induction false} CountsNested(fs: seq<Frame>, links: seq<Link>)
    requires Resolved(fs, links)
    ensures CountWhere(fs, links, OutsideX) <= CountWhere(fs, links, ErrX)
            <= CountWhere(fs, links, AnyError)
    ensures CountWhere(fs, links, OutsideY) <= CountWhere(fs, links, ErrY)
            <= CountWhere(fs, links, AnyError)
    ensures CountWhere(fs, links, AnyError)
            <= CountWhere(fs, links, ErrX) + CountWhere(fs, links, ErrY)
  {
    if fs != [] {
      assert Resolved(fs[..|fs| - 1], links);
      CountsNested(fs[..|fs| - 1], links);
    }
  }

  /** The `methods` dictionary counts, per rule pair, the frames re-projected with it. */
  lemma {:induction false} StepAllMethods(fs: seq<Frame>, links: seq<Link>, c: Counters, key: (int, int))
    requires Resolved(fs, links)
    ensures Tallied(StepAll(fs, links, c).methods, key) == Tallied(c.methods, key) + CountMethod(fs, links, key)
    ensures key in StepAll(fs, links, c).methods <==> key in c.methods || CountMethod(fs, links, key) > 0
  {
    if fs != [] {
      assert Resolved(fs[..|fs| - 1], links);
      StepAllMethods(fs[..|fs| - 1], links, c, key);
    }
  }
}
