/**
 * The quadtree mapping of the agent-mapping crate: the bounding region of all
 * agents and buildings, the z-order split of z-sorted agents into quadrants,
 * the split of buildings by the corners of their bounding boxes, the
 * recursive processing of regions that fills one cell per agent, and
 * `map_vehicles`, which puts these together. Bounds of the region folds may
 * be infinite, so they are `F64`s; the region handed to `process_region` is
 * finite. The rayon joins and folds run sequentially here; the lemmas about
 * the folds state why the split into parallel parts does not change them.
 */
module Quadtree {
  import opened Wrappers
  import opened MachineInts
  import opened Float64
  import opened Geo
  import opened ZOrder
  import opened AgentBuildings
  import opened VehicleSim
  import opened Sorting

  // ---------------------------------------------------------------------
  // min_region, reduce_region_point, reduce_regions
  // ---------------------------------------------------------------------

  /** A `Region` whose bounds may be infinite, as the folds over agents and buildings build it. */
  datatype Bounds = Bounds(east: F64, west: F64, north: F64, south: F64)

  /** `a <= b` for values that are not NaN. */
  predicate AtMost(a: F64, b: F64)
  {
    !a.NaN? && !b.NaN? && !Lt(b, a)
  }

  predicate NoNaN(r: Bounds)
  {
    !r.east.NaN? && !r.west.NaN? && !r.north.NaN? && !r.south.NaN?
  }

  /** `outer` reaches at least as far as `inner` on every side. */
  predicate Encloses(outer: Bounds, inner: Bounds)
  {
    AtMost(outer.west, inner.west) && AtMost(inner.east, outer.east)
    && AtMost(outer.south, inner.south) && AtMost(inner.north, outer.north)
  }

  /** The point lies within the bounds, edges included. */
  predicate Holds(r: Bounds, p: Coords)
  {
    AtMost(r.west, Finite(p.x)) && AtMost(Finite(p.x), r.east)
    && AtMost(r.south, Finite(p.y)) && AtMost(Finite(p.y), r.north)
  }

  /** `min_region`: east and north at minus infinity, west and south at plus infinity, so every region encloses it. */
  function MinRegion(): (r: Bounds)
    ensures NoNaN(r)
    ensures forall b :: NoNaN(b) ==> Encloses(b, r)
  {
    Bounds(NegInf, PosInf, NegInf, PosInf)
  }

  /** `reduce_region_point`: each bound moves out to the point where the point lies beyond it. */
  function ReduceRegionPoint(a: Bounds, b: Coords): (r: Bounds)
    ensures NoNaN(a) ==> NoNaN(r) && Encloses(r, a) && Holds(r, b)
  {
    var west := if Lt(Finite(b.x), a.west) then Finite(b.x) else a.west;
    var east := if Lt(a.east, Finite(b.x)) then Finite(b.x) else a.east;
    var north := if Lt(a.north, Finite(b.y)) then Finite(b.y) else a.north;
    var south := if Lt(Finite(b.y), a.south) then Finite(b.y) else a.south;
    Bounds(east, west, north, south)
  }

  /** The lower of two bounds: `b` where it lies strictly below `a`. */
  function Lower(a: F64, b: F64): F64
  {
    if Lt(b, a) then b else a
  }

  /** The upper of two bounds: `b` where it lies strictly above `a`. */
  function Upper(a: F64, b: F64): F64
  {
    if Lt(a, b) then b else a
  }

  /** `reduce_regions`: each bound of `a` moves out to that of `b` where `b` reaches further. */
  function ReduceRegions(a: Bounds, b: Bounds): (r: Bounds)
    ensures NoNaN(a) && NoNaN(b) ==> NoNaN(r) && Encloses(r, a) && Encloses(r, b)
  {
    Bounds(Upper(a.east, b.east), Lower(a.west, b.west), Upper(a.north, b.north), Lower(a.south, b.south))
  }

  /** Without NaN, the lower and the upper bound are commutative and associative. */
  lemma BoundAlgebra(x: F64, y: F64, z: F64)
    requires !x.NaN? && !y.NaN? && !z.NaN?
    ensures Lower(x, y) == Lower(y, x) && Upper(x, y) == Upper(y, x)
    ensures Lower(Lower(x, y), z) == Lower(x, Lower(y, z))
    ensures Upper(Upper(x, y), z) == Upper(x, Upper(y, z))
  {
    LtOrder(x, y, z);
    LtOrder(y, x, z);
    LtOrder(z, y, x);
    LtOrder(x, z, y);
  }

  /** The point's extension is the least bounds that enclose the old ones and hold the point. */
  lemma ReduceRegionPointLeast(a: Bounds, p: Coords, c: Bounds)
    requires NoNaN(a) && NoNaN(c) && Encloses(c, a) && Holds(c, p)
    ensures Encloses(c, ReduceRegionPoint(a, p))
  {
  }

  /** `reduce_regions` gives the least bounds enclosing both arguments. */
  lemma ReduceRegionsLeast(a: Bounds, b: Bounds, c: Bounds)
    requires NoNaN(a) && NoNaN(b) && NoNaN(c) && Encloses(c, a) && Encloses(c, b)
    ensures Encloses(c, ReduceRegions(a, b))
  {
  }

  /** `min_region` is the identity of `reduce_regions`, on either side. */
  lemma MinRegionIdentity(b: Bounds)
    requires NoNaN(b)
    ensures ReduceRegions(MinRegion(), b) == b && ReduceRegions(b, MinRegion()) == b
  {
  }

  /** `reduce_regions` is commutative and associative on bounds without NaN. */
  lemma ReduceRegionsAlgebra(a: Bounds, b: Bounds, c: Bounds)
    requires NoNaN(a) && NoNaN(b) && NoNaN(c)
    ensures ReduceRegions(a, b) == ReduceRegions(b, a)
    ensures ReduceRegions(ReduceRegions(a, b), c) == ReduceRegions(a, ReduceRegions(b, c))
  {
    BoundAlgebra(a.east, b.east, c.east);
    BoundAlgebra(a.west, b.west, c.west);
    BoundAlgebra(a.north, b.north, c.north);
    BoundAlgebra(a.south, b.south, c.south);
  }

  /** The bounds of a single point. */
  function PointBounds(p: Coords): Bounds
  {
    Bounds(Finite(p.x), Finite(p.x), Finite(p.y), Finite(p.y))
  }

  /** Extending by a point is reducing with the point's own bounds. */
  lemma ReduceRegionPointAsRegions(a: Bounds, p: Coords)
    ensures ReduceRegionPoint(a, p) == ReduceRegions(a, PointBounds(p))
  {
  }

  /** The bounding box of a building, as bounds. */
  function BboxBounds(b: Building): Bounds
  {
    Bounds(Finite(b.bbox.east), Finite(b.bbox.west), Finite(b.bbox.north), Finite(b.bbox.south))
  }

  /** The fold of `map_vehicles` over the buildings' bounding boxes, from `min_region`. */
  function BuildingsBox(bs: seq<Building>): (r: Bounds)
    ensures NoNaN(r)
  {
    if bs == [] then MinRegion() else ReduceRegions(BuildingsBox(bs[..|bs| - 1]), BboxBounds(bs[|bs| - 1]))
  }

  /** The fold of `map_vehicles` over the agents' positions, from `min_region`. */
  function AgentsBox(agents: seq<Agent>): (r: Bounds)
    ensures NoNaN(r)
  {
    if agents == [] then MinRegion() else ReduceRegionPoint(AgentsBox(agents[..|agents| - 1]), agents[|agents| - 1].position)
  }

  /** The buildings' box encloses every building's bounding box. */
  lemma {:induction false} BuildingsBoxEncloses(bs: seq<Building>)
    ensures forall i :: 0 <= i < |bs| ==> Encloses(BuildingsBox(bs), BboxBounds(bs[i]))
  {
    if bs != [] {
      var init := bs[..|bs| - 1];
      BuildingsBoxEncloses(init);
      var r, r0 := BuildingsBox(bs), BuildingsBox(init);
      forall i | 0 <= i < |bs| - 1 ensures Encloses(r, BboxBounds(bs[i])) {
        assert bs[i] == init[i];
        EnclosesTrans(r, r0, BboxBounds(bs[i]));
      }
    }
  }

  /** The agents' box holds every agent's position. */
  lemma {:induction false} AgentsBoxHolds(agents: seq<Agent>)
    ensures forall i :: 0 <= i < |agents| ==> Holds(AgentsBox(agents), agents[i].position)
  {
    if agents != [] {
      var init := agents[..|agents| - 1];
      AgentsBoxHolds(init);
      var r, r0 := AgentsBox(agents), AgentsBox(init);
      forall i | 0 <= i < |agents| - 1 ensures Holds(r, agents[i].position) {
        assert agents[i] == init[i];
        HoldsWithin(r, r0, agents[i].position);
      }
    }
  }

  lemma EnclosesTrans(a: Bounds, b: Bounds, c: Bounds)
    requires Encloses(a, b) && Encloses(b, c)
    ensures Encloses(a, c)
  {
    LtOrder(a.west, b.west, c.west);
    LtOrder(c.west, b.west, a.west);
    LtOrder(a.east, b.east, c.east);
    LtOrder(c.east, b.east, a.east);
    LtOrder(a.north, b.north, c.north);
    LtOrder(c.north, b.north, a.north);
    LtOrder(a.south, b.south, c.south);
    LtOrder(c.south, b.south, a.south);
  }

  lemma HoldsWithin(a: Bounds, b: Bounds, p: Coords)
    requires Encloses(a, b) && Holds(b, p)
    ensures Holds(a, p)
  {
    EnclosesTrans(a, b, PointBounds(p));
  }

  /**
   * Folding the buildings in two parts and reducing the two boxes gives the
   * box of all of them, which is why the parallel fold and reduce of
   * `map_vehicles` may split the buildings anywhere.
   */
  lemma {:induction false} BuildingsBoxSplit(a: seq<Building>, b: seq<Building>)
    ensures BuildingsBox(a + b) == ReduceRegions(BuildingsBox(a), BuildingsBox(b))
  {
    if b == [] {
      assert a + b == a;
      MinRegionIdentity(BuildingsBox(a));
    } else {
      var init, last := b[..|b| - 1], b[|b| - 1];
      assert (a + b)[..|a + b| - 1] == a + init;
      assert (a + b)[|a + b| - 1] == last;
      BuildingsBoxSplit(a, init);
      ReduceRegionsAlgebra(BuildingsBox(a), BuildingsBox(init), BboxBounds(last));
    }
  }

  /** Folding the agents in two parts and reducing the two boxes gives the box of all of them. */
  lemma {:induction false} AgentsBoxSplit(a: seq<Agent>, b: seq<Agent>)
    ensures AgentsBox(a + b) == ReduceRegions(AgentsBox(a), AgentsBox(b))
  {
    if b == [] {
      assert a + b == a;
      MinRegionIdentity(AgentsBox(a));
    } else {
      var init, last := b[..|b| - 1], b[|b| - 1];
      assert (a + b)[..|a + b| - 1] == a + init;
      assert (a + b)[|a + b| - 1] == last;
      AgentsBoxSplit(a, init);
      ReduceRegionPointAsRegions(AgentsBox(a + init), last.position);
      ReduceRegionPointAsRegions(AgentsBox(init), last.position);
      ReduceRegionsAlgebra(AgentsBox(a), AgentsBox(init), PointBounds(last.position));
    }
  }

  /**
   * Bounds built from finite boxes and points: each bound is finite or still
   * the infinity `min_region` put there.
   */
  predicate Sane(r: Bounds)
  {
    (r.west.Finite? || r.west.PosInf?) && (r.east.Finite? || r.east.NegInf?)
    && (r.south.Finite? || r.south.PosInf?) && (r.north.Finite? || r.north.NegInf?)
  }

  lemma BoxesSane(bs: seq<Building>, agents: seq<Agent>)
    ensures Sane(BuildingsBox(bs)) && Sane(AgentsBox(agents))
    ensures Sane(ReduceRegions(BuildingsBox(bs), AgentsBox(agents)))
  {
    BuildingsBoxSane(bs);
    AgentsBoxSane(agents);
    ReduceSane(BuildingsBox(bs), AgentsBox(agents));
  }

  lemma {:induction false} BuildingsBoxSane(bs: seq<Building>)
    ensures Sane(BuildingsBox(bs))
  {
    if bs != [] {
      BuildingsBoxSane(bs[..|bs| - 1]);
    }
  }

  lemma {:induction false} AgentsBoxSane(agents: seq<Agent>)
    ensures Sane(AgentsBox(agents))
  {
    if agents != [] {
      AgentsBoxSane(agents[..|agents| - 1]);
    }
  }

  lemma ReduceSane(a: Bounds, b: Bounds)
    requires Sane(a) && Sane(b)
    ensures Sane(ReduceRegions(a, b))
  {
  }

  /** The two assertions of `map_vehicles`: positive east-west and north-south extent. */
  predicate ValidRegion(r: Bounds)
  {
    Lt(r.west, r.east) && Lt(r.south, r.north)
  }

  /** A sane region that passes the assertions has four finite bounds. */
  function ToRegion(r: Bounds): (g: Region)
    requires Sane(r) && ValidRegion(r)
    ensures Proper(g)
    ensures Finite(g.east) == r.east && Finite(g.west) == r.west && Finite(g.north) == r.north && Finite(g.south) == r.south
  {
    Region(r.east.v, r.west.v, r.north.v, r.south.v)
  }

  /** A point within finite bounds is contained in the region they make. */
  lemma HoldsContains(r: Bounds, p: Coords)
    requires Sane(r) && ValidRegion(r) && Holds(r, p)
    ensures Contains(ToRegion(r), p)
  {
  }

  // ---------------------------------------------------------------------
  // find_split
  // ---------------------------------------------------------------------

  /** An agent with its z-value, the part of `agent_data` the split reads. */
  datatype AgentEntry = AgentEntry(agent: Agent, z: ZValue)

  /** The sort key of `agent_data`: the raw z-value. */
  function ZKey(e: AgentEntry): real
  {
    e.z.raw as real
  }

  /** The entries are sorted by z-value. */
  ghost predicate ZSorted(s: seq<AgentEntry>)
  {
    SortedBy(s, ZKey)
  }

  /** The result of `binary_search_by_key`: an index holding the query, or the index to insert it at. */
  datatype Search = Found(at: nat) | NotFound(insertAt: nat)

  /**
   * `binary_search_by_key(&query, |t| t.1)` on z-sorted entries. When several
   * entries hold the query, which of them is found is left open.
   */
  method BinarySearch(arr: seq<AgentEntry>, query: ZValue) returns (r: Search)
    requires ZSorted(arr)
    ensures r.Found? ==> r.at < |arr| && arr[r.at].z == query
    ensures r.NotFound? ==> r.insertAt <= |arr|
                            && (forall i :: 0 <= i < r.insertAt ==> arr[i].z.raw < query.raw)
                            && (forall i :: r.insertAt <= i < |arr| ==> arr[i].z.raw > query.raw)
  {
    var lo, hi := 0, |arr|;
    while lo < hi
      invariant 0 <= lo <= hi <= |arr|
      invariant forall i :: 0 <= i < lo ==> arr[i].z.raw < query.raw
      invariant forall i :: hi <= i < |arr| ==> arr[i].z.raw > query.raw
    {
      var mid := lo + (hi - lo) / 2;
      if arr[mid].z.raw < query.raw {
        assert forall i :: 0 <= i < mid ==> ZKey(arr[i]) <= ZKey(arr[mid]);
        lo := mid + 1;
      } else if arr[mid].z.raw > query.raw {
        assert forall i :: mid < i < |arr| ==> ZKey(arr[mid]) <= ZKey(arr[i]);
        hi := mid;
      } else {
        return Found(mid);
      }
    }
    r := NotFound(lo);
  }

  /**
   * `find_split`: the first index whose z-value is at least the query. On a
   * hit of the binary search, it walks back from the hit to the last entry
   * below the query.
   */
  method FindSplit(arr: seq<AgentEntry>, query: ZValue) returns (idx: nat)
    requires ZSorted(arr)
    ensures idx <= |arr|
    ensures forall i :: 0 <= i < idx ==> arr[i].z.raw < query.raw
    ensures forall i :: idx <= i < |arr| ==> arr[i].z.raw >= query.raw
  {
    var r := BinarySearch(arr, query);
    match r
    case NotFound(i) =>
      idx := i;
    case Found(start) =>
      var j := start;
      while j > 0 && !(arr[j - 1].z.raw < query.raw)
        invariant 0 <= j <= start
        invariant forall i :: j <= i <= start ==> arr[i].z.raw >= query.raw
      {
        j := j - 1;
      }
      forall i | 0 <= i < j ensures arr[i].z.raw < query.raw {
        assert ZKey(arr[i]) <= ZKey(arr[j - 1]);
      }
      forall i | start < i < |arr| ensures arr[i].z.raw >= query.raw {
        assert ZKey(arr[start]) <= ZKey(arr[i]);
      }
      idx := j;
  }

  // ---------------------------------------------------------------------
  // The quadrant split of buildings
  // ---------------------------------------------------------------------

  datatype Quadrant = NE | NW | SE | SW

  /**
   * Whether a building is collected for a quadrant of the region with centre
   * `c`: its bounding box reaches strictly past the centre on both of the
   * quadrant's sides.
   */
  predicate Reaches(b: Building, c: Coords, q: Quadrant)
  {
    var north := b.bbox.north > c.y;
    var south := b.bbox.south < c.y;
    var west := b.bbox.west < c.x;
    var east := b.bbox.east > c.x;
    match q
    case NE => north && east
    case NW => north && west
    case SE => south && east
    case SW => south && west
  }

  /** The buildings collected for a quadrant, in their order. */
  function InQuadrant(bs: seq<Building>, c: Coords, q: Quadrant): (r: seq<Building>)
    ensures |r| <= |bs|
    ensures forall b :: b in r <==> b in bs && Reaches(b, c, q)
  {
    if bs == [] then []
    else
      var init, last := bs[..|bs| - 1], bs[|bs| - 1];
      assert bs == init + [last];
      InQuadrant(init, c, q) + (if Reaches(last, c, q) then [last] else [])
  }

  /** One more building extends each quadrant's list by that building when it reaches the quadrant. */
  lemma InQuadrantStep(bs: seq<Building>, i: nat, c: Coords)
    requires i < |bs|
    ensures forall q :: InQuadrant(bs[..i + 1], c, q) == InQuadrant(bs[..i], c, q) + (if Reaches(bs[i], c, q) then [bs[i]] else [])
  {
    assert bs[..i + 1][..i] == bs[..i];
  }

  /** The four quadrants' buildings of `process_region`. */
  datatype Split = Split(ne: seq<Building>, nw: seq<Building>, se: seq<Building>, sw: seq<Building>)

  /** The loop of `process_region` that pushes each building to every quadrant it reaches. */
  method SplitBuildings(bs: seq<Building>, c: Coords) returns (s: Split)
    ensures s.ne == InQuadrant(bs, c, NE) && s.nw == InQuadrant(bs, c, NW)
    ensures s.se == InQuadrant(bs, c, SE) && s.sw == InQuadrant(bs, c, SW)
  {
    var ne, nw, se, sw := [], [], [], [];
    var i := 0;
    while i < |bs|
      invariant 0 <= i <= |bs|
      invariant ne == InQuadrant(bs[..i], c, NE) && nw == InQuadrant(bs[..i], c, NW)
      invariant se == InQuadrant(bs[..i], c, SE) && sw == InQuadrant(bs[..i], c, SW)
    {
      var b := bs[i];
      InQuadrantStep(bs, i, c);
      var north := b.bbox.north > c.y;
      var south := b.bbox.south < c.y;
      var west := b.bbox.west < c.x;
      var east := b.bbox.east > c.x;
      if north && east {
        ne := ne + [b];
      }
      if north && west {
        nw := nw + [b];
      }
      if south && east {
        se := se + [b];
      }
      if south && west {
        sw := sw + [b];
      }
      i := i + 1;
    }
    assert bs[..i] == bs;
    s := Split(ne, nw, se, sw);
  }

  /** A building whose box spans the centre is collected for all four quadrants. */
  lemma SpanningBuildingEverywhere(b: Building, c: Coords)
    requires b.bbox.west < c.x < b.bbox.east && b.bbox.south < c.y < b.bbox.north
    ensures Reaches(b, c, NE) && Reaches(b, c, NW) && Reaches(b, c, SE) && Reaches(b, c, SW)
  {
  }

  /**
   * A building with an ordered box reaches no quadrant exactly when the box is
   * flat along a centre line: no height at the centre's y or no width at its x.
   */
  lemma NoQuadrant(b: Building, c: Coords)
    requires Ordered(b.bbox)
    ensures (!Reaches(b, c, NE) && !Reaches(b, c, NW) && !Reaches(b, c, SE) && !Reaches(b, c, SW))
            <==> (b.bbox.north == b.bbox.south == c.y) || (b.bbox.east == b.bbox.west == c.x)
  {
  }

  // ---------------------------------------------------------------------
  // The z-value cells of process_region
  // ---------------------------------------------------------------------

  /** The width of the z-value range of a cell at `depth`: each level fixes two more bits. */
  function CellWidth(depth: nat): nat
    requires depth <= 32
  {
    Pow2(64 - 2 * depth)
  }

  /** `v >> k` on unsigned integers, for shifts below the width: k halvings. */
  function ShiftRight(v: nat, k: nat): nat
  {
    if k == 0 then v else ShiftRight(v / 2, k - 1)
  }

  /** Shifting a power of two right moves its bit down. */
  lemma {:induction false} ShiftPow2(n: nat, k: nat)
    requires k <= n
    ensures ShiftRight(Pow2(n), k) == Pow2(n - k)
  {
    if k > 0 {
      assert Pow2(n) / 2 == Pow2(n - 1);
      ShiftPow2(n - 1, k - 1);
    }
  }

  /** The x bit of `process_region` at `depth`, bit `62 - 2 * depth`; the y bit is the one above it. */
  function XBit(depth: nat): nat
    requires depth < 32
  {
    Pow2(62 - 2 * depth)
  }

  /** The number of z-values, 2^64. */
  const ZRange: nat := 0x1_0000_0000_0000_0000

  /** A cell's prefix: its low `64 - 2 * depth` bits are clear and its range stays below 2^64. */
  predicate CellPrefix(prefix: nat, depth: nat)
    requires depth <= 32
  {
    prefix % CellWidth(depth) == 0 && prefix + CellWidth(depth) <= ZRange
  }

  /** The z-value belongs to the cell: it carries the cell's prefix in its top `2 * depth` bits. */
  predicate InCell(z: ZValue, prefix: nat, depth: nat)
    requires depth <= 32
  {
    prefix <= z.raw < prefix + CellWidth(depth)
  }

  lemma {:induction false} OrComm(a: nat, b: nat)
    ensures Or(a, b) == Or(b, a)
  {
    if a != 0 && b != 0 {
      OrComm(a / 2, b / 2);
    }
  }

  lemma MulMod(a: nat, w: nat)
    requires w > 0
    ensures (a * w) % w == 0 && (a * w) / w == a
  {
    var q, r := (a * w) / w, (a * w) % w;
    assert (a - q) * w == r;
    MulSign(a - q, w);
  }

  lemma DivExact(a: nat, w: nat)
    requires w > 0 && a % w == 0
    ensures a == (a / w) * w
  {
  }

  lemma MulSign(d: int, w: int)
    requires w > 0
    ensures d >= 1 ==> d * w >= w
    ensures d <= -1 ==> d * w <= -w
  {
  }

  /**
   * The prefixes of the four quadrants of a cell at `depth`: south-west keeps
   * the prefix, south-east adds the x bit, north-west the y bit and
   * north-east both, so the quadrants split the cell's range into four
   * consecutive quarters, each a cell one level down.
   */
  lemma QuadrantPrefixes(prefix: nat, depth: nat, xBit: nat, yBit: nat)
    requires depth < 32 && CellPrefix(prefix, depth)
    requires xBit == XBit(depth) && yBit == 2 * xBit
    ensures Or(prefix, yBit) == prefix + yBit
    ensures Or(prefix, xBit) == prefix + xBit
    ensures Or(Or(prefix, yBit), xBit) == prefix + yBit + xBit
  {
    var b, x, k := CellBits(prefix, depth);
    OrBits(prefix, b, x, k);
    assert xBit == x && yBit == 2 * x;
    assert Or(prefix, yBit) == prefix + 2 * x;
  }

  /** A cell's prefix as a multiple of 2^k, with x the cell's x bit. */
  lemma CellBits(prefix: nat, depth: nat) returns (b: nat, x: nat, k: nat)
    requires depth < 32 && CellPrefix(prefix, depth)
    ensures x == XBit(depth) && 2 <= k
    ensures x == Pow2(k - 2) && Pow2(k) == 4 * x && Pow2(k - 1) == 2 * x
    ensures prefix == b * Pow2(k)
  {
    XBitWidth(depth);
    b := PrefixQuotient(prefix, depth);
    x, k := XBit(depth), 64 - 2 * depth;
  }

  /** The four quarters of a cell are cells one level down. */
  lemma QuadrantCells(prefix: nat, depth: nat, sePrefix: nat, nwPrefix: nat, nePrefix: nat)
    requires depth < 32 && CellPrefix(prefix, depth)
    requires sePrefix == prefix + XBit(depth) && nwPrefix == prefix + 2 * XBit(depth) && nePrefix == prefix + 3 * XBit(depth)
    ensures XBit(depth) == CellWidth(depth + 1) && CellWidth(depth) == 4 * XBit(depth)
    ensures CellPrefix(prefix, depth + 1) && CellPrefix(sePrefix, depth + 1)
    ensures CellPrefix(nwPrefix, depth + 1) && CellPrefix(nePrefix, depth + 1)
  {
    XBitWidth(depth);
    var b := PrefixQuotient(prefix, depth);
    ChildCells(prefix, b, XBit(depth), depth, sePrefix, nwPrefix, nePrefix);
  }

  /** A cell's prefix is a multiple of the cell's width. */
  lemma PrefixQuotient(prefix: nat, depth: nat) returns (b: nat)
    requires depth <= 32 && CellPrefix(prefix, depth)
    ensures prefix == b * CellWidth(depth) && prefix + CellWidth(depth) <= ZRange
  {
    b := prefix / CellWidth(depth);
    DivExact(prefix, CellWidth(depth));
  }

  lemma ChildCells(prefix: nat, b: nat, x: nat, depth: nat, se: nat, nw: nat, ne: nat)
    requires depth < 32 && x == CellWidth(depth + 1) && prefix == b * (4 * x)
    requires prefix + 4 * x <= ZRange
    requires se == prefix + x && nw == prefix + 2 * x && ne == prefix + 3 * x
    ensures CellPrefix(prefix, depth + 1) && CellPrefix(se, depth + 1)
    ensures CellPrefix(nw, depth + 1) && CellPrefix(ne, depth + 1)
  {
    QuarterStarts(prefix, b, x);
  }

  /** The four quarters of a cell of width `4 * x` start at multiples of `x`. */
  lemma QuarterStarts(p: nat, b: nat, x: nat)
    requires x > 0 && p == b * (4 * x)
    ensures p % x == 0 && (p + x) % x == 0 && (p + 2 * x) % x == 0 && (p + 3 * x) % x == 0
  {
    QuarterStart(b, 0, x);
    QuarterStart(b, 1, x);
    QuarterStart(b, 2, x);
    QuarterStart(b, 3, x);
  }

  lemma XBitWidth(depth: nat)
    requires depth < 32
    ensures XBit(depth) == CellWidth(depth + 1) && CellWidth(depth) == 4 * XBit(depth)
    ensures Pow2(64 - 2 * depth - 1) == 2 * XBit(depth)
  {
    Pow2Steps(62 - 2 * depth);
  }

  /** One and two doublings of a power of two. */
  lemma Pow2Steps(j: nat)
    ensures Pow2(j + 1) == 2 * Pow2(j) && Pow2(j + 2) == 4 * Pow2(j)
  {
    assert Pow2(j + 2) == 2 * Pow2(j + 1);
  }

  /**
   * `0x4000_0000_0000_0000 >> (2 * depth)` is the x bit and
   * `0x8000_0000_0000_0000 >> (2 * depth)` the y bit, twice it.
   */
  lemma ShiftBits(depth: nat)
    requires depth < 32
    ensures ShiftRight(0x4000_0000_0000_0000, 2 * depth) == XBit(depth)
    ensures ShiftRight(0x8000_0000_0000_0000, 2 * depth) == 2 * XBit(depth)
  {
    TopBits();
    ShiftPow2(62, 2 * depth);
    ShiftPow2(63, 2 * depth);
  }

  lemma TopBits()
    ensures Pow2(62) == 0x4000_0000_0000_0000 && Pow2(63) == 0x8000_0000_0000_0000
  {
    Pow2Big();
    Pow2Add(62, 2);
    Pow2Small();
  }

  /** A bit below the lowest set bit of `b * Pow2(k)`, or-ed onto it, adds it. */
  lemma OrLowBit(b: nat, bit: nat, k: nat)
    requires bit < Pow2(k)
    ensures Or(b * Pow2(k), bit) == b * Pow2(k) + bit
  {
    OrComm(b * Pow2(k), bit);
    OrLowHigh(bit, b, k);
  }

  /** The y bit, the x bit and both, or-ed onto a prefix whose low k bits are clear. */
  lemma OrBits(p: nat, b: nat, x: nat, k: nat)
    requires 2 <= k && x == Pow2(k - 2) && Pow2(k) == 4 * x && Pow2(k - 1) == 2 * x
    requires p == b * Pow2(k)
    ensures Or(p, 2 * x) == p + 2 * x
    ensures Or(p, x) == p + x
    ensures Or(p + 2 * x, x) == p + 3 * x
  {
    OrLowBit(b, 2 * x, k);
    OrLowBit(b, x, k);
    var h := Pow2(k - 1);
    OddMultiple(p, b, h);
    OrLowBit(2 * b + 1, x, k - 1);
  }

  /** Adding `h` to an even multiple of `h` gives the next odd multiple. */
  lemma OddMultiple(p: nat, b: nat, h: nat)
    requires p == b * (2 * h)
    ensures p + h == (2 * b + 1) * h
  {
  }

  lemma Distrib(b: nat, j: nat, x: nat)
    ensures b * (4 * x) + j * x == (4 * b + j) * x
    ensures b * (2 * x) + j * x == (2 * b + j) * x
  {
  }

  /** A quarter of a cell starts at a multiple of its width. */
  lemma QuarterStart(b: nat, j: nat, x: nat)
    requires x > 0
    ensures (b * (4 * x) + j * x) % x == 0
  {
    Distrib(b, j, x);
    MulMod(4 * b + j, x);
  }

  /** At depth 32 a cell is a single z-value: every agent in it shares the prefix. */
  lemma DeepestCell(z: ZValue, prefix: nat)
    requires InCell(z, prefix, 32)
    ensures z.raw == prefix
  {
  }

  /** Every z-value lies in the root cell. */
  lemma RootCell(z: ZValue)
    ensures CellPrefix(0, 0) && InCell(z, 0, 0)
  {
    Pow2Big();
  }

  // ---------------------------------------------------------------------
  // process_region
  // ---------------------------------------------------------------------

  /**
   * `mapper` picks one of the buildings it is given. In the source its
   * signature returns a reference that lives only as long as the slice it is
   * passed, so it can return nothing else.
   */
  ghost predicate Chooses(mapper: (Agent, seq<Building>) -> Building)
  {
    forall a, bs :: |bs| > 0 ==> mapper(a, bs) in bs
  }

  /** The entries in `[lo, hi)` all lie in the cell of `prefix` at `depth`. */
  ghost predicate AllInCell(entries: seq<AgentEntry>, lo: nat, hi: nat, prefix: nat, depth: nat)
    requires depth <= 32
  {
    lo <= hi <= |entries| && forall i :: lo <= i < hi ==> InCell(entries[i].z, prefix, depth)
  }

  /** `find_split`'s answer `idx` on `s`: the entries before it lie below `q`, the rest not. */
  ghost predicate SplitAt(s: seq<AgentEntry>, idx: nat, q: nat)
  {
    idx <= |s| && (forall i :: 0 <= i < idx ==> s[i].z.raw < q) && (forall i :: idx <= i < |s| ==> s[i].z.raw >= q)
  }

  /** No agent in `[lo, hi)` has its cell set yet. */
  ghost predicate Unset(cells: seq<Option<Building>>, lo: nat, hi: nat)
  {
    lo <= hi <= |cells| && forall i :: lo <= i < hi ==> cells[i].None?
  }

  /** Every cell set in `[lo, hi)` holds one of `buildings`. */
  ghost predicate MappedWithin(cells: seq<Option<Building>>, lo: nat, hi: nat, buildings: seq<Building>)
  {
    lo <= hi <= |cells| && forall i :: lo <= i < hi && cells[i].Some? ==> cells[i].value in buildings
  }

  /** The cells outside `[lo, hi)` are as they were. */
  ghost predicate SameOutside(now: seq<Option<Building>>, before: seq<Option<Building>>, lo: nat, hi: nat)
  {
    |now| == |before| && forall i :: 0 <= i < |now| && !(lo <= i < hi) ==> now[i] == before[i]
  }

  /** Every agent in `[lo, hi)` is mapped to the building `mapper` picks for it among `buildings`. */
  ghost predicate AllMapped(cells: seq<Option<Building>>, entries: seq<AgentEntry>, lo: nat, hi: nat,
                            buildings: seq<Building>, mapper: (Agent, seq<Building>) -> Building)
  {
    lo <= hi <= |cells| && hi <= |entries| && forall i :: lo <= i < hi ==> cells[i] == Some(mapper(entries[i].agent, buildings))
  }

  /** Some `k` consecutive entries in `[lo, hi)` share one z-value. */
  ghost predicate SharedZ(entries: seq<AgentEntry>, lo: nat, hi: nat, k: nat)
  {
    hi <= |entries| && exists i :: lo <= i && i + k <= hi && SameZFrom(entries, i, k)
  }

  /** The `k` entries from `i` on share the z-value of entry `i`. */
  ghost predicate SameZFrom(entries: seq<AgentEntry>, i: nat, k: nat)
  {
    forall j :: i <= j < i + k && j < |entries| ==> entries[j].z == entries[i].z
  }

  lemma SharedZWiden(entries: seq<AgentEntry>, lo: nat, hi: nat, lo': nat, hi': nat, k: nat)
    requires SharedZ(entries, lo, hi, k) && lo' <= lo && hi <= hi' <= |entries|
    ensures SharedZ(entries, lo', hi', k)
  {
    var i :| lo <= i && i + k <= hi && SameZFrom(entries, i, k);
    assert lo' <= i && i + k <= hi';
  }

  /** A z-sorted sequence stays z-sorted in every slice. */
  lemma ZSortedSlice(entries: seq<AgentEntry>, lo: nat, hi: nat)
    requires ZSorted(entries) && lo <= hi <= |entries|
    ensures ZSorted(entries[lo..hi])
  {
    var s := entries[lo..hi];
    forall i, j | 0 <= i < j < |s| ensures ZKey(s[i]) <= ZKey(s[j]) {
      assert s[i] == entries[lo + i] && s[j] == entries[lo + j];
    }
  }

  /**
   * The three splits of `process_region` leave in each quadrant's slice the
   * entries of the quadrant's cell one level down: south-west below the
   * south-east prefix, south-east up to the north-west prefix, north-west up
   * to the north-east prefix, north-east the rest.
   */
  lemma Quarters(entries: seq<AgentEntry>, lo: nat, sMid: nat, mid: nat, nMid: nat, hi: nat, prefix: nat, depth: nat)
    requires depth < 32 && AllInCell(entries, lo, hi, prefix, depth)
    requires XBit(depth) == CellWidth(depth + 1) && CellWidth(depth) == 4 * XBit(depth)
    requires CutAt(entries, lo, mid, hi, prefix + 2 * XBit(depth))
    requires CutAt(entries, mid, nMid, hi, prefix + 3 * XBit(depth))
    requires CutAt(entries, lo, sMid, mid, prefix + XBit(depth))
    ensures AllInCell(entries, lo, sMid, prefix, depth + 1)
    ensures AllInCell(entries, sMid, mid, prefix + XBit(depth), depth + 1)
    ensures AllInCell(entries, mid, nMid, prefix + 2 * XBit(depth), depth + 1)
    ensures AllInCell(entries, nMid, hi, prefix + 3 * XBit(depth), depth + 1)
  {
  }

  /** The entries of `[lo, hi)` before `k` lie below `q` and the rest do not. */
  ghost predicate CutAt(entries: seq<AgentEntry>, lo: nat, k: nat, hi: nat, q: nat)
  {
    lo <= k <= hi <= |entries|
    && (forall i :: lo <= i < k ==> entries[i].z.raw < q)
    && (forall i :: k <= i < hi ==> entries[i].z.raw >= q)
  }

  /** `find_split`'s cut of the slice `[lo, hi)`, read on the whole sequence. */
  lemma SplitAtEntries(entries: seq<AgentEntry>, lo: nat, k: nat, hi: nat, q: nat)
    requires lo <= k <= hi <= |entries| && SplitAt(entries[lo..hi], k - lo, q)
    ensures CutAt(entries, lo, k, hi, q)
  {
    forall i | lo <= i < hi
      ensures i < k ==> entries[i].z.raw < q
      ensures k <= i ==> entries[i].z.raw >= q
    {
      assert entries[lo..hi][i - lo] == entries[i];
    }
  }

  /** At the deepest level every entry of the cell has the same z-value. */
  lemma DeepestShared(entries: seq<AgentEntry>, lo: nat, hi: nat, prefix: nat, k: nat)
    requires AllInCell(entries, lo, hi, prefix, 32) && k <= hi - lo
    ensures SharedZ(entries, lo, hi, k)
  {
    forall j | lo <= j < lo + k ensures entries[j].z == entries[lo].z {
      DeepestCell(entries[j].z, prefix);
      DeepestCell(entries[lo].z, prefix);
    }
    assert lo <= lo && lo + k <= hi && SameZFrom(entries, lo, k);
  }

  /** The cells of a later call stay empty while an earlier call, on a disjoint range, sets its own. */
  lemma UnsetStep(before: seq<Option<Building>>, now: seq<Option<Building>>, a: nat, b: nat, lo: nat, hi: nat)
    requires Unset(before, lo, hi) && SameOutside(now, before, a, b) && (b <= lo || hi <= a)
    ensures Unset(now, lo, hi)
  {
  }

  /** A call on `[a, b)` leaves the cells of a disjoint range `[lo, hi)` within that range's buildings. */
  lemma MappedKept(before: seq<Option<Building>>, now: seq<Option<Building>>, lo: nat, hi: nat, a: nat, b: nat,
                   buildings: seq<Building>)
    requires MappedWithin(before, lo, hi, buildings) && SameOutside(now, before, a, b) && hi <= a
    ensures MappedWithin(now, lo, hi, buildings)
  {
  }

  /** A call on `[a, b)` within `[lo, hi)` keeps the cells of `[lo, hi)` within the region's buildings. */
  lemma MappedStep(before: seq<Option<Building>>, now: seq<Option<Building>>, lo: nat, hi: nat, a: nat, b: nat,
                   buildings: seq<Building>, sub: seq<Building>)
    requires MappedWithin(before, lo, hi, buildings) && SameOutside(now, before, a, b) && lo <= a <= b <= hi
    requires MappedWithin(now, a, b, sub) && forall x :: x in sub ==> x in buildings
    ensures MappedWithin(now, lo, hi, buildings)
  {
  }

  /** Frames compose: a change inside `[a, b)` after one inside `[lo, hi)` stays inside `[lo, hi)`. */
  lemma FrameStep(first: seq<Option<Building>>, before: seq<Option<Building>>, now: seq<Option<Building>>,
                  lo: nat, hi: nat, a: nat, b: nat)
    requires SameOutside(before, first, lo, hi) && SameOutside(now, before, a, b) && lo <= a <= b <= hi
    ensures SameOutside(now, first, lo, hi)
  {
  }

  /** The panic of `0x4000_0000_0000_0000 >> (2 * depth)` once the depth reaches 32. */
  const ShiftOverflow := "attempt to shift right with overflow"

  /** The first index in `[lo, hi)` whose z-value is at least `q`, or `hi`: where `find_split` cuts a z-sorted slice. */
  ghost function FirstAtLeast(entries: seq<AgentEntry>, lo: nat, hi: nat, q: nat): (k: nat)
    requires lo <= hi <= |entries|
    ensures lo <= k <= hi
    decreases hi - lo
  {
    if lo == hi || entries[lo].z.raw >= q then lo else FirstAtLeast(entries, lo + 1, hi, q)
  }

  /** A cut with every entry before it below `q` and none after it is the first index at least `q`. */
  lemma {:induction false} SplitIsFirst(entries: seq<AgentEntry>, lo: nat, k: nat, hi: nat, q: nat)
    requires lo <= k <= hi <= |entries|
    requires forall i :: lo <= i < k ==> entries[i].z.raw < q
    requires forall i :: k <= i < hi ==> entries[i].z.raw >= q
    ensures k == FirstAtLeast(entries, lo, hi, q)
    decreases k - lo
  {
    if lo < k {
      SplitIsFirst(entries, lo + 1, k, hi, q);
    }
  }

  /**
   * The four quadrants `process_region` hands to its recursive calls, in the
   * order north-west, north-east, south-west, south-east: each with its
   * z-value prefix, its quarter of the region, its slice of the z-sorted
   * agents (cut where `find_split` cuts) and the buildings whose boxes
   * reach it.
   */
  ghost function Quadrants(depth: nat, q: Quarter, entries: seq<AgentEntry>): (qs: (Quarter, Quarter, Quarter, Quarter))
    requires depth < 32 && q.lo <= q.hi <= |entries|
    ensures q.lo == qs.2.lo <= qs.2.hi == qs.3.lo <= qs.3.hi == qs.0.lo <= qs.0.hi == qs.1.lo <= qs.1.hi == q.hi
  {
    var x := XBit(depth);
    var mid := FirstAtLeast(entries, q.lo, q.hi, q.prefix + 2 * x);
    var nMid := FirstAtLeast(entries, mid, q.hi, q.prefix + 3 * x);
    var sMid := FirstAtLeast(entries, q.lo, mid, q.prefix + x);
    var g, c := q.region, Center(q.region);
    (Quarter(q.prefix + 2 * x, Region(c.x, g.west, g.north, c.y), mid, nMid, InQuadrant(q.buildings, c, NW)),
     Quarter(q.prefix + 3 * x, Region(g.east, c.x, g.north, c.y), nMid, q.hi, InQuadrant(q.buildings, c, NE)),
     Quarter(q.prefix, Region(c.x, g.west, c.y, g.south), q.lo, sMid, InQuadrant(q.buildings, c, SW)),
     Quarter(q.prefix + x, Region(g.east, c.x, c.y, g.south), sMid, mid, InQuadrant(q.buildings, c, SE)))
  }

  /**
   * What `process_region` leaves in the cells of a region's agents, one cell
   * per agent of `[q.lo, q.hi)`: nothing when the region has no agents or no
   * buildings; in a leaf (fewer agents or fewer buildings than the
   * threshold) each agent's pick among the leaf's buildings; otherwise the
   * cells of the four quadrants one level down, which lie in z-order
   * south-west, south-east, north-west, north-east. A split at depth 32
   * panics, and so does the whole call when any quadrant panics.
   */
  ghost function Leaves(threshold: nat, depth: nat, q: Quarter, entries: seq<AgentEntry>,
                        mapper: (Agent, seq<Building>) -> Building): (r: Result<seq<Option<Building>>>)
    requires depth <= 32 && q.lo <= q.hi <= |entries|
    ensures r.Ok? ==> |r.value| == q.hi - q.lo
    ensures r.Err? ==> r.error == ShiftOverflow
    decreases 32 - depth
  {
    var n := q.hi - q.lo;
    if n == 0 || |q.buildings| == 0 then Ok(seq(n, _ => None))
    else if n < threshold || |q.buildings| < threshold then
      Ok(seq(n, i requires 0 <= i < n => Some(mapper(entries[q.lo + i].agent, q.buildings))))
    else if depth == 32 then Err(ShiftOverflow)
    else
      var qs := Quadrants(depth, q, entries);
      var nw := Leaves(threshold, depth + 1, qs.0, entries, mapper);
      var ne := Leaves(threshold, depth + 1, qs.1, entries, mapper);
      var sw := Leaves(threshold, depth + 1, qs.2, entries, mapper);
      var se := Leaves(threshold, depth + 1, qs.3, entries, mapper);
      if nw.Ok? && ne.Ok? && sw.Ok? && se.Ok? then Ok(sw.value + se.value + nw.value + ne.value)
      else Err(ShiftOverflow)
  }

  /** The split case of `Leaves`: the quadrants' cells, in z-order, or a panic when any quadrant panics. */
  lemma {:induction false} LeavesSplit(threshold: nat, depth: nat, q: Quarter, entries: seq<AgentEntry>,
                    mapper: (Agent, seq<Building>) -> Building)
    requires depth < 32 && q.lo < q.hi <= |entries| && 0 < |q.buildings|
    requires threshold <= q.hi - q.lo && threshold <= |q.buildings|
    ensures var qs := Quadrants(depth, q, entries);
      var nw := Leaves(threshold, depth + 1, qs.0, entries, mapper);
      var ne := Leaves(threshold, depth + 1, qs.1, entries, mapper);
      var sw := Leaves(threshold, depth + 1, qs.2, entries, mapper);
      var se := Leaves(threshold, depth + 1, qs.3, entries, mapper);
      && (Leaves(threshold, depth, q, entries, mapper).Ok? <==> nw.Ok? && ne.Ok? && sw.Ok? && se.Ok?)
      && (nw.Ok? && ne.Ok? && sw.Ok? && se.Ok? ==>
            Leaves(threshold, depth, q, entries, mapper).value == sw.value + se.value + nw.value + ne.value)
  {
  }

  /** Empty cells are the cells of a region `process_region` leaves alone. */
  lemma UnsetCells(c: seq<Option<Building>>, lo: nat, hi: nat)
    requires Unset(c, lo, hi)
    ensures c[lo..hi] == seq(hi - lo, _ => None)
  {
  }

  /** The cells of a leaf hold each agent's pick among the leaf's buildings. */
  lemma LeafCells(c: seq<Option<Building>>, entries: seq<AgentEntry>, lo: nat, hi: nat,
                  buildings: seq<Building>, mapper: (Agent, seq<Building>) -> Building)
    requires AllMapped(c, entries, lo, hi, buildings, mapper)
    ensures c[lo..hi] == seq(hi - lo, i requires 0 <= i < hi - lo => Some(mapper(entries[lo + i].agent, buildings)))
  {
  }

  /** A call on `[a, b)` leaves the slice `[lo, hi)` of a disjoint range as it was. */
  lemma SliceKept(before: seq<Option<Building>>, now: seq<Option<Building>>, a: nat, b: nat, lo: nat, hi: nat)
    requires SameOutside(now, before, a, b) && lo <= hi <= |before| && (b <= lo || hi <= a)
    ensures now[lo..hi] == before[lo..hi]
  {
  }

  /** A range cut in four is the concatenation of its four slices. */
  lemma Slices4(c: seq<Option<Building>>, a: nat, b: nat, d: nat, e: nat, f: nat)
    requires a <= b <= d <= e <= f <= |c|
    ensures c[a..f] == c[a..b] + c[b..d] + c[d..e] + c[e..f]
  {
    assert c[a..f] == c[a..e] + c[e..f];
    assert c[a..e] == c[a..d] + c[d..e];
    assert c[a..d] == c[a..b] + c[b..d];
  }

  /**
   * `process_region`. The agents of the region are the entries in
   * `[lo, hi)`, z-sorted and all in the cell of `prefix` at `depth`; their
   * `OnceCell`s are `cells[lo..hi]`, all still empty. A region without agents
   * or buildings is left alone; one with fewer agents or fewer buildings than
   * the threshold has every agent mapped among all its buildings; any other
   * is split into four quadrants by z-value and by bounding box and each
   * quadrant processed in turn (the source runs them in parallel). Splitting
   * at depth 32 shifts by 64 bits, which panics; that can only happen when
   * `threshold` agents share one z-value.
   */
  method ProcessRegion(threshold: nat, prefix: nat, depth: nat, region: Region,
                       entries: seq<AgentEntry>, lo: nat, hi: nat, buildings: seq<Building>,
                       mapper: (Agent, seq<Building>) -> Building, cells: array<Option<Building>>)
      returns (r: Result<()>)
    requires depth <= 32 && CellPrefix(prefix, depth)
    requires ZSorted(entries) && AllInCell(entries, lo, hi, prefix, depth)
    requires cells.Length == |entries| && Unset(cells[..], lo, hi)
    requires Chooses(mapper)
    modifies cells
    ensures SameOutside(cells[..], old(cells[..]), lo, hi)
    ensures MappedWithin(cells[..], lo, hi, buildings)
    ensures lo == hi || |buildings| == 0 ==> r.Ok? && cells[..] == old(cells[..])
    ensures lo < hi && |buildings| > 0 && (hi - lo < threshold || |buildings| < threshold) ==>
              r.Ok? && AllMapped(cells[..], entries, lo, hi, buildings, mapper)
    ensures r.Err? ==> threshold <= |buildings| && SharedZ(entries, lo, hi, threshold)
    ensures r.Ok? <==> Leaves(threshold, depth, Quarter(prefix, region, lo, hi, buildings), entries, mapper).Ok?
    ensures r.Ok? ==> cells[lo..hi] == Leaves(threshold, depth, Quarter(prefix, region, lo, hi, buildings), entries, mapper).value
    ensures r.Err? ==> r.error == ShiftOverflow
    decreases 32 - depth, 3
  {
    if hi - lo == 0 || |buildings| == 0 {
      UnsetCells(cells[..], lo, hi);
      return Ok(());
    }
    if hi - lo < threshold || |buildings| < threshold {
      MapLeaf(entries, lo, hi, buildings, mapper, cells);
      LeafCells(cells[..], entries, lo, hi, buildings, mapper);
      forall i | lo <= i < hi && cells[i].Some? ensures cells[i].value in buildings {
        assert cells[..][i] == Some(mapper(entries[i].agent, buildings));
      }
      return Ok(());
    }
    if depth == 32 {
      DeepestShared(entries, lo, hi, prefix, threshold);
      return Err(ShiftOverflow);
    }
    r := ProcessQuadrants(threshold, prefix, depth, region, entries, lo, hi, buildings, mapper, cells);
  }

  /** The leaf case of `process_region`: every agent of `[lo, hi)` is mapped among all the buildings. */
  method MapLeaf(entries: seq<AgentEntry>, lo: nat, hi: nat, buildings: seq<Building>,
                 mapper: (Agent, seq<Building>) -> Building, cells: array<Option<Building>>)
    requires cells.Length == |entries| && Unset(cells[..], lo, hi)
    modifies cells
    ensures SameOutside(cells[..], old(cells[..]), lo, hi)
    ensures AllMapped(cells[..], entries, lo, hi, buildings, mapper)
  {
    var i := lo;
    while i < hi
      invariant lo <= i <= hi
      invariant SameOutside(cells[..], old(cells[..]), lo, i)
      invariant forall j :: lo <= j < i ==> cells[j] == Some(mapper(entries[j].agent, buildings))
    {
      // The cell is still empty, so setting it cannot fail.
      assert cells[..][i] == old(cells[..])[i] && cells[i].None?;
      cells[i] := Some(mapper(entries[i].agent, buildings));
      i := i + 1;
    }
  }

  /** The x bit and the y bit of a cell at `depth`, shifted down from the top two bits. */
  method QuadrantBits(depth: nat) returns (xBit: nat, yBit: nat)
    requires depth < 32
    ensures xBit == XBit(depth) && yBit == 2 * XBit(depth)
  {
    xBit := ShiftRight(0x4000_0000_0000_0000, 2 * depth);
    yBit := ShiftRight(0x8000_0000_0000_0000, 2 * depth);
    ShiftBits(depth);
  }

  /**
   * The z-value prefixes of the south-east, north-west and north-east
   * quadrants, or-ed together from the prefix and the two bits: each is the
   * start of one quarter of the cell, and with the prefix itself they are the
   * four cells one level down.
   */
  method QuadrantZ(prefix: nat, depth: nat) returns (sePrefix: nat, nwPrefix: nat, nePrefix: nat)
    requires depth < 32 && CellPrefix(prefix, depth)
    ensures sePrefix == prefix + XBit(depth) && nwPrefix == prefix + 2 * XBit(depth) && nePrefix == prefix + 3 * XBit(depth)
    ensures XBit(depth) == CellWidth(depth + 1) && CellWidth(depth) == 4 * XBit(depth)
    ensures CellPrefix(prefix, depth + 1) && CellPrefix(sePrefix, depth + 1)
    ensures CellPrefix(nwPrefix, depth + 1) && CellPrefix(nePrefix, depth + 1)
  {
    var xBit, yBit := QuadrantBits(depth);
    QuadrantPrefixes(prefix, depth, xBit, yBit);
    nwPrefix := Or(prefix, yBit);
    sePrefix := Or(prefix, xBit);
    nePrefix := Or(nwPrefix, xBit);
    QuadrantCells(prefix, depth, sePrefix, nwPrefix, nePrefix);
  }

  /**
   * The agent split of `process_region`: the z-value prefixes of the
   * north-west, south-east and north-east quadrants, made by or-ing the y bit,
   * the x bit or both onto the prefix, cut the z-sorted agents of the cell
   * into four slices, south-west, south-east, north-west and north-east in
   * that order, each the agents of the quadrant's cell one level down.
   */
  method SplitAgents(prefix: nat, depth: nat, entries: seq<AgentEntry>, lo: nat, hi: nat)
      returns (sMid: nat, mid: nat, nMid: nat, sePrefix: nat, nwPrefix: nat, nePrefix: nat)
    requires depth < 32 && CellPrefix(prefix, depth)
    requires ZSorted(entries) && AllInCell(entries, lo, hi, prefix, depth)
    ensures lo <= sMid <= mid <= nMid <= hi
    ensures sePrefix == prefix + XBit(depth) && nwPrefix == prefix + 2 * XBit(depth) && nePrefix == prefix + 3 * XBit(depth)
    ensures CellPrefix(prefix, depth + 1) && CellPrefix(sePrefix, depth + 1)
    ensures CellPrefix(nwPrefix, depth + 1) && CellPrefix(nePrefix, depth + 1)
    ensures AllInCell(entries, lo, sMid, prefix, depth + 1)
    ensures AllInCell(entries, sMid, mid, sePrefix, depth + 1)
    ensures AllInCell(entries, mid, nMid, nwPrefix, depth + 1)
    ensures AllInCell(entries, nMid, hi, nePrefix, depth + 1)
    ensures mid == FirstAtLeast(entries, lo, hi, nwPrefix) && nMid == FirstAtLeast(entries, mid, hi, nePrefix)
    ensures sMid == FirstAtLeast(entries, lo, mid, sePrefix)
  {
    sePrefix, nwPrefix, nePrefix := QuadrantZ(prefix, depth);
    mid := Cut(entries, lo, hi, ZValue(nwPrefix));
    nMid := Cut(entries, mid, hi, ZValue(nePrefix));
    sMid := Cut(entries, lo, mid, ZValue(sePrefix));
    Quarters(entries, lo, sMid, mid, nMid, hi, prefix, depth);
  }

  /**
   * `split_at(find_split(..))` on the slice `[lo, hi)` of z-sorted entries:
   * the cut is the first index whose z-value is at least the prefix `q`.
   */
  method Cut(entries: seq<AgentEntry>, lo: nat, hi: nat, q: ZValue) returns (k: nat)
    requires ZSorted(entries) && lo <= hi <= |entries|
    ensures CutAt(entries, lo, k, hi, q.raw)
    ensures k == FirstAtLeast(entries, lo, hi, q.raw)
  {
    ZSortedSlice(entries, lo, hi);
    var size := FindSplit(entries[lo..hi], q);
    k := lo + size;
    SplitAtEntries(entries, lo, k, hi, q.raw);
    SplitIsFirst(entries, lo, k, hi, q.raw);
  }

  /** One quadrant handed to a recursive call: its z-value prefix, its region, its agents `[lo, hi)` and its buildings. */
  datatype Quarter = Quarter(prefix: nat, region: Region, lo: nat, hi: nat, buildings: seq<Building>)

  /** The quadrant is a cell at `depth` holding its agents, with buildings drawn from the parent's. */
  ghost predicate QuarterOf(q: Quarter, depth: nat, entries: seq<AgentEntry>, parent: seq<Building>)
  {
    depth <= 32 && CellPrefix(q.prefix, depth) && AllInCell(entries, q.lo, q.hi, q.prefix, depth)
    && forall x :: x in q.buildings ==> x in parent
  }

  /**
   * The split case of `process_region`: the agents are split at the
   * quadrants' z-value prefixes, the buildings by which quadrants their
   * bounding boxes reach, and the quadrants processed as the source's nested
   * joins do: the northern pair (north-west, north-east), then the southern
   * pair (south-west, south-east).
   */
  method ProcessQuadrants(threshold: nat, prefix: nat, depth: nat, region: Region,
                          entries: seq<AgentEntry>, lo: nat, hi: nat, buildings: seq<Building>,
                          mapper: (Agent, seq<Building>) -> Building, cells: array<Option<Building>>)
      returns (r: Result<()>)
    requires depth < 32 && CellPrefix(prefix, depth)
    requires lo < hi && 0 < |buildings| && threshold <= hi - lo && threshold <= |buildings|
    requires ZSorted(entries) && AllInCell(entries, lo, hi, prefix, depth)
    requires cells.Length == |entries| && Unset(cells[..], lo, hi)
    requires Chooses(mapper)
    modifies cells
    ensures SameOutside(cells[..], old(cells[..]), lo, hi)
    ensures MappedWithin(cells[..], lo, hi, buildings)
    ensures r.Err? ==> SharedZ(entries, lo, hi, threshold)
    ensures r.Ok? <==> Leaves(threshold, depth, Quarter(prefix, region, lo, hi, buildings), entries, mapper).Ok?
    ensures r.Ok? ==> cells[lo..hi] == Leaves(threshold, depth, Quarter(prefix, region, lo, hi, buildings), entries, mapper).value
    ensures r.Err? ==> r.error == ShiftOverflow
    decreases 32 - depth, 2
  {
    var qNW, qNE, qSW, qSE := SplitQuadrants(prefix, depth, region, entries, lo, hi, buildings);
    SplitIsQuadrants(depth, prefix, region, lo, hi, buildings, entries, qNW, qNE, qSW, qSE);
    LeavesSplit(threshold, depth, Quarter(prefix, region, lo, hi, buildings), entries, mapper);
    var mid := qSE.hi;

    ghost var c0 := cells[..];
    r := ProcessPair(threshold, depth + 1, qNW, qNE, entries, mapper, cells, lo, hi, buildings);
    if r.Err? {
      return;
    }
    ghost var c1 := cells[..];
    UnsetStep(c0, c1, mid, hi, lo, mid);
    r := ProcessPair(threshold, depth + 1, qSW, qSE, entries, mapper, cells, lo, hi, buildings);
    FrameStep(c0, c1, cells[..], lo, hi, lo, mid);
    if r.Ok? {
      SliceKept(c1, cells[..], lo, mid, mid, qNW.hi);
      SliceKept(c1, cells[..], lo, mid, qNE.lo, hi);
      Slices4(cells[..], lo, qSE.lo, mid, qNE.lo, hi);
    }
  }

  /**
   * The four quadrants of the split case: the agents cut at the quadrants'
   * z-value prefixes, the region cut at its centre, and the buildings each
   * quadrant's bounding-box test collects.
   */
  method SplitQuadrants(prefix: nat, depth: nat, region: Region, entries: seq<AgentEntry>, lo: nat, hi: nat, buildings: seq<Building>)
      returns (qNW: Quarter, qNE: Quarter, qSW: Quarter, qSE: Quarter)
    requires depth < 32 && CellPrefix(prefix, depth)
    requires ZSorted(entries) && AllInCell(entries, lo, hi, prefix, depth)
    ensures lo == qSW.lo <= qSW.hi == qSE.lo <= qSE.hi == qNW.lo <= qNW.hi == qNE.lo <= qNE.hi == hi
    ensures qSW.prefix == prefix && qSE.prefix == prefix + XBit(depth)
    ensures qNW.prefix == prefix + 2 * XBit(depth) && qNE.prefix == prefix + 3 * XBit(depth)
    ensures var c := Center(region);
      && qNE.region == Region(region.east, c.x, region.north, c.y) && qNE.buildings == InQuadrant(buildings, c, NE)
      && qNW.region == Region(c.x, region.west, region.north, c.y) && qNW.buildings == InQuadrant(buildings, c, NW)
      && qSE.region == Region(region.east, c.x, c.y, region.south) && qSE.buildings == InQuadrant(buildings, c, SE)
      && qSW.region == Region(c.x, region.west, c.y, region.south) && qSW.buildings == InQuadrant(buildings, c, SW)
    ensures QuarterOf(qNW, depth + 1, entries, buildings) && QuarterOf(qNE, depth + 1, entries, buildings)
    ensures QuarterOf(qSW, depth + 1, entries, buildings) && QuarterOf(qSE, depth + 1, entries, buildings)
    ensures qNW.lo == FirstAtLeast(entries, lo, hi, qNW.prefix) && qNE.lo == FirstAtLeast(entries, qNW.lo, hi, qNE.prefix)
    ensures qSE.lo == FirstAtLeast(entries, lo, qNW.lo, qSE.prefix)
  {
    var sMid, mid, nMid, sePrefix, nwPrefix, nePrefix := SplitAgents(prefix, depth, entries, lo, hi);

    // Split the buildings by their bounding boxes.
    var c := Center(region);
    var ne := Region(region.east, c.x, region.north, c.y);
    var nw := Region(c.x, region.west, region.north, c.y);
    var se := Region(region.east, c.x, c.y, region.south);
    var sw := Region(c.x, region.west, c.y, region.south);
    var split := SplitBuildings(buildings, c);

    qNW := Quarter(nwPrefix, nw, mid, nMid, split.nw);
    qNE := Quarter(nePrefix, ne, nMid, hi, split.ne);
    qSW := Quarter(prefix, sw, lo, sMid, split.sw);
    qSE := Quarter(sePrefix, se, sMid, mid, split.se);
  }

  /** On z-sorted entries the entries before `FirstAtLeast` lie below the query and the rest do not. */
  lemma {:induction false} FirstAtLeastCuts(entries: seq<AgentEntry>, lo: nat, hi: nat, q: nat)
    requires ZSorted(entries) && lo <= hi <= |entries|
    ensures forall i :: lo <= i < FirstAtLeast(entries, lo, hi, q) ==> entries[i].z.raw < q
    ensures forall i :: FirstAtLeast(entries, lo, hi, q) <= i < hi ==> entries[i].z.raw >= q
    decreases hi - lo
  {
    if lo < hi && entries[lo].z.raw < q {
      FirstAtLeastCuts(entries, lo + 1, hi, q);
    } else if lo < hi {
      forall i | lo < i < hi ensures entries[i].z.raw >= q {
        assert ZKey(entries[lo]) <= ZKey(entries[i]);
      }
    }
  }

  /** The quadrants of `Quadrants`, from the three cuts and the buildings' split. */
  lemma {:induction false} QuadrantsOf(depth: nat, prefix: nat, region: Region, lo: nat, hi: nat, buildings: seq<Building>,
                                       entries: seq<AgentEntry>, sMid: nat, mid: nat, nMid: nat, split: Split)
    requires depth < 32 && lo <= hi <= |entries|
    requires mid == FirstAtLeast(entries, lo, hi, prefix + 2 * XBit(depth))
    requires nMid == FirstAtLeast(entries, mid, hi, prefix + 3 * XBit(depth))
    requires sMid == FirstAtLeast(entries, lo, mid, prefix + XBit(depth))
    requires var c := Center(region);
      && split.ne == InQuadrant(buildings, c, NE) && split.nw == InQuadrant(buildings, c, NW)
      && split.se == InQuadrant(buildings, c, SE) && split.sw == InQuadrant(buildings, c, SW)
    ensures var c := Center(region);
      Quadrants(depth, Quarter(prefix, region, lo, hi, buildings), entries)
        == (Quarter(prefix + 2 * XBit(depth), Region(c.x, region.west, region.north, c.y), mid, nMid, split.nw),
            Quarter(prefix + 3 * XBit(depth), Region(region.east, c.x, region.north, c.y), nMid, hi, split.ne),
            Quarter(prefix, Region(c.x, region.west, c.y, region.south), lo, sMid, split.sw),
            Quarter(prefix + XBit(depth), Region(region.east, c.x, c.y, region.south), sMid, mid, split.se))
  {
    var x, c := XBit(depth), Center(region);
    assert Quadrants(depth, Quarter(prefix, region, lo, hi, buildings), entries)
        == (Quarter(prefix + 2 * x, Region(c.x, region.west, region.north, c.y), mid, nMid, InQuadrant(buildings, c, NW)),
            Quarter(prefix + 3 * x, Region(region.east, c.x, region.north, c.y), nMid, hi, InQuadrant(buildings, c, NE)),
            Quarter(prefix, Region(c.x, region.west, c.y, region.south), lo, sMid, InQuadrant(buildings, c, SW)),
            Quarter(prefix + x, Region(region.east, c.x, c.y, region.south), sMid, mid, InQuadrant(buildings, c, SE)));
  }

  /** The four quarters of the split case are the quadrants of `Quadrants`. */
  lemma {:induction false} SplitIsQuadrants(depth: nat, prefix: nat, region: Region, lo: nat, hi: nat, buildings: seq<Building>,
                                            entries: seq<AgentEntry>, qNW: Quarter, qNE: Quarter, qSW: Quarter, qSE: Quarter)
    requires depth < 32 && hi <= |entries|
    requires lo == qSW.lo <= qSW.hi == qSE.lo <= qSE.hi == qNW.lo <= qNW.hi == qNE.lo <= qNE.hi == hi
    requires qSW.prefix == prefix && qSE.prefix == prefix + XBit(depth)
    requires qNW.prefix == prefix + 2 * XBit(depth) && qNE.prefix == prefix + 3 * XBit(depth)
    requires var c := Center(region);
      && qNE.region == Region(region.east, c.x, region.north, c.y) && qNE.buildings == InQuadrant(buildings, c, NE)
      && qNW.region == Region(c.x, region.west, region.north, c.y) && qNW.buildings == InQuadrant(buildings, c, NW)
      && qSE.region == Region(region.east, c.x, c.y, region.south) && qSE.buildings == InQuadrant(buildings, c, SE)
      && qSW.region == Region(c.x, region.west, c.y, region.south) && qSW.buildings == InQuadrant(buildings, c, SW)
    requires qNW.lo == FirstAtLeast(entries, lo, hi, qNW.prefix) && qNE.lo == FirstAtLeast(entries, qNW.lo, hi, qNE.prefix)
    requires qSE.lo == FirstAtLeast(entries, lo, qNW.lo, qSE.prefix)
    ensures (qNW, qNE, qSW, qSE) == Quadrants(depth, Quarter(prefix, region, lo, hi, buildings), entries)
  {
    QuadrantsOf(depth, prefix, region, lo, hi, buildings, entries, qSE.lo, qNW.lo, qNE.lo,
                Split(qNE.buildings, qNW.buildings, qSE.buildings, qSW.buildings));
  }

  /** One `rayon::join` of two adjacent quadrants, run one after the other. */
  method ProcessPair(threshold: nat, depth: nat, first: Quarter, second: Quarter, entries: seq<AgentEntry>,
                     mapper: (Agent, seq<Building>) -> Building, cells: array<Option<Building>>,
                     ghost lo: nat, ghost hi: nat, ghost buildings: seq<Building>)
      returns (r: Result<()>)
    requires QuarterOf(first, depth, entries, buildings) && QuarterOf(second, depth, entries, buildings)
    requires lo <= first.lo <= first.hi == second.lo <= second.hi <= hi
    requires ZSorted(entries) && cells.Length == |entries| && Unset(cells[..], first.lo, second.hi)
    requires MappedWithin(cells[..], lo, hi, buildings)
    requires Chooses(mapper)
    modifies cells
    ensures SameOutside(cells[..], old(cells[..]), first.lo, second.hi)
    ensures MappedWithin(cells[..], lo, hi, buildings)
    ensures MappedWithin(cells[..], first.lo, first.hi, first.buildings)
    ensures MappedWithin(cells[..], second.lo, second.hi, second.buildings)
    ensures r.Err? ==> SharedZ(entries, lo, hi, threshold)
    ensures r.Ok? <==> Leaves(threshold, depth, first, entries, mapper).Ok? && Leaves(threshold, depth, second, entries, mapper).Ok?
    ensures r.Ok? ==> cells[first.lo..first.hi] == Leaves(threshold, depth, first, entries, mapper).value
                      && cells[second.lo..second.hi] == Leaves(threshold, depth, second, entries, mapper).value
    ensures r.Err? ==> r.error == ShiftOverflow
    decreases 32 - depth, 5
  {
    ghost var c0 := cells[..];
    r := ProcessQuadrant(threshold, depth, first, entries, mapper, cells, lo, hi, buildings);
    if r.Err? {
      return;
    }
    ghost var c1 := cells[..];
    UnsetStep(c0, c1, first.lo, first.hi, second.lo, second.hi);
    r := ProcessQuadrant(threshold, depth, second, entries, mapper, cells, lo, hi, buildings);
    FrameStep(c0, c1, cells[..], first.lo, second.hi, second.lo, second.hi);
    MappedKept(c1, cells[..], first.lo, first.hi, second.lo, second.hi, first.buildings);
    if r.Ok? {
      SliceKept(c1, cells[..], second.lo, second.hi, first.lo, first.hi);
    }
  }

  /** One quadrant's call of `process_region`, as seen from the parent region `[lo, hi)`. */
  method ProcessQuadrant(threshold: nat, depth: nat, q: Quarter, entries: seq<AgentEntry>,
                         mapper: (Agent, seq<Building>) -> Building, cells: array<Option<Building>>,
                         ghost lo: nat, ghost hi: nat, ghost buildings: seq<Building>)
      returns (r: Result<()>)
    requires QuarterOf(q, depth, entries, buildings) && lo <= q.lo <= q.hi <= hi
    requires ZSorted(entries) && cells.Length == |entries| && Unset(cells[..], q.lo, q.hi)
    requires MappedWithin(cells[..], lo, hi, buildings)
    requires Chooses(mapper)
    modifies cells
    ensures SameOutside(cells[..], old(cells[..]), q.lo, q.hi)
    ensures MappedWithin(cells[..], lo, hi, buildings)
    ensures MappedWithin(cells[..], q.lo, q.hi, q.buildings)
    ensures r.Err? ==> SharedZ(entries, lo, hi, threshold)
    ensures r.Ok? <==> Leaves(threshold, depth, q, entries, mapper).Ok?
    ensures r.Ok? ==> cells[q.lo..q.hi] == Leaves(threshold, depth, q, entries, mapper).value
    ensures r.Err? ==> r.error == ShiftOverflow
    decreases 32 - depth, 4
  {
    assert q == Quarter(q.prefix, q.region, q.lo, q.hi, q.buildings);
    ghost var before := cells[..];
    r := ProcessRegion(threshold, q.prefix, depth, q.region, entries, q.lo, q.hi, q.buildings, mapper, cells);
    MappedStep(before, cells[..], lo, hi, q.lo, q.hi, buildings, q.buildings);
    if r.Err? {
      SharedZWiden(entries, q.lo, q.hi, lo, hi, threshold);
    }
  }

  // ---------------------------------------------------------------------
  // map_vehicles
  // ---------------------------------------------------------------------

  /** The region `map_vehicles` spans: the buildings' box reduced with the agents' box. */
  function Spanned(agents: seq<Agent>, buildings: seq<Building>): Bounds
  {
    ReduceRegions(BuildingsBox(buildings), AgentsBox(agents))
  }

  /** The z-value of a position inside a proper region, which `z_value` always yields there. */
  function ZOf(p: Coords, g: Region): (z: ZValue)
    requires Proper(g) && Contains(g, p)
    ensures ZValueOf(p, g) == Ok(Some(z))
  {
    ZValueProper(p, g);
    ZValueOf(p, g).value.value
  }

  /** `agent_data` before sorting: each agent with its z-value in the region. */
  function AgentData(agents: seq<Agent>, g: Region): (s: seq<AgentEntry>)
    requires Proper(g) && forall i :: 0 <= i < |agents| ==> Contains(g, agents[i].position)
    ensures |s| == |agents| && forall i :: 0 <= i < |s| ==> s[i].agent == agents[i]
  {
    seq(|agents|, i requires 0 <= i < |agents| => AgentEntry(agents[i], ZOf(agents[i].position, g)))
  }

  /** The final `filter_map`: the agents whose cell is set, each with its building, in `agent_data`'s order. */
  function MappedPairs(entries: seq<AgentEntry>, cells: seq<Option<Building>>): (r: seq<(Agent, Building)>)
    requires |entries| == |cells|
    ensures |r| <= |entries|
  {
    if entries == [] then []
    else
      var n := |entries| - 1;
      MappedPairs(entries[..n], cells[..n]) + (if cells[n].Some? then [(entries[n].agent, cells[n].value)] else [])
  }

  /** Every returned pair is an agent with the building of its set cell. */
  lemma {:induction false} MappedPairsFrom(entries: seq<AgentEntry>, cells: seq<Option<Building>>, k: nat) returns (i: nat)
    requires |entries| == |cells| && k < |MappedPairs(entries, cells)|
    ensures i < |entries| && entries[i].agent == MappedPairs(entries, cells)[k].0
    ensures cells[i] == Some(MappedPairs(entries, cells)[k].1)
  {
    var n := |entries| - 1;
    var init := MappedPairs(entries[..n], cells[..n]);
    if k < |init| {
      i := MappedPairsFrom(entries[..n], cells[..n], k);
    } else {
      i := n;
    }
  }

  /** With every cell set, every agent is returned, in order, with its building. */
  lemma {:induction false} MappedPairsAll(entries: seq<AgentEntry>, cells: seq<Option<Building>>)
    requires |entries| == |cells| && forall i :: 0 <= i < |cells| ==> cells[i].Some?
    ensures |MappedPairs(entries, cells)| == |entries|
    ensures forall i :: 0 <= i < |entries| ==> MappedPairs(entries, cells)[i] == (entries[i].agent, cells[i].value)
  {
    if entries != [] {
      var n := |entries| - 1;
      MappedPairsAll(entries[..n], cells[..n]);
    }
  }

  /** With no cell set, nothing is returned. */
  lemma {:induction false} MappedPairsNone(entries: seq<AgentEntry>, cells: seq<Option<Building>>)
    requires |entries| == |cells| && forall i :: 0 <= i < |cells| ==> cells[i].None?
    ensures MappedPairs(entries, cells) == []
  {
    if entries != [] {
      var n := |entries| - 1;
      MappedPairsNone(entries[..n], cells[..n]);
    }
  }

  /** Every agent lies in the region `map_vehicles` spans, once that region passes the assertions. */
  lemma AgentsInRegion(agents: seq<Agent>, buildings: seq<Building>)
    requires ValidRegion(Spanned(agents, buildings))
    ensures Sane(Spanned(agents, buildings))
    ensures forall i :: 0 <= i < |agents| ==> Contains(ToRegion(Spanned(agents, buildings)), agents[i].position)
  {
    var region := Spanned(agents, buildings);
    BoxesSane(buildings, agents);
    AgentsBoxHolds(agents);
    forall i | 0 <= i < |agents| ensures Contains(ToRegion(region), agents[i].position) {
      HoldsWithin(region, AgentsBox(agents), agents[i].position);
      HoldsContains(region, agents[i].position);
    }
  }

  /**
   * Sorting `agent_data` by z-value (`par_sort_unstable_by_key`, modelled as
   * a stable sort) keeps exactly the agents and orders them by z-value.
   */
  lemma SortedEntries(agents: seq<Agent>, data: seq<AgentEntry>)
    requires |data| == |agents| && forall i :: 0 <= i < |data| ==> data[i].agent == agents[i]
    ensures |SortBy(data, ZKey)| == |agents| && ZSorted(SortBy(data, ZKey))
    ensures forall k :: 0 <= k < |agents| ==> SortBy(data, ZKey)[k].agent in agents
    ensures forall a :: a in agents ==> exists k :: 0 <= k < |agents| && SortBy(data, ZKey)[k].agent == a
  {
    var sorted := SortBy(data, ZKey);
    SortByCorrect(data, ZKey);
    forall k | 0 <= k < |agents| ensures sorted[k].agent in agents {
      assert sorted[k] in multiset(data);
      var j :| 0 <= j < |data| && data[j] == sorted[k];
      assert agents[j] == sorted[k].agent;
    }
    forall a | a in agents ensures exists k :: 0 <= k < |agents| && sorted[k].agent == a {
      var j :| 0 <= j < |agents| && agents[j] == a;
      assert data[j] in multiset(sorted);
      var k :| 0 <= k < |sorted| && sorted[k] == data[j];
      assert sorted[k].agent == a;
    }
  }

  /** The pairs hold agents and buildings of the input. */
  lemma PairsOfAgents(agents: seq<Agent>, sorted: seq<AgentEntry>, cells: seq<Option<Building>>, buildings: seq<Building>)
    requires |cells| == |sorted| && forall k :: 0 <= k < |sorted| ==> sorted[k].agent in agents
    requires MappedWithin(cells, 0, |cells|, buildings)
    ensures forall k :: 0 <= k < |MappedPairs(sorted, cells)| ==>
              MappedPairs(sorted, cells)[k].0 in agents && MappedPairs(sorted, cells)[k].1 in buildings
  {
    var pairs := MappedPairs(sorted, cells);
    forall k | 0 <= k < |pairs| ensures pairs[k].0 in agents && pairs[k].1 in buildings {
      var i := MappedPairsFrom(sorted, cells, k);
    }
  }

  /** When the whole region is one leaf, every agent is paired with the building `mapper` picks among all. */
  lemma PairsOfLeaf(agents: seq<Agent>, sorted: seq<AgentEntry>, cells: seq<Option<Building>>, buildings: seq<Building>,
                    mapper: (Agent, seq<Building>) -> Building)
    requires |sorted| == |agents| && |cells| == |sorted|
    requires forall a :: a in agents ==> exists k :: 0 <= k < |agents| && sorted[k].agent == a
    requires AllMapped(cells, sorted, 0, |sorted|, buildings, mapper)
    ensures |MappedPairs(sorted, cells)| == |agents|
    ensures forall k :: 0 <= k < |agents| ==> MappedPairs(sorted, cells)[k].1 == mapper(MappedPairs(sorted, cells)[k].0, buildings)
    ensures forall a :: a in agents ==> exists k :: 0 <= k < |agents| && MappedPairs(sorted, cells)[k].0 == a
  {
    MappedPairsAll(sorted, cells);
    var pairs := MappedPairs(sorted, cells);
    forall a | a in agents ensures exists k :: 0 <= k < |agents| && pairs[k].0 == a {
      var k :| 0 <= k < |agents| && sorted[k].agent == a;
      assert pairs[k].0 == a;
    }
  }

  /** What `process_region` leaves in the cells when called on the whole region: prefix 0 at depth 0. */
  ghost function RootLeaves(threshold: nat, region: Region, entries: seq<AgentEntry>, buildings: seq<Building>,
                            mapper: (Agent, seq<Building>) -> Building): (r: Result<seq<Option<Building>>>)
    ensures r.Ok? ==> |r.value| == |entries|
  {
    Leaves(threshold, 0, Quarter(0, region, 0, |entries|, buildings), entries, mapper)
  }

  /**
   * What `map_vehicles` returns for agents inside a proper region: the
   * z-sorted `agent_data`, the cells `process_region` leaves for the whole
   * region, and the agents with a set cell paired with their buildings, in
   * z-order; or the panic of a split at depth 32.
   */
  ghost function ZMapping(threshold: nat, g: Region, agents: seq<Agent>, buildings: seq<Building>,
                          mapper: (Agent, seq<Building>) -> Building): Result<seq<(Agent, Building)>>
    requires Proper(g) && forall i :: 0 <= i < |agents| ==> Contains(g, agents[i].position)
  {
    var sorted := SortBy(AgentData(agents, g), ZKey);
    var leaves := RootLeaves(threshold, g, sorted, buildings, mapper);
    if leaves.Ok? then Ok(MappedPairs(sorted, leaves.value)) else Err(leaves.error)
  }

  /** The region `map_vehicles` works in, once the spanned box passes the assertions; it holds every agent. */
  ghost function SpannedRegion(agents: seq<Agent>, buildings: seq<Building>): (g: Region)
    requires ValidRegion(Spanned(agents, buildings))
    ensures Proper(g) && forall i :: 0 <= i < |agents| ==> Contains(g, agents[i].position)
  {
    AgentsInRegion(agents, buildings);
    ToRegion(Spanned(agents, buildings))
  }

  /** The call of `process_region` on the whole region: prefix 0 at depth 0. */
  method ProcessRoot(threshold: nat, region: Region, entries: seq<AgentEntry>, buildings: seq<Building>,
                     mapper: (Agent, seq<Building>) -> Building, cells: array<Option<Building>>)
      returns (r: Result<()>)
    requires ZSorted(entries) && cells.Length == |entries| && Unset(cells[..], 0, |entries|)
    requires Chooses(mapper)
    modifies cells
    ensures MappedWithin(cells[..], 0, |entries|, buildings)
    ensures |entries| == 0 || |buildings| == 0 ==> r.Ok? && cells[..] == old(cells[..])
    ensures |entries| > 0 && |buildings| > 0 && (|entries| < threshold || |buildings| < threshold) ==>
              r.Ok? && AllMapped(cells[..], entries, 0, |entries|, buildings, mapper)
    ensures r.Err? ==> threshold <= |buildings| && SharedZ(entries, 0, |entries|, threshold)
    ensures r.Ok? <==> RootLeaves(threshold, region, entries, buildings, mapper).Ok?
    ensures r.Ok? ==> cells[..] == RootLeaves(threshold, region, entries, buildings, mapper).value
    ensures r.Err? ==> r.error == ShiftOverflow
  {
    forall i | 0 <= i < |entries| ensures InCell(entries[i].z, 0, 0) {
      RootCell(entries[i].z);
    }
    RootCell(ZValue(0));
    r := ProcessRegion(threshold, 0, 0, region, entries, 0, |entries|, buildings, mapper, cells);
    assert cells[..] == cells[0..|entries|];
  }

  /**
   * `map_vehicles` once the region has passed its assertions: the agents'
   * z-values and the sort, then the rest in `MapSorted`.
   */
  method MapInRegion(threshold: nat, g: Region, agents: seq<Agent>, buildings: seq<Building>,
                     mapper: (Agent, seq<Building>) -> Building)
      returns (r: Result<seq<(Agent, Building)>>)
    requires Proper(g) && forall i :: 0 <= i < |agents| ==> Contains(g, agents[i].position)
    requires Chooses(mapper)
    ensures r.Ok? ==> |r.value| <= |agents|
    ensures r.Ok? ==> forall k :: 0 <= k < |r.value| ==> r.value[k].0 in agents && r.value[k].1 in buildings
    ensures |agents| == 0 || |buildings| == 0 ==> r == Ok([])
    ensures |agents| > 0 && |buildings| > 0 && (|agents| < threshold || |buildings| < threshold) ==>
              r.Ok? && |r.value| == |agents|
              && (forall k :: 0 <= k < |r.value| ==> r.value[k].1 == mapper(r.value[k].0, buildings))
              && (forall a :: a in agents ==> exists k :: 0 <= k < |r.value| && r.value[k].0 == a)
    ensures r.Err? ==> threshold <= |agents| && threshold <= |buildings|
    ensures r == ZMapping(threshold, g, agents, buildings, mapper)
  {
    var data := AgentData(agents, g);
    SortedEntries(agents, data);
    r := MapSorted(threshold, g, agents, SortBy(data, ZKey), buildings, mapper);
  }

  /**
   * The rest of `map_vehicles`, on the z-sorted `agent_data`: a fresh empty
   * cell per agent, `process_region` on the whole region and the final
   * `filter_map`.
   */
  method MapSorted(threshold: nat, g: Region, agents: seq<Agent>, sorted: seq<AgentEntry>, buildings: seq<Building>,
                   mapper: (Agent, seq<Building>) -> Building)
      returns (r: Result<seq<(Agent, Building)>>)
    requires |sorted| == |agents| && ZSorted(sorted)
    requires forall k :: 0 <= k < |agents| ==> sorted[k].agent in agents
    requires forall a :: a in agents ==> exists k :: 0 <= k < |agents| && sorted[k].agent == a
    requires Chooses(mapper)
    ensures r.Ok? ==> |r.value| <= |agents|
    ensures r.Ok? ==> forall k :: 0 <= k < |r.value| ==> r.value[k].0 in agents && r.value[k].1 in buildings
    ensures |agents| == 0 || |buildings| == 0 ==> r == Ok([])
    ensures |agents| > 0 && |buildings| > 0 && (|agents| < threshold || |buildings| < threshold) ==>
              r.Ok? && |r.value| == |agents|
              && (forall k :: 0 <= k < |r.value| ==> r.value[k].1 == mapper(r.value[k].0, buildings))
              && (forall a :: a in agents ==> exists k :: 0 <= k < |r.value| && r.value[k].0 == a)
    ensures r.Err? ==> threshold <= |agents| && threshold <= |buildings|
    ensures r.Ok? <==> RootLeaves(threshold, g, sorted, buildings, mapper).Ok?
    ensures r.Ok? ==> r.value == MappedPairs(sorted, RootLeaves(threshold, g, sorted, buildings, mapper).value)
    ensures r.Err? ==> r.error == ShiftOverflow
  {
    var cells := new Option<Building>[|sorted|](_ => None);
    ghost var empty := cells[..];
    var res := ProcessRoot(threshold, g, sorted, buildings, mapper, cells);
    if res.Err? {
      return Err(res.error);
    }
    var pairs := MappedPairs(sorted, cells[..]);
    if |agents| == 0 || |buildings| == 0 {
      MappedPairsNone(sorted, empty);
    }
    PairsOfAgents(agents, sorted, cells[..], buildings);
    if |agents| > 0 && |buildings| > 0 && (|agents| < threshold || |buildings| < threshold) {
      PairsOfLeaf(agents, sorted, cells[..], buildings, mapper);
    }
    r := Ok(pairs);
  }

  /**
   * `map_vehicles`. The region is the box of all buildings and agents; it
   * must have positive width and height, or the source's assertions panic.
   * Every agent gets its z-value in the region (always defined there, so the
   * `expect` cannot fail), the agents are sorted by z-value,
   * `process_region` fills their cells, and the agents with a set cell are
   * returned with their buildings.
   */
  method MapVehicles(threshold: nat, agents: seq<Agent>, buildings: seq<Building>,
                     mapper: (Agent, seq<Building>) -> Building)
      returns (r: Result<seq<(Agent, Building)>>)
    requires Chooses(mapper)
    ensures !ValidRegion(Spanned(agents, buildings)) ==> r.Err?
    ensures r.Ok? ==> |r.value| <= |agents|
    ensures r.Ok? ==> forall k :: 0 <= k < |r.value| ==> r.value[k].0 in agents && r.value[k].1 in buildings
    ensures ValidRegion(Spanned(agents, buildings)) && (|agents| == 0 || |buildings| == 0) ==> r == Ok([])
    ensures ValidRegion(Spanned(agents, buildings)) && |agents| > 0 && |buildings| > 0
            && (|agents| < threshold || |buildings| < threshold) ==>
              r.Ok? && |r.value| == |agents|
              && (forall k :: 0 <= k < |r.value| ==> r.value[k].1 == mapper(r.value[k].0, buildings))
              && (forall a :: a in agents ==> exists k :: 0 <= k < |r.value| && r.value[k].0 == a)
    ensures ValidRegion(Spanned(agents, buildings)) && r.Err? ==> threshold <= |agents| && threshold <= |buildings|
    ensures ValidRegion(Spanned(agents, buildings)) ==> r == ZMapping(threshold, SpannedRegion(agents, buildings), agents, buildings, mapper)
  {
    var region := ReduceRegions(BuildingsBox(buildings), AgentsBox(agents));
    if !Lt(region.west, region.east) {
      return Err("invalid region east-west length");
    }
    if !Lt(region.south, region.north) {
      return Err("invalid region north-south length");
    }
    AgentsInRegion(agents, buildings);
    r := MapInRegion(threshold, ToRegion(region), agents, buildings, mapper);
  }
}
