/**
 * Correlating vehicle mappings with the heat footprint of their link: the
 * nearest footprint cell to a vehicle, found by a scan that stops at the first
 * cell farther than the best so far, and the per-entry error classification
 * with its running counters.
 */
module CorrEmDensity {
  import opened Wrappers
  import opened RoadNet
  import opened Heatmap

  /** Entries whose nearest cell is farther than this many cells are erroneous. */
  const DIST_THRESHOLD: real := 50.0

  /** Euclidean distance from a footprint cell to a bitmap position. */
  function CellDist(c: Cell, v: Point, sqrt: real -> real): real
  {
    sqrt((c.0 as real - v.0) * (c.0 as real - v.0) + (c.1 as real - v.1) * (c.1 as real - v.1))
  }

  /** Python's `(vx, vy) in cells`: some cell has exactly these coordinates. */
  predicate IsCellOf(v: Point, cells: seq<Cell>)
  {
    exists c :: c in cells && c.0 as real == v.0 && c.1 as real == v.1
  }

  function Dists(cells: seq<Cell>, v: Point, sqrt: real -> real): (d: seq<real>)
    ensures |d| == |cells|
    ensures forall i :: 0 <= i < |cells| ==> d[i] == CellDist(cells[i], v, sqrt)
  {
    seq(|cells|, i requires 0 <= i < |cells| => CellDist(cells[i], v, sqrt))
  }

  /**
   * Where the scan over distances `d` stops, starting at `k`: the first index
   * from `k` on whose successor is strictly farther, or the last index.
   */
  function ScanFrom(d: seq<real>, k: nat): (e: nat)
    requires k < |d|
    requires forall i :: 0 <= i < k ==> d[i + 1] <= d[i]
    ensures k <= e < |d|
    ensures forall i :: 0 <= i < e ==> d[i + 1] <= d[i]
    ensures e + 1 == |d| || d[e + 1] > d[e]
    decreases |d| - k
  {
    if k + 1 == |d| || d[k + 1] > d[k] then k else ScanFrom(d, k + 1)
  }

  /** Distances are non-increasing up to index `e`, so the one at `e` is the least of them. */
  lemma {:induction false} NonIncreasingLeast(d: seq<real>, e: nat)
    requires e < |d|
    requires forall i :: 0 <= i < e ==> d[i + 1] <= d[i]
    ensures forall i :: 0 <= i <= e ==> d[e] <= d[i]
  {
    if e > 0 {
      NonIncreasingLeast(d, e - 1);
    }
  }

  /** The index of the cell the scan keeps. */
  function ScanEnd(d: seq<real>): (e: nat)
    requires |d| > 0
    ensures e < |d|
    ensures forall i :: 0 <= i <= e ==> d[e] <= d[i]
    ensures e + 1 == |d| || d[e + 1] > d[e]
  {
    var e := ScanFrom(d, 0);
    NonIncreasingLeast(d, e);
    e
  }

  /** The scan stops at the unique index that is a stopping point after a non-increasing run. */
  lemma {:induction false} ScanFromIs(d: seq<real>, k: nat, j: nat)
    requires k <= j < |d|
    requires forall i :: 0 <= i < j ==> d[i + 1] <= d[i]
    requires j + 1 == |d| || d[j + 1] > d[j]
    ensures ScanFrom(d, k) == j
    decreases j - k
  {
    if k < j {
      assert d[k + 1] <= d[k];
      ScanFromIs(d, k + 1, j);
    }
  }

  /**
   * `_get_nearest_cell` on the bitmap position `v` of the vehicle: `v` itself
   * at distance 0 when it is a footprint cell, the cell where the scan stops
   * otherwise, and the triple of Nones for an empty footprint.
   */
  function NearestCell(v: Point, cells: seq<Cell>, sqrt: real -> real): (r: Option<(real, real, real)>)
    ensures r.None? <==> cells == []
    ensures r.Some? ==> exists c :: c in cells && c.0 as real == r.value.0 && c.1 as real == r.value.1
  {
    if IsCellOf(v, cells) then Some((v.0, v.1, 0.0))
    else if cells == [] then None
    else
      var e := ScanEnd(Dists(cells, v, sqrt));
      assert cells[e] in cells;
      Some((cells[e].0 as real, cells[e].1 as real, CellDist(cells[e], v, sqrt)))
  }

  /**
   * The scan loop of `_get_nearest_cell`: a cell is kept when its distance is
   * at most the best so far, and the loop breaks at the first one farther.
   */
  method GetNearestCell(loc: Point, cells: seq<Cell>, sqrt: real -> real) returns (r: Option<(real, real, real)>)
    ensures r == NearestCell(UtmToBm(loc), cells, sqrt)
  {
    var v := UtmToBm(loc);
    if exists c :: c in cells && c.0 as real == v.0 && c.1 as real == v.1 {
      return Some((v.0, v.1, 0.0));
    }
    ghost var d := Dists(cells, v, sqrt);
    r := None;
    var i := 0;
    while i < |cells|
      invariant 0 <= i <= |cells|
      invariant i == 0 <==> r.None?
      invariant forall k :: 0 <= k < i - 1 ==> d[k + 1] <= d[k]
      invariant i > 0 ==> r == Some((cells[i - 1].0 as real, cells[i - 1].1 as real, d[i - 1]))
    {
      var dist := CellDist(cells[i], v, sqrt);
      if r.None? || dist <= r.value.2 {
        r := Some((cells[i].0 as real, cells[i].1 as real, dist));
      } else {
        break;
      }
      i := i + 1;
    }
    if cells != [] {
      ScanFromIs(d, 0, i - 1);
    }
  }

  /** A vehicle on a footprint cell is its own nearest cell, at distance 0. */
  lemma NearestOnFootprint(v: Point, cells: seq<Cell>, sqrt: real -> real, c: Cell)
    requires c in cells && c.0 as real == v.0 && c.1 as real == v.1
    ensures NearestCell(v, cells, sqrt) == Some((c.0 as real, c.1 as real, 0.0))
  {
  }

  /**
   * Off the footprint, the distance returned is at most every distance the
   * scan looked at, and the cell after the stopping one, if any, is farther.
   */
  lemma NearestScanned(v: Point, cells: seq<Cell>, sqrt: real -> real) returns (e: nat)
    requires !IsCellOf(v, cells) && cells != []
    ensures e < |cells|
    ensures NearestCell(v, cells, sqrt) == Some((cells[e].0 as real, cells[e].1 as real, CellDist(cells[e], v, sqrt)))
    ensures forall i :: 0 <= i <= e ==> CellDist(cells[e], v, sqrt) <= CellDist(cells[i], v, sqrt)
    ensures e + 1 == |cells| || CellDist(cells[e + 1], v, sqrt) > CellDist(cells[e], v, sqrt)
  {
    var d := Dists(cells, v, sqrt);
    e := ScanEnd(d);
  }

  /** The scan does not find the global minimum: a closer cell after the stopping point is missed. */
  lemma NotGlobalMinimum()
    ensures ScanEnd([1.0, 2.0, 0.0]) == 0
  {
    ScanFromIs([1.0, 2.0, 0.0], 0, 0);
  }

  /** Of two equally near cells in a non-increasing run, the later one is kept. */
  lemma LaterTieWins()
    ensures ScanEnd([3.0, 1.0, 1.0]) == 2
  {
    ScanFromIs([3.0, 1.0, 1.0], 0, 2);
  }

  /** How `main` counts one entry. */
  datatype Verdict = Fine | Erroneous | OutsideY

  /**
   * Outside the y-range of the bitmap is erroneous and outside, a nearest
   * distance over the threshold erroneous. With no distance (the None of an
   * empty footprint) Python's `None > 50` raises, which is None here.
   */
  function Classify(loc: Point, dist: Option<real>): (c: Option<Verdict>)
    ensures c == Some(OutsideY) <==> loc.1 < Y_MIN || Y_MAX < loc.1
    ensures c.None? <==> Y_MIN <= loc.1 <= Y_MAX && dist.None?
    ensures c == Some(Erroneous) <==> Y_MIN <= loc.1 <= Y_MAX && dist.Some? && dist.value > DIST_THRESHOLD
  {
    if loc.1 < Y_MIN || Y_MAX < loc.1 then Some(OutsideY)
    else if dist.None? then None
    else if dist.value > DIST_THRESHOLD then Some(Erroneous)
    else Some(Fine)
  }

  /** One mapping entry: the link the vehicle was mapped to and its UTM location. */
  datatype Entry = Entry(linkId: int, vehicleLoc: Point)

  /** An entry's verdict; a link without a footprint key is Python's KeyError, None. */
  function EntryVerdict(en: Entry, linkCells: map<int, seq<Cell>>, sqrt: real -> real): Option<Verdict>
  {
    if en.linkId !in linkCells then None
    else
      var n := NearestCell(UtmToBm(en.vehicleLoc), linkCells[en.linkId], sqrt);
      Classify(en.vehicleLoc, if n.Some? then Some(n.value.2) else None)
  }

  datatype Counts = Counts(err: nat, outside: nat, total: nat)

  function Bump(c: Counts, v: Verdict): Counts
  {
    match v
    case Fine => Counts(c.err, c.outside, c.total + 1)
    case Erroneous => Counts(c.err + 1, c.outside, c.total + 1)
    case OutsideY => Counts(c.err + 1, c.outside + 1, c.total + 1)
  }

  /** The counters after all entries, from `start`; None once an entry raises. */
  function TallyOf(entries: seq<Entry>, linkCells: map<int, seq<Cell>>, sqrt: real -> real, start: Counts): Option<Counts>
  {
    if entries == [] then Some(start)
    else
      var t := TallyOf(entries[..|entries| - 1], linkCells, sqrt, start);
      var v := EntryVerdict(entries[|entries| - 1], linkCells, sqrt);
      if t.None? || v.None? then None else Some(Bump(t.value, v.value))
  }

  /** The counting loop of `main` over one hour's mapping entries. */
  method Tally(entries: seq<Entry>, linkCells: map<int, seq<Cell>>, sqrt: real -> real, start: Counts)
    returns (r: Option<Counts>)
    ensures r == TallyOf(entries, linkCells, sqrt, start)
  {
    var c := start;
    var i := 0;
    while i < |entries|
      invariant 0 <= i <= |entries|
      invariant TallyOf(entries[..i], linkCells, sqrt, start) == Some(c)
    {
      var en := entries[i];
      if en.linkId !in linkCells {
        assert TallyOf(entries[..i + 1], linkCells, sqrt, start).None? by {
          assert entries[..i + 1][..i] == entries[..i];
        }
        TallyNoneExtends(entries, linkCells, sqrt, start, i + 1);
        return None;
      }
      var n := GetNearestCell(en.vehicleLoc, linkCells[en.linkId], sqrt);
      var v := Classify(en.vehicleLoc, if n.Some? then Some(n.value.2) else None);
      assert entries[..i + 1][..i] == entries[..i];
      if v.None? {
        TallyNoneExtends(entries, linkCells, sqrt, start, i + 1);
        return None;
      }
      c := Bump(c, v.value);
      i := i + 1;
    }
    assert entries[..i] == entries;
    return Some(c);
  }

  /** Once an entry raises, the whole tally does. */
  lemma {:induction false} TallyNoneExtends(entries: seq<Entry>, linkCells: map<int, seq<Cell>>, sqrt: real -> real,
                                            start: Counts, n: nat)
    requires n <= |entries| && TallyOf(entries[..n], linkCells, sqrt, start).None?
    ensures TallyOf(entries, linkCells, sqrt, start).None?
    decreases |entries| - n
  {
    if n < |entries| {
      assert entries[..n + 1][..n] == entries[..n];
      TallyNoneExtends(entries, linkCells, sqrt, start, n + 1);
    } else {
      assert entries[..n] == entries;
    }
  }

  /** Each entry is counted once; every outside entry is erroneous, and no more entries err than are counted. */
  lemma {:induction false} TallyBounds(entries: seq<Entry>, linkCells: map<int, seq<Cell>>, sqrt: real -> real, start: Counts)
    requires start.outside <= start.err <= start.total
    requires TallyOf(entries, linkCells, sqrt, start).Some?
    ensures var c := TallyOf(entries, linkCells, sqrt, start).value;
            c.total == start.total + |entries| && c.outside <= c.err <= c.total
            && start.err <= c.err && start.outside <= c.outside
  {
    if entries != [] {
      TallyBounds(entries[..|entries| - 1], linkCells, sqrt, start);
    }
  }
}
