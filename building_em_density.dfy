/**
 * Emissions per building: the heat values of the bitmap cells under each
 * building's bounding box are summed, skipping cells off the bitmap, and the
 * sum is divided by the building's area.
 */
module BuildingEmDensity {
  import opened Wrappers
  import opened Text
  import opened RoadNet
  import opened Heatmap

  /** A row of the building counts table. */
  datatype Building = Building(buildingId: int, location: Point, area: real,
                               east: real, west: real, north: real, south: real, count: int)

  /** `Building.parse_row`: nine columns; a short row or a field that does not convert raises. */
  function ParseBuilding(row: seq<string>): Option<Building>
  {
    if |row| < 9 then None
    else if PyInt(row[0]).None? || PyFloat(row[1]).None? || PyFloat(row[2]).None? || PyFloat(row[3]).None?
         || PyFloat(row[4]).None? || PyFloat(row[5]).None? || PyFloat(row[6]).None? || PyFloat(row[7]).None?
         || PyInt(row[8]).None? then None
    else Some(Building(PyInt(row[0]).value, (PyFloat(row[1]).value, PyFloat(row[2]).value), PyFloat(row[3]).value,
                       PyFloat(row[4]).value, PyFloat(row[5]).value, PyFloat(row[6]).value, PyFloat(row[7]).value,
                       PyInt(row[8]).value))
  }

  /** A parsed building holds the values converted from columns 0 to 8, in order. */
  lemma ParseBuildingColumns(row: seq<string>)
    requires ParseBuilding(row).Some?
    ensures var b := ParseBuilding(row).value;
            |row| >= 9 && PyInt(row[0]) == Some(b.buildingId)
            && PyFloat(row[1]) == Some(b.location.0) && PyFloat(row[2]) == Some(b.location.1)
            && PyFloat(row[3]) == Some(b.area) && PyFloat(row[4]) == Some(b.east)
            && PyFloat(row[5]) == Some(b.west) && PyFloat(row[6]) == Some(b.north)
            && PyFloat(row[7]) == Some(b.south) && PyInt(row[8]) == Some(b.count)
  {
  }

  /** A row written with whole-number fields, in column order, parses back to them; a short row fails. */
  lemma ParseBuildingFormatted(id: int, f: seq<int>, count: int)
    requires |f| == 7
    ensures ParseBuilding([IntDecimal(id)] + seq(7, k requires 0 <= k < 7 => IntDecimal(f[k])) + [IntDecimal(count)])
            == Some(Building(id, (f[0] as real, f[1] as real), f[2] as real, f[3] as real, f[4] as real,
                             f[5] as real, f[6] as real, count))
    ensures ParseBuilding([IntDecimal(id)] + seq(7, k requires 0 <= k < 7 => IntDecimal(f[k]))).None?
  {
    var row := [IntDecimal(id)] + seq(7, k requires 0 <= k < 7 => IntDecimal(f[k])) + [IntDecimal(count)];
    PyIntDecimal(id);
    PyIntDecimal(count);
    forall k | 0 <= k < 7
      ensures PyFloat(row[k + 1]) == Some(f[k] as real)
    {
      PyFloatDecimal(f[k]);
    }
    assert row[0] == IntDecimal(id) && row[8] == IntDecimal(count);
  }

  /**
   * The bitmap block under the bounding box, as (first column, last column,
   * first row, last row): the row axis is flipped, so the rows run from the
   * north edge down to the south edge.
   */
  function Block(b: Building): (int, int, int, int)
  {
    var sw := UtmToBm((b.west, b.south));
    var ne := UtmToBm((b.east, b.north));
    (sw.0.Floor, ne.0.Floor, ne.1.Floor, sw.1.Floor)
  }

  /** A well-formed bounding box gives a non-empty block. */
  lemma BlockOrdered(b: Building)
    requires b.west <= b.east && b.south <= b.north
    ensures var blk := Block(b); blk.0 <= blk.1 && blk.2 <= blk.3
  {
    var sw := UtmToBm((b.west, b.south));
    var ne := UtmToBm((b.east, b.north));
    UtmToBmOrientation((b.west, b.south), (b.east, b.north));
    FloorMonotone(sw.0, ne.0);
    FloorMonotone(ne.1, sw.1);
  }

  lemma FloorMonotone(u: real, v: real)
    requires u <= v
    ensures u.Floor <= v.Floor
  {
  }

  /** A cell's value, or 0 for a cell off the bitmap (the skipped ones). */
  function CellValue(hm: array2<real>, i: int, j: int): real
    reads hm
    requires hm.Length0 == BM_ROWS && hm.Length1 == BM_COLS
  {
    if 0 <= i < BM_ROWS && 0 <= j < BM_COLS then hm[i, j] else 0.0
  }

  /** The values of row i over the columns x0 <= j < x1. */
  function RowSum(hm: array2<real>, i: int, x0: int, x1: int): real
    reads hm
    requires hm.Length0 == BM_ROWS && hm.Length1 == BM_COLS
    decreases x1 - x0
  {
    if x1 <= x0 then 0.0 else RowSum(hm, i, x0, x1 - 1) + CellValue(hm, i, x1 - 1)
  }

  /** The values of the rows y0 <= i < y1 over the columns x0 <= j < x1. */
  function BlockSum(hm: array2<real>, y0: int, y1: int, x0: int, x1: int): real
    reads hm
    requires hm.Length0 == BM_ROWS && hm.Length1 == BM_COLS
    decreases y1 - y0
  {
    if y1 <= y0 then 0.0 else BlockSum(hm, y0, y1 - 1, x0, x1) + RowSum(hm, y1 - 1, x0, x1)
  }

  /** The `em_total` loop of `main` for one building. */
  method EmTotal(hm: array2<real>, b: Building) returns (em: real)
    requires hm.Length0 == BM_ROWS && hm.Length1 == BM_COLS
    ensures var blk := Block(b); em == BlockSum(hm, blk.2, blk.3 + 1, blk.0, blk.1 + 1)
  {
    var sw := UtmToBm((b.west, b.south));
    var ne := UtmToBm((b.east, b.north));
    var xMin, xMax, yMin, yMax := sw.0.Floor, ne.0.Floor, ne.1.Floor, sw.1.Floor;
    em := 0.0;
    var i := yMin;
    while i < yMax + 1
      invariant yMin <= i && (i <= yMax + 1 || i == yMin)
      invariant em == BlockSum(hm, yMin, i, xMin, xMax + 1)
      decreases yMax + 1 - i
    {
      var j := xMin;
      ghost var rows := em;
      while j < xMax + 1
        invariant xMin <= j && (j <= xMax + 1 || j == xMin)
        invariant em == rows + RowSum(hm, i, xMin, j)
        decreases xMax + 1 - j
      {
        if i < 0 || BM_ROWS <= i || j < 0 || BM_COLS <= j {
          j := j + 1;
          continue;
        }
        em := em + hm[i, j];
        j := j + 1;
      }
      assert RowSum(hm, i, xMin, j) == RowSum(hm, i, xMin, xMax + 1);
      i := i + 1;
    }
    assert BlockSum(hm, yMin, i, xMin, xMax + 1) == BlockSum(hm, yMin, yMax + 1, xMin, xMax + 1);
  }

  /** Splitting the columns at m splits a row's sum. */
  lemma {:induction false} RowSumSplit(hm: array2<real>, i: int, x0: int, m: int, x1: int)
    requires hm.Length0 == BM_ROWS && hm.Length1 == BM_COLS
    requires x0 <= m <= x1
    ensures RowSum(hm, i, x0, x1) == RowSum(hm, i, x0, m) + RowSum(hm, i, m, x1)
    decreases x1 - m
  {
    if m < x1 {
      RowSumSplit(hm, i, x0, m, x1 - 1);
    }
  }

  /** Columns all off the bitmap, or a row off it, contribute nothing. */
  lemma {:induction false} RowSumOff(hm: array2<real>, i: int, x0: int, x1: int)
    requires hm.Length0 == BM_ROWS && hm.Length1 == BM_COLS
    requires i < 0 || BM_ROWS <= i || x1 <= 0 || BM_COLS <= x0 || x1 <= x0
    ensures RowSum(hm, i, x0, x1) == 0.0
    decreases x1 - x0
  {
    if x0 < x1 {
      RowSumOff(hm, i, x0, x1 - 1);
    }
  }

  /** Skipping off-bitmap cells is summing over the block clipped to the bitmap. */
  lemma RowSumClip(hm: array2<real>, i: int, x0: int, x1: int)
    requires hm.Length0 == BM_ROWS && hm.Length1 == BM_COLS
    requires x0 <= x1
    ensures RowSum(hm, i, x0, x1) == RowSum(hm, i, Clip(x0, BM_COLS), Clip(x1, BM_COLS))
  {
    var lo := Clip(x0, BM_COLS);
    var hi := Clip(x1, BM_COLS);
    if lo < hi {
      RowSumSplit(hm, i, x0, lo, x1);
      RowSumSplit(hm, i, lo, hi, x1);
      RowSumOff(hm, i, x0, lo);
      RowSumOff(hm, i, hi, x1);
    } else {
      RowSumOff(hm, i, x0, x1);
      assert RowSum(hm, i, lo, hi) == 0.0;
    }
  }

  /** x clipped to [0, n]. */
  function Clip(x: int, n: int): int
  {
    if x < 0 then 0 else if x > n then n else x
  }

  /** A block entirely off the bitmap sums to 0: such a building gets `em_total = 0`. */
  lemma {:induction false} BlockSumOff(hm: array2<real>, y0: int, y1: int, x0: int, x1: int)
    requires hm.Length0 == BM_ROWS && hm.Length1 == BM_COLS
    requires y1 <= 0 || BM_ROWS <= y0 || x1 <= 0 || BM_COLS <= x0
    ensures BlockSum(hm, y0, y1, x0, x1) == 0.0
    decreases y1 - y0
  {
    if y0 < y1 {
      BlockSumOff(hm, y0, y1 - 1, x0, x1);
      RowSumOff(hm, y1 - 1, x0, x1);
    }
  }

  /** With non-negative heat values the sum is non-negative. */
  lemma {:induction false} BlockSumNonNegative(hm: array2<real>, y0: int, y1: int, x0: int, x1: int)
    requires hm.Length0 == BM_ROWS && hm.Length1 == BM_COLS
    requires forall i, j :: 0 <= i < BM_ROWS && 0 <= j < BM_COLS ==> hm[i, j] >= 0.0
    ensures BlockSum(hm, y0, y1, x0, x1) >= 0.0
    decreases y1 - y0
  {
    if y0 < y1 {
      BlockSumNonNegative(hm, y0, y1 - 1, x0, x1);
      RowSumNonNegative(hm, y1 - 1, x0, x1);
    }
  }

  lemma {:induction false} RowSumNonNegative(hm: array2<real>, i: int, x0: int, x1: int)
    requires hm.Length0 == BM_ROWS && hm.Length1 == BM_COLS
    requires forall i, j :: 0 <= i < BM_ROWS && 0 <= j < BM_COLS ==> hm[i, j] >= 0.0
    ensures RowSum(hm, i, x0, x1) >= 0.0
    decreases x1 - x0
  {
    if x0 < x1 {
      RowSumNonNegative(hm, i, x0, x1 - 1);
    }
  }

  /** The concentration column: `em_total / area`, which raises for a zero area. */
  function Concentration(emTotal: real, area: real): (r: Option<real>)
    ensures r.Some? <==> area != 0.0
    ensures r.Some? ==> r.value * area == emTotal
  {
    if area == 0.0 then None else Some(emTotal / area)
  }
}
