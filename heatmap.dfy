/**
 * The emissions heatmap: a 550 x 400 bitmap over the study area in UTM
 * coordinates, onto which every link's heat quantity is spread around the
 * cells its first segment crosses, attenuated by the distance from the cell.
 */
module Heatmap {
  import opened Numeric
  import opened RoadNet
  import opened Emissions

  const BM_COLS: int := 400
  const BM_ROWS: int := 550
  const X_MIN: real := 446319.62563207
  const X_MAX: real := 448913.35313896
  const Y_MIN: real := 4634587.13680183
  const Y_MAX: real := 4638130.74608598
  const CUTOFF_DISTANCE: int := 8

  /** UTM easting/northing to bitmap column/row: the affine map `CT_STDMAT . p + CT_OFFSET`. */
  function UtmToBm(p: Point): (c: Point)
    ensures BmToUtm(c) == p
  {
    var dx, dy := X_MAX - X_MIN, Y_MIN - Y_MAX;
    var c := ((BM_COLS - 1) as real / dx * p.0 + (1 - BM_COLS) as real * X_MIN / dx,
              (BM_ROWS - 1) as real / dy * p.1 + (1 - BM_ROWS) as real * Y_MAX / dy);
    assert c.0 == 399.0 * (p.0 - X_MIN) / dx && c.0 * dx / 399.0 == p.0 - X_MIN;
    assert c.1 == 549.0 * (p.1 - Y_MAX) / dy && c.1 * dy / 549.0 == p.1 - Y_MAX;
    assert BmToUtm(c).0 == X_MIN + c.0 * dx / 399.0 && BmToUtm(c).1 == Y_MAX + c.1 * dy / 549.0;
    c
  }

  /** The inverse map, from bitmap column/row back to UTM. */
  function BmToUtm(c: Point): Point
  {
    (X_MIN + c.0 * (X_MAX - X_MIN) / (BM_COLS - 1) as real,
     Y_MAX + c.1 * (Y_MIN - Y_MAX) / (BM_ROWS - 1) as real)
  }

  /** The north-west corner of the study area is cell (0, 0), the south-east one the last cell. */
  lemma UtmToBmCorners()
    ensures UtmToBm((X_MIN, Y_MAX)) == (0.0, 0.0)
    ensures UtmToBm((X_MAX, Y_MIN)) == ((BM_COLS - 1) as real, (BM_ROWS - 1) as real)
  {
  }

  lemma UtmToBmRoundTrip(c: Point)
    ensures UtmToBm(BmToUtm(c)) == c
  {
    var dx := X_MAX - X_MIN;
    var dy := Y_MIN - Y_MAX;
    assert 399.0 / dx * (X_MIN + c.0 * dx / 399.0) == 399.0 / dx * X_MIN + c.0;
    assert 549.0 / dy * (Y_MAX + c.1 * dy / 549.0) == 549.0 / dy * Y_MAX + c.1;
    assert (1 - BM_COLS) as real * X_MIN / dx == -(399.0 / dx * X_MIN);
    assert (1 - BM_ROWS) as real * Y_MAX / dy == -(549.0 / dy * Y_MAX);
  }

  /** Columns grow eastwards and rows southwards; the study area maps into the bitmap. */
  lemma UtmToBmOrientation(p: Point, q: Point)
    ensures p.0 < q.0 ==> UtmToBm(p).0 < UtmToBm(q).0
    ensures p.1 < q.1 ==> UtmToBm(p).1 > UtmToBm(q).1
    ensures X_MIN <= p.0 <= X_MAX ==> 0.0 <= UtmToBm(p).0 <= (BM_COLS - 1) as real
    ensures Y_MIN <= p.1 <= Y_MAX ==> 0.0 <= UtmToBm(p).1 <= (BM_ROWS - 1) as real
  {
  }

  /** The heat a source of strength `em` contributes at distance `radius`: undivided at the source itself. */
  function CompAffect(em: real, radius: real): (a: real)
    ensures radius == 0.0 ==> a == em
    ensures radius != 0.0 ==> a * radius == em
  {
    if radius == 0.0 then em else em / radius
  }

  /** At a distance of at least one cell a non-negative source is attenuated, never amplified. */
  lemma CompAffectAttenuates(em: real, radius: real)
    requires em >= 0.0 && (radius == 0.0 || radius >= 1.0)
    ensures 0.0 <= CompAffect(em, radius) <= em
  {
    if radius >= 1.0 {
      var a := CompAffect(em, radius);
      if a < 0.0 {
        MulPositive(-a, radius);
      }
      if a > em {
        MulPositive(a - em, radius);
        assert (a - em) * radius == em - em * radius;
        if em > 0.0 {
          MulPositive(em, radius - 1.0);
        }
      }
    }
  }

  /** The bitmap box reached by the kernel around a segment: `(x_min, y_min, x_max, y_max)`. */
  function AffAreaBbox(start: Point, end: Point): (box: (int, int, int, int))
    ensures box.0 as real <= Min(start.0, end.0) - CUTOFF_DISTANCE as real < box.0 as real + 1.0
    ensures box.1 as real <= Min(start.1, end.1) - CUTOFF_DISTANCE as real < box.1 as real + 1.0
    ensures box.2 as real <= Max(start.0, end.0) + CUTOFF_DISTANCE as real < box.2 as real + 1.0
    ensures box.3 as real <= Max(start.1, end.1) + CUTOFF_DISTANCE as real < box.3 as real + 1.0
  {
    ((Min(start.0, end.0) - CUTOFF_DISTANCE as real).Floor,
     (Min(start.1, end.1) - CUTOFF_DISTANCE as real).Floor,
     (Max(start.0, end.0) + CUTOFF_DISTANCE as real).Floor,
     (Max(start.1, end.1) + CUTOFF_DISTANCE as real).Floor)
  }

  /** The box holds every cell within the cutoff of the cell of either endpoint, whichever order the endpoints come in. */
  lemma AffAreaBboxCovers(start: Point, end: Point, p: Point, dx: int, dy: int)
    requires p == start || p == end
    requires -CUTOFF_DISTANCE <= dx <= CUTOFF_DISTANCE && -CUTOFF_DISTANCE <= dy <= CUTOFF_DISTANCE
    ensures AffAreaBbox(start, end) == AffAreaBbox(end, start)
    ensures var box := AffAreaBbox(start, end);
            box.0 <= p.0.Floor + dx <= box.2 && box.1 <= p.1.Floor + dy <= box.3
  {
  }

  /** `(i, j, radius)`: a row offset, a column offset and their distance from the source cell. */
  type KernelPair = (int, int, real)

  /** The side of the square of offsets the kernel ranges over. */
  const KERNEL_SIDE: int := 2 * CUTOFF_DISTANCE + 1

  predicate InKernelSquare(i: int, j: int)
  {
    -CUTOFF_DISTANCE <= i <= CUTOFF_DISTANCE && -CUTOFF_DISTANCE <= j <= CUTOFF_DISTANCE
  }

  /** The position of `(i, j)` in the row-major enumeration of the square. */
  function SquareIndex(i: int, j: int): int
  {
    (i + CUTOFF_DISTANCE) * KERNEL_SIDE + (j + CUTOFF_DISTANCE)
  }

  /** The pair at position `u` of the square, when it lies within the cutoff distance. */
  function KernelAt(u: int, sqrt: real -> real): seq<KernelPair>
  {
    var i := -CUTOFF_DISTANCE + u / KERNEL_SIDE;
    var j := -CUTOFF_DISTANCE + u % KERNEL_SIDE;
    var r := sqrt(Dist2(i, j) as real);
    if r <= CUTOFF_DISTANCE as real then [(i, j, r)] else []
  }

  /** The kernel pairs among the first `t` offsets of the square, in `itertools.product` order. */
  function KernelUpTo(t: nat, sqrt: real -> real): seq<KernelPair>
    requires t <= KERNEL_SIDE * KERNEL_SIDE
  {
    if t == 0 then [] else KernelUpTo(t - 1, sqrt) + KernelAt(t - 1, sqrt)
  }

  /** `ij_pairs`: every offset of the square within the cutoff distance, with its distance. */
  function Kernel(sqrt: real -> real): seq<KernelPair>
  {
    KernelUpTo(KERNEL_SIDE * KERNEL_SIDE, sqrt)
  }

  /** The module-level loop that fills `ij_pairs`. */
  method KernelPairs(sqrt: real -> real) returns (pairs: seq<KernelPair>)
    ensures pairs == Kernel(sqrt)
  {
    pairs := [];
    var t := 0;
    while t < KERNEL_SIDE * KERNEL_SIDE
      invariant 0 <= t <= KERNEL_SIDE * KERNEL_SIDE
      invariant pairs == KernelUpTo(t, sqrt)
    {
      var i := -CUTOFF_DISTANCE + t / KERNEL_SIDE;
      var j := -CUTOFF_DISTANCE + t % KERNEL_SIDE;
      var r := sqrt((i * i + j * j) as real);
      assert r == sqrt(Dist2(i, j) as real);
      if r <= CUTOFF_DISTANCE as real {
        pairs := pairs + [(i, j, r)];
      }
      t := t + 1;
    }
  }

  /** Position `u` of the enumeration is the offset pair `(-8 + u / 17, -8 + u % 17)`, and only that pair. */
  lemma SquareDecode(u: int, i: int, j: int)
    requires 0 <= u < KERNEL_SIDE * KERNEL_SIDE
    ensures InKernelSquare(-CUTOFF_DISTANCE + u / KERNEL_SIDE, -CUTOFF_DISTANCE + u % KERNEL_SIDE)
    ensures SquareIndex(-CUTOFF_DISTANCE + u / KERNEL_SIDE, -CUTOFF_DISTANCE + u % KERNEL_SIDE) == u
    ensures InKernelSquare(i, j) && SquareIndex(i, j) == u ==>
              i == -CUTOFF_DISTANCE + u / KERNEL_SIDE && j == -CUTOFF_DISTANCE + u % KERNEL_SIDE
  {
    assert KERNEL_SIDE == 17 && CUTOFF_DISTANCE == 8;
    if InKernelSquare(i, j) && SquareIndex(i, j) == u {
      assert u == (i + 8) * 17 + (j + 8);
      assert 0 <= j + 8 < 17;
    }
  }

  /** The squared distance of an offset pair. */
  function Dist2(i: int, j: int): int
  {
    i * i + j * j
  }

  lemma KernelAtMember(u: int, sqrt: real -> real, i: int, j: int, r: real)
    requires IsSqrt(sqrt) && 0 <= u < KERNEL_SIDE * KERNEL_SIDE
    ensures (i, j, r) in KernelAt(u, sqrt) <==>
              InKernelSquare(i, j) && SquareIndex(i, j) == u
              && Dist2(i, j) <= CUTOFF_DISTANCE * CUTOFF_DISTANCE && r == sqrt(Dist2(i, j) as real)
  {
    var i' := -CUTOFF_DISTANCE + u / KERNEL_SIDE;
    var j' := -CUTOFF_DISTANCE + u % KERNEL_SIDE;
    SquareDecode(u, i, j);
    assert Dist2(i', j') >= 0 by {
      assert i' * i' >= 0 && j' * j' >= 0;
    }
    SqrtAtMost(sqrt, Dist2(i', j') as real, CUTOFF_DISTANCE as real);
  }

  lemma {:induction false} KernelUpToMember(t: nat, sqrt: real -> real, i: int, j: int, r: real)
    requires IsSqrt(sqrt) && t <= KERNEL_SIDE * KERNEL_SIDE
    ensures (i, j, r) in KernelUpTo(t, sqrt) <==>
              InKernelSquare(i, j) && SquareIndex(i, j) < t
              && Dist2(i, j) <= CUTOFF_DISTANCE * CUTOFF_DISTANCE && r == sqrt(Dist2(i, j) as real)
  {
    if t > 0 {
      KernelUpToMember(t - 1, sqrt, i, j, r);
      KernelAtMember(t - 1, sqrt, i, j, r);
    }
  }

  /** `ij_pairs` holds exactly the offsets within the cutoff distance, each with its Euclidean distance. */
  lemma KernelMember(sqrt: real -> real, i: int, j: int, r: real)
    requires IsSqrt(sqrt)
    ensures (i, j, r) in Kernel(sqrt) <==>
              InKernelSquare(i, j) && Dist2(i, j) <= CUTOFF_DISTANCE * CUTOFF_DISTANCE
              && r == sqrt(Dist2(i, j) as real)
  {
    KernelUpToMember(KERNEL_SIDE * KERNEL_SIDE, sqrt, i, j, r);
    if InKernelSquare(i, j) {
      SquareIndexBound(i, j);
    }
  }

  lemma SquareIndexBound(i: int, j: int)
    requires InKernelSquare(i, j)
    ensures 0 <= SquareIndex(i, j) < KERNEL_SIDE * KERNEL_SIDE
  {
    assert KERNEL_SIDE == 17 && CUTOFF_DISTANCE == 8;
    assert SquareIndex(i, j) == (i + 8) * 17 + (j + 8);
  }

  lemma Dist2Sign(i: int, j: int)
    ensures Dist2(i, j) >= 0
    ensures Dist2(i, j) == 0 <==> i == 0 && j == 0
  {
    SquareSign(i as real, (i * i) as real);
    SquareSign(j as real, (j * j) as real);
  }

  /** Every kernel distance is zero (the source cell) or at least one cell. */
  lemma KernelRadius(sqrt: real -> real, p: KernelPair)
    requires IsSqrt(sqrt) && p in Kernel(sqrt)
    ensures p.2 == 0.0 || p.2 >= 1.0
    ensures p.2 == 0.0 <==> p.0 == 0 && p.1 == 0
  {
    KernelMember(sqrt, p.0, p.1, p.2);
    Dist2Sign(p.0, p.1);
    var x := Dist2(p.0, p.1) as real;
    SqrtZero(sqrt, x);
    if x != 0.0 {
      SquareMonotone(1.0, sqrt(x));
    }
  }

  /** The squared differences of row `i` of two matrices, over its first `n` columns. */
  function RowSquares(m1: array2<real>, m2: array2<real>, i: int, n: nat): real
    reads m1, m2
    requires 0 <= i < m1.Length0 == m2.Length0 && n <= m1.Length1 == m2.Length1
  {
    if n == 0 then 0.0
    else RowSquares(m1, m2, i, n - 1) + (m2[i, n - 1] - m1[i, n - 1]) * (m2[i, n - 1] - m1[i, n - 1])
  }

  /** The squared differences of the first `rows` rows of two matrices. */
  function SquaredDistance(m1: array2<real>, m2: array2<real>, rows: nat): real
    reads m1, m2
    requires rows <= m1.Length0 == m2.Length0 && m1.Length1 == m2.Length1
  {
    if rows == 0 then 0.0
    else SquaredDistance(m1, m2, rows - 1) + RowSquares(m1, m2, rows - 1, m1.Length1)
  }

  /** `comp_diff`: the Euclidean distance between the first `BM_ROWS` rows of two bitmaps, row by row. */
  method CompDiff(m1: array2<real>, m2: array2<real>, sqrt: real -> real) returns (d: real)
    requires m1.Length0 == m2.Length0 && m1.Length1 == m2.Length1 && BM_ROWS <= m1.Length0
    ensures d == sqrt(SquaredDistance(m1, m2, BM_ROWS))
  {
    var result := 0.0;
    var i := 0;
    while i < BM_ROWS
      invariant 0 <= i <= BM_ROWS
      invariant result == SquaredDistance(m1, m2, i)
    {
      result := result + RowSquares(m1, m2, i, m1.Length1);
      i := i + 1;
    }
    d := sqrt(result);
  }

  lemma {:induction false} RowSquaresZero(m1: array2<real>, m2: array2<real>, i: int, n: nat)
    requires 0 <= i < m1.Length0 == m2.Length0 && n <= m1.Length1 == m2.Length1
    ensures RowSquares(m1, m2, i, n) >= 0.0
    ensures RowSquares(m1, m2, i, n) == 0.0 <==> forall j :: 0 <= j < n ==> m1[i, j] == m2[i, j]
  {
    if n > 0 {
      RowSquaresZero(m1, m2, i, n - 1);
      var d := m2[i, n - 1] - m1[i, n - 1];
      SquareSign(d, RowSquares(m1, m2, i, n) - RowSquares(m1, m2, i, n - 1));
    }
  }

  lemma {:induction false} SquaredDistanceZero(m1: array2<real>, m2: array2<real>, rows: nat)
    requires rows <= m1.Length0 == m2.Length0 && m1.Length1 == m2.Length1
    ensures SquaredDistance(m1, m2, rows) >= 0.0
    ensures SquaredDistance(m1, m2, rows) == 0.0 <==>
              forall i, j :: 0 <= i < rows && 0 <= j < m1.Length1 ==> m1[i, j] == m2[i, j]
  {
    if rows > 0 {
      SquaredDistanceZero(m1, m2, rows - 1);
      RowSquaresZero(m1, m2, rows - 1, m1.Length1);
    }
  }

  /** The difference of two bitmaps is non-negative, and zero exactly when they agree on the compared rows. */
  lemma CompDiffZero(m1: array2<real>, m2: array2<real>, sqrt: real -> real)
    requires IsSqrt(sqrt)
    requires m1.Length0 == m2.Length0 && m1.Length1 == m2.Length1 && BM_ROWS <= m1.Length0
    ensures sqrt(SquaredDistance(m1, m2, BM_ROWS)) >= 0.0
    ensures sqrt(SquaredDistance(m1, m2, BM_ROWS)) == 0.0 <==>
              forall i, j :: 0 <= i < BM_ROWS && 0 <= j < m1.Length1 ==> m1[i, j] == m2[i, j]
  {
    SquaredDistanceZero(m1, m2, BM_ROWS);
    SqrtZero(sqrt, SquaredDistance(m1, m2, BM_ROWS));
  }

  /** A bitmap cell: column, row. */
  type Cell = (int, int)

  predicate InGrid(x: int, y: int)
  {
    0 <= x < BM_COLS && 0 <= y < BM_ROWS
  }

  /** The line through two points of different abscissae, evaluated at `x`: `m * x + y_int`. */
  function ChordY(a: Point, b: Point, x: real): real
    requires a.0 != b.0
  {
    var m := (b.1 - a.1) / (b.0 - a.0);
    var yInt := a.1 - m * a.0;
    m * x + yInt
  }

  lemma ChordThroughEndpoints(a: Point, b: Point)
    requires a.0 != b.0
    ensures ChordY(a, b, a.0) == a.1 && ChordY(a, b, b.0) == b.1
  {
    var m := (b.1 - a.1) / (b.0 - a.0);
    DivMul(b.1 - a.1, b.0 - a.0);
    assert ChordY(a, b, a.0) == m * a.0 + (a.1 - m * a.0);
    assert ChordY(a, b, b.0) == m * b.0 + (a.1 - m * a.0);
    assert m * b.0 - m * a.0 == m * (b.0 - a.0);
  }

  /** The western and the eastern endpoint: `a` and `b` of `comp_all` (`end` first when the abscissae tie). */
  function WestEast(start: Point, end: Point): (Point, Point)
  {
    if start.0 < end.0 then (start, end) else (end, start)
  }

  /** `src_cells`: the cells a segment between two bitmap points crosses. */
  function SourceCells(start: Point, end: Point): (cells: seq<Cell>)
    ensures |cells| >= 1
  {
    var (a, b) := WestEast(start, end);
    var xMin := a.0.Floor;
    var xMax := b.0.Floor;
    var yMin := if a.1 < b.1 then a.1.Floor else b.1.Floor;
    var yMax := if a.1 < b.1 then b.1.Floor else a.1.Floor;
    if xMin == xMax then seq(yMax - yMin + 1, k => (xMin, yMin + k))
    else if yMin == yMax then seq(xMax - xMin + 1, k => (xMin + k, yMin))
    else seq(xMax - xMin + 1, k => (xMin + k, ChordY(a, b, (xMin + k) as real).Floor))
  }

  /** The cells do not depend on the direction the link is drawn in. */
  lemma SourceCellsSymmetric(start: Point, end: Point)
    ensures SourceCells(start, end) == SourceCells(end, start)
  {
  }

  /** A segment within one column gives the cells of that column from the lower to the higher endpoint row, both endpoint cells included. */
  lemma SourceCellsColumn(start: Point, end: Point)
    requires start.0.Floor == end.0.Floor
    ensures var yMin := Min(start.1, end.1).Floor;
            var cells := SourceCells(start, end);
            |cells| == Max(start.1, end.1).Floor - yMin + 1
            && (forall k :: 0 <= k < |cells| ==> cells[k] == (start.0.Floor, yMin + k))
            && (start.0.Floor, start.1.Floor) in cells && (end.0.Floor, end.1.Floor) in cells
  {
    var cells := SourceCells(start, end);
    var yMin := Min(start.1, end.1).Floor;
    assert cells[start.1.Floor - yMin] == (start.0.Floor, start.1.Floor);
    assert cells[end.1.Floor - yMin] == (end.0.Floor, end.1.Floor);
  }

  /** Otherwise there is one cell per column from the western to the eastern endpoint column. */
  lemma SourceCellsColumns(start: Point, end: Point)
    requires start.0.Floor != end.0.Floor
    ensures var xMin := Min(start.0, end.0).Floor;
            var cells := SourceCells(start, end);
            |cells| == Max(start.0, end.0).Floor - xMin + 1
            && forall k :: 0 <= k < |cells| ==> cells[k].0 == xMin + k
  {
  }

  /** Within one row, that row; across rows, the row where the segment's line meets the column. */
  lemma SourceCellsRows(start: Point, end: Point, k: nat)
    requires start.0.Floor != end.0.Floor && k < |SourceCells(start, end)|
    ensures var c := SourceCells(start, end)[k];
            if start.1.Floor == end.1.Floor then c.1 == start.1.Floor
            else c.1 as real <= ChordY(start, end, c.0 as real) < c.1 as real + 1.0
  {
    if start.1.Floor != end.1.Floor {
      var (a, b) := WestEast(start, end);
      var x := SourceCells(start, end)[k].0 as real;
      if a != start {
        ChordSwap(start, end, x);
      }
    }
  }

  lemma ChordSwap(a: Point, b: Point, x: real)
    requires a.0 != b.0
    ensures ChordY(a, b, x) == ChordY(b, a, x)
  {
    var m := (b.1 - a.1) / (b.0 - a.0);
    var m' := (a.1 - b.1) / (a.0 - b.0);
    assert m * (b.0 - a.0) == b.1 - a.1;
    assert m' * (a.0 - b.0) == a.1 - b.1;
    assert m' * (b.0 - a.0) == b.1 - a.1;
    assert (m - m') * (b.0 - a.0) == 0.0;
    if m != m' {
      if m > m' {
        if b.0 > a.0 { MulPositive(m - m', b.0 - a.0); } else { MulPositive(m - m', a.0 - b.0); }
      } else {
        if b.0 > a.0 { MulPositive(m' - m, b.0 - a.0); } else { MulPositive(m' - m, a.0 - b.0); }
      }
    }
  }

  /** One addition to the bitmap: `value` added at column `x`, row `y`. */
  datatype Splat = Splat(x: int, y: int, value: real)

  /** The addition a kernel pair makes around a source cell for a link of quantity `q`. */
  function SplatAt(src: Cell, p: KernelPair, q: real): Splat
  {
    Splat(src.0 + p.1, src.1 + p.0, CompAffect(q, p.2))
  }

  function OnGrid(c: Splat): bool
  {
    InGrid(c.x, c.y)
  }

  /** The additions around one source cell, in kernel order, dropping the cells off the bitmap. */
  function SourceSplats(src: Cell, pairs: seq<KernelPair>, q: real): seq<Splat>
  {
    if pairs == [] then []
    else
      var c := SplatAt(src, pairs[|pairs| - 1], q);
      SourceSplats(src, pairs[..|pairs| - 1], q) + (if OnGrid(c) then [c] else [])
  }

  /** The additions around each source cell in turn. */
  function CellsSplats(cells: seq<Cell>, pairs: seq<KernelPair>, q: real): seq<Splat>
  {
    if cells == [] then []
    else CellsSplats(cells[..|cells| - 1], pairs, q) + SourceSplats(cells[|cells| - 1], pairs, q)
  }

  /** The first two points of every link that has emissions exist; otherwise `comp_all` raises an IndexError. */
  predicate Drawable(links: seq<Link>, emissions: map<int, LinkEmissions>)
  {
    forall k :: 0 <= k < |links| && links[k].id in emissions ==> |links[k].points| >= 2
  }

  lemma DrawablePrefix(links: seq<Link>, emissions: map<int, LinkEmissions>, n: nat)
    requires Drawable(links, emissions) && n <= |links|
    ensures Drawable(links[..n], emissions)
  {
    forall k | 0 <= k < n && links[k].id in emissions
      ensures |links[..n][k].points| >= 2
    {
      assert links[..n][k] == links[k];
    }
  }

  /** The cells of a link's first segment, in bitmap coordinates. */
  function LinkSources(l: Link): seq<Cell>
    requires |l.points| >= 2
  {
    SourceCells(UtmToBm(l.points[0]), UtmToBm(l.points[1]))
  }

  /** The additions a link makes: none when it has no emissions. */
  function LinkSplats(l: Link, emissions: map<int, LinkEmissions>, pairs: seq<KernelPair>): seq<Splat>
    requires l.id in emissions ==> |l.points| >= 2
  {
    if l.id !in emissions then []
    else CellsSplats(LinkSources(l), pairs, emissions[l.id].quantity)
  }

  /** Every addition `comp_all` makes, link after link. */
  function AllSplats(links: seq<Link>, emissions: map<int, LinkEmissions>, pairs: seq<KernelPair>): seq<Splat>
    requires Drawable(links, emissions)
  {
    if links == [] then []
    else
      DrawablePrefix(links, emissions, |links| - 1);
      AllSplats(links[..|links| - 1], emissions, pairs) + LinkSplats(links[|links| - 1], emissions, pairs)
  }

  /** The value a bitmap cell holds after the additions. */
  function Heat(splats: seq<Splat>, x: int, y: int): real
  {
    if splats == [] then 0.0
    else
      var c := splats[|splats| - 1];
      Heat(splats[..|splats| - 1], x, y) + (if c.x == x && c.y == y then c.value else 0.0)
  }

  /** `max_value`: the running maximum of each updated cell's new value, from 0. */
  function MaxReplay(splats: seq<Splat>): real
  {
    if splats == [] then 0.0
    else
      var m := MaxReplay(splats[..|splats| - 1]);
      var c := splats[|splats| - 1];
      var v := Heat(splats, c.x, c.y);
      if v > m then v else m
  }

  /** The cells the additions touched, in order. */
  function Cells(splats: seq<Splat>): seq<Cell>
  {
    if splats == [] then []
    else Cells(splats[..|splats| - 1]) + [(splats[|splats| - 1].x, splats[|splats| - 1].y)]
  }

  /** `link_cells`: per link id with emissions, the cells its additions touched; a repeated id starts over. */
  function LinkCellsTable(links: seq<Link>, emissions: map<int, LinkEmissions>, pairs: seq<KernelPair>): map<int, seq<Cell>>
    requires Drawable(links, emissions)
  {
    if links == [] then map[]
    else
      var l := links[|links| - 1];
      DrawablePrefix(links, emissions, |links| - 1);
      var t := LinkCellsTable(links[..|links| - 1], emissions, pairs);
      if l.id in emissions then t[l.id := Cells(LinkSplats(l, emissions, pairs))] else t
  }

  lemma {:induction false} CellsAppend(s: seq<Splat>, t: seq<Splat>)
    ensures Cells(s + t) == Cells(s) + Cells(t)
  {
    if t != [] {
      assert (s + t)[..|s + t| - 1] == s + t[..|t| - 1];
      CellsAppend(s, t[..|t| - 1]);
    } else {
      assert s + t == s;
    }
  }

  /** The bitmap holds the heat of `done` in every cell. */
  ghost predicate Holds(result: array2<real>, done: seq<Splat>)
    reads result
    requires result.Length0 == BM_ROWS && result.Length1 == BM_COLS
  {
    forall y, x :: 0 <= y < BM_ROWS && 0 <= x < BM_COLS ==> result[y, x] == Heat(done, x, y)
  }

  lemma HeatSnoc(done: seq<Splat>, c: Splat, x: int, y: int)
    ensures Heat(done + [c], x, y) == Heat(done, x, y) + (if c.x == x && c.y == y then c.value else 0.0)
  {
    assert (done + [c])[..|done|] == done;
  }

  /** One update `result[y][x] += ...` followed by the maximum test. */
  method AddSplat(result: array2<real>, c: Splat, maxIn: real, ghost done: seq<Splat>) returns (maxOut: real)
    modifies result
    requires result.Length0 == BM_ROWS && result.Length1 == BM_COLS && OnGrid(c)
    requires Holds(result, done) && maxIn == MaxReplay(done)
    ensures Holds(result, done + [c]) && maxOut == MaxReplay(done + [c])
  {
    result[c.y, c.x] := result[c.y, c.x] + c.value;
    forall y, x | 0 <= y < BM_ROWS && 0 <= x < BM_COLS
      ensures result[y, x] == Heat(done + [c], x, y)
    {
      HeatSnoc(done, c, x, y);
    }
    assert (done + [c])[..|done|] == done;
    maxOut := maxIn;
    if result[c.y, c.x] > maxOut {
      maxOut := result[c.y, c.x];
    }
  }

  /** The innermost loop of `comp_all`: spreads one source cell's heat over the kernel. */
  method SplatSource(result: array2<real>, src: Cell, pairs: seq<KernelPair>, q: real, maxIn: real,
                     ghost before: seq<Splat>)
    returns (maxOut: real, cells: seq<Cell>)
    modifies result
    requires result.Length0 == BM_ROWS && result.Length1 == BM_COLS
    requires Holds(result, before) && maxIn == MaxReplay(before)
    ensures Holds(result, before + SourceSplats(src, pairs, q))
    ensures maxOut == MaxReplay(before + SourceSplats(src, pairs, q))
    ensures cells == Cells(SourceSplats(src, pairs, q))
  {
    maxOut := maxIn;
    cells := [];
    var k := 0;
    assert before + SourceSplats(src, pairs[..0], q) == before;
    while k < |pairs|
      invariant 0 <= k <= |pairs|
      invariant Holds(result, before + SourceSplats(src, pairs[..k], q))
      invariant maxOut == MaxReplay(before + SourceSplats(src, pairs[..k], q))
      invariant cells == Cells(SourceSplats(src, pairs[..k], q))
    {
      ghost var added := SourceSplats(src, pairs[..k], q);
      ghost var done := before + added;
      SourceSplatsStep(src, pairs, q, k);
      var i, j, radius := pairs[k].0, pairs[k].1, pairs[k].2;
      var x, y := src.0 + j, src.1 + i;
      if 0 <= x < BM_COLS && 0 <= y < BM_ROWS {
        var c := Splat(x, y, CompAffect(q, radius));
        assert c == SplatAt(src, pairs[k], q);
        SnocAfter(before, added, c);
        CellsAppend(added, [c]);
        cells := cells + [(x, y)];
        maxOut := AddSplat(result, c, maxOut, done);
      } else {
        assert !OnGrid(SplatAt(src, pairs[k], q));
      }
      k := k + 1;
    }
    assert pairs[..k] == pairs;
  }

  lemma SourceSplatsStep(src: Cell, pairs: seq<KernelPair>, q: real, k: nat)
    requires k < |pairs|
    ensures OnGrid(SplatAt(src, pairs[k], q)) ==>
              SourceSplats(src, pairs[..k + 1], q) == SourceSplats(src, pairs[..k], q) + [SplatAt(src, pairs[k], q)]
    ensures !OnGrid(SplatAt(src, pairs[k], q)) ==>
              SourceSplats(src, pairs[..k + 1], q) == SourceSplats(src, pairs[..k], q)
  {
    assert pairs[..k + 1][..k] == pairs[..k];
  }

  lemma SnocAfter<T>(before: seq<T>, added: seq<T>, c: T)
    ensures before + (added + [c]) == (before + added) + [c]
  {
  }

  /** The loop over a link's source cells. */
  method SplatCells(result: array2<real>, srcCells: seq<Cell>, pairs: seq<KernelPair>, q: real, maxIn: real,
                    ghost before: seq<Splat>)
    returns (maxOut: real, cells: seq<Cell>)
    modifies result
    requires result.Length0 == BM_ROWS && result.Length1 == BM_COLS
    requires Holds(result, before) && maxIn == MaxReplay(before)
    ensures Holds(result, before + CellsSplats(srcCells, pairs, q))
    ensures maxOut == MaxReplay(before + CellsSplats(srcCells, pairs, q))
    ensures cells == Cells(CellsSplats(srcCells, pairs, q))
  {
    maxOut := maxIn;
    cells := [];
    var k := 0;
    assert before + CellsSplats(srcCells[..0], pairs, q) == before;
    while k < |srcCells|
      invariant 0 <= k <= |srcCells|
      invariant Holds(result, before + CellsSplats(srcCells[..k], pairs, q))
      invariant maxOut == MaxReplay(before + CellsSplats(srcCells[..k], pairs, q))
      invariant cells == Cells(CellsSplats(srcCells[..k], pairs, q))
    {
      assert srcCells[..k + 1][..k] == srcCells[..k];
      ghost var done := CellsSplats(srcCells[..k], pairs, q);
      ghost var more := SourceSplats(srcCells[k], pairs, q);
      assert CellsSplats(srcCells[..k + 1], pairs, q) == done + more;
      assert before + (done + more) == (before + done) + more;
      var m, c := SplatSource(result, srcCells[k], pairs, q, maxOut, before + done);
      CellsAppend(done, more);
      maxOut, cells := m, cells + c;
      k := k + 1;
    }
    assert srcCells[..k] == srcCells;
  }

  lemma AllSplatsSnoc(links: seq<Link>, emissions: map<int, LinkEmissions>, pairs: seq<KernelPair>, k: nat)
    requires k < |links| && Drawable(links[..k], emissions)
    requires links[k].id in emissions ==> |links[k].points| >= 2
    ensures Drawable(links[..k + 1], emissions)
    ensures AllSplats(links[..k + 1], emissions, pairs)
            == AllSplats(links[..k], emissions, pairs) + LinkSplats(links[k], emissions, pairs)
    ensures links[k].id !in emissions ==> AllSplats(links[..k + 1], emissions, pairs) == AllSplats(links[..k], emissions, pairs)
    ensures LinkCellsTable(links[..k + 1], emissions, pairs)
            == if links[k].id in emissions
               then LinkCellsTable(links[..k], emissions, pairs)[links[k].id := Cells(LinkSplats(links[k], emissions, pairs))]
               else LinkCellsTable(links[..k], emissions, pairs)
  {
    assert links[..k + 1] == links[..k] + [links[k]];
    assert links[..k + 1][..k] == links[..k];
    assert AllSplats(links[..k], emissions, pairs) + [] == AllSplats(links[..k], emissions, pairs);
  }

  /** A link with emissions and fewer than two points makes the links undrawable. */
  lemma Undrawable(links: seq<Link>, emissions: map<int, LinkEmissions>, k: nat)
    requires k < |links| && links[k].id in emissions && |links[k].points| < 2
    ensures !Drawable(links, emissions)
  {
  }

  /** One iteration of the loop over `network.links`, for a link with emissions and at least two points. */
  method SplatLink(result: array2<real>, link: Link, emissions: map<int, LinkEmissions>, pairs: seq<KernelPair>,
                   maxIn: real, ghost before: seq<Splat>)
    returns (maxOut: real, cells: seq<Cell>)
    modifies result
    requires result.Length0 == BM_ROWS && result.Length1 == BM_COLS
    requires link.id in emissions && |link.points| >= 2
    requires Holds(result, before) && maxIn == MaxReplay(before)
    ensures Holds(result, before + LinkSplats(link, emissions, pairs))
    ensures maxOut == MaxReplay(before + LinkSplats(link, emissions, pairs))
    ensures cells == Cells(LinkSplats(link, emissions, pairs))
  {
    var start := UtmToBm(link.points[0]);
    var end := UtmToBm(link.points[1]);
    var srcCells := SourceCells(start, end);
    var em := emissions[link.id];
    maxOut, cells := SplatCells(result, srcCells, pairs, em.quantity, maxIn, before);
  }

  /**
   * `comp_all`: the heat bitmap, the cells each link with emissions touched
   * and the largest value any cell reached. A link with emissions and fewer
   * than two points raises an IndexError, which is `ok == false`.
   */
  method CompAll(links: seq<Link>, emissions: map<int, LinkEmissions>, sqrt: real -> real)
    returns (ok: bool, result: array2<real>, linkCells: map<int, seq<Cell>>, maxValue: real)
    ensures fresh(result) && result.Length0 == BM_ROWS && result.Length1 == BM_COLS
    ensures ok <==> Drawable(links, emissions)
    ensures ok ==> Holds(result, AllSplats(links, emissions, Kernel(sqrt)))
    ensures ok ==> linkCells == LinkCellsTable(links, emissions, Kernel(sqrt))
    ensures ok ==> maxValue == MaxReplay(AllSplats(links, emissions, Kernel(sqrt)))
  {
    var pairs := KernelPairs(sqrt);
    result := new real[BM_ROWS, BM_COLS]((y, x) => 0.0);
    linkCells := map[];
    maxValue := 0.0;
    var k := 0;
    while k < |links|
      invariant 0 <= k <= |links|
      invariant Drawable(links[..k], emissions)
      invariant Holds(result, AllSplats(links[..k], emissions, pairs))
      invariant maxValue == MaxReplay(AllSplats(links[..k], emissions, pairs))
      invariant linkCells == LinkCellsTable(links[..k], emissions, pairs)
    {
      var link := links[k];
      if link.id in emissions && |link.points| < 2 {
        Undrawable(links, emissions, k);
        ok := false;
        return;
      }
      AllSplatsSnoc(links, emissions, pairs, k);
      if link.id in emissions {
        var m, cells := SplatLink(result, link, emissions, pairs, maxValue, AllSplats(links[..k], emissions, pairs));
        maxValue := m;
        linkCells := linkCells[link.id := cells];
      }
      k := k + 1;
    }
    assert links[..k] == links;
    ok := true;
  }

  /** `max_value` is at least zero and at least the final value of every cell. */
  lemma {:induction false} MaxReplayAtLeast(splats: seq<Splat>, x: int, y: int)
    ensures MaxReplay(splats) >= 0.0 && MaxReplay(splats) >= Heat(splats, x, y)
  {
    if splats != [] {
      var init := splats[..|splats| - 1];
      MaxReplayAtLeast(init, x, y);
    }
  }

  /**
   * With non-negative additions `max_value` is attained: it is 0 or the final
   * value of a touched cell, given by its index in the additions.
   */
  lemma {:induction false} MaxReplayAttained(splats: seq<Splat>) returns (k: int)
    requires forall i :: 0 <= i < |splats| ==> splats[i].value >= 0.0
    ensures MaxReplay(splats) == 0.0
            || (0 <= k < |splats| && MaxReplay(splats) == Heat(splats, splats[k].x, splats[k].y))
  {
    k := -1;
    if splats != [] {
      var init := splats[..|splats| - 1];
      var c := splats[|splats| - 1];
      var k' := MaxReplayAttained(init);
      if Heat(splats, c.x, c.y) > MaxReplay(init) {
        k := |splats| - 1;
      } else if MaxReplay(init) != 0.0 {
        k := k';
        var x, y := splats[k].x, splats[k].y;
        assert init[k] == splats[k];
        MaxReplayAtLeast(splats, x, y);
      }
    }
  }

  /** An addition of one source is the kernel pair it comes from, placed around the source, on the bitmap. */
  lemma {:induction false} SourceSplatsMember(src: Cell, pairs: seq<KernelPair>, q: real, c: Splat)
    ensures c in SourceSplats(src, pairs, q) <==> exists p :: p in pairs && OnGrid(SplatAt(src, p, q)) && c == SplatAt(src, p, q)
  {
    if pairs != [] {
      var init := pairs[..|pairs| - 1];
      SourceSplatsMember(src, init, q, c);
      assert pairs == init + [pairs[|pairs| - 1]];
    }
  }

  /**
   * Around a source cell the kernel adds, on the bitmap, exactly at the cells
   * within the cutoff distance, `CompAffect` of the quantity and the distance.
   */
  lemma SourceSplatsKernel(src: Cell, sqrt: real -> real, q: real, c: Splat)
    requires IsSqrt(sqrt)
    ensures var dx, dy := c.x - src.0, c.y - src.1;
            c in SourceSplats(src, Kernel(sqrt), q) <==>
              InGrid(c.x, c.y) && InKernelSquare(dy, dx) && Dist2(dy, dx) <= CUTOFF_DISTANCE * CUTOFF_DISTANCE
              && c.value == CompAffect(q, sqrt(Dist2(dy, dx) as real))
  {
    var dx, dy := c.x - src.0, c.y - src.1;
    var r := sqrt(Dist2(dy, dx) as real);
    SourceSplatsMember(src, Kernel(sqrt), q, c);
    KernelMember(sqrt, dy, dx, r);
    if c in SourceSplats(src, Kernel(sqrt), q) {
      var p :| p in Kernel(sqrt) && OnGrid(SplatAt(src, p, q)) && c == SplatAt(src, p, q);
      KernelMember(sqrt, p.0, p.1, p.2);
    }
  }

  /** Every addition around a source lies on the bitmap and, for a non-negative quantity, is between 0 and the quantity. */
  lemma SourceSplatsBounded(src: Cell, sqrt: real -> real, q: real, c: Splat)
    requires IsSqrt(sqrt) && c in SourceSplats(src, Kernel(sqrt), q)
    ensures OnGrid(c) && (q >= 0.0 ==> 0.0 <= c.value <= q)
  {
    SourceSplatsMember(src, Kernel(sqrt), q, c);
    var p :| p in Kernel(sqrt) && OnGrid(SplatAt(src, p, q)) && c == SplatAt(src, p, q);
    KernelRadius(sqrt, p);
    if q >= 0.0 {
      CompAffectAttenuates(q, p.2);
    }
  }

  lemma {:induction false} CellsSplatsBounded(cells: seq<Cell>, sqrt: real -> real, q: real, c: Splat)
    requires IsSqrt(sqrt) && c in CellsSplats(cells, Kernel(sqrt), q)
    ensures OnGrid(c) && (q >= 0.0 ==> 0.0 <= c.value <= q)
  {
    var init := cells[..|cells| - 1];
    if c in CellsSplats(init, Kernel(sqrt), q) {
      CellsSplatsBounded(init, sqrt, q, c);
    } else {
      SourceSplatsBounded(cells[|cells| - 1], sqrt, q, c);
    }
  }

  /** Every addition of a link lies on the bitmap and is between 0 and the link's quantity when that is non-negative. */
  lemma LinkSplatsBounded(l: Link, emissions: map<int, LinkEmissions>, sqrt: real -> real, c: Splat)
    requires IsSqrt(sqrt) && (l.id in emissions ==> |l.points| >= 2)
    requires c in LinkSplats(l, emissions, Kernel(sqrt))
    ensures l.id in emissions && OnGrid(c)
    ensures emissions[l.id].quantity >= 0.0 ==> 0.0 <= c.value <= emissions[l.id].quantity
  {
    CellsSplatsBounded(LinkSources(l), sqrt, emissions[l.id].quantity, c);
  }

  lemma {:induction false} CellsMember(splats: seq<Splat>, cell: Cell) returns (i: int)
    requires cell in Cells(splats)
    ensures 0 <= i < |splats| && (splats[i].x, splats[i].y) == cell
  {
    var init := splats[..|splats| - 1];
    if cell in Cells(init) {
      i := CellsMember(init, cell);
    } else {
      i := |splats| - 1;
    }
  }

  predicate NonNegativeQuantities(emissions: map<int, LinkEmissions>)
  {
    forall id :: id in emissions ==> emissions[id].quantity >= 0.0
  }

  lemma {:induction false} AllSplatsBounded(links: seq<Link>, emissions: map<int, LinkEmissions>, sqrt: real -> real, c: Splat)
    requires IsSqrt(sqrt) && Drawable(links, emissions) && NonNegativeQuantities(emissions)
    requires c in AllSplats(links, emissions, Kernel(sqrt))
    ensures OnGrid(c) && c.value >= 0.0
  {
    var init := links[..|links| - 1];
    DrawablePrefix(links, emissions, |links| - 1);
    if c in AllSplats(init, emissions, Kernel(sqrt)) {
      AllSplatsBounded(init, emissions, sqrt, c);
    } else {
      var l := links[|links| - 1];
      assert l.id in emissions;
      LinkSplatsBounded(l, emissions, sqrt, c);
    }
  }

  /**
   * `comp_all`'s `max_value` is the largest value of the bitmap: no cell
   * exceeds it, and (quantities being non-negative) it is 0 or the value of
   * some cell on the bitmap.
   */
  lemma MaxValueIsMaximum(links: seq<Link>, emissions: map<int, LinkEmissions>, sqrt: real -> real)
    returns (x: int, y: int)
    requires IsSqrt(sqrt) && Drawable(links, emissions) && NonNegativeQuantities(emissions)
    ensures var all := AllSplats(links, emissions, Kernel(sqrt));
            (forall x', y' :: Heat(all, x', y') <= MaxReplay(all))
            && InGrid(x, y) && (MaxReplay(all) == 0.0 || MaxReplay(all) == Heat(all, x, y))
  {
    var all := AllSplats(links, emissions, Kernel(sqrt));
    forall x', y' ensures Heat(all, x', y') <= MaxReplay(all) {
      MaxReplayAtLeast(all, x', y');
    }
    forall i | 0 <= i < |all| ensures all[i].value >= 0.0 && OnGrid(all[i]) {
      AllSplatsBounded(links, emissions, sqrt, all[i]);
    }
    var k := MaxReplayAttained(all);
    if 0 <= k < |all| {
      x, y := all[k].x, all[k].y;
    } else {
      x, y := 0, 0;
    }
  }

  /** Additions of non-negative values leave every cell non-negative. */
  lemma {:induction false} HeatNonNegative(splats: seq<Splat>, x: int, y: int)
    requires forall i :: 0 <= i < |splats| ==> splats[i].value >= 0.0
    ensures Heat(splats, x, y) >= 0.0
  {
    if splats != [] {
      HeatNonNegative(splats[..|splats| - 1], x, y);
    }
  }

  /**
   * With non-negative emission quantities every cell of `comp_all`'s bitmap
   * is at least 0, the lower end of the colour ranges the plots use.
   */
  lemma TableNonNegative(links: seq<Link>, emissions: map<int, LinkEmissions>, sqrt: real -> real, x: int, y: int)
    requires IsSqrt(sqrt) && Drawable(links, emissions) && NonNegativeQuantities(emissions)
    ensures Heat(AllSplats(links, emissions, Kernel(sqrt)), x, y) >= 0.0
  {
    var all := AllSplats(links, emissions, Kernel(sqrt));
    forall i | 0 <= i < |all| ensures all[i].value >= 0.0 {
      AllSplatsBounded(links, emissions, sqrt, all[i]);
    }
    HeatNonNegative(all, x, y);
  }

  /** `link_cells` has an entry for exactly the links with emissions, and every listed cell lies on the bitmap. */
  lemma {:induction false} LinkCellsTableShape(links: seq<Link>, emissions: map<int, LinkEmissions>, sqrt: real -> real)
    requires IsSqrt(sqrt) && Drawable(links, emissions)
    ensures LinkCellsTable(links, emissions, Kernel(sqrt)).Keys
            == set k | 0 <= k < |links| && links[k].id in emissions :: links[k].id
    ensures forall id, cell ::
              (id in LinkCellsTable(links, emissions, Kernel(sqrt)) && cell in LinkCellsTable(links, emissions, Kernel(sqrt))[id])
              ==> InGrid(cell.0, cell.1)
  {
    if links != [] {
      var init := links[..|links| - 1];
      DrawablePrefix(links, emissions, |links| - 1);
      LinkCellsTableShape(init, emissions, sqrt);
      var l := links[|links| - 1];
      assert forall k :: 0 <= k < |init| ==> init[k] == links[k];
      if l.id in emissions {
        var added := LinkSplats(l, emissions, Kernel(sqrt));
        forall cell | cell in Cells(added) ensures InGrid(cell.0, cell.1) {
          var i := CellsMember(added, cell);
          LinkSplatsBounded(l, emissions, sqrt, added[i]);
        }
      }
    }
  }
}
