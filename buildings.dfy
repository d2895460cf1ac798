/**
 * Building records and the id-keyed building collection: construction with
 * the count normalised by area, cloning, merging two collections and reading
 * a collection from CSV rows.
 */
module Buildings {
  import opened Wrappers
  import opened Text
  import opened Tables
  import opened RoadNet

  /** A building: id, centroid, footprint area, bounding-box sides, and the optional count with its density. */
  datatype Building = Building(id: int, center: Point, area: real,
                               east: real, west: real, north: real, south: real,
                               count: Option<int>, normCount: Option<real>)

  /** A building as the constructor leaves it: the density is the count over the area. */
  predicate WellFormed(b: Building)
  {
    match b.count
    case None => b.normCount.None?
    case Some(c) => b.area != 0.0 && b.normCount == Some(c as real / b.area)
  }

  /**
   * `Building.__init__`. With a count, the density `count / area` is stored,
   * and a zero area raises ZeroDivisionError; without one there is no density.
   */
  function NewBuilding(id: int, cx: real, cy: real, area: real, east: real, west: real,
                       north: real, south: real, count: Option<int>): (r: Option<Building>)
    ensures r.Some? <==> (count.None? || area != 0.0)
    ensures r.Some? ==> WellFormed(r.value) && r.value.count == count
    ensures r.Some? ==> (r.value.normCount.Some? <==> count.Some?)
    ensures r.Some? && count.Some? ==> r.value.normCount.value * area == count.value as real
  {
    if count.Some? && area == 0.0 then None
    else
      var norm := if count.Some? then Some(count.value as real / area) else None;
      Some(Building(id, (cx, cy), area, east, west, north, south, count, norm))
  }

  /** `bbox_pts`: the corners north-east, north-west, south-west, south-east. */
  function BboxPts(b: Building): (pts: seq<Point>)
    ensures |pts| == 4
    ensures b.west <= b.east && b.south <= b.north ==>
              forall k :: 0 <= k < 4 ==>
                pts[1].0 == pts[2].0 <= pts[k].0 <= pts[0].0 == pts[3].0
                && pts[2].1 == pts[3].1 <= pts[k].1 <= pts[0].1 == pts[1].1
    ensures pts[0] == (b.east, b.north) && pts[2] == (b.west, b.south)
  {
    [(b.east, b.north), (b.west, b.north), (b.west, b.south), (b.east, b.south)]
  }

  /** `clone`: a new building from this one's constructor arguments. */
  function Clone(b: Building): (r: Option<Building>)
  {
    NewBuilding(b.id, b.center.0, b.center.1, b.area, b.east, b.west, b.north, b.south, b.count)
  }

  /** A constructed building clones to an equal one, and only such a building does. */
  lemma CloneEqual(b: Building)
    ensures Clone(b) == Some(b) <==> WellFormed(b)
  {
    if WellFormed(b) {
      assert b.center == (b.center.0, b.center.1);
    }
  }

  /** `clone` of a constructed building, which cannot raise. */
  function CloneOf(b: Building): (c: Building)
    requires WellFormed(b)
    ensures Clone(b) == Some(c) && c == b
  {
    CloneEqual(b);
    Clone(b).value
  }

  /** Every building is stored under its own id and is as the constructor left it. */
  predicate Keyed(m: map<int, Building>)
  {
    forall k :: k in m ==> m[k].id == k && WellFormed(m[k])
  }

  function IdOf(b: Building): int { b.id }

  /**
   * One CSV row: the id in column 0, seven floats in columns 1 to 7, and the
   * count in column 8 when the header has a count column. A short row or a
   * field that does not convert raises.
   */
  function ParseRow(row: seq<string>, hasCount: bool): (r: Option<Building>)
    ensures r.Some? ==> |row| >= 8 && (hasCount ==> |row| >= 9)
    ensures r.Some? ==> r.value.count.Some? == hasCount && WellFormed(r.value) && PyInt(row[0]) == Some(r.value.id)
  {
    if |row| < 8 || (hasCount && |row| < 9) then None
    else if PyInt(row[0]).None? || PyFloat(row[1]).None? || PyFloat(row[2]).None? || PyFloat(row[3]).None?
         || PyFloat(row[4]).None? || PyFloat(row[5]).None? || PyFloat(row[6]).None? || PyFloat(row[7]).None?
         || (hasCount && PyInt(row[8]).None?) then None
    else
      var count := if hasCount then Some(PyInt(row[8]).value) else None;
      NewBuilding(PyInt(row[0]).value, PyFloat(row[1]).value, PyFloat(row[2]).value, PyFloat(row[3]).value,
                  PyFloat(row[4]).value, PyFloat(row[5]).value, PyFloat(row[6]).value, PyFloat(row[7]).value, count)
  }

  /** A table built by id from constructed buildings keeps each one under its own id. */
  lemma TableKeyed(items: seq<Building>)
    requires forall i :: 0 <= i < |items| ==> WellFormed(items[i])
    ensures Keyed(TableOf(items, IdOf))
  {
    forall k | k in TableOf(items, IdOf)
      ensures TableOf(items, IdOf)[k].id == k && WellFormed(TableOf(items, IdOf)[k])
    {
      TableOfMember(items, IdOf, k);
    }
  }

  /** Writing the next pending entry of `src` over `base` moves its key out of the pending set. */
  lemma OverlayStep(base: map<int, Building>, src: map<int, Building>, todo: set<int>, k: int)
    requires k in todo && todo <= src.Keys
    ensures (base + (src - todo))[k := src[k]] == base + (src - (todo - {k}))
  {
  }

  /**
   * Stores a clone of every building of `src` under the building's id, over
   * the entries of `base`: the dict built from this collection, then the loop
   * over the other one.
   */
  method Overlay(base: map<int, Building>, src: map<int, Building>) returns (m: map<int, Building>)
    requires Keyed(src)
    ensures m == base + src
  {
    m := base;
    var todo := src.Keys;
    while todo != {}
      invariant todo <= src.Keys
      invariant m == base + (src - todo)
      decreases todo
    {
      if forall k :: k !in todo {
        assert false;
      }
      var k :| k in todo;
      var b := src[k];
      var c := CloneOf(b);
      m := m[b.id := c];
      OverlayStep(base, src, todo, k);
      todo := todo - {k};
    }
    assert src - todo == src;
  }

  class BuildingCollection {
    var buildings: map<int, Building>

    constructor (buildings: map<int, Building>)
      ensures this.buildings == buildings
    {
      this.buildings := buildings;
    }

    /** `len(collection)`: the number of ids. */
    function Len(): (n: nat)
      reads this
      ensures n == |buildings.Keys|
    {
      |buildings|
    }

    /**
     * `merge`: a new collection holding clones of this collection's
     * buildings, each replaced by a clone of `other`'s building with the same
     * id where there is one. Neither input changes.
     */
    method Merge(other: BuildingCollection) returns (merged: BuildingCollection)
      requires Keyed(buildings) && Keyed(other.buildings)
      ensures fresh(merged) && merged.buildings == buildings + other.buildings
      ensures Keyed(merged.buildings)
    {
      var m := Overlay(map[], buildings);
      m := Overlay(m, other.buildings);
      merged := new BuildingCollection(m);
    }
    /**
     * `load_csv`: the header decides whether counts are read (nine columns or
     * more); every later row is parsed and stored under its id, a later row
     * replacing an earlier one. No header, or a row that does not parse,
     * raises, which is `null`; `parsed` holds the rows read before it.
     */
    static method LoadCsv(lines: seq<seq<string>>) returns (c: BuildingCollection?, ghost parsed: seq<Building>)
      ensures |lines| == 0 ==> parsed == []
      ensures |lines| > 0 ==> |parsed| < |lines|
      ensures c != null ==> |lines| >= 1 && |parsed| == |lines| - 1
      ensures forall i :: 0 <= i < |parsed| ==> ParseRow(lines[i + 1], |lines[0]| >= 9) == Some(parsed[i])
      ensures c == null ==> |lines| == 0 || (|parsed| < |lines| - 1 && ParseRow(lines[|parsed| + 1], |lines[0]| >= 9).None?)
      ensures c != null ==> fresh(c) && c.buildings == TableOf(parsed, IdOf) && Keyed(c.buildings)
    {
      parsed := [];
      if |lines| == 0 {
        return null, parsed;
      }
      var hasCount := |lines[0]| >= 9;
      var m: map<int, Building> := map[];
      var i := 1;
      while i < |lines|
        invariant 1 <= i <= |lines| && |parsed| == i - 1
        invariant forall k :: 0 <= k < |parsed| ==> ParseRow(lines[k + 1], hasCount) == Some(parsed[k])
        invariant m == TableOf(parsed, IdOf)
      {
        var b := ParseRow(lines[i], hasCount);
        if b.None? {
          return null, parsed;
        }
        m := m[b.value.id := b.value];
        TableOfSnoc(parsed, IdOf, b.value);
        ghost var parsed' := parsed + [b.value];
        forall k | 0 <= k < i ensures ParseRow(lines[k + 1], hasCount) == Some(parsed'[k]) {
          if k < i - 1 {
            assert parsed'[k] == parsed[k];
          }
        }
        parsed := parsed';
        i := i + 1;
      }
      TableKeyed(parsed);
      c := new BuildingCollection(m);
    }
  }

  /** After loading, there is one building per distinct id read, and it is the last row with that id. */
  lemma LoadedTable(parsed: seq<Building>, i: nat)
    requires i < |parsed| && forall j :: i < j < |parsed| ==> parsed[j].id != parsed[i].id
    ensures parsed[i].id in TableOf(parsed, IdOf) && TableOf(parsed, IdOf)[parsed[i].id] == parsed[i]
    ensures |TableOf(parsed, IdOf)| == |KeysOf(parsed, IdOf)|
  {
    TableOfKeys(parsed, IdOf);
    TableOfLastWins(parsed, IdOf, i);
  }
}
