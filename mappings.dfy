/**
 * Vehicle-to-building mapping entries read from the mapping CSV files, and the
 * table of them keyed by building id.
 */
module Mappings {
  import opened Wrappers
  import opened Text
  import opened Tables

  /** One mapping: which vehicle on which link was mapped to which building, how far away, and how many shared it. */
  datatype MappingEntry = MappingEntry(vehicleId: int, linkId: int, vehicleLoc: (real, real),
                                       buildingId: int, buildingLoc: (real, real), distance: real, vehicles: int)

  /**
   * `MappingEntry.parse_csv`: building from column 4, vehicle from 0, link
   * from 1, vehicle position from 2 and 3, building position from 5 and 6,
   * distance from 7 and count from 8. A short row or a field that does not
   * convert raises.
   */
  function ParseCsv(row: seq<string>): (r: Option<MappingEntry>)
    ensures r.Some? <==> |row| >= 9 && PyInt(row[4]).Some? && PyInt(row[0]).Some? && PyInt(row[1]).Some?
                         && PyFloat(row[2]).Some? && PyFloat(row[3]).Some? && PyFloat(row[5]).Some?
                         && PyFloat(row[6]).Some? && PyFloat(row[7]).Some? && PyInt(row[8]).Some?
    ensures r.Some? ==> Some(r.value.buildingId) == PyInt(row[4]) && Some(r.value.vehicleId) == PyInt(row[0])
                        && Some(r.value.linkId) == PyInt(row[1]) && Some(r.value.vehicles) == PyInt(row[8])
                        && Some(r.value.vehicleLoc.0) == PyFloat(row[2]) && Some(r.value.vehicleLoc.1) == PyFloat(row[3])
                        && Some(r.value.buildingLoc.0) == PyFloat(row[5]) && Some(r.value.buildingLoc.1) == PyFloat(row[6])
                        && Some(r.value.distance) == PyFloat(row[7])
  {
    if |row| < 9 then None
    else match (PyInt(row[4]), PyInt(row[0]), PyInt(row[1]), PyFloat(row[2]), PyFloat(row[3]),
                PyFloat(row[5]), PyFloat(row[6]), PyFloat(row[7]), PyInt(row[8]))
      case (Some(bid), Some(vid), Some(lid), Some(vx), Some(vy), Some(bldX), Some(bldY), Some(dist), Some(count)) =>
        Some(MappingEntry(vid, lid, (vx, vy), bid, (bldX, bldY), dist, count))
      case _ => None
  }

  /**
   * A row of whole-number fields in the order vehicle, link, x, y, building,
   * building x, building y, distance, count parses to exactly those fields.
   */
  lemma ParseCsvLayout(vid: int, lid: int, vx: int, vy: int, bid: int, bldX: int, bldY: int, dist: int, count: int)
    ensures ParseCsv([IntDecimal(vid), IntDecimal(lid), IntDecimal(vx), IntDecimal(vy), IntDecimal(bid),
                      IntDecimal(bldX), IntDecimal(bldY), IntDecimal(dist), IntDecimal(count)])
            == Some(MappingEntry(vid, lid, (vx as real, vy as real), bid, (bldX as real, bldY as real), dist as real, count))
  {
    PyIntDecimal(vid);
    PyIntDecimal(lid);
    PyIntDecimal(bid);
    PyIntDecimal(count);
    PyFloatDecimal(vx);
    PyFloatDecimal(vy);
    PyFloatDecimal(bldX);
    PyFloatDecimal(bldY);
    PyFloatDecimal(dist);
  }

  function BuildingOf(e: MappingEntry): int { e.buildingId }

  class VehicleMappings {
    var data: map<int, MappingEntry>

    constructor ()
      ensures data == map[]
    {
      data := map[];
    }

    /** `add_entry`: stores the entry under its building id, replacing any earlier one, and returns it. */
    method AddEntry(entry: MappingEntry) returns (stored: MappingEntry)
      modifies this
      ensures data == old(data)[entry.buildingId := entry]
      ensures stored == entry
    {
      data := data[entry.buildingId := entry];
      stored := entry;
    }

    /**
     * `VehicleMappings.load`: skips the header, then adds the entry of every
     * row. A missing header or a row that does not parse raises, which is
     * `null`; `parsed` holds the entries read before it.
     */
    static method Load(lines: seq<seq<string>>) returns (result: VehicleMappings?, ghost parsed: seq<MappingEntry>)
      ensures |lines| == 0 ==> parsed == []
      ensures |lines| > 0 ==> |parsed| < |lines|
      ensures forall i :: 0 <= i < |parsed| ==> ParseCsv(lines[i + 1]) == Some(parsed[i])
      ensures result != null <==> |lines| > 0 && |parsed| == |lines| - 1
      ensures result == null && |lines| > 0 ==> ParseCsv(lines[|parsed| + 1]).None?
      ensures result != null ==> fresh(result) && result.data == TableOf(parsed, BuildingOf)
    {
      parsed := [];
      if |lines| == 0 {
        return null, parsed;
      }
      result := new VehicleMappings();
      var i := 1;
      while i < |lines|
        invariant 1 <= i <= |lines| && |parsed| == i - 1
        invariant forall k :: 0 <= k < |parsed| ==> ParseCsv(lines[k + 1]) == Some(parsed[k])
        invariant fresh(result) && result.data == TableOf(parsed, BuildingOf)
      {
        var e := ParseCsv(lines[i]);
        if e.None? {
          return null, parsed;
        }
        var _ := result.AddEntry(e.value);
        TableOfSnoc(parsed, BuildingOf, e.value);
        ghost var parsed' := parsed + [e.value];
        forall k | 0 <= k < i ensures ParseCsv(lines[k + 1]) == Some(parsed'[k]) {
          if k < i - 1 {
            assert parsed'[k] == parsed[k];
          }
        }
        parsed := parsed';
        i := i + 1;
      }
    }
  }

  /** After loading, there is one entry per distinct building id read, the last one read for it. */
  lemma LoadedMappings(parsed: seq<MappingEntry>, i: nat)
    requires i < |parsed| && forall j :: i < j < |parsed| ==> parsed[j].buildingId != parsed[i].buildingId
    ensures parsed[i].buildingId in TableOf(parsed, BuildingOf)
    ensures TableOf(parsed, BuildingOf)[parsed[i].buildingId] == parsed[i]
    ensures |TableOf(parsed, BuildingOf)| == |KeysOf(parsed, BuildingOf)|
  {
    TableOfKeys(parsed, BuildingOf);
    TableOfLastWins(parsed, BuildingOf, i);
  }
}
