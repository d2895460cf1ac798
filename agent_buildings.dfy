/**
 * The agent-mapping crate's building footprint (id, area, centroid and
 * bounding box) and its construction from a preprocessed CSV record.
 */
module AgentBuildings {
  import opened MachineInts
  import opened Geo

  /** `BuildingRecord`: one row of a simplified building file. */
  datatype BuildingRecord = BuildingRecord(id: U32, centerX: real, centerY: real, area: real,
                                           bboxEast: real, bboxWest: real, bboxNorth: real, bboxSouth: real)

  /**
   * `Building`: the fields are read through the accessors `id`, `area`,
   * `centroid` and `bbox`, and through `AsRef` for the centroid and the id.
   */
  datatype Building = Building(id: U32, area: real, centroid: Coords, bbox: Region)

  /**
   * `From<BuildingRecord>` and `From<&BuildingRecord>`, which build the same
   * value: the id and area are copied, the centroid is the record's centre and
   * the bounding box takes the record's four sides.
   */
  function FromRecord(rec: BuildingRecord): (b: Building)
    ensures b.id == rec.id && b.area == rec.area
    ensures b.centroid.x == rec.centerX && b.centroid.y == rec.centerY
    ensures Northeast(b.bbox) == Coords(rec.bboxEast, rec.bboxNorth)
    ensures Southwest(b.bbox) == Coords(rec.bboxWest, rec.bboxSouth)
  {
    Building(rec.id, rec.area, Coords(rec.centerX, rec.centerY),
             Region(rec.bboxEast, rec.bboxWest, rec.bboxNorth, rec.bboxSouth))
  }

  /** The conversion loses nothing: the record is read back from the building. */
  function ToRecord(b: Building): (rec: BuildingRecord)
    ensures rec.id == b.id && rec.area == b.area
  {
    BuildingRecord(b.id, b.centroid.x, b.centroid.y, b.area, b.bbox.east, b.bbox.west, b.bbox.north, b.bbox.south)
  }

  /** Record and building convert into each other without loss, so distinct records give distinct buildings. */
  lemma RecordRoundTrip(rec: BuildingRecord, b: Building)
    ensures ToRecord(FromRecord(rec)) == rec
    ensures FromRecord(ToRecord(b)) == b
  {
  }

  /** `From<Building> for u32`: the id. */
  function IdOf(b: Building): (id: U32)
    ensures id == b.id
  {
    b.id
  }
}
