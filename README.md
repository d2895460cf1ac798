# UrbanTrafficFramework, modelled in Dafny

This project models the computational core of UrbanTrafficFramework. That framework takes simulated vehicle traces and road-link emissions and does three things with them:

- it spreads the emitted heat onto a 550 x 400 bitmap over downtown Chicago in UTM coordinates;
- it maps vehicle positions onto road links and buildings;
- it summarises the results per building, per link and per hour.

The Python half and the Rust `agent-mapping` crate are modelled module by module:

- **Emissions heat field.** UTM zone selection and the structure of the transverse-Mercator series (`Utm`). Planar road links with arc-length offsets (`RoadNet`). The bitmap transform, the cutoff kernel and the in-place splatting of every link's heat onto the bitmap (`Heatmap`). Dense sampling of links (`RoadSampling`). Per-building sums over the bitmap (`BuildingEmDensity`). Re-projection of vehicle positions onto link chords (`VehiclePosRecomp`). The nearest-footprint-cell scan (`CorrEmDensity`). Footprint simplification by shoelace area and bounding box (`SimplifyBuildings`).
- **Timestamps.** The half-minute "(D@)H:MM(:30)" codec of the simulation snapshots (`SimsIo`). The seconds-based "D@HH:MM:SS" codec of the crate (`VehicleSim`). The byte-level hour extraction of `group_by_time` (`GroupByTime`).
- **Record tables and traces.** Id-keyed tables with last-write-wins (`Tables`, `Emissions`, `Mappings`, `LinkVolIo`, `Buildings`). Stable merging and grouping of traces (`SimsIo`, `Sorting`).
- **Spatial indexing in the crate.** Morton interleaving and the orders it induces (`ZOrder`). Clamped unit fixed-point numbers (`UnitFixed`). Regions (`Geo`). The kd-tree with its in-place median-of-three partition and bounded k-nearest buffer (`KdTree`). The quadtree split by z-prefix quadrants (`Quadtree`). The small tools built on them: argmin mappers, Tukey fences, grouping and counting, and the last-seen fold (`QuadtreeMapClosest`, `QuadtreeMapWeighted`, `GroupByTime`, `FindLastSeen`).
- **Pure helpers of the plotting scripts.** Hex colours and colour ramps (`PlotHeatmap`). Volume colours (`PlotVolumes`). Per-step speeds (`PlotSpeeds`).

Conventions used throughout:

- `f64` and Python floats are exact reals. Where the crate relies on infinities or NaN (region folds, `max_dist`, division by a zero range), it uses the `F64` datatype of `Float64`.
- Rust integers are `nat` ranges (`MachineInts`); 64-bit z-values are naturals below 2^64, and their bit operations are defined arithmetically.
- `sqrt`, `hypot` and the trigonometric functions are function-valued parameters. The members that need a property of them require it through `Numeric.IsSqrt`, `Numeric.NonNegativeHypot` or `Numeric.IsHypot`.
- Objects whose fields the source updates are classes: the heat bitmap, the snapshot tables, the volume snapshot, the last-seen table and the kd-tree buffers. The in-place algorithms work on `array`s.
- Loops of the source are `method`s with `while` loops, each proved against a function that specifies it. The properties the source promises are lemmas about those functions.

The model follows the code. Where the code is evidently wrong (see "## Findings"), the operations that use it keep the behaviour as written. The corrected rule is a separate member, with its intended property proved about it. Where the code and its documentation disagree, the model also follows the code:

- `roadnet.py` measures segments with planar `hypot` in UTM metres. It keeps one running length and reverses the point list for the other direction. It has no haversine lengths and no separate reverse sums.
- `UnitFixedPoint` divides by `u32::MAX` (4294967295), not by 2^32 as its comment says.
- `get_hour` in `group_by_time.rs` looks only at the first three bytes. A "D@H" prefix gives 24 plus H, whatever the day. On the zero-padded "DD@HH:MM:SS" text that `format_time` writes from day 1 on, it takes the two-digit branch and returns the day count (`GroupByTime.GetHourOfFormatDay`).
- The quadtree processes a region as a leaf when it has fewer agents **or** fewer buildings than the split threshold. Splitting at depth 32 shifts a `u64` by 64 bits, which is modelled as the debug-build panic (an `Err`).
- The nearest-cell scan of `corr_em_density.py` keeps its early `break`. `CorrEmDensity.NotGlobalMinimum` shows that it can miss a closer cell that comes later.

## Model

| member | source | states |
|---|---|---|
| Utm.CentralLongitude | src/support/utm.py:43-78 | the central meridian lies less than 3 degrees east and at most 3 degrees west of the longitude, 3 degrees past a multiple of 6 |
| Utm.CentralLongitudeExamples | src/support/utm.py:67-76 | the documented examples give -81, -87 and 141 |
| Utm.CurvatureRootPositive | src/support/utm.py:172 | the curvature denominator is positive, so the conversion never divides by zero |
| Utm.ConvertToUtm | src/support/utm.py:81-214 | the series easting plus 500 km, and the series northing plus 10 000 km exactly south of the Equator |
| Utm.CentralMeridianEasting | src/support/utm.py:175-212 | on the central meridian the easting is exactly the false easting |
| Utm.ZoneOrigin | src/support/utm.py:117-118 | latitude 0 on the central meridian maps to (500000, 0) |
| RoadSampling.SampleCount | interpolate_road_network_pts.py:28 | `np.arange(0, len, SPACING)` holds the fewest values whose multiples of `SPACING` reach the length |
| RoadSampling.SegmentRows | interpolate_road_network_pts.py:28-33 | a segment gives one row per value of the range |
| RoadSampling.SampleSegment | interpolate_road_network_pts.py:28-33 | the innermost loop writes the segment's sample rows |
| RoadSampling.SampleLink | interpolate_road_network_pts.py:22-39 | the loop over a link writes each segment's samples, then the row at the link's last point |
| RoadSampling.SampleNetwork | interpolate_road_network_pts.py:21-39 | the loop over all links writes each link's rows, in link order |
| RoadSampling.SegmentSampleOffsets | interpolate_road_network_pts.py:28-33 | each sample lies `k * SPACING` metres, less than the segment's length, past the segment's start |
| RoadSampling.SegmentRowsOrdered | interpolate_road_network_pts.py:28-33 | a segment's offsets increase from the segment's starting offset |
| RoadSampling.SegmentsUpToOrdered | interpolate_road_network_pts.py:25-36 | the rows of the first segments have non-decreasing offsets within the length of those segments |
| RoadSampling.SegmentsUpToStart | interpolate_road_network_pts.py:22-33 | the first row is at offset 0, and with no rows the segments have length 0 |
| RoadSampling.LinkRowsOrdered | interpolate_road_network_pts.py:22-39 | a link's offsets are non-decreasing, start at 0, and end at the link's length with the last point |
| RoadNet.PathLength | src/support/roadnet.py:20-26 | the summed segment lengths are never negative when `hypot` is not |
| RoadNet.NewLink | src/support/roadnet.py:12-26 | `Link.__init__` stores the fields and its loop sums the segment lengths |
| RoadNet.TotalLength | src/support/roadnet.py:55-56 | `total_length` is the link's path length, never negative |
| RoadNet.Reversed | src/support/roadnet.py:30 | `reversed` lists the points back to front |
| RoadNet.OffsetToPoint | src/support/roadnet.py:28-53 | `offset_to_point` walks the points in the direction's order and interpolates on the segment that reaches the offset |
| RoadNet.Walk | src/support/roadnet.py:34-53 | an out-of-bounds result reports the offset asked for and, after at least one segment, a length below it; with a non-negative `hypot` that length is at least the one already covered |
| RoadNet.OffsetZeroIsFirstPoint | src/support/roadnet.py:34-49 | offset 0 gives the first point when the first segment has positive length |
| RoadNet.WalkToEnd | src/support/roadnet.py:34-49 | an offset equal to a positive path length ends at the last point; zero-length segments after the one reaching the offset are never visited and end at the same point |
| RoadNet.ZeroLengthConstant | src/support/roadnet.py:37-38 | a path whose `hypot` lengths sum to zero stays at its first point |
| RoadNet.WalkZeroLength | src/support/roadnet.py:37-49 | on a path of zero length the walk stops on the first segment and divides 0 by 0, giving NaN coordinates |
| RoadNet.WalkSkip | src/support/roadnet.py:40-43 | an offset beyond the first segment continues from the second point |
| RoadNet.OffsetLengthIsLastPoint | src/support/roadnet.py:28-53 | `offset_to_point(length, direct)` is the last point for a link of positive length, NaN coordinates for a link of zero length with two or more points, and the ValueError for a single point |
| RoadNet.OppositeDirectionStartsAtLast | src/support/roadnet.py:29-30 | in the other direction offset 0 is the link's last point |
| RoadNet.WalkPastEnd | src/support/roadnet.py:51-53 | beyond the path length the walk raises, reporting the whole accumulated length |
| RoadNet.OffsetBeyondLength | src/support/roadnet.py:51-53 | an offset beyond the link's length raises ValueError with the link's length in the message |
| RoadNet.WalkOnSegment | src/support/roadnet.py:36-49 | an offset within the path never raises: it gives a point between a segment's ends, or NaN on a zero-length segment |
| RoadNet.PyInsert | src/support/roadnet.py:75-77 | `list.insert` adds exactly the one element |
| RoadNet.InsertedById | src/support/roadnet.py:74-77 | inserting each link at its id's position keeps exactly the links read |
| Sorting.SortBy | src/support/roadnet.py:79 | `sorted` keeps the number of elements |
| Sorting.SortByCorrect | src/support/roadnet.py:79 | `sorted(key=...)` gives a key-ordered permutation of its input |
| Sorting.SortByStable | src/support/roadnet.py:79 | elements with equal keys keep their relative order |
| Sorting.SortBySorted | src/support/simsio.py:183-189 | a sequence already in key order is left unchanged by the sort, which the `ordered` read skips |
| RoadNet.BuildLinks | src/support/roadnet.py:61-79 | the link list is sorted by id and holds exactly the links read |
| Heatmap.UtmToBm | src/support/heatmap.py:17-31 | the inverse map takes the bitmap position back to the UTM point |
| Heatmap.UtmToBmCorners | src/support/heatmap.py:11-31 | the north-west corner of the study area maps to (0, 0) and the south-east corner to the last cell |
| Heatmap.UtmToBmRoundTrip | src/support/heatmap.py:29-31 | the affine map is inverted by its inverse map, so distinct positions get distinct bitmap coordinates |
| Heatmap.UtmToBmOrientation | src/support/heatmap.py:16-31 | columns grow eastwards and rows southwards, and the study area maps into the bitmap |
| Heatmap.CompAffect | src/support/heatmap.py:38-39 | the source's strength undivided at distance 0, and otherwise a value that times the distance gives the strength |
| Heatmap.CompAffectAttenuates | src/support/heatmap.py:38-39 | at a distance of at least one cell a non-negative source is attenuated, never amplified |
| Heatmap.AffAreaBbox | src/support/heatmap.py:42-47 | each bound is the floor of the endpoints' extreme coordinate widened by the cutoff |
| Heatmap.AffAreaBboxCovers | src/support/heatmap.py:42-47 | the box does not depend on the endpoints' order and holds every cell within the cutoff of either endpoint |
| Heatmap.KernelPairs | src/support/heatmap.py:58-62 | the loop yields the reference list of kernel offsets |
| Heatmap.SquareDecode | src/support/heatmap.py:59 | position u of the enumeration is the offset pair (-8 + u / 17, -8 + u % 17), and only that pair |
| Heatmap.KernelMember | src/support/heatmap.py:58-62 | `ij_pairs` holds exactly the offsets within the cutoff distance, each with its Euclidean distance |
| Heatmap.KernelRadius | src/support/heatmap.py:58-62 | every kernel distance is 0, for the source cell only, or at least one cell |
| Heatmap.CompDiff | src/support/heatmap.py:50-55 | the loop computes the square root of the summed squared differences of the first `BM_ROWS` rows |
| Heatmap.CompDiffZero | src/support/heatmap.py:50-55 | the difference is non-negative and zero exactly when the bitmaps agree on the compared rows |
| Heatmap.ChordThroughEndpoints | src/support/heatmap.py:94-96 | the line through the endpoints meets each endpoint's column at that endpoint |
| Heatmap.SourceCells | src/support/heatmap.py:80-96 | a segment crosses at least one cell |
| Heatmap.SourceCellsSymmetric | src/support/heatmap.py:80-96 | the cells do not depend on the direction the link is drawn in |
| Heatmap.SourceCellsColumn | src/support/heatmap.py:89-90 | within one column, that column's cells from the lower to the higher endpoint row |
| Heatmap.SourceCellsColumns | src/support/heatmap.py:91-96 | otherwise one cell per column from the western to the eastern endpoint column |
| Heatmap.SourceCellsRows | src/support/heatmap.py:91-96 | within one row that row, and across rows the row where the segment's line meets the column |
| Heatmap.AddSplat | src/support/heatmap.py:105-107 | one addition to a cell followed by the maximum test keeps the bitmap and `max_value` equal to the replay of the additions |
| Heatmap.SplatSource | src/support/heatmap.py:100-107 | the kernel loop around one source cell adds that source's additions, records their cells and keeps the maximum |
| Heatmap.SplatCells | src/support/heatmap.py:99-107 | the loop over a link's source cells adds the link's additions in order |
| Heatmap.SplatLink | src/support/heatmap.py:76-107 | one iteration for a link with emissions adds that link's additions and records its cells |
| Heatmap.CompAll | src/support/heatmap.py:65-109 | raises exactly when a link with emissions has fewer than two points; otherwise the bitmap is the sum of all additions, `link_cells` the table of touched cells and `max_value` the maximum test's replay |
| Heatmap.MaxReplayAtLeast | src/support/heatmap.py:71-107 | `max_value` is at least 0 and at least every cell's final value |
| Heatmap.MaxReplayAttained | src/support/heatmap.py:71-107 | with non-negative additions `max_value` is 0 or the final value of a touched cell |
| Heatmap.SourceSplatsMember | src/support/heatmap.py:100-103 | each addition around a source is one kernel pair placed around the source, on the bitmap |
| Heatmap.SourceSplatsKernel | src/support/heatmap.py:99-105 | around a source the additions fall exactly on the on-bitmap cells within the cutoff, each of `comp_affect` of the quantity and distance |
| Heatmap.SourceSplatsBounded | src/support/heatmap.py:100-105 | every addition around a source lies on the bitmap and, for a non-negative quantity, between 0 and the quantity |
| Heatmap.LinkSplatsBounded | src/support/heatmap.py:72-107 | every addition of a link lies on the bitmap and, for a non-negative quantity, between 0 and the link's quantity |
| Heatmap.TableNonNegative | src/support/heatmap.py:65-109 | with non-negative quantities every cell of the bitmap `comp_all` builds is at least 0 |
| Heatmap.MaxValueIsMaximum | src/support/heatmap.py:65-109 | `max_value` is the largest cell value: no cell exceeds it, and with non-negative quantities it is 0 or the value of some cell |
| Heatmap.LinkCellsTableShape | src/support/heatmap.py:97-103 | `link_cells` has an entry for exactly the links with emissions, and every listed cell lies on the bitmap |
| BuildingEmDensity.ParseBuildingColumns | building_em_density.py:27-39 | `parse_row` takes the id from column 0, the location, area and four sides from columns 1 to 7 and the count from column 8 |
| BuildingEmDensity.ParseBuildingFormatted | building_em_density.py:27-39 | a row of nine numeric fields parses back to those values, and a row with a missing column is rejected |
| BuildingEmDensity.BlockOrdered | building_em_density.py:72-79 | a well-formed bounding box gives a non-empty block of heat-map cells |
| BuildingEmDensity.EmTotal | building_em_density.py:80-84 | the `em_total` loop sums the heat-map cells of the building's block, skipping cells off the bitmap |
| BuildingEmDensity.RowSumSplit | building_em_density.py:81-84 | splitting a block's columns splits its sum |
| BuildingEmDensity.RowSumOff | building_em_density.py:82-83 | cells off the bitmap contribute nothing |
| BuildingEmDensity.RowSumClip | building_em_density.py:81-84 | skipping off-bitmap cells equals summing over the block clipped to the bitmap |
| BuildingEmDensity.BlockSumOff | building_em_density.py:80-84 | a building whose block lies entirely off the bitmap gets an emissions total of 0 |
| BuildingEmDensity.BlockSumNonNegative | building_em_density.py:80-84 | with non-negative heat values the emissions total is non-negative |
| BuildingEmDensity.Concentration | building_em_density.py:85-86 | the concentration is defined exactly when the area is non-zero, and times the area it gives back the emissions total |
| VehiclePosRecomp.CompXYClamp | src/vehicle_pos_recomp.py:19-24 | as written: the new x is clamped into the segment's x range and equals the old x exactly when that already lies inside |
| VehiclePosRecomp.CompXYAsWritten | src/vehicle_pos_recomp.py:18-36 | as written: x is kept exactly when it lies in [a.x, b.x]; y is the first endpoint's y for a horizontal segment, half the y-extent for a vertical one, and on the segment's line otherwise, with the rule numbers 0, 1 and 2 chosen by exactly those cases |
| VehiclePosRecomp.CompXY | src/vehicle_pos_recomp.py:18-36 | corrected rule: the same x rule and y rules, except that a vertical segment gives the middle of its y range |
| VehiclePosRecomp.CompXYOnSegment | src/vehicle_pos_recomp.py:18-36 | corrected rule (midpoint `(y_max + y_min) / 2`): with the endpoints ordered left to right, the re-projected point lies on the segment, at a parameter in [0, 1] |
| VehiclePosRecomp.AsWrittenAgrees | src/vehicle_pos_recomp.py:26-34 | the code as written and the corrected rule differ only for a vertical segment |
| VehiclePosRecomp.HalfExtentOffSegment | src/vehicle_pos_recomp.py:30-31 | as written, a vertical segment from (0, 10) to (0, 20) gets y = 5, outside the segment |
| VehiclePosRecomp.AsWrittenLeavesMap | src/vehicle_pos_recomp.py:30-31 | as written, a vertical segment inside the map is re-projected to a point off the map |
| VehiclePosRecomp.OrderEndpoints | src/vehicle_pos_recomp.py:69-74 | the two endpoints come back ordered: the first is strictly left of the second, or the original first point is not |
| VehiclePosRecomp.FrameErrors | src/vehicle_pos_recomp.py:76-94 | a frame off the map in x (in y) is also counted erroneous in x (in y) |
| VehiclePosRecomp.NearSegmentIsFine | src/vehicle_pos_recomp.py:76-94 | a position on the map within the thresholds of the segment's box raises no error |
| VehiclePosRecomp.RecompIsFine | src/vehicle_pos_recomp.py:18-36 | corrected rule: for a segment on the map, the re-projected point raises no error of any kind |
| VehiclePosRecomp.RecompAsWrittenIsFine | src/vehicle_pos_recomp.py:76-101 | as written: for a segment on the map that is not vertical, the re-projected point raises no error of any kind |
| VehiclePosRecomp.Endpoints | src/vehicle_pos_recomp.py:67-68 | the endpoints exist exactly when the link index is in Python's range, negative indices counting from the end, and the link has two points |
| VehiclePosRecomp.EndpointsNegative | src/vehicle_pos_recomp.py:67-68 | link -1 is the last link |
| VehiclePosRecomp.FirstUnresolved | src/vehicle_pos_recomp.py:64-68 | every frame before the stop resolves its link and the frame at the stop does not |
| VehiclePosRecomp.RecompAll | src/vehicle_pos_recomp.py:96-101 | one frame, re-projected with `comp_xy` as written, per frame |
| VehiclePosRecomp.RecompAllAt | src/vehicle_pos_recomp.py:96-101 | each frame's position is replaced by the re-projection with `comp_xy` as written onto its own ordered link, and nothing else about it changes |
| VehiclePosRecomp.RecomputeFrames | src/vehicle_pos_recomp.py:64-101 | the total grows by the frame count; frames up to the first unresolvable link are re-projected in place with `comp_xy` as written and counted, the rest untouched, and success means every link resolved |
| VehiclePosRecomp.CountWhere | src/vehicle_pos_recomp.py:76-94 | a frame count is at most the number of frames |
| VehiclePosRecomp.CountMethod | src/vehicle_pos_recomp.py:99-101 | the count of a rule pair is at most the number of frames |
| VehiclePosRecomp.StepAllCounts | src/vehicle_pos_recomp.py:76-94 | each error counter grows by the number of frames with that error, `err_total` by the frames with any error |
| VehiclePosRecomp.CountsNested | src/vehicle_pos_recomp.py:76-94 | off-map frames are among the erroneous ones, and those among the frames with any error, which are at most all frames |
| VehiclePosRecomp.StepAllMethods | src/vehicle_pos_recomp.py:99-101 | the `methods` dictionary holds, per rule pair, the number of frames re-projected with it, and has a key exactly when that count is positive or the key was there |
| CorrEmDensity.Dists | src/corr_em_density.py:17-18 | one Euclidean distance per footprint cell, from the vehicle's bitmap position |
| CorrEmDensity.ScanFrom | src/corr_em_density.py:17-23 | the scan stops at the first index whose successor is strictly farther, or at the last index, and the distances up to it are non-increasing |
| CorrEmDensity.NonIncreasingLeast | src/corr_em_density.py:19-21 | the distance kept is the least of the distances the scan passed |
| CorrEmDensity.ScanEnd | src/corr_em_density.py:17-23 | the kept index is in range, no passed distance is smaller, and the next distance, if any, is larger |
| CorrEmDensity.ScanFromIs | src/corr_em_density.py:17-23 | the scan stops at the unique stopping point after a non-increasing run |
| CorrEmDensity.GetNearestCell | src/corr_em_density.py:12-25 | the loop returns the reference result: the vehicle's own cell at distance 0 when on the footprint, otherwise the cell where the scan stops |
| CorrEmDensity.NearestOnFootprint | src/corr_em_density.py:14-25 | a vehicle on a footprint cell is its own nearest cell, at distance 0 |
| CorrEmDensity.NearestCell | src/corr_em_density.py:12-25 | the result is None exactly for an empty footprint, and otherwise a cell of the footprint |
| CorrEmDensity.NearestScanned | src/corr_em_density.py:17-24 | off the footprint, the distance returned is at most every distance scanned, and the cell after the stopping one is farther |
| CorrEmDensity.NotGlobalMinimum | src/corr_em_density.py:22-23 | the early `break` misses a closer cell that comes after a farther one |
| CorrEmDensity.LaterTieWins | src/corr_em_density.py:19-21 | of two equally near cells in a non-increasing run, the later is kept |
| CorrEmDensity.Classify | src/corr_em_density.py:55-60 | outside the bitmap's y-range is erroneous and outside; a nearest distance above 50 is erroneous; a missing distance raises |
| CorrEmDensity.Tally | src/corr_em_density.py:52-60 | the counting loop gives the reference tally of the entries |
| CorrEmDensity.TallyNoneExtends | src/corr_em_density.py:52-60 | once one entry raises, the whole tally does |
| CorrEmDensity.TallyBounds | src/corr_em_density.py:42-60 | each entry adds one to the total, every outside entry is also erroneous, and erroneous entries never outnumber counted ones |
| SimplifyBuildings.Project | simplify_buildings.py:67 | every vertex is projected, so the projected ring has the ring's length |
| SimplifyBuildings.ProjectedVertex | simplify_buildings.py:67 | vertex k is projected on its own, latitude first, around the fixed central meridian |
| SimplifyBuildings.Roll | simplify_buildings.py:68 | `np.roll(s, 1)` moves every element one place on and the last to the front |
| SimplifyBuildings.Area | simplify_buildings.py:68 | the footprint area is never negative |
| SimplifyBuildings.AreaRotate | simplify_buildings.py:68 | the area does not depend on the starting vertex |
| SimplifyBuildings.AreaReverse | simplify_buildings.py:68 | clockwise and counter-clockwise rings have the same area |
| SimplifyBuildings.RectangleArea | simplify_buildings.py:68 | an axis-aligned w by h rectangle has area w * h |
| SimplifyBuildings.Mean | simplify_buildings.py:73-74 | the mean lies between the smallest and the largest coordinate |
| SimplifyBuildings.Summarise | simplify_buildings.py:67-81 | the row keeps the id, a non-negative area, a centroid inside the box, and box sides taken from the coordinates |
| SimplifyBuildings.Kept | simplify_buildings.py:64-65 | the kept footprints are input footprints inside the fixed longitude and latitude box |
| SimplifyBuildings.RowsOfKept | simplify_buildings.py:38-83 | one row per footprint inside the box, in input order, row j the summary of the j-th such footprint |
| SimplifyBuildings.RowIds | simplify_buildings.py:72-83 | the row ids count 0, 1, 2, … without gaps, skipping nothing for dropped footprints |
| SimplifyBuildings.SimplifyAll | simplify_buildings.py:38-83 | the loop writes the rows of every kept footprint; an empty ring raises and ends the run at that feature |
| Emissions.EmissionRate | src/support/emissions.py:13-17 | the rate in W per vehicle is the kJ/h rate over 3.6 |
| Emissions.EmissionQuantity | src/support/emissions.py:19-23 | the quantity in joules is the MMBtu quantity times 1,055,060,000 |
| Emissions.TemperatureElevation | src/support/emissions.py:25-40 | the elevation is defined exactly when the link area is non-zero |
| Emissions.HundredWattsPerSquareMetre | src/support/emissions.py:38-40 | 100 W/m^2 raise the temperature by 0.8 degrees |
| Emissions.ElevationLinear | src/support/emissions.py:19-40 | the elevation is linear in the emitted quantity |
| Emissions.ParseRowFields | src/support/emissions.py:53-54 | a row parses exactly when it has at least five columns and columns 1, 3 and 4 convert, and then to those values |
| Emissions.EmissionsSnapshot.constructor | src/support/emissions.py:44-45 | a new snapshot is empty |
| Emissions.EmissionsSnapshot.Load | src/support/emissions.py:47-57 | each row after the header is parsed and stored under its link id; a row that fails to parse raises |
| Emissions.EmissionsSnapshot.Len | src/support/emissions.py:59-60 | the length is the number of distinct link ids |
| Emissions.LoadedTable | src/support/emissions.py:53-55 | a loaded snapshot has one entry per distinct link id, holding the last row for that id |
| SimsIo.ParseTimestamp | src/support/simsio.py:8-28 | a timestamp that parses contains a ':' |
| SimsIo.ParseClock | src/support/simsio.py:21-26 | a clock that parses contains a ':' |
| SimsIo.ParseClockOf | src/support/simsio.py:21-26 | "H:M" is H * 120 + M * 2 half-minutes, and a third part adds one |
| SimsIo.ParseTimestampNoDays | src/support/simsio.py:14-19 | without an '@' the split raises ValueError, which is caught, and the whole string is the clock |
| SimsIo.ParseTimestampDays | src/support/simsio.py:14-16 | with one '@' the day count in front of it adds 2880 half-minutes per day |
| SimsIo.ParseTimestampForms | src/support/simsio.py:8-28 | the forms DD@HH:MM and HH:MM:SS parse to their half-minute counts |
| SimsIo.TruncDiv | src/support/simsio.py:100 | `int(x / 120)` truncates toward zero, unlike floor division on negative counts |
| SimsIo.Timedelta | src/support/simsio.py:94-96 | the time in seconds is 30 times the count |
| SimsIo.Timestamp | src/support/simsio.py:98-107 | the timestamp has no '@', has a ':', and ends in ":30" for an odd count |
| SimsIo.TimestampShape | src/support/simsio.py:98-107 | the timestamp has no day part, two minute digits, and ends in ":30" exactly for odd counts |
| SimsIo.TimestampPieces | src/support/simsio.py:98-107 | the timestamp is the hour and the padded minute joined by ':', with ":30" for an odd count |
| SimsIo.TimestampRoundTrip | src/support/simsio.py:8-28 | `parse_timestamp(timestamp())` gives back every non-negative count, also past one day |
| SimsIo.NegativeTimestamp | src/support/simsio.py:100-101 | for count -1 the truncated hour and the floored minute disagree and the round trip fails |
| SimsIo.ParseFrameRowColumns | src/support/simsio.py:63-92 | column k of a parsed row is field k of the frame |
| SimsIo.MergeOf | src/support/simsio.py:117-133 | the merge is as long as both traces together |
| SimsIo.MergeCount | src/support/simsio.py:117-133 | the merge is a permutation of both traces together |
| SimsIo.MergeSorted | src/support/simsio.py:117-133 | merging two time-sorted traces gives a time-sorted trace |
| SimsIo.MergeTies | src/support/simsio.py:121-124 | among frames of equal time `other`'s come first, then `self`'s, each in their own order |
| SimsIo.Trace.constructor | src/support/simsio.py:111-112 | a new trace is empty |
| SimsIo.Trace.Append | src/support/simsio.py:114-115 | the frame is added at the back |
| SimsIo.Trace.Merge | src/support/simsio.py:117-133 | this trace becomes the merge of both and `other` is emptied |
| SimsIo.OfVehicle | src/support/simsio.py:147-160 | a vehicle's frames, in order, are at most all the frames |
| SimsIo.TracesPartition | src/support/simsio.py:147-160 | there is a trace per vehicle seen, holding exactly that vehicle's frames in order |
| SimsIo.OfVehicleSorted | src/support/simsio.py:147-151 | frames appended in time order give time-sorted traces |
| SimsIo.Snapshot.constructor | src/support/simsio.py:143-145 | a new snapshot has no frames and no traces |
| SimsIo.Snapshot.Append | src/support/simsio.py:147-160 | the frame goes to `frames` and to its vehicle's trace, created on first sight |
| SimsIo.Snapshot.AppendAll | src/support/simsio.py:184-192 | appending every frame keeps each trace equal to its vehicle's frames |
| SimsIo.Snapshot.Load | src/support/simsio.py:171-194 | a row that does not parse raises; otherwise the frames are the rows in file order, or stably sorted by time when unordered |
| SimsIo.UnorderedLoad | src/support/simsio.py:187-192 | an unordered load gives a time-sorted permutation of the rows, equal times in file order, and time-sorted traces |
| Rows.ParseAllFails | src/support/simsio.py:184-188 | reading the rows fails exactly when some row does not convert |
| Rows.ParseEach | src/support/simsio.py:184-188 | the loop converts the rows in order and stops at the first one that fails |
| Buildings.NewBuilding | src/support/buildings.py:9-41 | construction succeeds unless a count is given with a zero area; the density is stored exactly when a count is, and density times area is the count |
| Buildings.BboxPts | src/support/buildings.py:28-35 | the four bounding-box corners, north-east first and south-west third |
| Buildings.CloneEqual | src/support/buildings.py:43-54 | a building clones to an equal building exactly when it was built by the constructor |
| Buildings.CloneOf | src/support/buildings.py:43-54 | cloning a constructed building cannot raise and gives an equal building |
| Buildings.ParseRow | src/support/buildings.py:74-83 | a parsed row had at least eight columns, and nine when counts are read; it carries a count exactly when the header has a count column, and its id is column 0 |
| Buildings.TableKeyed | src/support/buildings.py:84 | a dict filled by `buildings[bldg.id] = bldg` keeps each building under its own id |
| Buildings.Overlay | src/support/buildings.py:101-103 | storing clones of the source buildings over a base dict gives the base overridden by the source |
| Buildings.BuildingCollection.constructor | src/support/buildings.py:58-59 | the collection holds the given dict |
| Buildings.BuildingCollection.Len | src/support/buildings.py:91-92 | the length is the number of ids |
| Buildings.BuildingCollection.Merge | src/support/buildings.py:94-105 | the merged collection is fresh and holds this collection's buildings, replaced by `other`'s where ids coincide |
| Buildings.BuildingCollection.LoadCsv | src/support/buildings.py:61-86 | every row after the header is parsed with the header's count flag and stored under its id; a missing header or a row that fails to parse raises |
| Buildings.LoadedTable | src/support/buildings.py:84 | after loading there is one building per distinct id, and it is the last row with that id |
| Mappings.ParseCsv | src/support/mappings.py:19-21 | a row parses exactly when it has nine columns that all convert; the building id comes from column 4 and the vehicle id from column 0 |
| Mappings.ParseCsvLayout | src/support/mappings.py:19-21 | a row written in the column order vehicle, link, x, y, building, building x, building y, distance, count parses back to those fields |
| Mappings.VehicleMappings.constructor | src/support/mappings.py:25-26 | a new mapping table is empty |
| Mappings.VehicleMappings.AddEntry | src/support/mappings.py:28-30 | the entry is stored under its building id, replacing an earlier one, and returned |
| Mappings.VehicleMappings.Load | src/support/mappings.py:33-39 | the header is skipped and every row added in order; a missing header or a bad row raises after the rows before it |
| Mappings.LoadedMappings | src/support/mappings.py:28-39 | after loading there is one entry per distinct building id, the last one read for it |
| LinkVolIo.ParseRaw | src/support/linkvolio.py:26-34 | a parsed row has at least nine columns, its link id is column 0 read as an integer and its description is column 7 |
| LinkVolIo.IndexOf | src/support/linkvolio.py:37 | `list.index` finds a position exactly when the entry is in the list, and the list holds the entry there |
| LinkVolIo.IndexOfPrefix | src/support/linkvolio.py:37-40 | appending to the list does not move the first position of an entry already in it |
| Text.PyFloatDecimal | src/support/linkvolio.py:30-34 | `float()` reads an integer's decimal text, signed or not, as that number |
| Text.PyFloatExponentForm | src/support/linkvolio.py:30-34 | `float()` reads a mantissa with an 'e' or 'E' exponent as the mantissa times ten to the exponent |
| Text.PyFloatOfUnsigned | src/support/simsio.py:69-76 | a leading minus sign negates the value `float()` reads |
| Text.PyFloatBadExponent | src/support/simsio.py:69-76 | an exponent without digits, or one without a mantissa, is rejected |
| Text.PyInt | src/support/simsio.py:16-22 | `int()` succeeds exactly on optional-sign-then-digits text |
| Text.PyFloat | src/support/emissions.py:54 | `float()` fails on the empty text and reads plain digits as their value |
| Text.UnsignedFloat | src/support/emissions.py:54 | the unsigned part of `float()` fails on the empty text |
| Text.Mantissa | src/support/emissions.py:54 | a mantissa needs at least one character |
| Text.Hex02 | src/maps/plot_heatmap.py:42 | `{:02x}` writes at least two characters, hex digits for non-negative values, exactly two for a byte, and a leading '-' exactly for a negative value |
| Text.PyIntHex02 | src/maps/plot_heatmap.py:20-42 | `int(s, 16)` reads what `{:02x}` wrote back as the same integer |
| Text.PyIntHex | src/maps/plot_heatmap.py:21 | a hex text that parses ends in a hex digit, and a negative value comes from a leading '-' |
| Text.PyHexMagnitude | src/maps/plot_heatmap.py:21 | the unsigned part that parses ends in a hex digit |
| Text.Split | src/support/simsio.py:15-21 | `split` yields at least one piece and no piece holds the separator |
| Text.SplitPieceChars | src/support/simsio.py:15-21 | every character of a piece is a character of the split text |
| Text.PyIntDecimal | src/support/linkvolio.py:26-28 | `int()` reads an integer's decimal text back as that integer |
| LinkVolIo.AsWrittenCounts | src/support/linkvolio.py:36-40 | as written the list only ever holds numbers, so no description text is found and each row gets the list's length |
| LinkVolIo.AsWrittenRepeatsDiffer | src/support/linkvolio.py:36-40 | two rows with the same description get different numbers as written, and the same number when interned |
| LinkVolIo.InternDesc | src/support/linkvolio.py:36-40 | corrected numbering: the number is the first position of the description text, which is appended only when new |
| LinkVolIo.NumberedFresh | src/support/linkvolio.py:25-41 | as written, from a list of numbers: row i gets the number `len(LINK_DESC)` had before it, its other fields kept, and the list grows by one fresh number per row |
| LinkVolIo.NumberedGrows | src/support/linkvolio.py:25-41 | as written, numbering rows only appends to the description list |
| LinkVolIo.InternedAt | src/support/linkvolio.py:36-40 | corrected numbering: each row's number is the first position of its text in the final list, and the row's other fields are kept |
| LinkVolIo.SameDescSameNumber | src/support/linkvolio.py:36-40 | corrected numbering: rows with equal descriptions get equal numbers |
| LinkVolIo.DescRegistry.constructor | src/support/linkvolio.py:4 | the module-level description list starts empty |
| LinkVolIo.LinkVolumes | src/support/linkvolio.py:20-42 | the header is skipped, rows are parsed in order and numbered as written (each row a new description number), a failing parse raises after the rows before it, and the result maps each link id to its last row |
| LinkVolIo.HourList.constructor | src/support/linkvolio.py:50 | each hour list starts empty |
| LinkVolIo.Stored | src/support/linkvolio.py:54-58 | padding then writing puts the volume at `link_id`; a negative id indexes from the end and raises when it reaches before the start |
| LinkVolIo.HourIndex | src/support/linkvolio.py:54 | an hour indexes the 24-entry list exactly when it lies in -24..23, negative hours counting from the end |
| LinkVolIo.ExtensionNeverPositive | src/support/linkvolio.py:60-61 | once the hour list holds `link_id`, the count of new link slots as written is never positive |
| LinkVolIo.LinksExtension | src/support/linkvolio.py:60-61 | corrected count: exactly enough slots for `link_id` to become a valid index |
| LinkVolIo.VolumeSnapshot.constructor | src/support/linkvolio.py:49-51 | every day holds one list shared by its 24 hours, and the link slots start empty |
| LinkVolIo.VolumeSnapshot.InsertVolume | src/support/linkvolio.py:53-62 | an unknown day or bad hour changes nothing; otherwise the volume is written into the day's shared list, at every hour, and then the link slots raise |
| PlotHeatmap.PySlice | src/maps/plot_heatmap.py:21 | Python slicing within the string is the ordinary subsequence |
| PlotHeatmap.HtmlToRgba | src/maps/plot_heatmap.py:20-22 | a colour is read exactly when the four two-character slices at positions 1, 3, 5 and 7 all read as hex, and the channels are those values |
| PlotHeatmap.Hex02Byte | src/maps/plot_heatmap.py:42 | a byte is written as two hex digits that read back as it |
| PlotHeatmap.FormatRgba | src/maps/plot_heatmap.py:42 | a "#" string of at least nine characters, exactly nine for byte channels |
| PlotHeatmap.HtmlToRgbaOfFormat | src/maps/plot_heatmap.py:20-42 | a colour of byte channels written as "#RRGGBBAA" reads back as the same channels |
| PlotHeatmap.LoBelow | src/maps/plot_heatmap.py:28 | the lower bound test `i / n <= val` holds exactly when `i <= val * n` |
| PlotHeatmap.RangeOffset | src/maps/plot_heatmap.py:28-31 | within range i the offset `v` is less than one range width |
| PlotHeatmap.FindRange | src/maps/plot_heatmap.py:27-28 | the loop stops at a range whose bounds hold `val` |
| PlotHeatmap.FindRangeFrom | src/maps/plot_heatmap.py:27-28 | from range i on, a range is found exactly when `i / n <= val < 1`, and it is floor(val * n) |
| PlotHeatmap.FindRangeCovers | src/maps/plot_heatmap.py:26-28 | the ranges cover [0, 1) exactly: outside it `get_color` returns None |
| PlotHeatmap.RampBetween | src/maps/plot_heatmap.py:38-41 | an interpolated channel stays between the two base values and equals the first at the range's start |
| PlotHeatmap.GetColorRange | src/maps/plot_heatmap.py:25-42 | a colour exists exactly for at least two base colours and val in [0, 1), and it is the interpolation in the range holding val |
| PlotHeatmap.GetColor | src/maps/plot_heatmap.py:25-42 | a colour is written exactly for at least two base colours and val in [0, 1), as a "#" string of at least nine characters |
| PlotHeatmap.RangeColorBetween | src/maps/plot_heatmap.py:29-41 | every channel lies between the range's base colours, and alpha is 255 unless `use_alpha` |
| PlotHeatmap.GetColorBetween | src/maps/plot_heatmap.py:25-42 | the colour of val lies between the base colours around it, and at val = i / n it is base[i]'s |
| PlotHeatmap.GetColorReadBack | src/maps/plot_heatmap.py:20-42 | with byte base colours the written colour reads back as its channels |
| PlotHeatmap.ColorMapDefined | src/maps/plot_heatmap.py:58-61 | every entry of the 256-colour maps exists |
| PlotHeatmap.GetRgb | src/maps/plot_heatmap.py:64-69 | a "#" colour of at least nine characters, which for x in [0, 1] reads back as the ramp's channels |
| PlotHeatmap.RgbChannelsBytes | src/maps/plot_heatmap.py:65-68 | for x in [0, 1] every channel of `get_rgb` is a byte |
| PlotHeatmap.GetRgbReadBack | src/maps/plot_heatmap.py:64-69 | for x in [0, 1] every channel is a byte, red equals green, red and blue are not both non-zero, and alpha fills the rest of 765 up to rounding |
| PlotHeatmap.GetRgbEnds | src/maps/plot_heatmap.py:64-69 | blue at 0, black at one half, yellow at 1 |
| PlotVolumes.Red | src/maps/plot_volumes.py:27-29 | red is floor(255 * volume / 1200) unless clamped at 255 |
| PlotVolumes.Green | src/maps/plot_volumes.py:30-32 | green is floor(255 * volume^2 / (8 * 1200^2)) unless clamped at 255 |
| PlotVolumes.CompColor | src/maps/plot_volumes.py:23-33 | grey "#b3b3b3" exactly for no traffic; otherwise a "#" colour of at least seven characters ending in "00" |
| PlotVolumes.ChannelsMonotone | src/maps/plot_volumes.py:27-32 | for non-negative volumes both channels are bytes and never decrease as the volume grows |
| PlotVolumes.RedSaturates | src/maps/plot_volumes.py:27-29 | red is clamped at 255 exactly from `MAX_VOLUME` on |
| PlotVolumes.GreenSaturates | src/maps/plot_volumes.py:30-32 | green is clamped at 255 exactly from volume 3395 on |
| PlotVolumes.RedGreenReadBack | src/maps/plot_volumes.py:33 | "#RRGG00" with byte channels reads back as the two channels and zero blue |
| PlotVolumes.CompColorReadBack | src/maps/plot_volumes.py:23-33 | no traffic is grey; a positive volume gives seven characters whose pairs read back as red, green and zero |
| PlotSpeeds.CalculateSpeed | src/maps/plot_speeds.py:12-23 | one speed per consecutive pair of frames, in order, each the step's distance over 30 times its time difference |
| PlotSpeeds.StepSpeed | src/maps/plot_speeds.py:18-20 | a step divides by zero exactly when the two times are equal; a finite speed times 30 times the time difference is the distance |
| PlotSpeeds.StepSpeedMeaning | src/maps/plot_speeds.py:18-20 | equal times divide by zero; a step forward in time has a finite non-negative speed covering the step's distance |
| PlotSpeeds.SpeedsNonNegative | src/maps/plot_speeds.py:12-23 | strictly increasing frame times give only finite, non-negative speeds |
| UnitFixed.FromReal | agent-mapping/src/unit_fixed.rs:17-30 | at most 0 gives 0, at least 1 gives `u32::MAX`, and in between `x * 4294967295` rounded down, below `u32::MAX` |
| UnitFixed.FromF64 | agent-mapping/src/unit_fixed.rs:17-30 | NaN panics, the infinities clamp to the ends, and a finite value converts as `FromReal` |
| UnitFixed.ToReal | agent-mapping/src/unit_fixed.rs:32-36 | the value lies in [0, 1], is 0 exactly for raw 0 and 1 exactly for `u32::MAX` |
| UnitFixed.FromU32 | agent-mapping/src/unit_fixed.rs:38-42 | a raw `u32` is the fraction raw / 4294967295, and `u32::from` gives it back |
| UnitFixed.ToU32 | agent-mapping/src/unit_fixed.rs:44-48 | `u32::from` gives the raw value, from which the point is rebuilt unchanged |
| UnitFixed.FromRealMonotone | agent-mapping/src/unit_fixed.rs:17-30 | the conversion keeps the order of its inputs |
| UnitFixed.FromRealReflectsOrder | agent-mapping/src/unit_fixed.rs:17-30 | a strictly smaller fixed-point value comes only from a strictly smaller real |
| UnitFixed.FromRealOfToReal | agent-mapping/src/unit_fixed.rs:17-36 | every fixed-point value survives the trip to a real and back |
| UnitFixed.ToRealOfFromReal | agent-mapping/src/unit_fixed.rs:17-36 | a real in [0, 1] comes back rounded down by less than one step |
| UnitFixed.FromRealCollides | agent-mapping/src/unit_fixed.rs:27 | two distinct reals within one step convert to the same value |
| UnitFixed.ComparisonTestFails | agent-mapping/src/unit_fixed.rs:62-87 | the quickcheck as written fails on the inputs 0, 1, 2 and 4 * 4294967295 |
| UnitFixed.CorrectedComparisonPasses | agent-mapping/src/unit_fixed.rs:62-87 | the corrected test, which allows equal fixed-point values, never fails |
| Float64.Quotient | agent-mapping/src/geo.rs:45-46 | a finite quotient for a non-zero divisor; over a zero divisor, NaN for a zero dividend and the infinity of the dividend's sign otherwise |
| Float64.Less | agent-mapping/src/geo.rs:48 | a NaN is never below a bound |
| Float64.Greater | agent-mapping/src/geo.rs:48 | a NaN is never above a bound |
| Float64.OutsideInterval | agent-mapping/src/geo.rs:48 | the range test rejects both infinities and every finite value outside the interval, and lets NaN through |
| Float64.Square | src/agent-mapping/src/kd_tree.rs:396 | `powi(2)` squares a finite value, gives positive infinity for either infinity and NaN only for NaN |
| Float64.Below | src/agent-mapping/src/kd_tree.rs:133-139 | a finite value is below positive infinity and never below NaN or negative infinity |
| Float64.Lt | src/agent-mapping/src/quadtree.rs:162-200 | `<` on doubles is false whenever a side is NaN and is the real order on finite values |
| Float64.LtOrder | src/agent-mapping/src/quadtree.rs:162-200 | without NaN, `<` is a strict total order |
| Geo.FromTuple | agent-mapping/src/geo.rs:64-68 | the tuple's components become x and y |
| Geo.ToTuple | agent-mapping/src/geo.rs:70-74 | x and y become the tuple's components |
| Geo.TupleRoundTrip | agent-mapping/src/geo.rs:64-74 | the two tuple conversions undo each other |
| Geo.SquaredDist | agent-mapping/src/geo.rs:25-33 | the squared distance is non-negative and zero exactly for equal points |
| Geo.SquaredDistSymmetric | agent-mapping/src/geo.rs:31-33 | the squared distance does not depend on the order of the points |
| Geo.Distance | agent-mapping/src/geo.rs:18-23 | the distance is non-negative, its square is the squared distance, and it is zero exactly for equal points |
| Geo.DistanceOrder | agent-mapping/src/geo.rs:25-29 | distances order points as squared distances do, so the squared distance preserves nearest neighbours |
| Geo.FromPoints | agent-mapping/src/geo.rs:97-105 | east and north come from the first point, west and south from the second |
| Geo.FromPointsOfCorners | agent-mapping/src/geo.rs:97-105 | a region is rebuilt from its own north-east and south-west corners |
| Geo.Contains | agent-mapping/src/geo.rs:107-110 | a point is contained exactly when it lies within the inclusive bounds |
| Geo.CornersContained | agent-mapping/src/geo.rs:107-158 | an ordered region contains its corners, and only an ordered region contains any point |
| Geo.Intersects | agent-mapping/src/geo.rs:112-118 | two regions intersect exactly when each one's west is below the other's east and each one's south below the other's north |
| Geo.IntersectsSymmetric | agent-mapping/src/geo.rs:112-118 | intersection does not depend on the order of the regions |
| Geo.IntersectsInterior | agent-mapping/src/geo.rs:112-118 | regions sharing an interior point intersect, intersecting proper regions share the middle of their overlap, and regions that only touch along an edge do not intersect |
| Geo.Center | agent-mapping/src/geo.rs:120-126 | the centre is equidistant from opposite bounds, lies in an ordered region and is interior to a proper one |
| Geo.Normalize | agent-mapping/src/geo.rs:35-53 | `normalize` panics exactly when a rescaled coordinate is NaN and passes the range test, which needs a zero-size side; otherwise it returns a pair exactly for points it does not reject, the rescaled coordinates in fixed point |
| Geo.NormalizeProper | agent-mapping/src/geo.rs:35-53 | in a region of positive width and height it never panics and gives a pair exactly for the contained points |
| Geo.NormalizeCorners | agent-mapping/src/geo.rs:38-41 | the south-west corner maps to (0, 0) and the north-east corner to (1, 1), that is raw 0 and `u32::MAX` |
| Geo.NormalizeMonotone | agent-mapping/src/geo.rs:35-53 | a point further east or north never gets a smaller fixed-point coordinate |
| Geo.NormalizeZeroWidth | agent-mapping/src/geo.rs:44-52 | in a region of zero width, a point on its easting with an accepted northing makes `normalize` panic |
| Geo.ZValueOf | agent-mapping/src/geo.rs:55-61 | the z-value exists exactly where `normalize` gives a pair, and is that pair interleaved |
| Geo.ZValueProper | agent-mapping/src/geo.rs:55-61 | in a proper region the z-value exists exactly for the contained points |
| ZOrder.SpreadBits | src/agent-mapping/src/z_order.rs:5-28 | spreading moves bit k to bit 2k and leaves every odd bit clear |
| ZOrder.MortonTableSpread | src/agent-mapping/src/z_order.rs:5-28 | each `MORTON_TABLE` entry is its index spread into the even bits |
| ZOrder.MortonTableBits | src/agent-mapping/src/z_order.rs:5-28 | entry b has bit 2k set exactly when b has bit k, and no odd bit |
| ZOrder.MortonRow | src/agent-mapping/src/z_order.rs:5-28 | each row of 16 entries is the first row plus the spread of the row number in the high byte |
| ZOrder.Interleave8 | src/agent-mapping/src/z_order.rs:33-37 | `interleave_8` interleaves the two bytes, x in the even bits and y in the odd, below 2^16 |
| ZOrder.LeBytes | src/agent-mapping/src/z_order.rs:48-49 | `to_le_bytes` gives four bytes, least significant first, that add back up to the value |
| ZOrder.InterleavedSplit | src/agent-mapping/src/z_order.rs:51-56 | interleaving splits at a byte into two interleaved 16-bit pieces |
| ZOrder.InterleavedBytes | src/agent-mapping/src/z_order.rs:47-56 | interleaving byte by byte and shifting by 16, 32 and 48 bits is interleaving the whole values, within 64 bits |
| ZOrder.InterleavedBound | src/agent-mapping/src/z_order.rs:47-56 | coordinates below 2^k interleave to a value below 2^(2k) |
| ZOrder.New | src/agent-mapping/src/z_order.rs:47-57 | `ZValue::new` is the interleaving of x and y |
| ZOrder.FromFp | src/agent-mapping/src/z_order.rs:59-61 | `from_fp` interleaves the raw values of the two fixed-point coordinates |
| ZOrder.FromRaw | src/agent-mapping/src/z_order.rs:63-65 | `from_raw` is undone by `u64::from` |
| ZOrder.ToU64 | src/agent-mapping/src/z_order.rs:96-100 | `u64::from` gives the raw value, from which the z-value is rebuilt unchanged |
| ZOrder.Masks | src/agent-mapping/src/z_order.rs:30-31 | `X_MASK` is the even bits of 64 and `Y_MASK` the odd ones |
| ZOrder.SpreadDisjoint | src/agent-mapping/src/z_order.rs:51-56 | the x half and the y half of an interleaving share no bit |
| ZOrder.EvenBitsOfInterleaved | src/agent-mapping/src/z_order.rs:67-73 | the even bits of an interleaving give x back and the odd bits y |
| ZOrder.XBits | src/agent-mapping/src/z_order.rs:67-69 | `x_bits` keeps exactly the even bits of the value |
| ZOrder.YBits | src/agent-mapping/src/z_order.rs:71-73 | `y_bits` keeps exactly the odd bits of the value |
| ZOrder.BitsPartition | src/agent-mapping/src/z_order.rs:67-73 | the x and y bits share no bit and together make up the value |
| ZOrder.BitsOfNew | src/agent-mapping/src/z_order.rs:47-73 | the x bits of `new(x, y)` are x spread and the y bits y spread and shifted once |
| ZOrder.SpreadCompare | src/agent-mapping/src/z_order.rs:75-81 | spreading keeps the order of its arguments |
| ZOrder.CmpXOfNew | src/agent-mapping/src/z_order.rs:75-116 | `cmp_x` compares the x coordinates, as `quickcheck_x_cmp` expects, for all inputs |
| ZOrder.CmpYOfNew | src/agent-mapping/src/z_order.rs:79-128 | `cmp_y` compares the y coordinates, as `quickcheck_y_cmp` expects, for all inputs |
| ZOrder.CmpX | src/agent-mapping/src/z_order.rs:75-77 | `cmp_x` orders two z-values by their packed even bits, the x coordinates |
| ZOrder.CmpY | src/agent-mapping/src/z_order.rs:79-81 | `cmp_y` orders two z-values by their packed odd bits, the y coordinates |
| ZOrder.ZCmp | src/agent-mapping/src/z_order.rs:41 | the derived `Ord` says Equal exactly for equal z-values |
| ZOrder.NewInjective | src/agent-mapping/src/z_order.rs:47-57 | distinct coordinate pairs get distinct z-values |
| ZOrder.InterleavedCompare | src/agent-mapping/src/z_order.rs:130-147 | interleavings compare by the coordinate whose highest differing bit is higher, and by y on a tie |
| ZOrder.ZCmpOfNew | src/agent-mapping/src/z_order.rs:130-147 | `quickcheck_z_cmp` holds for every pair of coordinate pairs |
| AgentBuildings.FromRecord | agent-mapping/src/buildings.rs:73-103 | both `From` conversions copy the id and area, take the record's centre as the centroid and its four sides as the bounding box |
| AgentBuildings.ToRecord | agent-mapping/src/buildings.rs:60-71 | the record fields are read back from a building, keeping id and area |
| AgentBuildings.RecordRoundTrip | agent-mapping/src/buildings.rs:73-87 | the conversion is lossless in both directions, so distinct records give distinct buildings |
| AgentBuildings.IdOf | agent-mapping/src/buildings.rs:54-58 | a building converts to its own id |
| KdTree.Swap | src/agent-mapping/src/kd_tree.rs:323 | `swap` exchanges two slots of the slice and leaves the rest of the array alone |
| KdTree.MedianOfThree | src/agent-mapping/src/kd_tree.rs:284-300 | the three conditional swaps leave the first key at most the last and the last at most the middle one, reordering only the slice |
| KdTree.ScanUp | src/agent-mapping/src/kd_tree.rs:309-311 | `i` stops at the first key not below the pivot, before the sentinel, having passed only keys below it |
| KdTree.ScanDown | src/agent-mapping/src/kd_tree.rs:313-318 | `j` stops at the last key not above the pivot, no lower than the sentinel, having passed only keys above it |
| KdTree.HoareLoop | src/agent-mapping/src/kd_tree.rs:302-327 | the result splits the elements before the pivot into keys below it and keys at least it, and the slice is only permuted |
| KdTree.PartitionAsWritten | src/agent-mapping/src/kd_tree.rs:270-328 | panics exactly on an empty slice; the upper part is at least the pivot, and the lower part is below it except for two equal elements |
| KdTree.Partition | src/agent-mapping/src/kd_tree.rs:270-328 | corrected `partition`: the lower part is always strictly below the pivot, as its documentation promises |
| KdTree.PartitionTestAsWritten | src/agent-mapping/src/kd_tree.rs:423-435 | the quickcheck discards exactly the empty input and fails exactly on two equal elements |
| KdTree.PartitionTest | src/agent-mapping/src/kd_tree.rs:423-435 | with the corrected `partition` the quickcheck never fails |
| KdTree.CoordsCmpLt | src/agent-mapping/src/kd_tree.rs:244-258 | `coords_lt` is `coords_cmp` answering `Less`; the comparison is antisymmetric and looks at the chosen axis only |
| KdTree.PairNode | src/agent-mapping/src/kd_tree.rs:38-56 | the two-element node holds both elements with the first as parent, is ordered, and has a left child exactly when the second is below the first |
| KdTree.NewNode | src/agent-mapping/src/kd_tree.rs:30-75 | `TreeNode::new` only reorders the slice and builds an ordered tree holding exactly the slice's elements |
| KdTree.SplitNode | src/agent-mapping/src/kd_tree.rs:59-74 | for three or more elements the pivot becomes the node and the two parts its subtrees on the other axis, giving an ordered tree of the slice's elements |
| KdTree.PartitionOnAxis | src/agent-mapping/src/kd_tree.rs:60-62 | partitioning on the axis puts keys below the pivot's coordinate before the split and keys at least it after |
| KdTree.NewTree | src/agent-mapping/src/kd_tree.rs:180-184 | `UTMTree::new` builds an ordered tree, split on x at the root, over exactly the data elements |
| KdTree.FirstAbove | src/agent-mapping/src/kd_tree.rs:112-121 | the `Err` index of the binary search ends the leading run of slots at distance at most `d` |
| KdTree.FirstAboveSorted | src/agent-mapping/src/kd_tree.rs:112-121 | on a sorted buffer no slot from that index on is at distance at most `d` |
| KdTree.InsertAt | src/agent-mapping/src/kd_tree.rs:123-128 | the swap loop shifts the slots from `idx` one place down, dropping the last, and puts the new entry at `idx` |
| KdTree.OfferSorted | src/agent-mapping/src/kd_tree.rs:110-128 | inserting at the binary-search index keeps the buffer sorted by distance and its length fixed |
| KdTree.OfferHolds | src/agent-mapping/src/kd_tree.rs:110-128 | after the step the offered element is listed, or every slot holds an element no farther |
| KdTree.OfferExtends | src/agent-mapping/src/kd_tree.rs:110-128 | the step only drops the farthest entry, so nothing already accounted for is lost |
| KdTree.OfferSound | src/agent-mapping/src/kd_tree.rs:110-128 | the buffer keeps holding only tree elements at their squared distance below the limit |
| KdTree.OfferItems | src/agent-mapping/src/kd_tree.rs:110-128 | the found elements after the step are those before it plus at most the offered element, since the entry shifted off the end leaves |
| KdTree.AxisSeparation | src/agent-mapping/src/kd_tree.rs:133-137 | a point across the splitting coordinate is at least the squared axis separation from the query |
| KdTree.FarSide | src/agent-mapping/src/kd_tree.rs:131-137 | every element of the far subtree is at least the squared axis separation from the query |
| KdTree.Pruned | src/agent-mapping/src/kd_tree.rs:139-151 | when the far side is skipped, the buffer already accounts for every far element below the limit |
| KdTree.Query | src/agent-mapping/src/kd_tree.rs:88-154 | `TreeNode::nearest_neighbors` keeps the buffer sorted and sound, loses nothing it held, accounts for every subtree element below the limit, and adds found entries only from the subtree, each at most as often as it is stored there |
| KdTree.ItemsAssembly | src/agent-mapping/src/kd_tree.rs:88-154 | the near descent, the node's own element and the far visit together add no more than the node's elements |
| KdTree.Consider | src/agent-mapping/src/kd_tree.rs:109-129 | an element below the limit is inserted at the binary-search index, when that index lies in the buffer, and nothing but that element is added |
| KdTree.VisitFar | src/agent-mapping/src/kd_tree.rs:131-153 | the far subtree is visited unless pruned, and afterwards its elements are accounted for |
| KdTree.NearestNeighbors | src/agent-mapping/src/kd_tree.rs:200-220 | the buffer is reset to vacant slots, and ends sorted, sound, with its found elements a sub-multiset of the tree (no element listed more often than stored), and for a non-empty buffer accounting for every element below the limit |
| KdTree.Retained | src/agent-mapping/src/kd_tree.rs:238 | `retain` keeps exactly the found slots, in order |
| KdTree.RetainedPrefix | src/agent-mapping/src/kd_tree.rs:238 | in a sorted buffer the found slots form a prefix, so retaining drops only vacant slots |
| KdTree.RetainedItems | src/agent-mapping/src/kd_tree.rs:238 | retaining keeps the multiset of found elements |
| KdTree.CollectNearest | src/agent-mapping/src/kd_tree.rs:228-242 | at most `k` found entries in ascending distance, each a tree element below the limit and none listed more often than the tree stores it; every element below the limit is listed or `k` no farther entries are |
| KdTree.CollectedCovers | src/agent-mapping/src/kd_tree.rs:228-242 | the retained prefix lists every covered element below the limit, or is full of nearer ones |
| Quadtree.MinRegion | src/agent-mapping/src/quadtree.rs:202-209 | `min_region` has no NaN and every region without NaN encloses it |
| Quadtree.ReduceRegionPoint | src/agent-mapping/src/quadtree.rs:162-180 | the result encloses the old bounds and holds the point |
| Quadtree.ReduceRegions | src/agent-mapping/src/quadtree.rs:182-200 | the result encloses both arguments |
| Quadtree.ReduceRegionPointLeast | src/agent-mapping/src/quadtree.rs:162-180 | any bounds enclosing the old ones and holding the point enclose the result, so it is the least such |
| Quadtree.ReduceRegionsLeast | src/agent-mapping/src/quadtree.rs:182-200 | any bounds enclosing both arguments enclose the result, so it is the least such |
| Quadtree.MinRegionIdentity | src/agent-mapping/src/quadtree.rs:182-209 | `min_region` is the identity of `reduce_regions` on either side |
| Quadtree.ReduceRegionsAlgebra | src/agent-mapping/src/quadtree.rs:182-200 | `reduce_regions` is commutative and associative without NaN, as the parallel reduce needs |
| Quadtree.ReduceRegionPointAsRegions | src/agent-mapping/src/quadtree.rs:162-200 | extending by a point is reducing with the point's own bounds |
| Quadtree.BuildingsBoxEncloses | src/agent-mapping/src/quadtree.rs:239-242 | the buildings' box encloses every building's bounding box |
| Quadtree.AgentsBoxHolds | src/agent-mapping/src/quadtree.rs:244-247 | the agents' box holds every agent's position |
| Quadtree.BuildingsBoxSplit | src/agent-mapping/src/quadtree.rs:239-242 | folding two parts and reducing their boxes gives the box of all buildings, so the parallel fold may split anywhere |
| Quadtree.AgentsBoxSplit | src/agent-mapping/src/quadtree.rs:244-247 | folding two parts and reducing their boxes gives the box of all agents |
| Quadtree.BoxesSane | src/agent-mapping/src/quadtree.rs:239-249 | the boxes and the spanned region never have a bound at the wrong infinity |
| Quadtree.ToRegion | src/agent-mapping/src/quadtree.rs:249-256 | a region that passes the assertions has four finite bounds with west below east and south below north |
| Quadtree.HoldsContains | src/agent-mapping/src/quadtree.rs:249-268 | a point within the finite bounds is contained in the region |
| Quadtree.AgentsInRegion | src/agent-mapping/src/quadtree.rs:244-268 | once the assertions pass, every agent lies in the region, so its z-value exists |
| Quadtree.ZOf | src/agent-mapping/src/quadtree.rs:259-266 | inside a proper region `z_value` yields a z-value, so the `expect` never panics |
| Quadtree.AgentData | src/agent-mapping/src/quadtree.rs:258-268 | `agent_data` pairs each agent, in order, with its z-value |
| Quadtree.SortedEntries | src/agent-mapping/src/quadtree.rs:271 | the sort keeps exactly the agents and orders them by z-value |
| Quadtree.BinarySearch | src/agent-mapping/src/quadtree.rs:150 | a hit holds the query; a miss gives an insertion point within the slice |
| Quadtree.FindSplit | src/agent-mapping/src/quadtree.rs:149-160 | `find_split` returns the first index whose z-value is at least the query, on a hit or a miss |
| Quadtree.InQuadrant | src/agent-mapping/src/quadtree.rs:68-90 | a quadrant's list holds exactly the buildings whose box reaches that quadrant |
| Quadtree.SplitBuildings | src/agent-mapping/src/quadtree.rs:68-90 | the loop pushes each building, in order, to every quadrant its box reaches |
| Quadtree.SpanningBuildingEverywhere | src/agent-mapping/src/quadtree.rs:68-90 | a building whose box spans the centre goes to all four quadrants |
| Quadtree.NoQuadrant | src/agent-mapping/src/quadtree.rs:68-90 | an ordered box reaches no quadrant exactly when it is flat along a centre line |
| Quadtree.ShiftBits | src/agent-mapping/src/quadtree.rs:41-42 | the two shifts give the cell's x bit and the y bit, twice it |
| Quadtree.QuadrantBits | src/agent-mapping/src/quadtree.rs:41-42 | the x and y bits of a cell below depth 32 |
| Quadtree.QuadrantPrefixes | src/agent-mapping/src/quadtree.rs:43-46 | or-ing the bits onto a cell prefix adds them, since the prefix's low bits are clear |
| Quadtree.QuadrantCells | src/agent-mapping/src/quadtree.rs:43-46 | the four quarters of a cell are cells one level down |
| Quadtree.QuadrantZ | src/agent-mapping/src/quadtree.rs:41-46 | the three prefixes are the starts of the cell's second, third and fourth quarters, each a cell one level down |
| Quadtree.Quarters | src/agent-mapping/src/quadtree.rs:49-51 | the three splits leave in each quadrant's slice exactly the agents of that quadrant's cell, and each cut is the first index at or above its prefix |
| Quadtree.SplitAgents | src/agent-mapping/src/quadtree.rs:41-51 | the agents are cut into south-west, south-east, north-west and north-east slices, each within its quadrant's cell, at the first index at or above each prefix |
| Quadtree.SplitIsFirst | src/agent-mapping/src/quadtree.rs:149-160 | a cut with every entry before it below the query and none after it is the first index at or above the query, so `find_split`'s cut is unique |
| Quadtree.FirstAtLeastCuts | src/agent-mapping/src/quadtree.rs:149-160 | on z-sorted agents the reference cut leaves the entries below the query before it and the rest after it, as `find_split` does |
| Quadtree.Cut | src/agent-mapping/src/quadtree.rs:49-51 | `split_at(find_split(..))` on a slice cuts at the first index whose z-value is at least the prefix, with everything before it below and everything after it at or above |
| Quadtree.SplitAtEntries | src/agent-mapping/src/quadtree.rs:149-160 | `find_split`'s answer on a slice cuts the whole sequence at the same place |
| Quadtree.Quadrants | src/agent-mapping/src/quadtree.rs:39-146 | the four quadrants' slices lie in z-order south-west, south-east, north-west, north-east and together cover the region's agents |
| Quadtree.SplitQuadrants | src/agent-mapping/src/quadtree.rs:39-90 | the four quadrants get the prefixes of their quarters, the quarter regions around the centre, and the buildings each bounding-box test collects; each is a cell one level down holding its slice of the agents, cut at the first index at or above its prefix |
| Quadtree.SplitIsQuadrants | src/agent-mapping/src/quadtree.rs:39-90 | the quarters `SplitQuadrants` builds are exactly the quadrants of `Quadrants` |
| Quadtree.QuadrantsOf | src/agent-mapping/src/quadtree.rs:39-90 | `Quadrants` is built from the three cuts and the four bounding-box lists |
| Quadtree.RootCell | src/agent-mapping/src/quadtree.rs:276-284 | every z-value lies in the root cell, prefix 0 at depth 0 |
| Quadtree.DeepestCell | src/agent-mapping/src/quadtree.rs:41-42 | at depth 32 a cell holds a single z-value |
| Quadtree.DeepestShared | src/agent-mapping/src/quadtree.rs:41-42 | at depth 32 every agent of the cell shares one z-value |
| Quadtree.MapLeaf | src/agent-mapping/src/quadtree.rs:27-37 | the leaf loop maps every agent of the region among all its buildings and touches no other cell |
| Quadtree.ProcessRegion | src/agent-mapping/src/quadtree.rs:10-147 | the call succeeds exactly when `Leaves` does, and then the region's cells are exactly `Leaves`: none set without agents or buildings, each agent's pick among the leaf's buildings in a leaf, and the quadrants' cells otherwise; no other cell changes, and a panic needs `threshold` agents sharing one z-value |
| Quadtree.Leaves | src/agent-mapping/src/quadtree.rs:10-147 | the reference for `process_region`: one cell per agent of the region, panicking only on the depth-32 shift |
| Quadtree.LeavesSplit | src/agent-mapping/src/quadtree.rs:39-146 | in the split case the region's cells are the four quadrants' cells in z-order, and the call panics exactly when some quadrant does |
| Quadtree.UnsetCells | src/agent-mapping/src/quadtree.rs:21-24 | a region left alone keeps all its cells empty |
| Quadtree.LeafCells | src/agent-mapping/src/quadtree.rs:27-37 | the leaf loop's cells are each agent's pick among the leaf's buildings |
| Quadtree.ProcessQuadrants | src/agent-mapping/src/quadtree.rs:39-146 | the split case succeeds exactly when every quadrant does, and then leaves the region's cells equal to the four quadrants' `Leaves` in z-order; it touches only the region's cells and panics only on a shared z-value |
| Quadtree.ProcessPair | src/agent-mapping/src/quadtree.rs:93-146 | one `rayon::join` of two adjacent quadrants succeeds exactly when both do, and then each quadrant's cells are exactly its `Leaves`; it touches only their cells and keeps them within the buildings |
| Quadtree.ProcessQuadrant | src/agent-mapping/src/quadtree.rs:95-144 | one quadrant's call succeeds exactly when its `Leaves` does, and then its cells are exactly its `Leaves`; it touches only its own cells |
| Quadtree.ProcessRoot | src/agent-mapping/src/quadtree.rs:276-284 | the call on the whole region, prefix 0 at depth 0, succeeds exactly when `RootLeaves` does and then leaves every cell as `RootLeaves` says; every set cell holds an input building and a small region maps every agent |
| Quadtree.RootLeaves | src/agent-mapping/src/quadtree.rs:276-284 | the root region's reference cells, one per agent |
| Quadtree.MappedPairs | src/agent-mapping/src/quadtree.rs:286-288 | `filter_map` returns at most one pair per agent |
| Quadtree.MappedPairsFrom | src/agent-mapping/src/quadtree.rs:286-288 | every returned pair is an agent with the building of its set cell |
| Quadtree.MappedPairsAll | src/agent-mapping/src/quadtree.rs:286-288 | with every cell set, every agent is returned, in order, with its building |
| Quadtree.MappedPairsNone | src/agent-mapping/src/quadtree.rs:286-288 | with no cell set nothing is returned |
| Quadtree.PairsOfAgents | src/agent-mapping/src/quadtree.rs:286-288 | the returned pairs hold input agents and input buildings |
| Quadtree.PairsOfLeaf | src/agent-mapping/src/quadtree.rs:27-37 | when the whole region is one leaf, every agent is returned with the building `mapper` picks among all |
| Quadtree.MapSorted | src/agent-mapping/src/quadtree.rs:273-288 | after the sort it succeeds exactly when `RootLeaves` does, and then returns exactly the agents with a set reference cell, in z-order, each with that building; no agents or buildings give nothing; a small input maps every agent |
| Quadtree.MapInRegion | src/agent-mapping/src/quadtree.rs:257-288 | once the region has passed its assertions, the result is exactly `ZMapping`: the sorted agents' reference cells turned into pairs, or the depth-32 panic |
| Quadtree.MapVehicles | src/agent-mapping/src/quadtree.rs:229-289 | a region without positive width and height panics; otherwise the result is exactly `ZMapping` on the spanned region, so every pair is an input agent with its leaf's pick, and small inputs map every agent |
| Quadtree.SpannedRegion | src/agent-mapping/src/quadtree.rs:249-268 | the spanned region, once it passes the assertions, is proper and holds every agent |
| QuadtreeMapClosest.CentroidDistances | src/agent-mapping/src/bin/quadtree_map_closest.rs:8-10 | each building paired, in slice order, with the squared distance from its centroid to the vehicle |
| QuadtreeMapClosest.MapToClosest | src/agent-mapping/src/bin/quadtree_map_closest.rs:7-17 | the chosen building is in the slice, no other centroid is nearer, and every earlier building is strictly farther |
| QuadtreeMapClosest.ClosestAtZero | src/agent-mapping/src/bin/quadtree_map_closest.rs:7-17 | a building whose centroid is at the vehicle is chosen unless an earlier one is too |
| QuadtreeMapWeighted.AreaSumPositive | src/agent-mapping/src/bin/quadtree_map_weighted.rs:9 | positive areas have a positive sum |
| QuadtreeMapWeighted.SharesSumToOne | src/agent-mapping/src/bin/quadtree_map_weighted.rs:9-14 | the relative areas sum to 1 whenever the total area is not zero |
| QuadtreeMapWeighted.ShareSumScaled | src/agent-mapping/src/bin/quadtree_map_weighted.rs:9-14 | summing the shares is dividing the sum of areas by the total |
| QuadtreeMapWeighted.WeightedDistance | src/agent-mapping/src/bin/quadtree_map_weighted.rs:14-16 | the distance over the share of the total is the total times distance over area |
| QuadtreeMapWeighted.WeightedScore | src/agent-mapping/src/bin/quadtree_map_weighted.rs:13-16 | the `f64` score: the weighted distance when the area and the total are non-zero; for a zero area, NaN exactly when the vehicle is on the centroid and +inf otherwise; for a zero total, NaN exactly for a zero area and 0 otherwise |
| QuadtreeMapWeighted.WeightedScores | src/agent-mapping/src/bin/quadtree_map_weighted.rs:9-17 | one score per building, in slice order, each against the slice's own total area |
| QuadtreeMapWeighted.MapWeighted | src/agent-mapping/src/bin/quadtree_map_weighted.rs:7-24 | the empty slice fails with "empty buildings slice"; otherwise the call fails with "could not compare weighted distances" exactly when there are two or more buildings and some score is NaN; else the chosen building is in the slice, no score is below its score, and every earlier score is strictly above it |
| QuadtreeMapWeighted.MapWeightedPositive | src/agent-mapping/src/bin/quadtree_map_weighted.rs:7-24 | with positive areas the mapper succeeds, and the chosen building has the smallest weighted distance, strictly smaller than every earlier building's |
| QuadtreeMapWeighted.MapWeightedSingle | src/agent-mapping/src/bin/quadtree_map_weighted.rs:18-22 | a single building is returned without a comparison, whatever its area |
| QuadtreeMapWeighted.ZeroAreaNotChosen | src/agent-mapping/src/bin/quadtree_map_weighted.rs:9-21 | with no negative area and some positive area, a successful call never returns a zero-area building |
| QuadtreeMapWeighted.AreaSumAtLeast | src/agent-mapping/src/bin/quadtree_map_weighted.rs:9 | with no negative area, the total is at least each building's area |
| QuadtreeMapWeighted.AreaSumNonNegative | src/agent-mapping/src/bin/quadtree_map_weighted.rs:9 | with no negative area, the total is not negative |
| QuadtreeMapWeighted.ZeroAreaOnCentroidPanics | src/agent-mapping/src/bin/quadtree_map_weighted.rs:14-20 | among two or more buildings, a zero-area building whose centroid is the vehicle's position makes the call fail with "could not compare weighted distances" |
| QuadtreeMapWeighted.AreaSumZero | src/agent-mapping/src/bin/quadtree_map_weighted.rs:9 | zero areas sum to zero |
| QuadtreeMapWeighted.AllZeroAreasPanic | src/agent-mapping/src/bin/quadtree_map_weighted.rs:9-20 | two or more buildings that all have zero area make the call fail with "could not compare weighted distances" |
| QuadtreeMapWeighted.WeightedRanking | src/agent-mapping/src/bin/quadtree_map_weighted.rs:14-16 | with a positive total, weighted distances rank buildings as distance over area does |
| QuadtreeMapWeighted.ScaledQuotient | src/agent-mapping/src/bin/quadtree_map_weighted.rs:14-16 | dividing by a share of the total is multiplying distance over area by the total |
| MinBy.FirstMinBy | src/agent-mapping/src/bin/quadtree_map_weighted.rs:18-21 | `min_by` with a panicking comparison over the first n scores: no result exactly when there are two or more and one is NaN; otherwise no score is below the result's, every earlier one is strictly above it, and with two or more no score is NaN |
| MinBy.ArgMinBy | src/agent-mapping/src/bin/quadtree_map_weighted.rs:18-21 | the same over the whole score sequence |
| MinBy.FirstMin | src/agent-mapping/src/bin/quadtree_map_closest.rs:8-16 | among the first n scores, no score is smaller than the kept one and every earlier one is strictly larger |
| MinBy.ArgMin | src/agent-mapping/src/bin/quadtree_map_closest.rs:8-16 | `min_by` settles on the first smallest score: no score is smaller and every earlier one is larger |
| MinBy.ArgMinUnique | src/agent-mapping/src/bin/quadtree_map_closest.rs:8-16 | the first smallest score is the only position with both properties |
| VehicleSim.RecordPosition | agent-mapping/src/vehicle_sim.rs:154-156 | the position holds the record's x and y |
| VehicleSim.FromRecord | agent-mapping/src/vehicle_sim.rs:159-177 | the agent's id is the vehicle, its time the record's time and its position the record's coordinates |
| VehicleSim.FromRecordKeeps | agent-mapping/src/vehicle_sim.rs:159-177 | two records give the same agent exactly when they agree on vehicle, time and coordinates |
| VehicleSim.Padded2 | agent-mapping/src/vehicle_sim.rs:190 | `{:02}` writes at least two digits |
| VehicleSim.RSplit | agent-mapping/src/vehicle_sim.rs:214 | `rsplit` yields the pieces of `split` in reverse order |
| VehicleSim.RSplitPair | agent-mapping/src/vehicle_sim.rs:214-215 | two separator-free pieces joined by the separator come back last first |
| VehicleSim.Field | agent-mapping/src/vehicle_sim.rs:219-229 | a field parses exactly when it is a u32 in decimal, and otherwise panics with the field's message |
| VehicleSim.OptionalField | agent-mapping/src/vehicle_sim.rs:231-242 | an absent second or day is 0, a present one is parsed like any field |
| VehicleSim.Total | agent-mapping/src/vehicle_sim.rs:244 | the total succeeds exactly when day * 86400 + hour * 3600 + minute * 60 + second fits in u32, and is that sum |
| VehicleSim.ParseTimestamp | agent-mapping/src/vehicle_sim.rs:205-245 | the empty text fails with "invalid hour", and every failure carries one of the six panic messages |
| VehicleSim.ParseOfPieces | agent-mapping/src/vehicle_sim.rs:205-245 | a timestamp whose hour, minute, optional second and optional day parse is their total in seconds |
| VehicleSim.ParseOfBadPieces | agent-mapping/src/vehicle_sim.rs:219-229 | an unreadable hour, a missing minute or an unreadable minute stops the parse with its own message |
| VehicleSim.ParseDigitFields | agent-mapping/src/vehicle_sim.rs:205-245 | `day@hour:minute:second` in digits reads as the total of the four values |
| VehicleSim.ParseClockFields | agent-mapping/src/vehicle_sim.rs:205-245 | `hour:minute:second` in digits reads as the total with no day |
| VehicleSim.ParseHourMinute | agent-mapping/src/vehicle_sim.rs:205-245 | `hour:minute` in digits reads as the total with no day and no second |
| VehicleSim.ParseExamples | agent-mapping/src/vehicle_sim.rs:206-211 | the documented examples `1@0:59:30`, `2:48:30` and `0:02` read as 89970, 10110 and 120 seconds |
| VehicleSim.ParseRejects | agent-mapping/src/vehicle_sim.rs:219-229 | a missing minute, a non-numeric hour and an empty minute are rejected with their messages |
| VehicleSim.RejectNoMinute | agent-mapping/src/vehicle_sim.rs:225-229 | a timestamp of one digit field has no minute |
| VehicleSim.RejectBadHour | agent-mapping/src/vehicle_sim.rs:219-223 | an hour that does not start with a digit or '+' is invalid |
| VehicleSim.RejectEmptyMinute | agent-mapping/src/vehicle_sim.rs:225-229 | an empty minute is invalid |
| VehicleSim.Padded2Parses | agent-mapping/src/vehicle_sim.rs:190-197 | a zero-padded number parses back to itself |
| VehicleSim.FormatTime | agent-mapping/src/vehicle_sim.rs:179-202 | at least four characters, and below one day just the clock text of the hour, minute and second |
| VehicleSim.Breakdown | agent-mapping/src/vehicle_sim.rs:179-187 | the days, hours, minutes and seconds `format_time` computes add back up to the time, with hours below 24 and minutes and seconds below 60 |
| VehicleSim.FormatPieces | agent-mapping/src/vehicle_sim.rs:179-202 | `format_time` writes the day prefix exactly when the time reaches a day, then the clock, from parts that add back up to the time |
| VehicleSim.FormatShape | agent-mapping/src/vehicle_sim.rs:179-202 | the text holds an '@' exactly when the time reaches a day, and three ':'-separated fields exactly when the seconds are non-zero |
| VehicleSim.ParseFormat | agent-mapping/src/vehicle_sim.rs:179-245 | every u32 time written by `format_time` is read back by `parse_timestamp` as itself |
| VehicleSim.ParseFields | agent-mapping/src/vehicle_sim.rs:179-245 | the text written for any day, hour, minute and second reads back as their total |
| VehicleSim.VisitI64 | agent-mapping/src/vehicle_sim.rs:267-276 | a signed value is accepted exactly when it lies in [0, u32::MAX], and kept unchanged |
| VehicleSim.VisitU64 | agent-mapping/src/vehicle_sim.rs:278-287 | an unsigned value is accepted exactly when it is at most u32::MAX, and kept unchanged |
| VehicleSim.SerdeAgree | agent-mapping/src/vehicle_sim.rs:253-303 | an integer time and the same time written as text deserialize alike |
| GroupByTime.KeptRecords | agent-mapping/src/bin/group_by_time.rs:18-34 | the records kept are exactly those whose field 1 ends with ":00", never more than were read, and a record without field 1 panics |
| GroupByTime.DigitOrZero | agent-mapping/src/bin/group_by_time.rs:38-40 | `saturating_sub(b'0')` gives a digit's value and never exceeds 207 |
| GroupByTime.GetHour | agent-mapping/src/bin/group_by_time.rs:36-42 | a too-short timestamp panics; "H:" gives H, "D@H" gives 24 plus H, and two leading digits give the two-digit number |
| GroupByTime.GetHourExamples | agent-mapping/src/bin/group_by_time.rs:36-42 | the three timestamp forms read as hours 7, 13 and 24, and a zero-padded day reads as two digits |
| GroupByTime.GetHourOfFormatTime | agent-mapping/src/bin/group_by_time.rs:36-42 | on the text `format_time` writes for a time within the first day, the hour read back is the hour of the time |
| GroupByTime.GetHourOfFormatDay | agent-mapping/src/bin/group_by_time.rs:36-42 | from day 1 on, the zero-padded day before '@' sends `get_hour` down the two-digit branch, which returns the day count |
| GroupByTime.HourOfTime | agent-mapping/src/bin/group_by_time.rs:36-42 | within a day the hour is the time's quotient by 3600 |
| GroupByTime.HourOf | agent-mapping/src/bin/group_by_time.rs:47 | a record without field 1 panics with an index error; two leading digits in field 1 give their two-digit hour |
| GroupByTime.Filed | agent-mapping/src/bin/group_by_time.rs:47-49 | filing a record appends it to its hour's group and leaves every other group unchanged |
| GroupByTime.WithHour | agent-mapping/src/bin/group_by_time.rs:44-53 | the records of one hour, in order: the reference for the grouping |
| GroupByTime.GroupRecords | agent-mapping/src/bin/group_by_time.rs:44-53 | the loop gives the grouping of the records, or the panic of the first record without an hour |
| GroupByTime.GroupedPrefixErr | agent-mapping/src/bin/group_by_time.rs:44-53 | once a prefix of the records panics, the whole grouping panics with the same message |
| GroupByTime.GroupedOk | agent-mapping/src/bin/group_by_time.rs:44-53 | grouping succeeds exactly when every record has an hour |
| GroupByTime.GroupedByHour | agent-mapping/src/bin/group_by_time.rs:44-53 | each hour's group is that hour's records in their order, and an hour has a group exactly when it has a record |
| GroupByTime.GroupSizesTotal | agent-mapping/src/bin/group_by_time.rs:44-53 | the groups together hold every record exactly once |
| GroupByTime.WithHourAppend | agent-mapping/src/bin/group_by_time.rs:353-358 | the records of an hour in two runs are those of the first run followed by those of the second |
| GroupByTime.MergeGroups | agent-mapping/src/bin/group_by_time.rs:55-65 | the loop gives the merge: each hour of the second grouping extends or is inserted into the first |
| GroupByTime.MergedGroups | agent-mapping/src/bin/group_by_time.rs:55-65 | a merge has the hours of both groupings, and each hour's group is the first's group followed by the second's |
| GroupByTime.MergeGrouped | agent-mapping/src/bin/group_by_time.rs:353-358 | grouping two runs separately and merging the groupings equals grouping the runs one after the other |
| GroupByTime.MergedIdentity | agent-mapping/src/bin/group_by_time.rs:358 | merging with the empty grouping changes nothing, on either side |
| GroupByTime.MergedAssociative | agent-mapping/src/bin/group_by_time.rs:358 | merging is associative, so the shape of the parallel reduction does not matter |
| GroupByTime.Quartiles | agent-mapping/src/bin/group_by_time.rs:79-82 | the three quartile indices are ordered and within the data |
| GroupByTime.Fences | agent-mapping/src/bin/group_by_time.rs:79-87 | computing the fences fails exactly on empty data, where `len() - 1` underflows |
| GroupByTime.FencesHoldMedian | agent-mapping/src/bin/group_by_time.rs:84-87 | with `k >= 0` on sorted data, the median key lies within the fences |
| GroupByTime.PartitionPoint | agent-mapping/src/bin/group_by_time.rs:93-114 | on sorted data the binary search's error index splits the items before the fence from the rest |
| GroupByTime.FenceSlice | agent-mapping/src/bin/group_by_time.rs:89-116 | the two partition points bound exactly the items whose keys lie within the fences |
| GroupByTime.TukeyFences | agent-mapping/src/bin/group_by_time.rs:72-117 | panics exactly on empty data; otherwise the data is sorted by key as a permutation, the slice returned holds exactly the items within the fences, and with `k >= 0` it holds the median |
| GroupByTime.Count | agent-mapping/src/bin/group_by_time.rs:119-139 | a key's count is at most the number of items and positive exactly when some item has the key |
| GroupByTime.CountedCounts | agent-mapping/src/bin/group_by_time.rs:119-139 | the table holds exactly the items' keys, each with the number of items that have it |
| GroupByTime.CountBy | agent-mapping/src/bin/group_by_time.rs:119-139 | the loop gives the table of counts, holding exactly the items' keys with their numbers of occurrences |
| GroupByTime.CountAppend | agent-mapping/src/bin/group_by_time.rs:125-138 | counts over two runs of items add up |
| GroupByTime.CountedAppend | agent-mapping/src/bin/group_by_time.rs:130-138 | counting two runs separately and reducing the tables equals counting them together |
| GroupByTime.CountsSumToLength | agent-mapping/src/bin/group_by_time.rs:119-139 | the counts of all keys add up to the number of items |
| GroupByTime.OutputRow | agent-mapping/src/bin/group_by_time.rs:197-206 | an output row has nine fields |
| GroupByTime.OutputRowParses | agent-mapping/src/bin/group_by_time.rs:197-206 | the row layout is the one the mapping-file reader expects: it parses back to the vehicle, link, position, building, distance and count |
| GroupByTime.ProcessGroup | agent-mapping/src/bin/group_by_time.rs:176-213 | with filtering, panics exactly on no mappings and keeps the Tukey slice (k = 1.5) of the distances; the kept mappings are a sub-multiset of the input, the counts hold exactly their buildings with the number of mappings to each, and each kept mapping becomes one row carrying its building's count |
| GroupByTime.SliceOfPermutation | agent-mapping/src/bin/group_by_time.rs:182-186 | a slice of the sorted mappings is a sub-multiset of the mappings |
| FindLastSeen.Updated | src/agent-mapping/src/bin/find_last_seen.rs:9-20 | a record replaces the stored one only when it is strictly later or its vehicle is new; no other vehicle's entry changes |
| FindLastSeen.LastSeen.constructor | src/agent-mapping/src/bin/find_last_seen.rs:30 | the table starts empty |
| FindLastSeen.LastSeen.Update | src/agent-mapping/src/bin/find_last_seen.rs:9-20 | the in-place update leaves the table of `Updated` |
| FindLastSeen.CollectLastSeen | src/agent-mapping/src/bin/find_last_seen.rs:25-44 | the table holds exactly the vehicles of the records, each under its own id with one of its records, and no record of a vehicle is later than the kept one |
| FindLastSeen.FoldedKeys | src/agent-mapping/src/bin/find_last_seen.rs:25-44 | the folded table's vehicles are exactly the records' vehicles, each stored record is one of the records |
| FindLastSeen.FoldedLatest | src/agent-mapping/src/bin/find_last_seen.rs:9-20 | the kept record of a vehicle is the earliest of its latest-time records |
| FindLastSeen.ByVehicle | src/agent-mapping/src/bin/find_last_seen.rs:46-47 | the output has one record per stored vehicle |
| FindLastSeen.ByVehicleAscending | src/agent-mapping/src/bin/find_last_seen.rs:46-47 | the output lists the stored records by strictly ascending vehicle id |
| FindLastSeen.ByVehicleComplete | src/agent-mapping/src/bin/find_last_seen.rs:46-47 | every stored record appears in the output |

## Left out

- File and command-line plumbing is not modelled: JSON and CSV file reading and writing, argument parsing, the `main` functions, the crate's `loader.rs`, `read_args`/`write_group`/`write_buildings`, and the `main` of `kd_tree_find_closest.rs`. Readers take rows as sequences of strings, and writers produce the rows they would write. `lib.rs` only declares modules.
- rayon's `join`, `par_iter`, `fold`, `reduce` and `par_sort_unstable_by_key` run sequentially. The unstable sorts are modelled as stable sorts, which is one of the orders they may produce. `OnceCell`'s cross-thread use is a plain array of options.
- Floating point is exact real arithmetic: no rounding, no NaN from `partial_cmp(...).unwrap()` (a NaN key would panic in the sorts and the kd-tree; the weighted mapper is the exception, see below), and `np.around` to two decimals is dropped from `RoadSampling` and `SimplifyBuildings`.
- `sqrt`, `hypot`, `sin`, `cos`, `tan` and pi are parameters. The transverse-Mercator series is kept term by term, but its numeric values and the reference coordinates cannot be checked.
- `Utm.ConvertToUtm` requires the curvature root to be non-zero. That holds for every real latitude; with the trigonometric functions as parameters it has to be stated.
- `QuadtreeMapClosest.MapToClosest` requires at least one building. The source's `.expect("empty buildings slice")` panics on an empty slice, and the quadtree never calls the mapper with one.
- `QuadtreeMapWeighted.MapWeighted` scores with exact reals, except for the IEEE results of dividing by zero (`Float64.Quotient`, `Float64.DivBy`), which a zero area or a zero total produces. `Quadtree.MapVehicles` takes a total mapper, so its `Err` results are not passed on through the quadtree.
- `Quadtree.MapVehicles` takes the mapper as a parameter and requires it to return one of the buildings it is given (`Quadtree.Chooses`), as both mappers do.
- `KdTree.CollectNearest` and `KdTree.NearestNeighbors` promise that each element below the limit is listed at least once, or that the buffer is full of nearer entries. When the data holds two equal elements, the model does not promise that both copies are listed; it only bounds each element's count by the tree's.
- `Float64.F64` has a single zero. A `-0.0` area or share, which would make `QuadtreeMapWeighted.WeightedScore` −∞ rather than +∞, is not modelled; areas are written as absolute values.
- `compute_mappings` in `group_by_time.rs` is not modelled. It is the driver that parses fields 11 and 12 of each record with Rust's `f64` parser and asks `UTMTree::nearest_neighbors` for one slot with an infinite limit, which `KdTree.NearestNeighbors` models. `GroupByTime.ProcessGroup` starts from the mappings it returns.
- `Quadtree.BinarySearch`, used by `find_split`, is proved to return some position of a match. Which of several equal z-values `binary_search_by` lands on is not pinned down, because Rust leaves it unspecified.
- `RoadNet.NewLink`, `RoadNet.OffsetToPoint` and `RoadSampling.SampleLink` require at least one point. A link with no points makes the source fail with an IndexError, and road-network files always have points.
- `SimsIo.Trace.Merge` requires the other trace to be a different object. Merging a trace with itself, where Python aliases the two lists, is not modelled.
- `FindLastSeen.CollectLastSeen` folds all records in one sequence. The tool's parallel reduce may keep either of two records of one vehicle with equal times; the sequential fold keeps the first.
- `GroupByTime.KeptRecords` takes the records the CSV reader yields after the header. The model includes the panic on a record without a timestamp field. A read error, which silently ends `load_record_file`'s iteration early, is not modelled.
- `GroupByTime.OutputRow` writes `f64` numbers through a parameter `show`. The model only requires that Python's `float()` reads `show`'s text back as the same number; Rust's shortest round-trip formatting is not modelled.
- `VehicleSim` serde: only `visit_str`'s success and error outcomes, and the range checks of `visit_i64`/`visit_u64`, are modelled. The serde framework is not.
- `Emissions.EmissionsSnapshot.Load` takes the rows after the header. The `StopIteration` that an empty file raises at `next(reader)` is not modelled.
- `SimsIo.Snapshot.Load` takes the rows after the header. The `StopIteration` that an empty file raises at `next(reader)` is not modelled.
- `Snapshot.iter_time`, `Snapshot.iter_traces` and `Trace.__iter__` only hand out iterators over the stored frames and traces. The model exposes those fields directly.
- `LinkVolIo.VolumeSnapshot.InsertVolume` follows the code as written, which always raises at the link slots. Writing through the per-link dictionaries that the corrected count `LinkVolIo.LinksExtension` would make room for is not modelled, because those dictionaries are all one shared object.
- Text.PyFloat: accepts a sign, digits with at most one '.', and an 'e' or 'E' exponent. Python's `float()` also accepts surrounding whitespace, underscores between digits, and "nan", "inf" and "infinity"; those forms are rejected here, and the last three have no real value.
- Text.PyInt: accepts an optional sign and decimal digits. Surrounding whitespace and underscores between digits, which Python's `int()` also accepts, are rejected.
- Text.PyIntHex: accepts an optional sign, an optional "0x" or "0X" prefix and hex digits. Surrounding whitespace and underscores between digits, which `int(s, base=16)` also accepts, are rejected.
- The `plot_*` scripts are modelled only through their pure helpers. Their matplotlib code, `np.percentile` fences and seeded random sampling are left out, and so are the multiprocessing pools of the sampling scripts.
- `heatmap_diff.py` calls a `comp_values` function that `heatmap.py` does not define, and is not part of this model. `snap_to_network.py` wraps scipy's `cKDTree` and is not part of this model either.

## Findings

| source | as written | input that shows it | evidently intended | confidence | as-written member | corrected member |
|---|---|---|---|---|---|---|
| src/support/linkvolio.py:36-40 | the description text is looked up in `LINK_DESC`, but only the list's length is ever appended to it, so no text is ever found and every row gets a new number | two rows with the description "ARTERIAL" get the numbers 0 and 1 | append the text and give each distinct description one number, its position in the list | high, not executed | LinkVolIo.AsWrittenRepeatsDiffer | LinkVolIo.InternDesc |
| src/support/linkvolio.py:60-61 | the number of link slots to add is computed from `len(lv_array)` after `lv_array` has grown past `link_id`, so it is never positive; `self.links[link_id]` then raises | any volume inserted into a fresh snapshot, e.g. `link_id` 0 | add `link_id - len(self.links) + 1` slots | high, not executed | LinkVolIo.ExtensionNeverPositive | LinkVolIo.LinksExtension |
| src/agent-mapping/src/kd_tree.rs:270-328 | on two elements `partition` swaps them only when they are out of order and returns 1, so two equal keys leave a lower element equal to the pivot, and the quickcheck's "below the pivot" check fails | `quickcheck_partition_correctness` on `[5, 5]` | return the split 0 when the two keys are equal, so the upper part holds every key at least the pivot | high, not executed | KdTree.PartitionTestAsWritten | KdTree.PartitionTest |
| agent-mapping/src/unit_fixed.rs:62-87 | `quickcheck_comparison` demands that the fixed-point comparison equal the real comparison, but two reals closer than one step of the u32 grid convert to the same value | `f0..f3` = 0, 1, 2, 17179869180: 1/17179869180 and 2/17179869180 both become raw 0 after truncation | demand only that the two orders never disagree: strictly ordered reals may convert to equal values | high, not executed | UnitFixed.ComparisonTestFails | UnitFixed.CorrectedComparisonPasses |
| src/vehicle_pos_recomp.py:30-31 | for a vertical segment the "midpoint" is `(y_max - y_min) / 2`, half the extent, not a point on the segment | the segment from (0, 10) to (0, 20) gives y = 5; on the map, the segment at x = 446400 from y = 4634600 to 4634700 gives y = 50, off the map | `(y_max + y_min) / 2` | high, not executed | VehiclePosRecomp.HalfExtentOffSegment | VehiclePosRecomp.CompXYOnSegment |
