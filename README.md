# Via stitcher placement engine, modelled in Dafny

This project models the placement engine of a KiCad via-stitching plugin. The plugin
fills copper zones with vias of one net.

The first plugin file, `via_stitcher_v2.py`, covers:

- **The via spatial index** (`SpatialIndex`). It keeps a map from grid cells to the
  `(pos, via)` entries bucketed there by floor division. Its radius query scans
  `ceil(radius / grid_size)` cells each way around the query's cell.
- **Candidate generation** (`calculate_candidate_positions`). The grid pattern steps
  through the zone's bounding box shrunk by the edge clearance. The boundary pattern
  walks the box's perimeter in `int(perimeter / h_spacing)` equal parameter steps. Both
  keep only points that pass the inset bounding-box test `is_point_in_zone_fast`.
- **The fill run** (`fill_zones_with_vias_optimized`):
  - index the vias already on the board;
  - gather every zone's candidates;
  - filter them with `check_drc_fast`, which rejects a candidate with any indexed via
    within `1.1 * via_size`;
  - create a via at each surviving position and add it to the index.

  Both loops can be cancelled from a progress dialog.
- **The clear action** (`clear_vias`). It removes the vias of the chosen net that lie
  in a selected zone's bounding box. Optionally it removes only vias that belong to a
  group whose name starts with the plugin's group name.

The second plugin file, `via_stitcher_improved.py`, covers:

- **Existing-via keys** (`collect_existing_via_positions`). Each via is snapped to a
  100-unit grid and contributes the 3 x 3 block of keys around it.
- **The evenly spread lattice** (`place_vias_in_zone`). It has
  `max(1, int(extent / spacing))` intervals per axis. A lattice point is kept when its
  exact coordinates are not a key and the zone checker accepts it.
- **The zone checker** (`get_zone_checker`) and its fallback chain.
- **The unique group name** (`create_via_group`).
- **The validation of the settings dialog** (`on_ok`).

How the source's arithmetic is represented:

- Board coordinates are unbounded integers.
- Python's `//` by a positive divisor is Dafny's `/`.
- `int()` of a quotient truncates toward zero (`Geometry.TruncDiv`). `math.ceil` of a
  quotient is `Geometry.CeilDiv`.
- Float factors and quotients are exact rationals:
  - the DRC radius is `11 * via_size / 10`;
  - the index cell size is `int(1.5 * via_size)`;
  - the boundary step sits at `i * perimeter / num_vias`;
  - the lattice step is `extent / count`.
- A distance test `sqrt(d2) <= r` is `d2 * den^2 <= num^2` with `num >= 0`.
- A reported distance is the squared distance.
- Each progress dialog is an oracle `proceed(k)`, consulted where the source calls
  `Update`. Each board mutation or query that can fail is an oracle, or an input.

The modules are:

- `Geometry`: points, boxes, distances and the division helpers.
- `Seqs`: order-preserving filtering and subsequences.
- `ScanOrder`: occurrence counting for the neighbourhood scan.
- `SpatialIndexing`: the `SpatialIndex` class.
- `Candidates`: the grid and boundary patterns.
- `Placement`: the DRC check, the filter and creation phases, and the fill run.
- `Clearing`: the clear action.
- `EvenLayout`: `place_vias_in_zone` and its helpers.
- `GroupNames`: the unique group name.
- `DialogSettings`: the settings validation.

Filtering checks each candidate only against the vias that were on the board before the
run, because vias enter the index only in the creation phase (`via_stitcher_v2.py:781`);
two accepted candidates may therefore be arbitrarily close
(`Placement.CoincidentCandidatesBothKept`). The only obstacle test is via-to-via distance.

## Model

| member | source | states |
|---|---|---|
| SpatialIndexing.CellOfContains | via_stitcher_v2.py:51-53 | The grid cell of a point is the half-open square of side `grid_size` that contains it. |
| SpatialIndexing.SpatialIndex.constructor | via_stitcher_v2.py:43-49 | A new index has the given positive cell size, no buckets and no entries, and is consistent. |
| SpatialIndexing.SpatialIndex.AddVia | via_stitcher_v2.py:55-60 | The entry is appended at the end of its cell's bucket, which is created if missing. Every other bucket is unchanged. The index holds exactly one more entry. Each bucket still holds exactly its cell's entries. |
| SpatialIndexing.ScanBucket | via_stitcher_v2.py:75-81 | The loop over one bucket returns, in bucket order, exactly the bucket's entries within the radius, each with its squared distance. |
| SpatialIndexing.SpatialIndex.ScanCell | via_stitcher_v2.py:73-81 | Scanning one cell yields the brute-force answer over that cell's entries. A cell without a bucket yields nothing. |
| SpatialIndexing.SpatialIndex.ScanNeighbourhood | via_stitcher_v2.py:70-81 | The two loops visit the cells at offsets in `[-reach, reach]` on both axes, dx-major and dy ascending, and concatenate each cell's hits. |
| SpatialIndexing.SpatialIndex.ScanColumn | via_stitcher_v2.py:74-81 | The inner loop visits the cells `(dx, -reach) .. (dx, reach)` in order and concatenates their hits. |
| SpatialIndexing.EntryWithinReach | via_stitcher_v2.py:64-68 | A point within the radius lies within `ceil(r / g)` cells of the query's cell on both axes. |
| SpatialIndexing.ScanCovers | via_stitcher_v2.py:64-81 | With reach `ceil(r / g)`, the scanned cells hold exactly the brute-force answer over all entries, counted with multiplicity, whatever the cell size. |
| SpatialIndexing.NearbyInMember | via_stitcher_v2.py:76-81 | An answer of the brute-force query is exactly a stored entry within the radius, paired with its true squared distance. |
| SpatialIndexing.SpatialIndex.NearbyVias | via_stitcher_v2.py:62-83 | The query returns, up to order, exactly the stored entries within the radius with their squared distances. Every answer is a stored entry within the radius. A negative radius gives no answer. The index is only read. |
| Placement.IndexCellSize | via_stitcher_v2.py:690-691 | The index cell size `int(1.5 * via_size)` lies in `[via_size, 2 * via_size)` for a positive via size. |
| Placement.CheckDrcFast | via_stitcher_v2.py:907-915 | True exactly when no indexed via lies within `1.1 * via_size` of the position. |
| Placement.FirstHalt | via_stitcher_v2.py:733-739 | Finds the first step whose index is a multiple of the period and where the user cancels. Earlier consulted steps all proceed. When there is no such step, every consulted step proceeds. |
| Placement.FirstHaltStep | via_stitcher_v2.py:733-739 | A step at which the dialog is not consulted, or where the user proceeds, does not stop the loop. |
| Placement.FilterCandidates | via_stitcher_v2.py:728-745 | The filter loop is cancelled at the first consulted step the user stops. Otherwise it yields the candidates clear of the index as it was before the loop. The index is not modified. |
| Placement.ValidPositionsMeaning | via_stitcher_v2.py:729-745 | A candidate survives filtering exactly when it is clear of every pre-existing via. Survivors keep candidate order. |
| Placement.CoincidentCandidatesBothKept | via_stitcher_v2.py:733-745 | Accepted candidates are never checked against each other: two candidates at the same clear spot are both kept. |
| Placement.CreatedEntriesMeaning | via_stitcher_v2.py:767-793 | Creation adds at most one via per attempted position. An added entry is exactly a successful `add_via` at its own position. |
| Placement.CreationStop | via_stitcher_v2.py:769-775 | The creation loop attempts at most every valid position. |
| Placement.CreateVias | via_stitcher_v2.py:767-793 | The vias created before the first cancellation are added to the index in order. The loop reports cancellation exactly when the user stopped it. The index stays consistent. |
| Placement.AllCandidatesInside | via_stitcher_v2.py:703-710 | Every gathered candidate lies in some selected zone's box shrunk by the edge clearance. |
| Placement.FillAddsOnlyClearCandidates | via_stitcher_v2.py:712-793 | A fill run adds only vias at candidate positions clear of every via that was on the board before the run. It adds at most one per candidate, and none unless it reached the creation phase. |
| Placement.FillZones | via_stitcher_v2.py:676-803 | The fill run reports no candidates, a cancellation while filtering, no valid positions, a cancellation while creating, or completion, with the vias it created. |
| Placement.BuildIndex | via_stitcher_v2.py:690-699 | The index starts empty with cell size `int(1.5 * via_size)` and ends holding exactly the vias on the board, in board order. |
| Placement.GatherCandidates | via_stitcher_v2.py:703-710 | The gathered list is every zone's candidates, zone after zone. |
| Candidates.InsetFilterMember | via_stitcher_v2.py:917-922 | A point survives the inset test exactly when it lies within the box shrunk by the clearance on all four sides. |
| Candidates.StepsShape | via_stitcher_v2.py:818-835 | A `while v <= end: v += step` loop visits `a + k * step` for `k = 0 .. floor((end - a) / step)`, and nothing when `a > end`. |
| Candidates.StepsBounds | via_stitcher_v2.py:818-835 | Every visited value lies between the start and the end. |
| Candidates.GridPositions | via_stitcher_v2.py:811-835 | The nested stepping loops yield exactly the grid candidates: the raw grid points that pass the inset test, in loop order. |
| Candidates.GridColumn | via_stitcher_v2.py:820-834 | The inner loop of one column yields exactly its raw points that pass the inset test, with y ascending. |
| Candidates.NonPositiveSpacingNeverExits | via_stitcher_v2.py:818-835 | With a non-positive `h_spacing` and a non-empty x range, the loop variable never exceeds its start after any number of passes, so `while x <= x_end` never ends. |
| Candidates.CheckedGridPositions | via_stitcher_v2.py:811-835 | Refuses exactly when a spacing is not positive, and otherwise yields the grid candidates of the terminating loops. |
| Candidates.GridRawAt | via_stitcher_v2.py:813-835 | The raw grid has `(nx + 1) * (ny + 1)` points. Point `i * (ny + 1) + j` is `(x_start + i * h, y_start + j * v)`. |
| Candidates.GridCandidatesOrderedAndInside | via_stitcher_v2.py:811-835 | Grid candidates come out x-major with y ascending inside each column, with no repeats. Each lies in the box shrunk by the edge clearance. |
| Candidates.BoundaryPositions | via_stitcher_v2.py:837-874 | The boundary loop yields exactly the raw perimeter points that pass the inset test, in step order. There are none when the step count is not positive. |
| Candidates.BoundaryOnEdge | via_stitcher_v2.py:847-859 | Each raw boundary point lies on the line of the edge its step falls on, within the box's span along that edge. |
| Candidates.EdgeOrder | via_stitcher_v2.py:843-859 | Later steps never fall on an earlier edge. |
| Candidates.BoundaryCandidatesMeaning | via_stitcher_v2.py:839-874 | There are at most `int(perimeter / h_spacing)` boundary candidates. A point is one exactly when it is some step's raw point and passes the inset test. |
| Candidates.CandidatesInside | via_stitcher_v2.py:805-874 | Every candidate of either pattern passes the inset bounding-box test. |
| Candidates.CandidatePositions | via_stitcher_v2.py:805-905 | The dispatch runs the grid or boundary pattern and yields no candidates for any other pattern name. |
| Clearing.GroupViaIdsMember | via_stitcher_v2.py:951-966 | A via is collected exactly when some group whose name starts with the prefix holds it. |
| Clearing.CollectGroupVias | via_stitcher_v2.py:951-966 | The group scan collects the vias of the matching groups, group after group. |
| Clearing.ClearRunFollowsPlan | via_stitcher_v2.py:968-996 | The clear loop removes a prefix of its reference removal list, and all of it when it is not cancelled. |
| Clearing.ClearPlanMember | via_stitcher_v2.py:968-996 | A via is in the removal list exactly when it is on the board and on the chosen net, when it is in a matching group if only plugin vias are cleared, and when it lies in a selected zone's bounding box. |
| Clearing.ClearRunStaysCancelled | via_stitcher_v2.py:974-979 | Once the user cancels, the remaining pairs change nothing. |
| Clearing.ClearVias | via_stitcher_v2.py:927-1004 | The vias passed to `board.Remove` and the cancellation flag are those of the zone-by-via loop. It consults the dialog whenever the count of eligible (zone, via) pairs processed so far is a multiple of 10. |
| Clearing.ClearZone | via_stitcher_v2.py:973-996 | The inner loop over the vias of one zone continues the run exactly as the zone's pairs prescribe. It stops in the state reached when the user cancels. |
| Clearing.OverlappingZonesRemoveTwice | via_stitcher_v2.py:968-996 | A via inside two selected zones' bounding boxes is removed, and counted, twice. |
| Clearing.ClearSelectionOnce | via_stitcher_v2.py:968-996 | The corrected selection removes the same vias as the loop, never one twice, in board order. |
| EvenLayout.SnapBounds | via_stitcher_improved.py:316-318 | A snapped coordinate is a multiple of the tolerance, less than one tolerance from the coordinate, on the side of zero. |
| EvenLayout.ExistingKeysMember | via_stitcher_improved.py:308-322 | The key set holds, for each via, the nine keys around its snapped position and nothing else. Every key is a multiple of the tolerance on both axes. |
| EvenLayout.CollectExistingViaPositions | via_stitcher_improved.py:308-322 | The loops over the tracks and the 3 x 3 offsets build exactly that key set. |
| EvenLayout.LatticeCountBounds | via_stitcher_improved.py:231-236 | Each axis has at least one interval. When the extent holds the spacing, the redistributed step is at least the spacing and less than twice it. Otherwise there is one interval. |
| EvenLayout.LatticeCoordBounds | via_stitcher_improved.py:225-258 | Lattice coordinates lie within the box. Index 0 is at the start and index `count` at the far end. |
| EvenLayout.LatticeAt | via_stitcher_improved.py:255-258 | The lattice has `(x_count + 1) * (y_count + 1)` points, i-major. Point `i * (y_count + 1) + j` combines the i-th x and j-th y coordinate. |
| EvenLayout.LatticeCorners | via_stitcher_improved.py:225-258 | The first lattice point is the box's top-left corner and the last its bottom-right corner. |
| EvenLayout.LatticeInsideBox | via_stitcher_improved.py:222-258 | Every lattice point lies in the zone's bounding box. |
| EvenLayout.ZoneCheckerFallback | via_stitcher_improved.py:325-371 | Every point is accepted when no accessor yields usable geometry. It is also accepted when a reached accessor raises: the filled polygons, or the outline after unusable filled polygons, or the outlines after an absent outline, or the polygon after unusable outlines. |
| EvenLayout.ZoneCheckerPrecedence | via_stitcher_improved.py:327-362 | The first reached accessor with usable geometry decides alone: non-empty filled polygons, else the outline, else non-empty outlines, else the polygon. |
| EvenLayout.ZonePositionsMeaning | via_stitcher_improved.py:254-270 | A point is collected exactly when it is a lattice point whose exact coordinates are not a key and which the checker accepts. Collected points keep lattice order and lie in the box. |
| EvenLayout.PlaceViasInZone | via_stitcher_improved.py:214-270 | The double loop collects exactly those points. A zero spacing collects none. |
| EvenLayout.UnalignedPointNeverSkipped | via_stitcher_improved.py:264-266 | A point whose x is not a multiple of the tolerance is never found among the keys. |
| EvenLayout.CoincidentViaNotSkipped | via_stitcher_improved.py:264-266 | A lattice point exactly on an existing via at (150, 150) is kept. |
| EvenLayout.SnapNear | via_stitcher_improved.py:316-321 | Coordinates less than one tolerance apart snap to the same or adjacent multiples. |
| EvenLayout.NearbyViaDetected | via_stitcher_improved.py:316-321 | With the candidate snapped before the lookup, any via closer than one tolerance on both axes is detected. |
| EvenLayout.CorrectedZonePositionsAvoidVias | via_stitcher_improved.py:254-270 | With the snapped lookup, no collected point lies within one tolerance, on both axes, of an existing via. |
| GroupNames.NatToStringInjective | via_stitcher_improved.py:386-388 | Different counters give different decimal strings. |
| GroupNames.SuffixedInjective | via_stitcher_improved.py:386-388 | Different counters give different suffixed names. |
| GroupNames.UniqueGroupName | via_stitcher_improved.py:379-388 | The chosen name is never an existing one. It is the timestamped name itself when that is free, and otherwise `name_k` for the least `k >= 1` that is free. |
| DialogSettings.ValidateSettings | via_stitcher_improved.py:626-643 | Settings are accepted exactly when all three fields parse, all are positive and the drill is smaller than the via size, and then they are the parsed values. An unparsable field is reported as such. |

## Left out

- Spiral pattern (`via_stitcher_v2.py:876-903`): it relies on `math.cos`, `math.sin` and float radius growth.
- Random jitter of the grid and boundary patterns: it is nondeterministic and float-based; only `randomize` off is modelled.
- Progress dialogs and message boxes: only the user's choice to go on is modelled, as the `proceed` oracles.
- Board mutation and queries:
  - `PCB_VIA`, `board.Add`, `board.Remove`, `GetTracks` and `GetBoundingBox` are replaced by inputs and by the `made` oracle, which gives the via that `add_via` returns or its failure.
  - The vias of a lattice are returned as positions; their creation in `place_vias_in_zone` is board mutation.
- Group creation in the fill run and in `create_via_group` (`PCB_GROUP`, `AddItem`): this is board mutation. Only the name choice is modelled, with the timestamped name as an input.
- Settings load and save, logging, timestamps, `get_net_code` and the host API probing: these are I/O or depend on the host version. The zone checker's probing is kept only as the abstract `ZoneApi` of probe outcomes.
- Polygon `Contains` behind the zone checker: it is abstract (`Region`). If a region test raised at call time, it would abort the whole zone; this is not modelled.
- Float arithmetic: steps, the DRC radius and the perimeter parameter are exact rationals, and IEEE rounding, NaN and infinities are not reproduced. `DialogSettings.ValidateSettings` takes the parsed values as reals, so `float("nan")` and `float("inf")` are outside the model.
- `Placement.FillZones`: it requires a positive via size. A zero size gives a zero cell size, and the source's index divides by it. A negative size is accepted by the source: the cell size `int(via_size * 1.5)` is negative, Python floors when dividing by it (Dafny's Euclidean `/` does not reproduce this), the DRC radius `1.1 * via_size` is negative so no via is ever found nearby, and every candidate is accepted. That case is not modelled.
- `Candidates.BoundaryPositions`: it requires a non-zero `h_spacing`. The source's `int(perimeter / 0)` raises, and the exception is not caught there.
- `Candidates.GridPositions`: it requires the stepping loops to terminate. A non-positive spacing makes the source's `while` loops run forever whenever they are entered; this is listed under "## Findings".
- `SpatialIndexing.SpatialIndex.NearbyVias`: the query radius is the exact rational `rNum / rDen`. The source passes a float, and the reported distance is the squared distance rather than its square root.
- The conversion `pcbnew.FromMM` from millimetres to board units is not modelled: the placement operations take board units.

## Findings

| source | as written | input that shows it | evidently intended | confidence | as-written member | corrected member |
|---|---|---|---|---|---|---|
| via_stitcher_v2.py:968-996 | Every (zone, via) pair is visited, so a via in the bounding boxes of two selected zones is passed to `board.Remove` twice and counted twice. | One via on the chosen net at a point inside two selected zones' boxes, with the user not cancelling. | Each selected via is removed once, and the reported count is the number of vias removed. | not executed | Clearing.OverlappingZonesRemoveTwice | Clearing.ClearSelectionOnce |
| via_stitcher_improved.py:264-266 | The lattice point's exact `(x, y)` is looked up among keys that are all snapped to multiples of 100. Any point off that grid is never skipped, even one exactly on an existing via. | An existing via at (150, 150) and a lattice point at (150, 150). | The lattice point is snapped the same way before the lookup, so that points near an existing via are skipped. | not executed | EvenLayout.CoincidentViaNotSkipped | EvenLayout.CorrectedZonePositionsAvoidVias |
| via_stitcher_v2.py:811-835 | The grid loops `while x <= x_end: ... x += h_spacing` (and the same for y) take the spacings from the dialog unchecked. The dialog's `on_ok` (`via_stitcher_v2.py:514-543`) accepts any number, so a zero or negative spacing with a non-empty range never ends the loop and the plugin hangs. | `h_spacing = 0` with a zone whose box is at least as wide as twice the edge clearance plus the horizontal offset. | Non-positive spacings are refused before the loops run. | not executed | Candidates.NonPositiveSpacingNeverExits | Candidates.CheckedGridPositions |
