/**
 * The placement routine of the optimised plugin (`place_vias_in_zone` and its helpers): the
 * positions of the vias already on the board are snapped to a tolerance grid, a lattice spread
 * evenly over the zone's bounding box is walked column by column, and a lattice point is kept
 * when its exact coordinates are not among the snapped keys and the zone checker accepts it.
 */
module EvenLayout {
  import opened Geometry
  import opened Seqs
  import Candidates

  // ---------------------------------------------------------------------------------------
  // Existing via positions

  /** The default `tolerance` of `collect_existing_via_positions`, the only value ever used. */
  const Tolerance := 100

  /** `int(a / tolerance) * tolerance`: `a` truncated toward zero to a multiple of the tolerance. */
  function Snap(a: int): int
  {
    TruncDiv(a, Tolerance) * Tolerance
  }

  /** The snapped value is a multiple of the tolerance, less than one tolerance from `a`, toward zero. */
  lemma {:induction false} SnapBounds(a: int)
    ensures Snap(a) % Tolerance == 0
    ensures a >= 0 ==> Snap(a) <= a < Snap(a) + Tolerance
    ensures a < 0 ==> Snap(a) - Tolerance < a <= Snap(a)
  {
    if a >= 0 {
      FloorDivBounds(a, Tolerance);
    } else {
      FloorDivBounds(-a, Tolerance);
    }
    MultipleMod(TruncDiv(a, Tolerance), Tolerance);
  }

  /** An item of `board.GetTracks()`: a via (with its position) or a track segment. */
  datatype Track = ViaTrack(pos: Point) | OtherTrack

  /** The 3 x 3 block of keys a via at `p` contributes. */
  function Neighbourhood(p: Point): set<(int, int)>
  {
    set dx, dy | -1 <= dx <= 1 && -1 <= dy <= 1 :: (Snap(p.x) + dx * Tolerance, Snap(p.y) + dy * Tolerance)
  }

  /** The keys of all vias among `tracks`. */
  function ExistingKeys(tracks: seq<Track>): set<(int, int)>
  {
    if tracks == [] then {}
    else ExistingKeys(tracks[..|tracks| - 1]) +
         (match tracks[|tracks| - 1] case ViaTrack(p) => Neighbourhood(p) case OtherTrack => {})
  }

  /** The keys a via contributes: its snapped position moved by -1, 0 or 1 tolerance on each axis. */
  predicate IsKeyOf(k: (int, int), p: Point)
  {
    k.0 - Snap(p.x) in {-Tolerance, 0, Tolerance} && k.1 - Snap(p.y) in {-Tolerance, 0, Tolerance}
  }

  /**
   * The set holds, for each via, the nine keys around its snapped position and nothing else,
   * and every key is a multiple of the tolerance on both axes.
   */
  lemma {:induction false} ExistingKeysMember(tracks: seq<Track>, k: (int, int))
    ensures k in ExistingKeys(tracks) <==> exists i :: 0 <= i < |tracks| && tracks[i].ViaTrack? && IsKeyOf(k, tracks[i].pos)
    ensures k in ExistingKeys(tracks) ==> k.0 % Tolerance == 0 && k.1 % Tolerance == 0
  {
    if tracks != [] {
      var front, last := tracks[..|tracks| - 1], tracks[|tracks| - 1];
      ExistingKeysMember(front, k);
      var fromLast := match last case ViaTrack(p) => Neighbourhood(p) case OtherTrack => {};
      assert ExistingKeys(tracks) == ExistingKeys(front) + fromLast;
      if last.ViaTrack? {
        NeighbourhoodMember(last.pos, k);
      }
      if k in ExistingKeys(front) {
        var i :| 0 <= i < |front| && front[i].ViaTrack? && IsKeyOf(k, front[i].pos);
        assert tracks[i] == front[i];
        assert 0 <= i < |tracks| && tracks[i].ViaTrack? && IsKeyOf(k, tracks[i].pos);
      } else if k in fromLast {
        var i := |tracks| - 1;
        assert 0 <= i < |tracks| && tracks[i].ViaTrack? && IsKeyOf(k, tracks[i].pos);
      }
      if exists i :: 0 <= i < |tracks| && tracks[i].ViaTrack? && IsKeyOf(k, tracks[i].pos) {
        var i :| 0 <= i < |tracks| && tracks[i].ViaTrack? && IsKeyOf(k, tracks[i].pos);
        if i < |front| {
          assert front[i] == tracks[i];
          assert k in ExistingKeys(front);
        } else {
          assert k in fromLast;
        }
      }
    }
  }

  lemma {:induction false} NeighbourhoodMember(p: Point, k: (int, int))
    ensures k in Neighbourhood(p) <==> IsKeyOf(k, p)
    ensures k in Neighbourhood(p) ==> k.0 % Tolerance == 0 && k.1 % Tolerance == 0
  {
    if k in Neighbourhood(p) {
      var dx, dy :| -1 <= dx <= 1 && -1 <= dy <= 1 &&
        k == (Snap(p.x) + dx * Tolerance, Snap(p.y) + dy * Tolerance);
      assert IsKeyOf(k, p);
      SnapBounds(p.x);
      SnapBounds(p.y);
    }
    if IsKeyOf(k, p) {
      var dx := if k.0 - Snap(p.x) == -Tolerance then -1 else if k.0 == Snap(p.x) then 0 else 1;
      var dy := if k.1 - Snap(p.y) == -Tolerance then -1 else if k.1 == Snap(p.y) then 0 else 1;
      assert k == (Snap(p.x) + dx * Tolerance, Snap(p.y) + dy * Tolerance);
    }
  }

  /** The keys of the columns `-1 <= a < n` of a 3 x 3 block around (xGrid, yGrid). */
  function BlockKeys(xGrid: int, yGrid: int, n: int): set<(int, int)>
  {
    set a, b | -1 <= a < n && -1 <= b <= 1 :: (xGrid + a * Tolerance, yGrid + b * Tolerance)
  }

  /** The keys of rows `-1 <= b < n` in column `a` of that block. */
  function RowKeys(xGrid: int, yGrid: int, a: int, n: int): set<(int, int)>
  {
    set b | -1 <= b < n :: (xGrid + a * Tolerance, yGrid + b * Tolerance)
  }

  lemma {:induction false} RowKeysStep(xGrid: int, yGrid: int, a: int, n: int)
    requires n >= -1
    ensures RowKeys(xGrid, yGrid, a, n + 1) == RowKeys(xGrid, yGrid, a, n) + {(xGrid + a * Tolerance, yGrid + n * Tolerance)}
  {
    forall k | k in RowKeys(xGrid, yGrid, a, n + 1)
      ensures k in RowKeys(xGrid, yGrid, a, n) || k == (xGrid + a * Tolerance, yGrid + n * Tolerance)
    {
      var b :| -1 <= b < n + 1 && k == (xGrid + a * Tolerance, yGrid + b * Tolerance);
      if b < n {
        assert k in RowKeys(xGrid, yGrid, a, n);
      }
    }
    forall k | k in RowKeys(xGrid, yGrid, a, n)
      ensures k in RowKeys(xGrid, yGrid, a, n + 1)
    {
      var b :| -1 <= b < n && k == (xGrid + a * Tolerance, yGrid + b * Tolerance);
    }
    assert (xGrid + a * Tolerance, yGrid + n * Tolerance) in RowKeys(xGrid, yGrid, a, n + 1);
  }

  lemma {:induction false} BlockKeysStep(xGrid: int, yGrid: int, n: int)
    requires n >= -1
    ensures BlockKeys(xGrid, yGrid, n + 1) == BlockKeys(xGrid, yGrid, n) + RowKeys(xGrid, yGrid, n, 2)
  {
    forall k | k in BlockKeys(xGrid, yGrid, n + 1)
      ensures k in BlockKeys(xGrid, yGrid, n) + RowKeys(xGrid, yGrid, n, 2)
    {
      var a, b :| -1 <= a < n + 1 && -1 <= b <= 1 && k == (xGrid + a * Tolerance, yGrid + b * Tolerance);
      if a < n {
        assert k in BlockKeys(xGrid, yGrid, n);
      } else {
        assert k in RowKeys(xGrid, yGrid, n, 2);
      }
    }
    forall k | k in BlockKeys(xGrid, yGrid, n)
      ensures k in BlockKeys(xGrid, yGrid, n + 1)
    {
      var a, b :| -1 <= a < n && -1 <= b <= 1 && k == (xGrid + a * Tolerance, yGrid + b * Tolerance);
    }
    forall k | k in RowKeys(xGrid, yGrid, n, 2)
      ensures k in BlockKeys(xGrid, yGrid, n + 1)
    {
      var b :| -1 <= b < 2 && k == (xGrid + n * Tolerance, yGrid + b * Tolerance);
    }
  }

  /** `collect_existing_via_positions`: a set built by a loop over the tracks and the 3 x 3 offsets. */
  method CollectExistingViaPositions(tracks: seq<Track>) returns (positions: set<(int, int)>)
    ensures positions == ExistingKeys(tracks)
  {
    positions := {};
    for k := 0 to |tracks|
      invariant positions == ExistingKeys(tracks[..k])
    {
      assert tracks[..k + 1][..k] == tracks[..k];
      match tracks[k] {
        case ViaTrack(p) =>
          var xGrid := TruncDiv(p.x, Tolerance) * Tolerance;
          var yGrid := TruncDiv(p.y, Tolerance) * Tolerance;
          ghost var before := positions;
          for dx := -1 to 2
            invariant positions == before + BlockKeys(xGrid, yGrid, dx)
          {
            ghost var rowStart := positions;
            for dy := -1 to 2
              invariant positions == rowStart + RowKeys(xGrid, yGrid, dx, dy)
            {
              RowKeysStep(xGrid, yGrid, dx, dy);
              positions := positions + {(xGrid + dx * Tolerance, yGrid + dy * Tolerance)};
            }
            BlockKeysStep(xGrid, yGrid, dx);
          }
          assert BlockKeys(xGrid, yGrid, 2) == Neighbourhood(p);
        case OtherTrack =>
      }
    }
    assert tracks[..|tracks|] == tracks;
  }

  // ---------------------------------------------------------------------------------------
  // The evenly redistributed lattice

  /** `max(1, int(extent / spacing))`: the number of intervals along one axis. */
  function LatticeCount(extent: nat, spacing: int): int
    requires spacing != 0
  {
    var q := TruncDiv(extent, spacing);
    if q > 1 then q else 1
  }

  /**
   * There is at least one interval; when the extent holds the requested spacing, the
   * redistributed step `extent / count` is at least the spacing and less than twice it.
   */
  lemma {:induction false} LatticeCountBounds(extent: nat, spacing: int)
    requires spacing != 0
    ensures LatticeCount(extent, spacing) >= 1
    ensures spacing > 0 && extent >= spacing ==>
              LatticeCount(extent, spacing) * spacing <= extent < (LatticeCount(extent, spacing) + 1) * spacing
    ensures spacing < 0 || extent < spacing ==> LatticeCount(extent, spacing) == 1
  {
    if spacing > 0 {
      var q := extent / spacing;
      assert TruncDiv(extent, spacing) == q;
      FloorDivBounds(extent, spacing);
      if q <= 0 {
        MulMono(q, 0, spacing);
      }
      if extent < spacing {
        FloorDivUnique(extent, spacing, 0);
      }
    } else {
      FloorDivBounds(extent, -spacing);
      assert TruncDiv(extent, spacing) == -(extent / -spacing);
    }
  }

  /** `int(start + i * (extent / count))`, with the step taken as the exact rational `extent / count`. */
  function LatticeCoord(start: int, extent: nat, count: int, i: int): int
    requires count > 0
  {
    TruncDiv(start * count + i * extent, count)
  }

  /** The coordinates `i = 0 .. count` along one axis. */
  function Axis(start: int, extent: nat, count: int): (xs: seq<int>)
    requires count > 0
    ensures |xs| == count + 1
  {
    seq(count + 1, i requires 0 <= i <= count => LatticeCoord(start, extent, count, i))
  }

  /** The first coordinate is the start, the last the far end, and all lie in between. */
  lemma {:induction false} LatticeCoordBounds(start: int, extent: nat, count: int, i: int)
    requires count > 0 && 0 <= i <= count
    ensures start <= LatticeCoord(start, extent, count, i) <= start + extent
    ensures i == 0 ==> LatticeCoord(start, extent, count, i) == start
    ensures i == count ==> LatticeCoord(start, extent, count, i) == start + extent
  {
    MulMono(0, i, extent);
    MulMono(i, count, extent);
    assert (start + extent) * count == start * count + count * extent;
    TruncDivBetween(start * count + i * extent, count, start, start + extent);
    if i == 0 {
      TruncDivExact(start, count);
    }
    if i == count {
      TruncDivExact(start + extent, count);
    }
  }

  /** The lattice points of `place_vias_in_zone`, x-major, for a non-zero spacing. */
  function Lattice(box: Box, spacing: int): seq<Point>
    requires spacing != 0
  {
    LatticeCountBounds(box.width, spacing);
    LatticeCountBounds(box.height, spacing);
    var nx := LatticeCount(box.width, spacing);
    var ny := LatticeCount(box.height, spacing);
    Candidates.Product(Axis(box.x, box.width, nx), Axis(box.y, box.height, ny))
  }

  /**
   * The lattice has `(nx + 1) * (ny + 1)` points, and point `i * (ny + 1) + j` is the i-th x
   * coordinate with the j-th y coordinate.
   */
  lemma {:induction false} LatticeAt(box: Box, spacing: int, i: int, j: int)
    requires spacing != 0
    requires 0 <= i <= LatticeCount(box.width, spacing) && 0 <= j <= LatticeCount(box.height, spacing)
    ensures var nx, ny := LatticeCount(box.width, spacing), LatticeCount(box.height, spacing);
            |Lattice(box, spacing)| == (nx + 1) * (ny + 1) &&
            i * (ny + 1) + j < |Lattice(box, spacing)| &&
            Lattice(box, spacing)[i * (ny + 1) + j] ==
              Point(LatticeCoord(box.x, box.width, nx, i), LatticeCoord(box.y, box.height, ny, j))
  {
    LatticeCountBounds(box.width, spacing);
    LatticeCountBounds(box.height, spacing);
    var nx, ny := LatticeCount(box.width, spacing), LatticeCount(box.height, spacing);
    var xs, ys := Axis(box.x, box.width, nx), Axis(box.y, box.height, ny);
    Candidates.ProductLength(xs, ys);
    Candidates.ProductAt(xs, ys, i, j);
  }

  /** The first lattice point is the box's top-left corner and the last its bottom-right corner. */
  lemma {:induction false} LatticeCorners(box: Box, spacing: int)
    requires spacing != 0
    ensures |Lattice(box, spacing)| > 0
    ensures Lattice(box, spacing)[0] == Point(box.Left(), box.Top())
    ensures Lattice(box, spacing)[|Lattice(box, spacing)| - 1] == Point(box.Right(), box.Bottom())
  {
    LatticeCountBounds(box.width, spacing);
    LatticeCountBounds(box.height, spacing);
    var nx, ny := LatticeCount(box.width, spacing), LatticeCount(box.height, spacing);
    LatticeAt(box, spacing, 0, 0);
    LatticeAt(box, spacing, nx, ny);
    LatticeCoordBounds(box.x, box.width, nx, 0);
    LatticeCoordBounds(box.y, box.height, ny, 0);
    LatticeCoordBounds(box.x, box.width, nx, nx);
    LatticeCoordBounds(box.y, box.height, ny, ny);
    assert 0 * (ny + 1) + 0 == 0;
    assert nx * (ny + 1) + ny == (nx + 1) * (ny + 1) - 1;
  }

  lemma {:induction false} ColumnCons(x: int, ys: seq<int>, j: int)
    requires 0 <= j < |ys|
    ensures Candidates.Column(x, ys[j..]) == [Point(x, ys[j])] + Candidates.Column(x, ys[j + 1..])
  {
    assert ys[j..][1..] == ys[j + 1..];
  }

  /** One step of a loop that walks a column and appends the points `keep` accepts. */
  lemma {:induction false} ColumnStep(positions: seq<Point>, before: seq<Point>, x: int, ys: seq<int>, j: int,
                                      keep: Point -> bool)
    requires 0 <= j < |ys|
    requires positions + Filter(Candidates.Column(x, ys[j..]), keep) == before + Filter(Candidates.Column(x, ys), keep)
    ensures var p := Point(x, ys[j]);
            (if keep(p) then positions + [p] else positions) + Filter(Candidates.Column(x, ys[j + 1..]), keep) ==
            before + Filter(Candidates.Column(x, ys), keep)
  {
    ColumnCons(x, ys, j);
    FilterCons(Point(x, ys[j]), Candidates.Column(x, ys[j + 1..]), keep);
  }

  /** After a whole column the outer loop's state is that of the remaining columns. */
  lemma {:induction false} ProductStep(positions: seq<Point>, before: seq<Point>, xs: seq<int>, ys: seq<int>, i: int,
                                       keep: Point -> bool)
    requires 0 <= i < |xs|
    requires before + Filter(Candidates.Product(xs[i..], ys), keep) == Filter(Candidates.Product(xs, ys), keep)
    requires positions + Filter(Candidates.Column(xs[i], ys[|ys|..]), keep) == before + Filter(Candidates.Column(xs[i], ys), keep)
    ensures positions + Filter(Candidates.Product(xs[i + 1..], ys), keep) == Filter(Candidates.Product(xs, ys), keep)
  {
    assert ys[|ys|..] == [];
    assert Candidates.Column(xs[i], ys[|ys|..]) == [];
    assert Filter<Point>([], keep) == [];
    assert positions == before + Filter(Candidates.Column(xs[i], ys), keep);
    ProductCons(xs, ys, i);
    FilterAppend(Candidates.Column(xs[i], ys), Candidates.Product(xs[i + 1..], ys), keep);
  }

  lemma {:induction false} ProductCons(xs: seq<int>, ys: seq<int>, i: int)
    requires 0 <= i < |xs|
    ensures Candidates.Product(xs[i..], ys) == Candidates.Column(xs[i], ys) + Candidates.Product(xs[i + 1..], ys)
  {
    assert xs[i..][1..] == xs[i + 1..];
  }

  /** Every lattice point lies in the zone's bounding box. */
  lemma {:induction false} LatticeInsideBox(box: Box, spacing: int, p: Point)
    requires spacing != 0 && p in Lattice(box, spacing)
    ensures InsetContains(box, p, 0)
  {
    LatticeCountBounds(box.width, spacing);
    LatticeCountBounds(box.height, spacing);
    var nx, ny := LatticeCount(box.width, spacing), LatticeCount(box.height, spacing);
    var xs, ys := Axis(box.x, box.width, nx), Axis(box.y, box.height, ny);
    Candidates.ProductMember(xs, ys, p);
    var i :| 0 <= i < |xs| && xs[i] == p.x;
    var j :| 0 <= j < |ys| && ys[j] == p.y;
    LatticeCoordBounds(box.x, box.width, nx, i);
    LatticeCoordBounds(box.y, box.height, ny, j);
  }

  // ---------------------------------------------------------------------------------------
  // Zone checker

  /** The `Contains` test of one polygon of the zone. */
  type Region = Point -> bool

  /** The outcome of probing one geometry accessor of the zone. */
  datatype Probe<T> = Absent | Fails | Returns(value: T)

  /** The four accessors `get_zone_checker` tries, in order. */
  datatype ZoneApi = ZoneApi(filledPolys: Probe<seq<Region>>, outline: Probe<Region>,
                             outlines: Probe<seq<Region>>, polygon: Probe<Region>)

  /** The checker closure `get_zone_checker` returns. */
  datatype Checker = AnyOf(regions: seq<Region>) | Only(region: Region) | AcceptAll

  /**
   * `get_zone_checker`: filled polygons when there are any, else the outline, else the
   * outlines when there are any, else the polygon, else accept everything; an accessor that
   * raises ends the search with accept-everything.
   */
  function ZoneChecker(api: ZoneApi): Checker
  {
    if api.filledPolys.Fails? then AcceptAll
    else if FilledUsable(api) then AnyOf(api.filledPolys.value)
    else if api.outline.Fails? then AcceptAll
    else if api.outline.Returns? then Only(api.outline.value)
    else if api.outlines.Fails? then AcceptAll
    else if OutlinesUsable(api) then AnyOf(api.outlines.value)
    else if api.polygon.Returns? then Only(api.polygon.value)
    else AcceptAll
  }

  predicate Accepts(checker: Checker, p: Point)
  {
    match checker
    case AnyOf(regions) => exists i :: 0 <= i < |regions| && regions[i](p)
    case Only(region) => region(p)
    case AcceptAll => true
  }

  /** Some accessor yields usable geometry. */
  predicate SuppliesGeometry(api: ZoneApi)
  {
    FilledUsable(api) || api.outline.Returns? || OutlinesUsable(api) || api.polygon.Returns?
  }

  /** `GetFilledPolys` returns a non-empty list. */
  predicate FilledUsable(api: ZoneApi)
  {
    api.filledPolys.Returns? && |api.filledPolys.value| > 0
  }

  /** `GetOutlines` returns a non-empty list. */
  predicate OutlinesUsable(api: ZoneApi)
  {
    api.outlines.Returns? && |api.outlines.value| > 0
  }

  /**
   * Every point is accepted when no accessor yields usable geometry, and when an accessor the
   * search reaches raises: the filled polygons, then the outline, then the outlines, then the
   * polygon.
   */
  lemma {:induction false} ZoneCheckerFallback(api: ZoneApi, p: Point)
    ensures !SuppliesGeometry(api) ==> Accepts(ZoneChecker(api), p)
    ensures api.filledPolys.Fails? ==> Accepts(ZoneChecker(api), p)
    ensures !FilledUsable(api) && api.outline.Fails? ==> Accepts(ZoneChecker(api), p)
    ensures !FilledUsable(api) && api.outline.Absent? && api.outlines.Fails? ==> Accepts(ZoneChecker(api), p)
    ensures !FilledUsable(api) && api.outline.Absent? && !OutlinesUsable(api) && api.polygon.Fails? ==>
              Accepts(ZoneChecker(api), p)
  {
  }

  /**
   * The first accessor that is reached and yields usable geometry decides alone: filled
   * polygons when there are any, else the outline, else the outlines when there are any,
   * else the polygon.
   */
  lemma {:induction false} ZoneCheckerPrecedence(api: ZoneApi, p: Point)
    ensures FilledUsable(api) ==>
              (Accepts(ZoneChecker(api), p) <==>
               exists i :: 0 <= i < |api.filledPolys.value| && api.filledPolys.value[i](p))
    ensures !api.filledPolys.Fails? && !FilledUsable(api) && api.outline.Returns? ==>
              (Accepts(ZoneChecker(api), p) <==> api.outline.value(p))
    ensures !api.filledPolys.Fails? && !FilledUsable(api) && api.outline.Absent? && OutlinesUsable(api) ==>
              (Accepts(ZoneChecker(api), p) <==>
               exists i :: 0 <= i < |api.outlines.value| && api.outlines.value[i](p))
    ensures !api.filledPolys.Fails? && !FilledUsable(api) && api.outline.Absent? &&
            !api.outlines.Fails? && !OutlinesUsable(api) && api.polygon.Returns? ==>
              (Accepts(ZoneChecker(api), p) <==> api.polygon.value(p))
  {
  }

  // ---------------------------------------------------------------------------------------
  // Placement

  /** A lattice point is kept when its exact coordinates are not a key and the checker accepts it. */
  predicate Kept(existing: set<(int, int)>, checker: Checker, p: Point)
  {
    (p.x, p.y) !in existing && Accepts(checker, p)
  }

  function KeptBy(existing: set<(int, int)>, checker: Checker): Point -> bool
  {
    p => Kept(existing, checker, p)
  }

  /** The positions `place_vias_in_zone` collects; a zero spacing raises and yields none. */
  function ZonePositions(box: Box, spacing: int, existing: set<(int, int)>, checker: Checker): seq<Point>
  {
    if spacing == 0 then [] else Filter(Lattice(box, spacing), KeptBy(existing, checker))
  }

  /**
   * A position is collected exactly when it is a lattice point that is kept; the collected
   * positions are in lattice order and all lie in the zone's bounding box.
   */
  lemma {:induction false} ZonePositionsMeaning(box: Box, spacing: int, existing: set<(int, int)>,
                                                checker: Checker, p: Point)
    ensures p in ZonePositions(box, spacing, existing, checker) <==>
            spacing != 0 && p in Lattice(box, spacing) && Kept(existing, checker, p)
    ensures spacing != 0 ==> Subsequence(ZonePositions(box, spacing, existing, checker), Lattice(box, spacing))
    ensures p in ZonePositions(box, spacing, existing, checker) ==> InsetContains(box, p, 0)
  {
    if spacing != 0 {
      FilterMember(Lattice(box, spacing), KeptBy(existing, checker), p);
      FilterIsSubsequence(Lattice(box, spacing), KeptBy(existing, checker));
      if p in ZonePositions(box, spacing, existing, checker) {
        LatticeInsideBox(box, spacing, p);
      }
    }
  }

  /**
   * `place_vias_in_zone` up to via creation: collect the existing keys, walk the lattice
   * column by column and keep the accepted points not found among the keys.
   */
  method PlaceViasInZone(tracks: seq<Track>, box: Box, spacing: int, api: ZoneApi) returns (positions: seq<Point>)
    ensures positions == ZonePositions(box, spacing, ExistingKeys(tracks), ZoneChecker(api))
  {
    var existing := CollectExistingViaPositions(tracks);
    if spacing == 0 {
      return [];
    }
    LatticeCountBounds(box.width, spacing);
    LatticeCountBounds(box.height, spacing);
    var xCount := LatticeCount(box.width, spacing);
    var yCount := LatticeCount(box.height, spacing);
    var checker := ZoneChecker(api);
    ghost var xs := Axis(box.x, box.width, xCount);
    ghost var ys := Axis(box.y, box.height, yCount);
    ghost var keep := KeptBy(existing, checker);
    positions := [];
    assert xs[0..] == xs;
    for i := 0 to xCount + 1
      invariant positions + Filter(Candidates.Product(xs[i..], ys), keep) == Filter(Candidates.Product(xs, ys), keep)
    {
      ghost var before := positions;
      var x := LatticeCoord(box.x, box.width, xCount, i);
      assert xs[i] == x;
      assert ys[0..] == ys;
      for j := 0 to yCount + 1
        invariant positions + Filter(Candidates.Column(x, ys[j..]), keep) == before + Filter(Candidates.Column(x, ys), keep)
      {
        var y := LatticeCoord(box.y, box.height, yCount, j);
        var point := Point(x, y);
        assert ys[j] == y;
        ColumnStep(positions, before, x, ys, j, keep);
        assert keep(point) <==> (x, y) !in existing && Accepts(checker, point);
        if (x, y) in existing {
          continue;
        }
        if Accepts(checker, point) {
          positions := positions + [point];
        }
      }
      ProductStep(positions, before, xs, ys, i, keep);
    }
    assert xs[xCount + 1..] == [];
    assert Candidates.Product(xs, ys) == Lattice(box, spacing);
  }

  // ---------------------------------------------------------------------------------------
  // Finding: the existence test compares unsnapped coordinates with snapped keys

  /** Every key is a multiple of the tolerance, so a point off that grid is never skipped. */
  lemma {:induction false} UnalignedPointNeverSkipped(tracks: seq<Track>, p: Point)
    requires p.x % Tolerance != 0
    ensures (p.x, p.y) !in ExistingKeys(tracks)
  {
    ExistingKeysMember(tracks, (p.x, p.y));
  }

  /** A lattice point exactly on an existing via at (150, 150) is kept and placed again. */
  lemma {:induction false} CoincidentViaNotSkipped()
    ensures Kept(ExistingKeys([ViaTrack(Point(150, 150))]), AcceptAll, Point(150, 150))
  {
    UnalignedPointNeverSkipped([ViaTrack(Point(150, 150))], Point(150, 150));
  }

  /** Two coordinates less than one tolerance apart snap to the same or adjacent multiples. */
  lemma {:induction false} SnapNear(a: int, b: int)
    requires Abs(a - b) < Tolerance
    ensures -Tolerance <= Snap(a) - Snap(b) <= Tolerance
    ensures (Snap(a) - Snap(b)) % Tolerance == 0
  {
    SnapBounds(a);
    SnapBounds(b);
    var qa, qb := TruncDiv(a, Tolerance), TruncDiv(b, Tolerance);
    assert Snap(a) - Snap(b) == (qa - qb) * Tolerance;
    MultipleMod(qa - qb, Tolerance);
  }

  /** The intended test: the candidate is snapped the same way before the lookup. */
  predicate Occupied(existing: set<(int, int)>, p: Point)
  {
    (Snap(p.x), Snap(p.y)) in existing
  }

  /** Every via closer than one tolerance on both axes makes the candidate occupied. */
  lemma {:induction false} NearbyViaDetected(tracks: seq<Track>, i: int, p: Point)
    requires 0 <= i < |tracks| && tracks[i].ViaTrack?
    requires Abs(p.x - tracks[i].pos.x) < Tolerance && Abs(p.y - tracks[i].pos.y) < Tolerance
    ensures Occupied(ExistingKeys(tracks), p)
  {
    var e := tracks[i].pos;
    SnapNear(p.x, e.x);
    SnapNear(p.y, e.y);
    assert IsKeyOf((Snap(p.x), Snap(p.y)), e);
    ExistingKeysMember(tracks, (Snap(p.x), Snap(p.y)));
  }

  /** The lattice filtered with the snapped lookup. */
  function CorrectedZonePositions(box: Box, spacing: int, existing: set<(int, int)>, checker: Checker): seq<Point>
  {
    if spacing == 0 then [] else Filter(Lattice(box, spacing), p => !Occupied(existing, p) && Accepts(checker, p))
  }

  /**
   * With the snapped lookup no collected position lies within one tolerance, on both axes,
   * of a via already on the board.
   */
  lemma {:induction false} CorrectedZonePositionsAvoidVias(tracks: seq<Track>, box: Box, spacing: int,
                                                           checker: Checker, p: Point, i: int)
    requires p in CorrectedZonePositions(box, spacing, ExistingKeys(tracks), checker)
    requires 0 <= i < |tracks| && tracks[i].ViaTrack?
    ensures Abs(p.x - tracks[i].pos.x) >= Tolerance || Abs(p.y - tracks[i].pos.y) >= Tolerance
  {
    var existing := ExistingKeys(tracks);
    FilterMember(Lattice(box, spacing), p => !Occupied(existing, p) && Accepts(checker, p), p);
    if Abs(p.x - tracks[i].pos.x) < Tolerance && Abs(p.y - tracks[i].pos.y) < Tolerance {
      NearbyViaDetected(tracks, i, p);
    }
  }
}
