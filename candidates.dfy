/**
 * Candidate positions for one zone (`calculate_candidate_positions`, without random jitter):
 * the grid pattern steps through the zone's bounding box shrunk by the edge clearance, the
 * boundary pattern walks its perimeter in equal parameter steps; both keep only the points
 * that pass the inset bounding-box test `is_point_in_zone_fast`.
 */
module Candidates {
  import opened Wrappers
  import opened Geometry
  import opened Seqs

  /**
   * The placement patterns: grid, boundary, and `OtherPattern` for a name other than grid,
   * boundary and spiral (the spiral pattern is not part of this model), which yields no
   * candidates.
   */
  datatype Pattern = GridPattern | BoundaryPattern | OtherPattern

  /** The points that pass `is_point_in_zone_fast` for `box` and `clearance`, in their order. */
  function InsetFilter(points: seq<Point>, box: Box, clearance: int): seq<Point>
  {
    Filter(points, p => InsetContains(box, p, clearance))
  }

  /** A point survives the inset test exactly when it was offered and lies in the inset box. */
  lemma {:induction false} InsetFilterMember(points: seq<Point>, box: Box, clearance: int, p: Point)
    ensures p in InsetFilter(points, box, clearance) <==> p in points && InsetContains(box, p, clearance)
  {
    FilterMember(points, p => InsetContains(box, p, clearance), p);
  }

  lemma {:induction false} InsetFilterAppend(a: seq<Point>, b: seq<Point>, box: Box, clearance: int)
    ensures InsetFilter(a + b, box, clearance) == InsetFilter(a, box, clearance) + InsetFilter(b, box, clearance)
  {
    FilterAppend(a, b, p => InsetContains(box, p, clearance));
  }

  lemma {:induction false} InsetFilterCons(p: Point, rest: seq<Point>, box: Box, clearance: int)
    ensures InsetFilter([p] + rest, box, clearance) ==
            (if InsetContains(box, p, clearance) then [p] else []) + InsetFilter(rest, box, clearance)
  {
    InsetFilterAppend([p], rest, box, clearance);
    assert [p][..0] == [];
    assert InsetFilter([p], box, clearance) == InsetFilter([], box, clearance) +
      (if InsetContains(box, p, clearance) then [p] else []);
  }

  // ---------------------------------------------------------------------------------------
  // Grid pattern

  /** The values a `while v <= end: ...; v += step` loop visits, starting at `a`. */
  function Steps(a: int, end: int, step: int): seq<int>
    requires a <= end ==> step > 0
    decreases if a <= end then end - a + 1 else 0
  {
    if a > end then [] else [a] + Steps(a + step, end, step)
  }

  /**
   * The stepping loop visits a + k * step for k = 0 .. floor((end - a) / step), and nothing
   * when a > end.
   */
  lemma {:induction false} StepsShape(a: int, end: int, step: int)
    requires step > 0
    decreases if a <= end then end - a + 1 else 0
    ensures |Steps(a, end, step)| == if a > end then 0 else (end - a) / step + 1
    ensures forall k :: 0 <= k < |Steps(a, end, step)| ==> Steps(a, end, step)[k] == a + k * step
  {
    if a <= end {
      var rest := Steps(a + step, end, step);
      StepsShape(a + step, end, step);
      var n := |rest|;
      if a + step > end {
        FloorDivUnique(end - a, step, 0);
      } else {
        assert (n - 1) * step == (end - a - step) / step * step;
        FloorDivBounds(end - a - step, step);
        FloorDivUnique(end - a, step, n);
      }
      forall k | 0 <= k < |Steps(a, end, step)|
        ensures Steps(a, end, step)[k] == a + k * step
      {
        if k > 0 {
          assert Steps(a, end, step)[k] == rest[k - 1];
          assert (k - 1) * step + step == k * step;
        }
      }
    }
  }

  /** Every visited value lies between the start and the end. */
  lemma {:induction false} StepsBounds(a: int, end: int, step: int)
    requires a <= end ==> step > 0
    decreases if a <= end then end - a + 1 else 0
    ensures forall v :: v in Steps(a, end, step) ==> a <= v <= end
  {
    if a <= end {
      StepsBounds(a + step, end, step);
    }
  }

  /** The points (x, y) for y in `ys`, in order. */
  function Column(x: int, ys: seq<int>): seq<Point>
  {
    if ys == [] then [] else [Point(x, ys[0])] + Column(x, ys[1..])
  }

  /** The points (x, y) for x in `xs` (outer) and y in `ys` (inner): x-major order. */
  function Product(xs: seq<int>, ys: seq<int>): seq<Point>
  {
    if xs == [] then [] else Column(xs[0], ys) + Product(xs[1..], ys)
  }

  /** First and last raw coordinates of the grid pattern. */
  function GridXStart(box: Box, ec: int, hOff: int): int { box.Left() + ec + hOff }
  function GridYStart(box: Box, ec: int, vOff: int): int { box.Top() + ec + vOff }
  function GridXEnd(box: Box, ec: int): int { box.Right() - ec }
  function GridYEnd(box: Box, ec: int): int { box.Bottom() - ec }

  /** The two stepping loops terminate: each spacing is positive whenever its loop is entered. */
  predicate GridTerminates(box: Box, ec: int, hOff: int, vOff: int, h: int, v: int)
  {
    GridXStart(box, ec, hOff) <= GridXEnd(box, ec) ==>
      h > 0 && (GridYStart(box, ec, vOff) <= GridYEnd(box, ec) ==> v > 0)
  }

  /** Every point the grid loops visit, before the inset test. */
  function GridRaw(box: Box, ec: int, hOff: int, vOff: int, h: int, v: int): seq<Point>
    requires GridTerminates(box, ec, hOff, vOff, h, v)
  {
    var xs := Steps(GridXStart(box, ec, hOff), GridXEnd(box, ec), h);
    var ys := if xs == [] then [] else Steps(GridYStart(box, ec, vOff), GridYEnd(box, ec), v);
    Product(xs, ys)
  }

  /** The grid-pattern candidates. */
  function GridCandidates(box: Box, ec: int, hOff: int, vOff: int, h: int, v: int): seq<Point>
    requires GridTerminates(box, ec, hOff, vOff, h, v)
  {
    InsetFilter(GridRaw(box, ec, hOff, vOff, h, v), box, ec)
  }

  /** The grid branch of `calculate_candidate_positions` with `randomize` off. */
  method GridPositions(box: Box, ec: int, hOff: int, vOff: int, h: int, v: int) returns (positions: seq<Point>)
    requires GridTerminates(box, ec, hOff, vOff, h, v)
    ensures positions == GridCandidates(box, ec, hOff, vOff, h, v)
  {
    var xStart := box.Left() + ec + hOff;
    var yStart := box.Top() + ec + vOff;
    var xEnd := box.Right() - ec;
    var yEnd := box.Bottom() - ec;
    ghost var ys := if xStart > xEnd then [] else Steps(yStart, yEnd, v);
    ghost var all := InsetFilter(Product(Steps(xStart, xEnd, h), ys), box, ec);
    assert all == GridCandidates(box, ec, hOff, vOff, h, v);
    positions := [];
    var x := xStart;
    while x <= xEnd
      invariant xStart <= x
      invariant positions + InsetFilter(Product(Steps(x, xEnd, h), ys), box, ec) == all
      decreases xEnd - x
    {
      assert h > 0 && ys == Steps(yStart, yEnd, v);
      ghost var before := positions;
      var column := GridColumn(box, ec, x, yStart, yEnd, v);
      positions := positions + column;
      GridColumnDone(box, ec, x, xEnd, h, ys, before, positions);
      x := x + h;
    }
  }

  /** The inner loop of the grid pattern: the points of column x that pass the inset test. */
  method GridColumn(box: Box, ec: int, x: int, yStart: int, yEnd: int, v: int) returns (column: seq<Point>)
    requires yStart <= yEnd ==> v > 0
    ensures column == InsetFilter(Column(x, Steps(yStart, yEnd, v)), box, ec)
  {
    column := [];
    var y := yStart;
    while y <= yEnd
      invariant yStart <= y
      invariant column + InsetFilter(Column(x, Steps(y, yEnd, v)), box, ec) ==
                InsetFilter(Column(x, Steps(yStart, yEnd, v)), box, ec)
      decreases yEnd - y
    {
      GridCellStep(box, ec, x, y, yEnd, v, column, InsetFilter(Column(x, Steps(yStart, yEnd, v)), box, ec));
      var pos := Point(x, y);
      if InsetContains(box, pos, ec) {
        column := column + [pos];
      }
      y := y + v;
    }
    assert InsetFilter(Column(x, Steps(y, yEnd, v)), box, ec) == [];
  }

  /** The stepping variable after n passes of `v += step` from `a`. */
  function StepAfter(a: int, step: int, n: nat): int
  {
    if n == 0 then a else StepAfter(a, step, n - 1) + step
  }

  /**
   * As written, the grid loops accept any spacing: with a non-positive `h_spacing` and a
   * non-empty x range the outer `while x <= x_end` condition still holds after every pass,
   * so the loop never ends.
   */
  lemma {:induction false} NonPositiveSpacingNeverExits(box: Box, ec: int, hOff: int, vOff: int,
                                                        h: int, v: int, n: nat)
    requires h <= 0 && GridXStart(box, ec, hOff) <= GridXEnd(box, ec)
    ensures !GridTerminates(box, ec, hOff, vOff, h, v)
    ensures StepAfter(GridXStart(box, ec, hOff), h, n) <= GridXStart(box, ec, hOff) <= GridXEnd(box, ec)
  {
    if n > 0 {
      NonPositiveSpacingNeverExits(box, ec, hOff, vOff, h, v, n - 1);
    }
  }

  /** The grid settings are refused when a spacing is not positive. */
  datatype SpacingError = NonPositiveSpacing

  /**
   * The grid pattern behind a check that both spacings are positive: a refusal exactly for a
   * non-positive spacing, and otherwise the terminating loops' grid candidates.
   */
  method CheckedGridPositions(box: Box, ec: int, hOff: int, vOff: int, h: int, v: int)
    returns (r: Result<seq<Point>, SpacingError>)
    ensures r.Err? <==> h <= 0 || v <= 0
    ensures r.Ok? ==> GridTerminates(box, ec, hOff, vOff, h, v) &&
                      r.value == GridCandidates(box, ec, hOff, vOff, h, v)
  {
    if h <= 0 || v <= 0 {
      return Err(NonPositiveSpacing);
    }
    var positions := GridPositions(box, ec, hOff, vOff, h, v);
    return Ok(positions);
  }

  /** One step of the inner grid loop: the point (x, y) is kept exactly when it passes the inset test. */
  lemma {:induction false} GridCellStep(box: Box, ec: int, x: int, y: int, yEnd: int, v: int,
                                        positions: seq<Point>, target: seq<Point>)
    requires y <= yEnd && v > 0
    requires positions + InsetFilter(Column(x, Steps(y, yEnd, v)), box, ec) == target
    ensures (if InsetContains(box, Point(x, y), ec) then positions + [Point(x, y)] else positions) +
            InsetFilter(Column(x, Steps(y + v, yEnd, v)), box, ec) == target
  {
    var rest := Column(x, Steps(y + v, yEnd, v));
    assert Column(x, Steps(y, yEnd, v)) == [Point(x, y)] + rest;
    InsetFilterCons(Point(x, y), rest, box, ec);
  }

  /** After column x the loop state is that of the remaining columns. */
  lemma {:induction false} GridColumnDone(box: Box, ec: int, x: int, xEnd: int, h: int, ys: seq<int>,
                       before: seq<Point>, positions: seq<Point>)
    requires x <= xEnd && h > 0
    requires positions == before + InsetFilter(Column(x, ys), box, ec)
    ensures positions + InsetFilter(Product(Steps(x + h, xEnd, h), ys), box, ec) ==
            before + InsetFilter(Product(Steps(x, xEnd, h), ys), box, ec)
  {
    assert Product(Steps(x, xEnd, h), ys) == Column(x, ys) + Product(Steps(x + h, xEnd, h), ys);
    InsetFilterAppend(Column(x, ys), Product(Steps(x + h, xEnd, h), ys), box, ec);
  }

  /** Lexicographic order on points: by x, then by y. */
  predicate XMajorBefore(p: Point, q: Point)
  {
    p.x < q.x || (p.x == q.x && p.y < q.y)
  }

  /** Strictly increasing in x-major order (so also free of repeats). */
  ghost predicate XMajorSorted(s: seq<Point>)
  {
    forall i, j :: 0 <= i < j < |s| ==> XMajorBefore(s[i], s[j])
  }

  ghost predicate Increasing(s: seq<int>)
  {
    forall i, j :: 0 <= i < j < |s| ==> s[i] < s[j]
  }

  lemma {:induction false} StepsIncreasing(a: int, end: int, step: int)
    requires a <= end ==> step > 0
    decreases if a <= end then end - a + 1 else 0
    ensures Increasing(Steps(a, end, step))
  {
    if a <= end {
      StepsIncreasing(a + step, end, step);
      StepsBounds(a + step, end, step);
      var s := Steps(a, end, step);
      forall i, j | 0 <= i < j < |s|
        ensures s[i] < s[j]
      {
        assert s[j] in Steps(a + step, end, step);
      }
    }
  }

  lemma {:induction false} ColumnMember(x: int, ys: seq<int>, p: Point)
    ensures p in Column(x, ys) <==> p.x == x && p.y in ys
  {
    if ys != [] {
      ColumnMember(x, ys[1..], p);
      assert ys == [ys[0]] + ys[1..];
    }
  }

  lemma {:induction false} ProductMember(xs: seq<int>, ys: seq<int>, p: Point)
    ensures p in Product(xs, ys) <==> p.x in xs && p.y in ys
  {
    if xs != [] {
      ProductMember(xs[1..], ys, p);
      ColumnMember(xs[0], ys, p);
      assert xs == [xs[0]] + xs[1..];
    }
  }

  lemma {:induction false} ColumnSorted(x: int, ys: seq<int>)
    requires Increasing(ys)
    ensures XMajorSorted(Column(x, ys))
  {
    if ys != [] {
      ColumnSorted(x, ys[1..]);
      var c := Column(x, ys);
      forall i, j | 0 <= i < j < |c|
        ensures XMajorBefore(c[i], c[j])
      {
        ColumnMember(x, ys[1..], c[j]);
        var k :| 0 <= k < |ys[1..]| && ys[1..][k] == c[j].y;
        if i == 0 {
          assert ys[0] < ys[k + 1];
        }
      }
    }
  }

  /** Joining two sorted runs, the first entirely before the second, stays sorted. */
  lemma {:induction false} SortedJoin(a: seq<Point>, b: seq<Point>)
    requires XMajorSorted(a) && XMajorSorted(b)
    requires forall p, q :: p in a && q in b ==> XMajorBefore(p, q)
    ensures XMajorSorted(a + b)
  {
    var s := a + b;
    forall i, j | 0 <= i < j < |s|
      ensures XMajorBefore(s[i], s[j])
    {
      if j < |a| {
        assert s[i] == a[i] && s[j] == a[j];
      } else if i >= |a| {
        assert s[i] == b[i - |a|] && s[j] == b[j - |a|];
      } else {
        assert s[i] in a && s[j] in b;
      }
    }
  }

  lemma {:induction false} ProductSorted(xs: seq<int>, ys: seq<int>)
    requires Increasing(xs) && Increasing(ys)
    ensures XMajorSorted(Product(xs, ys))
  {
    if xs != [] {
      assert Increasing(xs[1..]);
      ProductSorted(xs[1..], ys);
      ColumnSorted(xs[0], ys);
      forall p, q | p in Column(xs[0], ys) && q in Product(xs[1..], ys)
        ensures XMajorBefore(p, q)
      {
        ColumnMember(xs[0], ys, p);
        ProductMember(xs[1..], ys, q);
        var k :| 0 <= k < |xs[1..]| && xs[1..][k] == q.x;
        assert xs[0] < xs[k + 1];
      }
      SortedJoin(Column(xs[0], ys), Product(xs[1..], ys));
    }
  }

  /** Keeping some points of an x-major sorted sequence leaves it x-major sorted. */
  lemma {:induction false} InsetFilterSorted(s: seq<Point>, box: Box, clearance: int)
    requires XMajorSorted(s)
    ensures XMajorSorted(InsetFilter(s, box, clearance))
  {
    if s != [] {
      var s', last := s[..|s| - 1], s[|s| - 1];
      assert XMajorSorted(s');
      InsetFilterSorted(s', box, clearance);
      var f, f' := InsetFilter(s, box, clearance), InsetFilter(s', box, clearance);
      if InsetContains(box, last, clearance) {
        assert f == f' + [last];
        forall i, j | 0 <= i < j < |f|
          ensures XMajorBefore(f[i], f[j])
        {
          if j == |f| - 1 {
            assert f[i] == f'[i];
            InsetFilterMember(s', box, clearance, f[i]);
            var k :| 0 <= k < |s'| && s'[k] == f[i];
            assert s[k] == f[i] && s[|s| - 1] == f[j];
          } else {
            assert f[i] == f'[i] && f[j] == f'[j];
          }
        }
      } else {
        assert f == f';
      }
    }
  }

  /**
   * The grid candidates come out x-major with y ascending inside each column (so no point
   * twice), and each lies in the bounding box shrunk by the edge clearance.
   */
  lemma {:induction false} GridCandidatesOrderedAndInside(box: Box, ec: int, hOff: int, vOff: int, h: int, v: int)
    requires GridTerminates(box, ec, hOff, vOff, h, v)
    ensures XMajorSorted(GridCandidates(box, ec, hOff, vOff, h, v))
    ensures forall p :: p in GridCandidates(box, ec, hOff, vOff, h, v) ==> InsetContains(box, p, ec)
  {
    var xs := Steps(GridXStart(box, ec, hOff), GridXEnd(box, ec), h);
    var ys := if xs == [] then [] else Steps(GridYStart(box, ec, vOff), GridYEnd(box, ec), v);
    StepsIncreasing(GridXStart(box, ec, hOff), GridXEnd(box, ec), h);
    if xs != [] {
      StepsIncreasing(GridYStart(box, ec, vOff), GridYEnd(box, ec), v);
    }
    ProductSorted(xs, ys);
    InsetFilterSorted(Product(xs, ys), box, ec);
    forall p | p in GridCandidates(box, ec, hOff, vOff, h, v)
      ensures InsetContains(box, p, ec)
    {
      InsetFilterMember(Product(xs, ys), box, ec, p);
    }
  }

  /**
   * Product is x-major: entry i * |ys| + j is (xs[i], ys[j]).
   */
  lemma {:induction false} ProductAt(xs: seq<int>, ys: seq<int>, i: int, j: int)
    requires 0 <= i < |xs| && 0 <= j < |ys|
    ensures i * |ys| + j < |Product(xs, ys)| && Product(xs, ys)[i * |ys| + j] == Point(xs[i], ys[j])
  {
    ColumnAt(xs[0], ys);
    if i == 0 {
      assert 0 * |ys| + j == j;
    } else {
      ProductAt(xs[1..], ys, i - 1, j);
      MulSucc(i - 1, |ys|);
      ConcatIndex(Column(xs[0], ys), Product(xs[1..], ys), (i - 1) * |ys| + j);
    }
  }

  lemma {:induction false} MulSucc(a: int, m: int)
    ensures (a + 1) * m == a * m + m
  {
  }

  lemma {:induction false} ConcatIndex<T>(c: seq<T>, rest: seq<T>, k: int)
    requires 0 <= k < |rest|
    ensures |c| + k < |c + rest| && (c + rest)[|c| + k] == rest[k]
  {
  }

  lemma {:induction false} ProductLength(xs: seq<int>, ys: seq<int>)
    ensures |Product(xs, ys)| == |xs| * |ys|
  {
    if xs != [] {
      ColumnAt(xs[0], ys);
      ProductLength(xs[1..], ys);
      assert |xs| * |ys| == |ys| + (|xs| - 1) * |ys|;
    }
  }

  lemma {:induction false} ColumnAt(x: int, ys: seq<int>)
    ensures |Column(x, ys)| == |ys|
    ensures forall j :: 0 <= j < |ys| ==> Column(x, ys)[j] == Point(x, ys[j])
  {
    if ys != [] {
      ColumnAt(x, ys[1..]);
    }
  }

  /**
   * The raw grid visits x = xStart + i * h for i = 0 .. floor((xEnd - xStart) / h) and,
   * in each such column, y = yStart + j * v for j = 0 .. floor((yEnd - yStart) / v).
   */
  lemma {:induction false} GridRawAt(box: Box, ec: int, hOff: int, vOff: int, h: int, v: int, i: int, j: int)
    requires h > 0 && v > 0
    requires GridXStart(box, ec, hOff) <= GridXEnd(box, ec) && GridYStart(box, ec, vOff) <= GridYEnd(box, ec)
    requires 0 <= i <= (GridXEnd(box, ec) - GridXStart(box, ec, hOff)) / h
    requires 0 <= j <= (GridYEnd(box, ec) - GridYStart(box, ec, vOff)) / v
    ensures |GridRaw(box, ec, hOff, vOff, h, v)| ==
            ((GridXEnd(box, ec) - GridXStart(box, ec, hOff)) / h + 1) * ((GridYEnd(box, ec) - GridYStart(box, ec, vOff)) / v + 1)
    ensures var ny := (GridYEnd(box, ec) - GridYStart(box, ec, vOff)) / v + 1;
            i * ny + j < |GridRaw(box, ec, hOff, vOff, h, v)| &&
            GridRaw(box, ec, hOff, vOff, h, v)[i * ny + j] ==
            Point(GridXStart(box, ec, hOff) + i * h, GridYStart(box, ec, vOff) + j * v)
  {
    var xs := Steps(GridXStart(box, ec, hOff), GridXEnd(box, ec), h);
    var ys := Steps(GridYStart(box, ec, vOff), GridYEnd(box, ec), v);
    StepsShape(GridXStart(box, ec, hOff), GridXEnd(box, ec), h);
    StepsShape(GridYStart(box, ec, vOff), GridYEnd(box, ec), v);
    ProductLength(xs, ys);
    ProductAt(xs, ys, i, j);
  }

  // ---------------------------------------------------------------------------------------
  // Boundary pattern

  /** `num_vias = int(perimeter / h_spacing)` with perimeter = 2 * (width + height). */
  function BoundaryCount(box: Box, spacing: int): int
    requires spacing != 0
  {
    TruncDiv(2 * (box.width + box.height), spacing)
  }

  datatype Edge = TopEdge | RightEdge | BottomEdge | LeftEdge

  /** Position of an edge in the walk: top, right, bottom, left. */
  function EdgeRank(e: Edge): nat
  {
    match e
    case TopEdge => 0
    case RightEdge => 1
    case BottomEdge => 2
    case LeftEdge => 3
  }

  /**
   * The edge that step i of n falls on. The perimeter position is the exact rational
   * i * perimeter / n, so it is compared through `i * perimeter` against the thresholds times n.
   */
  function EdgeAt(box: Box, n: int, i: int): Edge
    requires n > 0
  {
    var w, hgt := box.width, box.height;
    var s := i * (2 * (w + hgt));
    if s < w * n then TopEdge
    else if s < (w + hgt) * n then RightEdge
    else if s < (2 * w + hgt) * n then BottomEdge
    else LeftEdge
  }

  /** Step i of n, truncated to integer coordinates (the `int(x), int(y)` of the source). */
  function BoundaryPoint(box: Box, ec: int, n: int, i: int): Point
    requires n > 0
  {
    var w, hgt := box.width, box.height;
    var s := i * (2 * (w + hgt));
    match EdgeAt(box, n, i)
    case TopEdge => Point(TruncDiv(box.Left() * n + s, n), box.Top() + ec)
    case RightEdge => Point(box.Right() - ec, TruncDiv(box.Top() * n + (s - w * n), n))
    case BottomEdge => Point(TruncDiv(box.Right() * n - (s - w * n - hgt * n), n), box.Bottom() - ec)
    case LeftEdge => Point(box.Left() + ec, TruncDiv(box.Bottom() * n - (s - 2 * w * n - hgt * n), n))
  }

  /** The raw points of steps 0 .. count - 1 out of n. */
  function BoundaryRaw(box: Box, ec: int, n: int, count: nat): seq<Point>
    requires n > 0
  {
    if count == 0 then [] else BoundaryRaw(box, ec, n, count - 1) + [BoundaryPoint(box, ec, n, count - 1)]
  }

  /** The boundary-pattern candidates: none when the step count is not positive. */
  function BoundaryCandidates(box: Box, ec: int, spacing: int): seq<Point>
    requires spacing != 0
  {
    var n := BoundaryCount(box, spacing);
    if n <= 0 then [] else InsetFilter(BoundaryRaw(box, ec, n, n), box, ec)
  }

  /** The boundary branch of `calculate_candidate_positions` with `randomize` off. */
  method BoundaryPositions(box: Box, ec: int, spacing: int) returns (positions: seq<Point>)
    requires spacing != 0
    ensures positions == BoundaryCandidates(box, ec, spacing)
  {
    var perimeter := 2 * (box.width + box.height);
    var numVias := TruncDiv(perimeter, spacing);
    positions := [];
    var i := 0;
    while i < numVias
      invariant i == 0 || 0 < i <= numVias
      invariant positions == if numVias <= 0 then [] else InsetFilter(BoundaryRaw(box, ec, numVias, i), box, ec)
    {
      var pos := BoundaryPoint(box, ec, numVias, i);
      InsetFilterAppend(BoundaryRaw(box, ec, numVias, i), [pos], box, ec);
      InsetFilterCons(pos, [], box, ec);
      assert [pos] + [] == [pos];
      if InsetContains(box, pos, ec) {
        positions := positions + [pos];
      }
      i := i + 1;
    }
  }

  /**
   * Each raw point lies on the line of the edge it falls on (top at y = top + ec, right at
   * x = right - ec, bottom at y = bottom - ec, left at x = left + ec), within the box's span
   * along that edge.
   */
  lemma {:induction false} BoundaryOnEdge(box: Box, ec: int, n: int, i: int)
    requires n > 0 && 0 <= i < n
    ensures var p := BoundaryPoint(box, ec, n, i);
            match EdgeAt(box, n, i)
            case TopEdge => p.y == box.Top() + ec && box.Left() <= p.x <= box.Right()
            case RightEdge => p.x == box.Right() - ec && box.Top() <= p.y <= box.Bottom()
            case BottomEdge => p.y == box.Bottom() - ec && box.Left() <= p.x <= box.Right()
            case LeftEdge => p.x == box.Left() + ec && box.Top() <= p.y <= box.Bottom()
  {
    match EdgeAt(box, n, i)
    case TopEdge => OnTopEdge(box, ec, n, i);
    case RightEdge => OnRightEdge(box, ec, n, i);
    case BottomEdge => OnBottomEdge(box, ec, n, i);
    case LeftEdge => OnLeftEdge(box, ec, n, i);
  }

  lemma {:induction false} OnTopEdge(box: Box, ec: int, n: int, i: int)
    requires n > 0 && 0 <= i < n && EdgeAt(box, n, i) == TopEdge
    ensures var p := BoundaryPoint(box, ec, n, i); p.y == box.Top() + ec && box.Left() <= p.x <= box.Right()
  {
    PerimeterSteps(box.width, box.height, n, i);
    EdgeSpan(box.Left(), box.width, n, i * (2 * (box.width + box.height)));
  }

  lemma {:induction false} OnRightEdge(box: Box, ec: int, n: int, i: int)
    requires n > 0 && 0 <= i < n && EdgeAt(box, n, i) == RightEdge
    ensures var p := BoundaryPoint(box, ec, n, i); p.x == box.Right() - ec && box.Top() <= p.y <= box.Bottom()
  {
    var w, hgt := box.width, box.height;
    PerimeterSteps(w, hgt, n, i);
    EdgeSpan(box.Top(), hgt, n, i * (2 * (w + hgt)) - w * n);
  }

  lemma {:induction false} OnBottomEdge(box: Box, ec: int, n: int, i: int)
    requires n > 0 && 0 <= i < n && EdgeAt(box, n, i) == BottomEdge
    ensures var p := BoundaryPoint(box, ec, n, i); p.y == box.Bottom() - ec && box.Left() <= p.x <= box.Right()
  {
    var w, hgt := box.width, box.height;
    PerimeterSteps(w, hgt, n, i);
    ReverseEdgeSpan(box.Left(), w, n, i * (2 * (w + hgt)) - w * n - hgt * n);
  }

  lemma {:induction false} OnLeftEdge(box: Box, ec: int, n: int, i: int)
    requires n > 0 && 0 <= i < n && EdgeAt(box, n, i) == LeftEdge
    ensures var p := BoundaryPoint(box, ec, n, i); p.x == box.Left() + ec && box.Top() <= p.y <= box.Bottom()
  {
    var w, hgt := box.width, box.height;
    PerimeterSteps(w, hgt, n, i);
    ReverseEdgeSpan(box.Top(), hgt, n, i * (2 * (w + hgt)) - 2 * w * n - hgt * n);
  }

  /** A coordinate (base + len) - off / n, walked backwards, with 0 <= off <= len * n. */
  lemma {:induction false} ReverseEdgeSpan(base: int, len: int, n: int, off: int)
    requires n > 0 && 0 <= off <= len * n
    ensures base <= TruncDiv((base + len) * n - off, n) <= base + len
  {
    assert (base + len) * n - off == base * n + (len * n - off);
    EdgeSpan(base, len, n, len * n - off);
  }

  /**
   * The scaled perimeter position s = i * perimeter of step i < n lies in [0, n * perimeter],
   * and the scaled edge thresholds are sums of w * n and h * n.
   */
  lemma {:induction false} PerimeterSteps(w: nat, hgt: nat, n: int, i: int)
    requires n > 0 && 0 <= i < n
    ensures 0 <= i * (2 * (w + hgt)) <= 2 * (w * n) + 2 * (hgt * n)
    ensures w * n >= 0 && hgt * n >= 0
    ensures (w + hgt) * n == w * n + hgt * n
    ensures (2 * w + hgt) * n == 2 * (w * n) + hgt * n
  {
    MulMono(0, i, 2 * (w + hgt));
    MulMono(i, n, 2 * (w + hgt));
    MulMono(0, w, n);
    MulMono(0, hgt, n);
  }

  /** A truncated coordinate base + off / n with 0 <= off <= len * n lies in [base, base + len]. */
  lemma {:induction false} EdgeSpan(base: int, len: int, n: int, off: int)
    requires n > 0 && 0 <= off <= len * n
    ensures base <= TruncDiv(base * n + off, n) <= base + len
  {
    assert (base + len) * n == base * n + len * n;
    TruncDivBetween(base * n + off, n, base, base + len);
  }

  /** The walk never goes back to an earlier edge: steps are in increasing perimeter order. */
  lemma {:induction false} EdgeOrder(box: Box, n: int, i: int, j: int)
    requires n > 0 && 0 <= i <= j
    ensures EdgeRank(EdgeAt(box, n, i)) <= EdgeRank(EdgeAt(box, n, j))
  {
    MulMono(i, j, 2 * (box.width + box.height));
  }

  lemma {:induction false} BoundaryRawShape(box: Box, ec: int, n: int, count: nat)
    requires n > 0
    ensures |BoundaryRaw(box, ec, n, count)| == count
    ensures forall k :: 0 <= k < count ==> BoundaryRaw(box, ec, n, count)[k] == BoundaryPoint(box, ec, n, k)
  {
    if count > 0 {
      BoundaryRawShape(box, ec, n, count - 1);
    }
  }

  /**
   * The boundary pattern yields at most `int(perimeter / h_spacing)` points; a point is
   * among them exactly when it is the raw point of some step and passes the inset test.
   */
  lemma {:induction false} BoundaryCandidatesMeaning(box: Box, ec: int, spacing: int, p: Point)
    requires spacing != 0
    ensures var n := BoundaryCount(box, spacing);
            |BoundaryCandidates(box, ec, spacing)| <= if n > 0 then n else 0
    ensures var n := BoundaryCount(box, spacing);
            p in BoundaryCandidates(box, ec, spacing) <==>
              n > 0 && (exists k :: 0 <= k < n && p == BoundaryPoint(box, ec, n, k)) && InsetContains(box, p, ec)
  {
    var n := BoundaryCount(box, spacing);
    if n > 0 {
      var raw := BoundaryRaw(box, ec, n, n);
      BoundaryRawShape(box, ec, n, n);
      FilterLength(raw, q => InsetContains(box, q, ec));
      InsetFilterMember(raw, box, ec, p);
      if p in raw {
        var k :| 0 <= k < |raw| && raw[k] == p;
        assert p == BoundaryPoint(box, ec, n, k);
      }
      if exists k :: 0 <= k < n && p == BoundaryPoint(box, ec, n, k) {
        var k :| 0 <= k < n && p == BoundaryPoint(box, ec, n, k);
        assert raw[k] == p;
      }
    }
  }

  // ---------------------------------------------------------------------------------------
  // Dispatch

  /** What `calculate_candidate_positions` may be asked for without failing or looping. */
  predicate CandidatesDefined(box: Box, pattern: Pattern, h: int, v: int, hOff: int, vOff: int, ec: int)
  {
    match pattern
    case GridPattern => GridTerminates(box, ec, hOff, vOff, h, v)
    case BoundaryPattern => h != 0
    case OtherPattern => true
  }

  function CandidatesFor(box: Box, pattern: Pattern, h: int, v: int, hOff: int, vOff: int, ec: int): seq<Point>
    requires CandidatesDefined(box, pattern, h, v, hOff, vOff, ec)
  {
    match pattern
    case GridPattern => GridCandidates(box, ec, hOff, vOff, h, v)
    case BoundaryPattern => BoundaryCandidates(box, ec, h)
    case OtherPattern => []
  }

  /** Every candidate of every pattern passes the inset bounding-box test. */
  lemma {:induction false} CandidatesInside(box: Box, pattern: Pattern, h: int, v: int, hOff: int, vOff: int, ec: int, p: Point)
    requires CandidatesDefined(box, pattern, h, v, hOff, vOff, ec)
    requires p in CandidatesFor(box, pattern, h, v, hOff, vOff, ec)
    ensures InsetContains(box, p, ec)
  {
    match pattern
    case GridPattern =>
      InsetFilterMember(GridRaw(box, ec, hOff, vOff, h, v), box, ec, p);
    case BoundaryPattern =>
      BoundaryCandidatesMeaning(box, ec, h, p);
    case OtherPattern =>
  }

  /** `calculate_candidate_positions` for the non-random grid and boundary patterns. */
  method CandidatePositions(box: Box, pattern: Pattern, h: int, v: int, hOff: int, vOff: int, ec: int)
    returns (positions: seq<Point>)
    requires CandidatesDefined(box, pattern, h, v, hOff, vOff, ec)
    ensures positions == CandidatesFor(box, pattern, h, v, hOff, vOff, ec)
  {
    match pattern
    case GridPattern =>
      positions := GridPositions(box, ec, hOff, vOff, h, v);
    case BoundaryPattern =>
      positions := BoundaryPositions(box, ec, h);
    case OtherPattern =>
      positions := [];
  }
}
