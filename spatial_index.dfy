/**
 * The via spatial index of the optimised plugin (`SpatialIndex`): a dictionary from grid
 * cells to the (position, via) entries bucketed there, and its radius query.
 */
module SpatialIndexing {
  import opened Geometry
  import opened ScanOrder

  /** One stored `(pos, via)` pair. */
  datatype Entry<V> = Entry(pos: Point, via: V)

  /** One query answer `(via_pos, via, distance)`; the distance is kept squared, hence exact. */
  datatype Nearby<V> = Nearby(pos: Point, via: V, distSq: int)

  /**
   * `_get_grid_coords`: floor division of both coordinates by the cell size, so the cell
   * is the half-open square of side g that contains the point.
   */
  function CellOf(p: Point, g: int): Cell
    requires g > 0
  {
    (p.x / g, p.y / g)
  }

  /** The cell of a point is the half-open square of side g that contains it. */
  lemma {:induction false} CellOfContains(p: Point, g: int)
    requires g > 0
    ensures var c := CellOf(p, g);
            g * c.0 <= p.x < g * c.0 + g && g * c.1 <= p.y < g * c.1 + g
  {
    FloorDivBounds(p.x, g);
    FloorDivBounds(p.y, g);
  }

  /** The entries of `s` that fall in cell `c`, in insertion order. */
  function Bucket<V>(s: seq<Entry<V>>, c: Cell, g: int): seq<Entry<V>>
    requires g > 0
  {
    if s == [] then [] else
      var e := s[|s| - 1];
      Bucket(s[..|s| - 1], c, g) + (if CellOf(e.pos, g) == c then [e] else [])
  }

  /** The answer one entry gives to a query at `q`: itself with its squared distance, or nothing. */
  function Hit<V>(e: Entry<V>, q: Point, rNum: int, rDen: int): seq<Nearby<V>>
  {
    if WithinRadius(e.pos, q, rNum, rDen) then [Nearby(e.pos, e.via, DistSq(e.pos, q))] else []
  }

  /** The brute-force answer: every entry of `s` within the radius, with its squared distance. */
  function NearbyIn<V>(s: seq<Entry<V>>, q: Point, rNum: int, rDen: int): seq<Nearby<V>>
  {
    if s == [] then [] else NearbyIn(s[..|s| - 1], q, rNum, rDen) + Hit(s[|s| - 1], q, rNum, rDen)
  }

  /** The cell of each entry. */
  function CellsOf<V>(s: seq<Entry<V>>, g: int): (cells: seq<Cell>)
    requires g > 0
    ensures |cells| == |s|
    ensures forall i :: 0 <= i < |s| ==> cells[i] == CellOf(s[i].pos, g)
  {
    if s == [] then [] else CellsOf(s[..|s| - 1], g) + [CellOf(s[|s| - 1].pos, g)]
  }

  /** The answer of each entry. */
  function HitsOf<V>(s: seq<Entry<V>>, q: Point, rNum: int, rDen: int): (hits: seq<seq<Nearby<V>>>)
    ensures |hits| == |s|
    ensures forall i :: 0 <= i < |s| ==> hits[i] == Hit(s[i], q, rNum, rDen)
  {
    if s == [] then [] else HitsOf(s[..|s| - 1], q, rNum, rDen) + [Hit(s[|s| - 1], q, rNum, rDen)]
  }

  /**
   * What the query answers means: an answer is a stored entry within the radius, reported
   * with its true squared distance, and every such entry is an answer.
   */
  lemma {:induction false} NearbyInMember<V>(s: seq<Entry<V>>, q: Point, rNum: int, rDen: int, n: Nearby<V>)
    ensures n in NearbyIn(s, q, rNum, rDen) <==>
            Entry(n.pos, n.via) in s && WithinRadius(n.pos, q, rNum, rDen) && n.distSq == DistSq(n.pos, q)
  {
    if s != [] {
      var s' := s[..|s| - 1];
      assert s == s' + [s[|s| - 1]];
      NearbyInMember(s', q, rNum, rDen, n);
    }
  }

  /** A negative radius admits no entry. */
  lemma {:induction false} NearbyInNegative<V>(s: seq<Entry<V>>, q: Point, rNum: int, rDen: int)
    requires rNum < 0
    ensures NearbyIn(s, q, rNum, rDen) == []
  {
    if s != [] {
      NearbyInNegative(s[..|s| - 1], q, rNum, rDen);
    }
  }

  lemma {:induction false} BucketAppend<V>(s: seq<Entry<V>>, e: Entry<V>, c: Cell, g: int)
    requires g > 0
    ensures Bucket(s + [e], c, g) == Bucket(s, c, g) + (if CellOf(e.pos, g) == c then [e] else [])
  {
    assert (s + [e])[..|s|] == s;
  }

  lemma {:induction false} NearbyInAppend<V>(s: seq<Entry<V>>, e: Entry<V>, q: Point, rNum: int, rDen: int)
    ensures NearbyIn(s + [e], q, rNum, rDen) == NearbyIn(s, q, rNum, rDen) + Hit(e, q, rNum, rDen)
  {
    assert (s + [e])[..|s|] == s;
  }

  /** The brute-force answer is every entry's answer, in insertion order. */
  lemma {:induction false} NearbyInConcat<V>(s: seq<Entry<V>>, q: Point, rNum: int, rDen: int)
    ensures NearbyIn(s, q, rNum, rDen) == Concat(HitsOf(s, q, rNum, rDen))
  {
    if s != [] {
      NearbyInConcat(s[..|s| - 1], q, rNum, rDen);
      assert HitsOf(s, q, rNum, rDen)[..|s| - 1] == HitsOf(s[..|s| - 1], q, rNum, rDen);
    }
  }

  /** The answers from one bucket are the contributions of that cell's entries. */
  lemma {:induction false} BucketAnswers<V>(s: seq<Entry<V>>, c: Cell, g: int, q: Point, rNum: int, rDen: int)
    requires g > 0
    ensures NearbyIn(Bucket(s, c, g), q, rNum, rDen) == InCell(CellsOf(s, g), HitsOf(s, q, rNum, rDen), c)
  {
    if s != [] {
      var s' := s[..|s| - 1];
      var e := s[|s| - 1];
      BucketAnswers(s', c, g, q, rNum, rDen);
      assert CellsOf(s, g)[..|s| - 1] == CellsOf(s', g);
      assert HitsOf(s, q, rNum, rDen)[..|s| - 1] == HitsOf(s', q, rNum, rDen);
      if CellOf(e.pos, g) == c {
        NearbyInAppend(Bucket(s', c, g), e, q, rNum, rDen);
      } else {
        assert Bucket(s, c, g) == Bucket(s', c, g);
      }
    }
  }

  /**
   * Every entry within the radius lies within reach = ceil(r / g) cells of the query's cell
   * on both axes.
   */
  lemma {:induction false} HitsWithinReach<V>(s: seq<Entry<V>>, q: Point, rNum: int, rDen: int, g: int)
    requires g > 0 && rDen > 0
    ensures WithinReach(CellsOf(s, g), HitsOf(s, q, rNum, rDen), CellOf(q, g), CeilDiv(rNum, rDen * g))
  {
    var cells, hits := CellsOf(s, g), HitsOf(s, q, rNum, rDen);
    var center, k := CellOf(q, g), CeilDiv(rNum, rDen * g);
    forall i | 0 <= i < |cells| && hits[i] != []
      ensures -k <= cells[i].0 - center.0 <= k && -k <= cells[i].1 - center.1 <= k
    {
      EntryWithinReach(s[i].pos, q, rNum, rDen, g);
    }
  }

  /** A point within the radius lies within ceil(r / g) cells of the query's cell on both axes. */
  lemma {:induction false} EntryWithinReach(p: Point, q: Point, rNum: int, rDen: int, g: int)
    requires g > 0 && rDen > 0 && WithinRadius(p, q, rNum, rDen)
    ensures var k := CeilDiv(rNum, rDen * g);
            -k <= CellOf(p, g).0 - CellOf(q, g).0 <= k && -k <= CellOf(p, g).1 - CellOf(q, g).1 <= k
  {
    AxisWithinDistance(p, q);
    MulMono((p.x - q.x) * (p.x - q.x), DistSq(p, q), rDen * rDen);
    MulMono((p.y - q.y) * (p.y - q.y), DistSq(p, q), rDen * rDen);
    CellOffsetBound(p.x, q.x, rNum, rDen, g);
    CellOffsetBound(p.y, q.y, rNum, rDen, g);
  }

  /**
   * Completeness of the neighbourhood scan: with reach ceil(r / g) around the query's cell,
   * the cells visited hold, counted with multiplicity, exactly the brute-force answer.
   */
  lemma {:induction false} ScanCovers<V>(s: seq<Entry<V>>, q: Point, rNum: int, rDen: int, g: int)
    requires g > 0 && rDen > 0
    ensures var k := CeilDiv(rNum, rDen * g);
            multiset(ScanAnswers(CellsOf(s, g), HitsOf(s, q, rNum, rDen), CellOf(q, g), k, k + 1)) ==
            multiset(NearbyIn(s, q, rNum, rDen))
  {
    var k := CeilDiv(rNum, rDen * g);
    HitsWithinReach(s, q, rNum, rDen, g);
    ScanCollectsAll(CellsOf(s, g), HitsOf(s, q, rNum, rDen), CellOf(q, g), k);
    NearbyInConcat(s, q, rNum, rDen);
    if k < 0 {
      MulStrictMono(k, 0, rDen * g);
      NearbyInNegative(s, q, rNum, rDen);
    }
  }

  /**
   * Any answer that agrees with the brute-force answer up to order consists of stored entries
   * within the radius with their true squared distances, and is empty for a negative radius.
   */
  lemma {:induction false} NearbyAnswers<V>(found: seq<Nearby<V>>, s: seq<Entry<V>>, q: Point, rNum: int, rDen: int)
    requires multiset(found) == multiset(NearbyIn(s, q, rNum, rDen))
    ensures forall n :: n in found ==>
              Entry(n.pos, n.via) in s && WithinRadius(n.pos, q, rNum, rDen) && n.distSq == DistSq(n.pos, q)
    ensures rNum < 0 ==> found == []
  {
    forall n | n in found
      ensures Entry(n.pos, n.via) in s && WithinRadius(n.pos, q, rNum, rDen) && n.distSq == DistSq(n.pos, q)
    {
      assert n in multiset(found);
      NearbyInMember(s, q, rNum, rDen, n);
    }
    if rNum < 0 {
      NearbyInNegative(s, q, rNum, rDen);
      assert |multiset(found)| == 0;
    }
  }

  /**
   * The inner loop of `get_nearby_vias` over one bucket: the squared distance of each entry
   * is compared with the squared radius, and the hits are kept in bucket order.
   */
  method ScanBucket<V>(bucket: seq<Entry<V>>, pos: Point, rNum: int, rDen: int) returns (hits: seq<Nearby<V>>)
    ensures hits == NearbyIn(bucket, pos, rNum, rDen)
  {
    hits := [];
    var i := 0;
    while i < |bucket|
      invariant 0 <= i <= |bucket|
      invariant hits == NearbyIn(bucket[..i], pos, rNum, rDen)
    {
      var e := bucket[i];
      var dxReal := pos.x - e.pos.x;
      var dyReal := pos.y - e.pos.y;
      var distSq := dxReal * dxReal + dyReal * dyReal;
      DistSqSymmetric(pos, e.pos);
      assert distSq == DistSq(e.pos, pos);
      assert bucket[..i + 1][..i] == bucket[..i];
      if rNum >= 0 && distSq * rDen * rDen <= rNum * rNum {
        hits := hits + [Nearby(e.pos, e.via, distSq)];
      }
      i := i + 1;
    }
    assert bucket[..|bucket|] == bucket;
  }

  /**
   * Appending an entry to its cell's bucket (created empty if missing) keeps every bucket
   * equal to the entries of its cell.
   */
  lemma {:induction false} AddKeepsBuckets<V>(grid: map<Cell, seq<Entry<V>>>, s: seq<Entry<V>>, e: Entry<V>, g: int)
    requires g > 0
    requires forall c :: c in grid ==> grid[c] == Bucket(s, c, g)
    requires forall c :: c !in grid ==> Bucket(s, c, g) == []
    ensures var c := CellOf(e.pos, g);
            var grid' := grid[c := (if c in grid then grid[c] else []) + [e]];
            (forall c' :: c' in grid' ==> grid'[c'] == Bucket(s + [e], c', g)) &&
            (forall c' :: c' !in grid' ==> Bucket(s + [e], c', g) == [])
  {
    var c := CellOf(e.pos, g);
    var grid' := grid[c := (if c in grid then grid[c] else []) + [e]];
    forall c' | c' in grid'
      ensures grid'[c'] == Bucket(s + [e], c', g)
    {
      BucketAppend(s, e, c', g);
    }
    forall c' | c' !in grid'
      ensures Bucket(s + [e], c', g) == []
    {
      BucketAppend(s, e, c', g);
    }
  }

  class SpatialIndex<V(==)> {
    /** Edge length of a grid cell, fixed at construction. */
    const gridSize: int
    /** The buckets: `{(grid_x, grid_y): [(pos, via), ...]}`. */
    var grid: map<Cell, seq<Entry<V>>>
    /** Every entry ever added, in insertion order. */
    ghost var Contents: seq<Entry<V>>

    /** Each bucket holds exactly the entries of its cell, and a cell without a bucket holds none. */
    ghost predicate Valid()
      reads this
    {
      gridSize > 0 &&
      (forall c :: c in grid ==> grid[c] == Bucket(Contents, c, gridSize)) &&
      (forall c :: c !in grid ==> Bucket(Contents, c, gridSize) == [])
    }

    constructor (gridSize: int)
      requires gridSize > 0
      ensures Valid() && this.gridSize == gridSize
      ensures grid == map[] && Contents == []
    {
      this.gridSize := gridSize;
      grid := map[];
      Contents := [];
    }

    /**
     * `add_via`: append the entry to the end of its cell's bucket (creating the bucket if
     * needed); every other bucket is unchanged and the index holds one more entry.
     */
    method AddVia(pos: Point, via: V)
      requires Valid()
      modifies this
      ensures Valid()
      ensures Contents == old(Contents) + [Entry(pos, via)]
      ensures var c := CellOf(pos, gridSize);
              grid == old(grid)[c := (if c in old(grid) then old(grid)[c] else []) + [Entry(pos, via)]]
    {
      var c := CellOf(pos, gridSize);
      var e := Entry(pos, via);
      var bucket := if c in grid then grid[c] else [];
      grid := grid[c := bucket + [e]];
      AddKeepsBuckets(old(grid), Contents, e, gridSize);
      Contents := Contents + [e];
    }

    /** One cell of the scan: the hits of its bucket, or none when the cell has no bucket. */
    method ScanCell(cell: Cell, pos: Point, rNum: int, rDen: int) returns (hits: seq<Nearby<V>>)
      requires Valid()
      ensures hits == NearbyIn(Bucket(Contents, cell, gridSize), pos, rNum, rDen)
      ensures hits == InCell(CellsOf(Contents, gridSize), HitsOf(Contents, pos, rNum, rDen), cell)
    {
      if cell in grid {
        hits := ScanBucket(grid[cell], pos, rNum, rDen);
      } else {
        hits := [];
      }
      BucketAnswers(Contents, cell, gridSize, pos, rNum, rDen);
    }

    /**
     * `get_nearby_vias`: scan the (2 * reach + 1)^2 cells around the query's cell, where
     * reach = ceil(radius / gridSize), and keep the entries within the radius. The answer
     * holds, counted with multiplicity, exactly the brute-force answer over all entries,
     * whatever the cell size; the index is only read.
     */
    method NearbyVias(pos: Point, rNum: int, rDen: int) returns (found: seq<Nearby<V>>)
      requires Valid() && rDen > 0
      ensures multiset(found) == multiset(NearbyIn(Contents, pos, rNum, rDen))
      ensures forall n :: n in found ==>
                Entry(n.pos, n.via) in Contents && WithinRadius(n.pos, pos, rNum, rDen) &&
                n.distSq == DistSq(n.pos, pos)
      ensures rNum < 0 ==> found == []
    {
      var center := CellOf(pos, gridSize);
      var reach := CeilDiv(rNum, rDen * gridSize);
      found := ScanNeighbourhood(pos, rNum, rDen, center, reach);
      ScanCovers(Contents, pos, rNum, rDen, gridSize);
      NearbyAnswers(found, Contents, pos, rNum, rDen);
    }

    /**
     * The two loops of `get_nearby_vias` over the cells at offsets (dx, dy) in
     * [-reach, reach] x [-reach, reach] from `center`, dx-major, dy ascending.
     */
    method ScanNeighbourhood(pos: Point, rNum: int, rDen: int, center: Cell, reach: int)
      returns (found: seq<Nearby<V>>)
      requires Valid()
      ensures found == ScanAnswers(CellsOf(Contents, gridSize), HitsOf(Contents, pos, rNum, rDen), center, reach, reach + 1)
    {
      ghost var cells, hits := CellsOf(Contents, gridSize), HitsOf(Contents, pos, rNum, rDen);
      found := [];
      var dx := -reach;
      while dx <= reach
        invariant -reach <= dx && (reach >= 0 ==> dx <= reach + 1) && (reach < 0 ==> dx == -reach)
        invariant found == ScanAnswers(cells, hits, center, reach, dx)
      {
        var column := ScanColumn(pos, rNum, rDen, center, dx, reach);
        found := found + column;
        dx := dx + 1;
      }
    }

    /** The inner loop of `get_nearby_vias`: the cells (dx, -reach), ..., (dx, reach) in turn. */
    method ScanColumn(pos: Point, rNum: int, rDen: int, center: Cell, dx: int, reach: int)
      returns (found: seq<Nearby<V>>)
      requires Valid()
      ensures found == ColumnAnswers(CellsOf(Contents, gridSize), HitsOf(Contents, pos, rNum, rDen), center, dx, -reach, reach + 1)
    {
      ghost var cells, hits := CellsOf(Contents, gridSize), HitsOf(Contents, pos, rNum, rDen);
      found := [];
      var dy := -reach;
      while dy <= reach
        invariant dy == -reach || -reach <= dy <= reach + 1
        invariant found == ColumnAnswers(cells, hits, center, dx, -reach, dy)
      {
        var cellHits := ScanCell(Offset(center, dx, dy), pos, rNum, rDen);
        assert ColumnAnswers(cells, hits, center, dx, -reach, dy + 1) ==
               ColumnAnswers(cells, hits, center, dx, -reach, dy) + InCell(cells, hits, Offset(center, dx, dy));
        found := found + cellHits;
        dy := dy + 1;
      }
    }
  }
}
