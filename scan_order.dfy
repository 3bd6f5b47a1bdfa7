/**
 * The order in which the neighbourhood query of the spatial index visits grid cells, stated
 * over abstract data: entry i of the index lies in cell `cells[i]` and contributes `hits[i]`
 * (its answer, or nothing) to the query. The query visits the square of cells at offsets
 * (dx, dy) in [-k, k] x [-k, k] from a center cell, dx-major, dy ascending, and concatenates
 * what each visited cell contributes.
 */
module ScanOrder {

  /** Grid cell coordinates. */
  type Cell = (int, int)

  /** The cell at offset (dx, dy) from `center`. */
  function Offset(center: Cell, dx: int, dy: int): Cell
  {
    (center.0 + dx, center.1 + dy)
  }

  /**
   * Cell `c` is one of those the scan visits before reaching offset (dx, dy) from `center`.
   */
  predicate Scanned(c: Cell, center: Cell, k: int, dx: int, dy: int)
  {
    var ox := c.0 - center.0;
    var oy := c.1 - center.1;
    -k <= ox <= k && -k <= oy <= k && (ox < dx || (ox == dx && oy < dy))
  }

  /** Every contribution, in entry order. */
  function Concat<T>(hits: seq<seq<T>>): seq<T>
  {
    if hits == [] then [] else Concat(hits[..|hits| - 1]) + hits[|hits| - 1]
  }

  /** The contributions of the entries in cell `c`, in entry order. */
  function InCell<T>(cells: seq<Cell>, hits: seq<seq<T>>, c: Cell): seq<T>
    requires |cells| == |hits|
  {
    if cells == [] then [] else
      InCell(cells[..|cells| - 1], hits[..|hits| - 1], c) +
      (if cells[|cells| - 1] == c then hits[|hits| - 1] else [])
  }

  /** The contributions of the entries in cells visited before offset (dx, dy), in entry order. */
  function InScanned<T>(cells: seq<Cell>, hits: seq<seq<T>>, center: Cell, k: int, dx: int, dy: int): seq<T>
    requires |cells| == |hits|
  {
    if cells == [] then [] else
      InScanned(cells[..|cells| - 1], hits[..|hits| - 1], center, k, dx, dy) +
      (if Scanned(cells[|cells| - 1], center, k, dx, dy) then hits[|hits| - 1] else [])
  }

  /** What the scan collects from cells (dx, lo), ..., (dx, dy - 1), in visiting order. */
  function ColumnAnswers<T>(cells: seq<Cell>, hits: seq<seq<T>>, center: Cell, dx: int, lo: int, dy: int): seq<T>
    requires |cells| == |hits|
    decreases dy - lo
  {
    if dy <= lo then [] else
      ColumnAnswers(cells, hits, center, dx, lo, dy - 1) + InCell(cells, hits, Offset(center, dx, dy - 1))
  }

  /** What the scan of reach k collects from the full columns -k, ..., dx - 1, in visiting order. */
  function ScanAnswers<T>(cells: seq<Cell>, hits: seq<seq<T>>, center: Cell, k: int, dx: int): seq<T>
    requires |cells| == |hits|
    decreases dx + k
  {
    if dx <= -k then [] else
      ScanAnswers(cells, hits, center, k, dx - 1) + ColumnAnswers(cells, hits, center, dx - 1, -k, k + 1)
  }

  /** The number of occurrences of `x` in `s`. */
  ghost function Count<T>(s: seq<T>, x: T): nat
  {
    if s == [] then 0 else Count(s[..|s| - 1], x) + (if s[|s| - 1] == x then 1 else 0)
  }

  /** Occurrences in a concatenation add up. */
  lemma {:induction false} CountAppend<T>(a: seq<T>, b: seq<T>, x: T)
    ensures Count(a + b, x) == Count(a, x) + Count(b, x)
  {
    if b == [] {
      assert a + b == a;
    } else {
      CountAppend(a, b[..|b| - 1], x);
      assert (a + b)[..|a + b| - 1] == a + b[..|b| - 1];
      assert (a + b)[|a + b| - 1] == b[|b| - 1];
    }
  }

  /** `Count` is the multiplicity of the multiset of the sequence. */
  lemma {:induction false} CountMultiplicity<T>(s: seq<T>, x: T)
    ensures Count(s, x) == multiset(s)[x]
  {
    if s != [] {
      CountMultiplicity(s[..|s| - 1], x);
      assert s == s[..|s| - 1] + [s[|s| - 1]];
    }
  }

  /** Sequences with the same occurrence counts are permutations of each other. */
  lemma {:induction false} SameCounts<T>(a: seq<T>, b: seq<T>)
    requires forall x :: Count(a, x) == Count(b, x)
    ensures multiset(a) == multiset(b)
  {
    forall x
      ensures multiset(a)[x] == multiset(b)[x]
    {
      CountMultiplicity(a, x);
      CountMultiplicity(b, x);
    }
  }

  /** Before the first cell nothing has been visited. */
  lemma {:induction false} ScanStart<T>(cells: seq<Cell>, hits: seq<seq<T>>, center: Cell, k: int)
    requires |cells| == |hits|
    ensures InScanned(cells, hits, center, k, -k, -k) == []
  {
    if cells != [] {
      ScanStart(cells[..|cells| - 1], hits[..|hits| - 1], center, k);
    }
  }

  /** Visiting cell (dx, dy) adds exactly the occurrences that cell contributes. */
  lemma {:induction false} ScanStep<T>(cells: seq<Cell>, hits: seq<seq<T>>, center: Cell,
                                           k: int, dx: int, dy: int, dyNext: int, x: T)
    requires |cells| == |hits|
    requires -k <= dx <= k && -k <= dy <= k && dyNext == dy + 1
    ensures Count(InScanned(cells, hits, center, k, dx, dyNext), x) ==
            Count(InScanned(cells, hits, center, k, dx, dy), x) +
            Count(InCell(cells, hits, Offset(center, dx, dy)), x)
  {
    if cells != [] {
      var cells', hits' := cells[..|cells| - 1], hits[..|hits| - 1];
      ScanStep(cells', hits', center, k, dx, dy, dyNext, x);
      var c, h := cells[|cells| - 1], hits[|hits| - 1];
      var o := Offset(center, dx, dy);
      assert Scanned(c, center, k, dx, dyNext) <==> Scanned(c, center, k, dx, dy) || c == o;
      assert !(Scanned(c, center, k, dx, dy) && c == o);
      CountAppend(InScanned(cells', hits', center, k, dx, dyNext),
                  if Scanned(c, center, k, dx, dyNext) then h else [], x);
      CountAppend(InScanned(cells', hits', center, k, dx, dy),
                  if Scanned(c, center, k, dx, dy) then h else [], x);
      CountAppend(InCell(cells', hits', o), if c == o then h else [], x);
    }
  }

  /** Finishing column dx is the same as starting column dx + 1. */
  lemma {:induction false} ScanNextColumn<T>(cells: seq<Cell>, hits: seq<seq<T>>, center: Cell,
                                             k: int, dx: int, dxNext: int)
    requires |cells| == |hits| && dxNext == dx + 1
    ensures InScanned(cells, hits, center, k, dx, k + 1) == InScanned(cells, hits, center, k, dxNext, -k)
  {
    if cells != [] {
      ScanNextColumn(cells[..|cells| - 1], hits[..|hits| - 1], center, k, dx, dxNext);
    }
  }

  /** The part of column dx visited so far collects the occurrences its cells contribute. */
  lemma {:induction false} ColumnMatches<T>(cells: seq<Cell>, hits: seq<seq<T>>, center: Cell,
                                                k: int, dx: int, dy: int, x: T)
    requires |cells| == |hits|
    requires -k <= dx <= k && -k <= dy <= k + 1
    decreases dy + k
    ensures Count(InScanned(cells, hits, center, k, dx, -k), x) +
            Count(ColumnAnswers(cells, hits, center, dx, -k, dy), x) ==
            Count(InScanned(cells, hits, center, k, dx, dy), x)
  {
    if dy > -k {
      ColumnMatches(cells, hits, center, k, dx, dy - 1, x);
      ScanStep(cells, hits, center, k, dx, dy - 1, dy, x);
      CountAppend(ColumnAnswers(cells, hits, center, dx, -k, dy - 1),
                  InCell(cells, hits, Offset(center, dx, dy - 1)), x);
    }
  }

  /** The full columns visited so far collect the occurrences their cells contribute. */
  lemma {:induction false} ScanMatches<T>(cells: seq<Cell>, hits: seq<seq<T>>, center: Cell,
                                              k: int, dx: int, x: T)
    requires |cells| == |hits|
    requires -k <= dx <= k + 1
    decreases dx + k
    ensures Count(ScanAnswers(cells, hits, center, k, dx), x) ==
            Count(InScanned(cells, hits, center, k, dx, -k), x)
  {
    if dx == -k {
      ScanStart(cells, hits, center, k);
    } else {
      var prev := dx - 1;
      var done, column := ScanAnswers(cells, hits, center, k, prev), ColumnAnswers(cells, hits, center, prev, -k, k + 1);
      assert ScanAnswers(cells, hits, center, k, dx) == done + column;
      ScanMatches(cells, hits, center, k, prev, x);
      ColumnMatches(cells, hits, center, k, prev, k + 1, x);
      ScanNextColumn(cells, hits, center, k, prev, dx);
      CountAppend(done, column, x);
    }
  }

  /** Every entry that contributes lies within k cells of `center` on both axes. */
  ghost predicate WithinReach<T>(cells: seq<Cell>, hits: seq<seq<T>>, center: Cell, k: int)
    requires |cells| == |hits|
  {
    forall i :: 0 <= i < |cells| && hits[i] != [] ==>
      -k <= cells[i].0 - center.0 <= k && -k <= cells[i].1 - center.1 <= k
  }

  /** When every contributing entry is within reach, visiting the whole square misses nothing. */
  lemma {:induction false} ScanComplete<T>(cells: seq<Cell>, hits: seq<seq<T>>, center: Cell, k: int)
    requires |cells| == |hits| && WithinReach(cells, hits, center, k)
    ensures InScanned(cells, hits, center, k, k + 1, -k) == Concat(hits)
  {
    if cells != [] {
      var n := |cells| - 1;
      assert WithinReach(cells[..n], hits[..n], center, k) by {
        forall i | 0 <= i < n && hits[..n][i] != []
          ensures -k <= cells[..n][i].0 - center.0 <= k && -k <= cells[..n][i].1 - center.1 <= k
        {
          assert hits[..n][i] == hits[i] && cells[..n][i] == cells[i];
        }
      }
      ScanComplete(cells[..n], hits[..n], center, k);
      if hits[n] != [] {
        assert Scanned(cells[n], center, k, k + 1, -k);
      }
    }
  }

  /**
   * The whole scan of reach k collects, up to order, every contribution, provided each
   * contributing entry is within reach; a negative reach visits nothing.
   */
  lemma {:induction false} ScanCollectsAll<T>(cells: seq<Cell>, hits: seq<seq<T>>, center: Cell, k: int)
    requires |cells| == |hits|
    ensures k >= 0 && WithinReach(cells, hits, center, k) ==>
              multiset(ScanAnswers(cells, hits, center, k, k + 1)) == multiset(Concat(hits))
    ensures k < 0 ==> ScanAnswers(cells, hits, center, k, k + 1) == []
  {
    if k >= 0 && WithinReach(cells, hits, center, k) {
      ScanComplete(cells, hits, center, k);
      forall x
        ensures Count(ScanAnswers(cells, hits, center, k, k + 1), x) == Count(Concat(hits), x)
      {
        ScanMatches(cells, hits, center, k, k + 1, x);
      }
      SameCounts(ScanAnswers(cells, hits, center, k, k + 1), Concat(hits));
    }
  }
}
