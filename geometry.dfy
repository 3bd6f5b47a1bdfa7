/**
 * Board geometry in internal units (nanometres): points, normalised bounding boxes,
 * exact squared distances, and the integer division forms the plugin relies on.
 */
module Geometry {

  /** A board position (pcbnew VECTOR2I). */
  datatype Point = Point(x: int, y: int)

  /**
   * A normalised bounding box (pcbnew BOX2I): origin and non-negative size.
   * GetLeft/GetX is `x`, GetRight is `x + width`, GetTop/GetY is `y`, GetBottom is `y + height`.
   */
  datatype Box = Box(x: int, y: int, width: nat, height: nat) {
    function Left(): int { x }
    function Top(): int { y }
    function Right(): int { x + width }
    function Bottom(): int { y + height }
  }

  function Abs(a: int): nat { if a < 0 then -a else a }

  /** Squared Euclidean distance; exact, so no square root is needed to compare distances. */
  function DistSq(p: Point, q: Point): int
  {
    (p.x - q.x) * (p.x - q.x) + (p.y - q.y) * (p.y - q.y)
  }

  /** The squared distance does not depend on the direction of measurement. */
  lemma {:induction false} DistSqSymmetric(p: Point, q: Point)
    ensures DistSq(p, q) == DistSq(q, p)
  {
    NegSquare(p.x - q.x);
    NegSquare(p.y - q.y);
  }

  lemma {:induction false} NegSquare(a: int)
    ensures (-a) * (-a) == a * a
  {
  }

  /**
   * `sqrt(DistSq(p, q)) <= rNum / rDen` for a radius given as the exact rational rNum / rDen
   * (rDen > 0): a negative radius admits nothing, otherwise compare squares.
   */
  predicate WithinRadius(p: Point, q: Point, rNum: int, rDen: int)
  {
    rNum >= 0 && DistSq(p, q) * rDen * rDen <= rNum * rNum
  }

  /**
   * `is_point_in_zone_fast`: the point lies in the zone's bounding box shrunk by `clearance`
   * on every side (both bounds inclusive).
   */
  predicate InsetContains(box: Box, p: Point, clearance: int)
  {
    box.Left() + clearance <= p.x <= box.Right() - clearance &&
    box.Top() + clearance <= p.y <= box.Bottom() - clearance
  }

  /** Python's `int(a / b)` on the exact quotient: truncation toward zero. */
  function TruncDiv(a: int, b: int): int
    requires b != 0
  {
    if (a < 0) == (b < 0) then Abs(a) / Abs(b) else -(Abs(a) / Abs(b))
  }

  /** `math.ceil(a / b)` on the exact quotient, for a positive divisor. */
  function CeilDiv(a: int, b: int): (r: int)
    requires b > 0
    ensures a <= r * b && (r - 1) * b < a
  {
    FloorDivBounds(-a, b);
    -((-a) / b)
  }

  /** Floor division `a / b` (Python's `//` for b > 0) brackets the exact quotient. */
  lemma {:induction false} FloorDivBounds(a: int, b: int)
    requires b > 0
    ensures b * (a / b) <= a < b * (a / b) + b
  {
  }

  lemma {:induction false} MulStrictMono(x: int, y: int, b: int)
    requires b > 0 && x < y
    ensures x * b < y * b
  {
    assert (y - x) * b > 0;
  }

  lemma {:induction false} MulMono(x: int, y: int, b: int)
    requires b >= 0 && x <= y
    ensures x * b <= y * b
  {
    assert (y - x) * b >= 0;
  }

  /** The floor quotient is the unique q with `q * b <= a < q * b + b`. */
  lemma {:induction false} FloorDivUnique(a: int, b: int, q: int)
    requires b > 0 && q * b <= a < q * b + b
    ensures a / b == q
  {
    FloorDivBounds(a, b);
    if a / b > q {
      MulMono(q + 1, a / b, b);
    }
    if a / b < q {
      MulMono(a / b + 1, q, b);
    }
  }

  /** For b > 0: `lo * b <= a <= hi * b` bounds the floor quotient by lo and hi. */
  lemma {:induction false} FloorDivBetween(a: int, b: int, lo: int, hi: int)
    requires b > 0 && lo * b <= a <= hi * b
    ensures lo <= a / b <= hi
  {
    var q := a / b;
    FloorDivBounds(a, b);
    if q > hi {
      MulMono(hi + 1, q, b);
    }
    if q < lo {
      MulMono(q + 1, lo, b);
    }
  }

  /** For b > 0: `lo * b <= a <= hi * b` bounds the truncated quotient by lo and hi. */
  lemma {:induction false} TruncDivBetween(a: int, b: int, lo: int, hi: int)
    requires b > 0 && lo * b <= a <= hi * b
    ensures lo <= TruncDiv(a, b) <= hi
  {
    if a >= 0 {
      FloorDivBetween(a, b, lo, hi);
    } else {
      FloorDivBetween(-a, b, -hi, -lo);
    }
  }

  /** Truncating an exact multiple gives back the factor. */
  lemma {:induction false} TruncDivExact(q: int, b: int)
    requires b > 0
    ensures TruncDiv(q * b, b) == q
  {
    TruncDivBetween(q * b, b, q, q);
  }

  /** A multiple of a non-zero `t` leaves no remainder. */
  lemma {:induction false} MultipleMod(q: int, t: int)
    requires t != 0
    ensures (q * t) % t == 0
  {
    var m := q * t;
    var r := m % t;
    var d := m / t;
    assert m == t * d + r && 0 <= r < Abs(t);
    assert t * (q - d) == r;
    if q - d > 0 {
      MulMono(1, q - d, Abs(t));
    } else if q - d < 0 {
      MulMono(1, d - q, Abs(t));
    }
  }

  lemma {:induction false} SquareStrictMono(a: int, e: int)
    requires 0 <= a < e
    ensures a * a < e * e
  {
    MulMono(a, e, a);
    MulStrictMono(a, e, e);
  }

  /** An offset whose square is within the squared radius is itself within the radius. */
  lemma {:induction false} OffsetWithinRadius(delta: int, rNum: int, rDen: int)
    requires rDen > 0 && rNum >= 0
    requires delta * delta * rDen * rDen <= rNum * rNum
    ensures Abs(delta) * rDen <= rNum
  {
    var e := Abs(delta) * rDen;
    assert e * e == delta * delta * rDen * rDen;
    if e > rNum {
      SquareStrictMono(rNum, e);
    }
  }

  /** An offset within the radius is within `reach` whole cells of size g. */
  lemma {:induction false} OffsetWithinReach(d: nat, rNum: int, rDen: int, g: int)
    requires rDen > 0 && g > 0 && d * rDen <= rNum
    ensures d <= CeilDiv(rNum, rDen * g) * g
  {
    var k := CeilDiv(rNum, rDen * g);
    assert rNum <= k * (rDen * g);
    if d > k * g {
      MulStrictMono(k * g, d, rDen);
    }
  }

  /** Points at most k * g apart along an axis lie in cells at most k apart. */
  lemma {:induction false} CellsWithinReach(a: int, b: int, k: int, g: int)
    requires g > 0 && Abs(a - b) <= k * g
    ensures -k <= a / g - b / g <= k
  {
    FloorDivBounds(a, g);
    FloorDivBounds(b, g);
    var qa, qb := a / g, b / g;
    if qa - qb > k {
      MulMono(k + 1, qa - qb, g);
    }
    if qb - qa > k {
      MulMono(k + 1, qb - qa, g);
    }
  }

  /**
   * An axis offset within the radius rNum / rDen moves the cell index, for cells of size g,
   * by at most ceil(rNum / (rDen * g)): the reach of the neighbourhood scan.
   */
  lemma {:induction false} CellOffsetBound(a: int, b: int, rNum: int, rDen: int, g: int)
    requires rDen > 0 && g > 0 && rNum >= 0
    requires (a - b) * (a - b) * rDen * rDen <= rNum * rNum
    ensures -CeilDiv(rNum, rDen * g) <= a / g - b / g <= CeilDiv(rNum, rDen * g)
  {
    OffsetWithinRadius(a - b, rNum, rDen);
    OffsetWithinReach(Abs(a - b), rNum, rDen, g);
    CellsWithinReach(a, b, CeilDiv(rNum, rDen * g), g);
  }

  /** Each axis offset is bounded by the whole distance. */
  lemma {:induction false} AxisWithinDistance(p: Point, q: Point)
    ensures (p.x - q.x) * (p.x - q.x) <= DistSq(p, q)
    ensures (p.y - q.y) * (p.y - q.y) <= DistSq(p, q)
  {
    MulMono(0, Abs(p.x - q.x), Abs(p.x - q.x));
    MulMono(0, Abs(p.y - q.y), Abs(p.y - q.y));
  }
}
