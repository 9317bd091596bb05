/** Integer geometry shared by the pixel stores, the cells and the partitioner:
    the row-major order in which every nested `for (y …) for (x …)` loop of the
    source visits a rectangle, and the division facts the grid arithmetic needs. */
module Geometry {

  datatype Point = Point(x: int, y: int)

  /** `n` when it is positive, else 0: the number of steps of `for (i = a; i < b; i++)` is `Max0(b - a)`. */
  function Max0(n: int): (r: nat)
    ensures r >= n && (n >= 0 ==> r == n)
  {
    if n < 0 then 0 else n
  }

  /** A rectangle by its top-left corner and extents, as a cell stores it. */
  datatype Rect = Rect(x: int, y: int, width: int, height: int)

  /** p lies in the half-open rectangle [xStart, xEnd) × [yStart, yEnd). */
  predicate InRect(p: Point, xStart: int, xEnd: int, yStart: int, yEnd: int) {
    xStart <= p.x < xEnd && yStart <= p.y < yEnd
  }

  /** p comes strictly before q in row-major order (y first, then x). */
  predicate Precedes(p: Point, q: Point) {
    p.y < q.y || (p.y == q.y && p.x < q.x)
  }

  /** The points visited by `for (x = x0; x < xEnd; x++)` on row y, in order. */
  function Row(x0: int, xEnd: int, y: int): seq<Point>
    decreases xEnd - x0
  {
    if x0 >= xEnd then [] else [Point(x0, y)] + Row(x0 + 1, xEnd, y)
  }

  /** The points visited by `for (y = y0; y < yEnd; y++) for (x = xStart; x < xEnd; x++)`,
      in the order the loops visit them. */
  function Rows(xStart: int, xEnd: int, y0: int, yEnd: int): seq<Point>
    decreases yEnd - y0
  {
    if y0 >= yEnd then [] else Row(xStart, xEnd, y0) + Rows(xStart, xEnd, y0 + 1, yEnd)
  }

  /** The pixels of a rectangle in the order every nested loop over it visits them. */
  function Pixels(r: Rect): seq<Point> {
    Rows(r.x, r.x + r.width, r.y, r.y + r.height)
  }

  lemma {:induction false} RowShape(x0: int, xEnd: int, y: int)
    ensures |Row(x0, xEnd, y)| == Max0(xEnd - x0)
    ensures forall i :: 0 <= i < |Row(x0, xEnd, y)| ==> Row(x0, xEnd, y)[i] == Point(x0 + i, y)
    decreases xEnd - x0
  {
    if x0 < xEnd {
      RowShape(x0 + 1, xEnd, y);
    }
  }

  /** A rectangle of (xEnd - xStart) × (yEnd - y0) points yields that many points; an empty
      or inverted extent yields none. */
  lemma {:induction false} RowsLength(xStart: int, xEnd: int, y0: int, yEnd: int)
    ensures |Rows(xStart, xEnd, y0, yEnd)| == Max0(xEnd - xStart) * Max0(yEnd - y0)
    decreases yEnd - y0
  {
    if y0 < yEnd {
      RowShape(xStart, xEnd, y0);
      RowsLength(xStart, xEnd, y0 + 1, yEnd);
      assert Max0(yEnd - y0) == Max0(yEnd - (y0 + 1)) + 1;
      assert Max0(xEnd - xStart) * Max0(yEnd - y0)
          == Max0(xEnd - xStart) * Max0(yEnd - (y0 + 1)) + Max0(xEnd - xStart);
    }
  }

  /** Exactly the points of the rectangle are visited. */
  lemma {:induction false} RowsMembership(xStart: int, xEnd: int, y0: int, yEnd: int, p: Point)
    ensures p in Rows(xStart, xEnd, y0, yEnd) <==> InRect(p, xStart, xEnd, y0, yEnd)
    decreases yEnd - y0
  {
    if y0 < yEnd {
      RowShape(xStart, xEnd, y0);
      RowsMembership(xStart, xEnd, y0 + 1, yEnd, p);
      if p.y == y0 && xStart <= p.x < xEnd {
        assert Row(xStart, xEnd, y0)[p.x - xStart] == p;
      }
    }
  }

  /** Row-major indexing: point (x, y) is entry (y - yStart) * (xEnd - xStart) + (x - xStart),
      the value of the source's running `index` when the loops reach (x, y). */
  lemma {:induction false} RowsIndex(xStart: int, xEnd: int, yStart: int, yEnd: int, x: int, y: int)
    requires xStart <= x < xEnd && yStart <= y < yEnd
    ensures 0 <= (y - yStart) * (xEnd - xStart) + (x - xStart) < |Rows(xStart, xEnd, yStart, yEnd)|
    ensures Rows(xStart, xEnd, yStart, yEnd)[(y - yStart) * (xEnd - xStart) + (x - xStart)] == Point(x, y)
    decreases y - yStart
  {
    var w := xEnd - xStart;
    var row, rest := Row(xStart, xEnd, yStart), Rows(xStart, xEnd, yStart + 1, yEnd);
    assert Rows(xStart, xEnd, yStart, yEnd) == row + rest;
    RowShape(xStart, xEnd, yStart);
    var k := (y - yStart) * w + (x - xStart);
    if y == yStart {
      assert k == x - xStart by {
        assert (y - yStart) * w == 0;
      }
      assert (row + rest)[k] == row[k];
    } else {
      var k2 := (y - (yStart + 1)) * w + (x - xStart);
      RowsIndex(xStart, xEnd, yStart + 1, yEnd, x, y);
      assert k == k2 + |row| by {
        assert (y - yStart) * w == (y - (yStart + 1)) * w + w;
      }
      assert (row + rest)[k] == rest[k2];
    }
  }

  /** The position at which the loops visit a point of the rectangle. */
  lemma RowsPosition(xStart: int, xEnd: int, yStart: int, yEnd: int, p: Point) returns (i: int)
    requires InRect(p, xStart, xEnd, yStart, yEnd)
    ensures 0 <= i < |Rows(xStart, xEnd, yStart, yEnd)| && Rows(xStart, xEnd, yStart, yEnd)[i] == p
  {
    RowsIndex(xStart, xEnd, yStart, yEnd, p.x, p.y);
    i := (p.y - yStart) * (xEnd - xStart) + (p.x - xStart);
  }

  /** A rectangle of positive extents holds at least its first corner. */
  lemma RowsNonEmpty(xStart: int, xEnd: int, yStart: int, yEnd: int)
    requires xStart < xEnd && yStart < yEnd
    ensures |Rows(xStart, xEnd, yStart, yEnd)| > 0 && Rows(xStart, xEnd, yStart, yEnd)[0] == Point(xStart, yStart)
  {
  }

  /** A rectangle holds no more points than the product of its (signed) extents whenever that
      product is non-negative. */
  lemma RowsFit(xStart: int, xEnd: int, yStart: int, yEnd: int)
    requires (xEnd - xStart) * (yEnd - yStart) >= 0
    ensures |Rows(xStart, xEnd, yStart, yEnd)| <= (xEnd - xStart) * (yEnd - yStart)
    ensures xStart < xEnd && yStart < yEnd ==>
              |Rows(xStart, xEnd, yStart, yEnd)| == (xEnd - xStart) * (yEnd - yStart)
  {
    RowsLength(xStart, xEnd, yStart, yEnd);
    if xEnd < xStart {
      assert Max0(xEnd - xStart) == 0;
    } else if yEnd < yStart {
      assert Max0(yEnd - yStart) == 0;
    }
  }

  /** One step of a loop walking the suffix `all[index..]` that starts with the rest of row y. */
  lemma RowStep(all: seq<Point>, index: int, x: int, xEnd: int, y: int, tail: seq<Point>)
    requires 0 <= index <= |all| && x < xEnd
    requires all[index..] == Row(x, xEnd, y) + tail
    ensures index < |all| && all[index] == Point(x, y)
    ensures all[index + 1..] == Row(x + 1, xEnd, y) + tail
  {
    assert all[index..] == [Point(x, y)] + (Row(x + 1, xEnd, y) + tail);
    assert all[index + 1..] == all[index..][1..];
  }

  /** The visit order is strictly row-major, so no point is visited twice. */
  lemma {:induction false} RowsOrdered(xStart: int, xEnd: int, y0: int, yEnd: int)
    ensures forall i, j :: 0 <= i < j < |Rows(xStart, xEnd, y0, yEnd)| ==>
              Precedes(Rows(xStart, xEnd, y0, yEnd)[i], Rows(xStart, xEnd, y0, yEnd)[j])
    decreases yEnd - y0
  {
    if y0 < yEnd {
      var row, rest := Row(xStart, xEnd, y0), Rows(xStart, xEnd, y0 + 1, yEnd);
      RowShape(xStart, xEnd, y0);
      RowsOrdered(xStart, xEnd, y0 + 1, yEnd);
      forall i, j | 0 <= i < j < |row + rest|
        ensures Precedes((row + rest)[i], (row + rest)[j])
      {
        if j >= |row| && i < |row| {
          RowsMembership(xStart, xEnd, y0 + 1, yEnd, rest[j - |row|]);
        }
      }
    }
  }

  /** One more multiple of k. */
  lemma MulSucc(n: int, k: int)
    ensures (n + 1) * k == n * k + k
  {
  }

  /** A positive multiple of d is at least d. */
  lemma {:induction false} MulAtLeast(k: int, d: int)
    requires k >= 1 && d >= 0
    ensures k * d >= d
    decreases k
  {
    if k > 1 {
      MulAtLeast(k - 1, d);
      assert k * d == (k - 1) * d + d;
    }
  }

  /** Quotient and remainder are unique: the facts behind every `/` and `%` of the grid. */
  lemma DivModUnique(a: int, d: int, q: int, r: int)
    requires d > 0 && 0 <= r < d && a == q * d + r
    ensures a / d == q && a % d == r
  {
    var q0, r0 := a / d, a % d;
    var k := q - q0;
    assert k * d == r0 - r by {
      assert q0 * d + r0 == a;
      assert q * d - q0 * d == k * d;
    }
    if k > 0 {
      MulAtLeast(k, d);
      assert false;
    } else if k < 0 {
      MulAtLeast(-k, d);
      assert false;
    }
  }

  /** Whatever is at least q multiples of d has a quotient of at least q. */
  lemma DivAtLeast(a: int, d: int, q: int)
    requires d > 0 && a >= q * d
    ensures a / d >= q
  {
    var q0 := a / d;
    assert a == q0 * d + a % d;
    assert (q - q0) * d == q * d - q0 * d;
    if q0 < q {
      MulAtLeast(q - q0, d);
      assert false;
    }
  }

  /** Whatever is below q multiples of d has a quotient below q. */
  lemma DivBelow(a: int, d: int, q: int)
    requires d > 0 && a < q * d
    ensures a / d < q
  {
    var q0 := a / d;
    assert a == q0 * d + a % d;
    assert (q0 - q) * d == q0 * d - q * d;
    if q0 >= q {
      if q0 > q {
        MulAtLeast(q0 - q, d);
      }
      assert false;
    }
  }
}
