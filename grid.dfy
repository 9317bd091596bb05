/** The grid both partitioners walk: `for (y = 0; y < height; y += cellHeight)
    for (x = 0; x < width; x += cellWidth)`, one candidate cell per step, clamped at the
    right and bottom edges. This module describes the candidates alone, before any pixel
    is read. */
module Grid {
  import opened Geometry

  /** `Math.min(a, b)`. */
  function Min(a: int, b: int): (r: int)
    ensures r <= a && r <= b && (r == a || r == b)
  {
    if a <= b then a else b
  }

  /** The candidate at origin (x, y): `new Cell(x, y, Math.min(cellWidth, width - x),
      Math.min(cellHeight, height - y))`. An origin inside the image gives a non-empty cell
      no larger than the nominal size that ends at or before the image edge. */
  function Candidate(x: int, y: int, width: int, height: int, cellWidth: int, cellHeight: int): (r: Rect)
    ensures r.x == x && r.y == y
    ensures x < width && cellWidth >= 1 ==> 1 <= r.width <= cellWidth && x + r.width <= width
    ensures y < height && cellHeight >= 1 ==> 1 <= r.height <= cellHeight && y + r.height <= height
  {
    Rect(x, y, Min(cellWidth, width - x), Min(cellHeight, height - y))
  }

  /** The origin of a rectangle. */
  function Origin(r: Rect): Point {
    Point(r.x, r.y)
  }

  /** p lies in rectangle r. */
  predicate Contains(r: Rect, p: Point) {
    InRect(p, r.x, r.x + r.width, r.y, r.y + r.height)
  }

  /** The candidates of the inner loop on row y, from column x on. */
  function CandRow(x: int, y: int, width: int, height: int, cellWidth: int, cellHeight: int): seq<Rect>
    requires cellWidth > 0
    decreases width - x
  {
    if x >= width then []
    else [Candidate(x, y, width, height, cellWidth, cellHeight)] + CandRow(x + cellWidth, y, width, height, cellWidth, cellHeight)
  }

  /** The candidates of the outer loop from row y on. */
  function CandRows(y: int, width: int, height: int, cellWidth: int, cellHeight: int): seq<Rect>
    requires cellWidth > 0 && cellHeight > 0
    decreases height - y
  {
    if y >= height then []
    else CandRow(0, y, width, height, cellWidth, cellHeight) + CandRows(y + cellHeight, width, height, cellWidth, cellHeight)
  }

  /** Every candidate the partitioner builds, in the order it builds them. */
  function Candidates(width: int, height: int, cellWidth: int, cellHeight: int): seq<Rect>
    requires cellWidth > 0 && cellHeight > 0
  {
    CandRows(0, width, height, cellWidth, cellHeight)
  }

  /** The independent description of a candidate: an origin inside the image on the lattice
      of cell sizes, with the clamped extents. */
  predicate IsCandidate(r: Rect, width: int, height: int, cellWidth: int, cellHeight: int)
    requires cellWidth > 0 && cellHeight > 0
  {
    && 0 <= r.x < width && 0 <= r.y < height
    && r.x % cellWidth == 0 && r.y % cellHeight == 0
    && r == Candidate(r.x, r.y, width, height, cellWidth, cellHeight)
  }

  /** `Math.ceil(a / d)` for a non-negative a: the number of steps of size d from 0 below a. */
  function Ceil(a: int, d: int): int
    requires d > 0
  {
    (a + d - 1) / d
  }

  /** The candidate that owns pixel p: the one whose origin is p rounded down to the lattice. */
  function Owner(p: Point, width: int, height: int, cellWidth: int, cellHeight: int): Rect
    requires cellWidth > 0 && cellHeight > 0
  {
    Candidate((p.x / cellWidth) * cellWidth, (p.y / cellHeight) * cellHeight, width, height, cellWidth, cellHeight)
  }

  // ---------------------------------------------------------------- arithmetic

  /** Adding the divisor keeps the remainder. */
  lemma ModStep(a: int, d: int)
    requires d > 0
    ensures (a + d) % d == a % d
  {
    DivModUnique(a + d, d, a / d + 1, a % d);
  }

  /** Two distinct multiples of d are at least d apart. */
  lemma NextMultiple(a: int, b: int, d: int)
    requires d > 0 && a % d == 0 && b % d == 0 && a < b
    ensures a + d <= b
  {
    var k := b / d - a / d;
    assert a == (a / d) * d && b == (b / d) * d;
    assert b - a == k * d by {
      assert (b / d) * d - (a / d) * d == k * d;
    }
    if k <= 0 {
      if k < 0 {
        MulAtLeast(-k, d);
      }
      assert false;
    }
    MulAtLeast(k, d);
  }

  /** p rounded down to the lattice of d lies within d of p, on the lattice. */
  lemma RoundDown(a: int, d: int)
    requires d > 0 && a >= 0
    ensures 0 <= (a / d) * d <= a < (a / d) * d + d
    ensures ((a / d) * d) % d == 0
  {
    assert a == (a / d) * d + a % d;
    DivModUnique((a / d) * d, d, a / d, 0);
  }

  /** A lattice point at most p and within d of it is p rounded down. */
  lemma RoundDownUnique(a: int, b: int, d: int)
    requires d > 0 && b % d == 0 && b <= a < b + d
    ensures (a / d) * d == b
  {
    assert b == (b / d) * d;
    DivModUnique(a, d, b / d, a - b);
  }

  /** One more step of d. */
  lemma CeilStep(a: int, d: int)
    requires d > 0 && a > 0
    ensures Ceil(a, d) == 1 + Ceil(Max0(a - d), d)
  {
    if a >= d {
      DivModUnique(a - 1 + d, d, (a - 1) / d + 1, (a - 1) % d);
    } else {
      DivModUnique(a - 1 + d, d, 1, a - 1);
      DivModUnique(d - 1, d, 0, d - 1);
    }
  }

  /** No step of d fits below 0. */
  lemma CeilZero(d: int)
    requires d > 0
    ensures Ceil(0, d) == 0
  {
    DivModUnique(d - 1, d, 0, d - 1);
  }

  // ---------------------------------------------------------------- membership

  /** A row from lattice column x0 holds exactly the candidates of row y from x0 on. */
  lemma {:induction false} CandRowMembership(x0: int, y: int, width: int, height: int, cellWidth: int, cellHeight: int, r: Rect)
    requires cellWidth > 0 && x0 >= 0 && x0 % cellWidth == 0
    ensures r in CandRow(x0, y, width, height, cellWidth, cellHeight) <==>
              r.y == y && x0 <= r.x < width && r.x % cellWidth == 0 &&
              r == Candidate(r.x, y, width, height, cellWidth, cellHeight)
    decreases width - x0
  {
    if x0 < width {
      ModStep(x0, cellWidth);
      CandRowMembership(x0 + cellWidth, y, width, height, cellWidth, cellHeight, r);
      if r.x % cellWidth == 0 && x0 < r.x {
        NextMultiple(x0, r.x, cellWidth);
      }
    }
  }

  /** The rows from lattice row y0 hold exactly the candidates from row y0 on. */
  lemma {:induction false} CandRowsMembership(y0: int, width: int, height: int, cellWidth: int, cellHeight: int, r: Rect)
    requires cellWidth > 0 && cellHeight > 0 && y0 >= 0 && y0 % cellHeight == 0
    ensures r in CandRows(y0, width, height, cellWidth, cellHeight) <==>
              y0 <= r.y && IsCandidate(r, width, height, cellWidth, cellHeight)
    decreases height - y0
  {
    if y0 < height {
      ModStep(y0, cellHeight);
      CandRowMembership(0, y0, width, height, cellWidth, cellHeight, r);
      CandRowsMembership(y0 + cellHeight, width, height, cellWidth, cellHeight, r);
      if r.y % cellHeight == 0 && y0 < r.y {
        NextMultiple(y0, r.y, cellHeight);
      }
    }
  }

  /** The partitioner builds exactly the candidates: origins on the lattice of cell sizes
      inside the image, each with its clamped size. */
  lemma CandidatesMembership(width: int, height: int, cellWidth: int, cellHeight: int, r: Rect)
    requires cellWidth > 0 && cellHeight > 0
    ensures r in Candidates(width, height, cellWidth, cellHeight) <==> IsCandidate(r, width, height, cellWidth, cellHeight)
  {
    CandRowsMembership(0, width, height, cellWidth, cellHeight, r);
  }

  /** Every candidate lies inside the image and is non-empty. */
  lemma CandidatesInside(width: int, height: int, cellWidth: int, cellHeight: int, r: Rect)
    requires cellWidth > 0 && cellHeight > 0
    requires r in Candidates(width, height, cellWidth, cellHeight)
    ensures 0 <= r.x && r.x + r.width <= width && 0 <= r.y && r.y + r.height <= height
    ensures 1 <= r.width <= cellWidth && 1 <= r.height <= cellHeight
    ensures r.width == Min(cellWidth, width - r.x) && r.height == Min(cellHeight, height - r.y)
  {
    CandidatesMembership(width, height, cellWidth, cellHeight, r);
  }

  /** An empty or inverted image has no candidates: the guard `if (!width || !height)`
      returns what the loops would. */
  lemma CandidatesEmpty(width: int, height: int, cellWidth: int, cellHeight: int)
    requires cellWidth > 0 && cellHeight > 0
    requires width <= 0 || height <= 0
    ensures Candidates(width, height, cellWidth, cellHeight) == []
  {
    var cs := Candidates(width, height, cellWidth, cellHeight);
    if cs != [] {
      CandidatesMembership(width, height, cellWidth, cellHeight, cs[0]);
      assert false;
    }
  }

  // ---------------------------------------------------------------- order

  /** Candidate origins strictly increase in row-major order. */
  predicate RowMajor(rs: seq<Rect>) {
    forall i, j :: 0 <= i < j < |rs| ==> Precedes(Origin(rs[i]), Origin(rs[j]))
  }

  lemma {:induction false} CandRowOrdered(x0: int, y: int, width: int, height: int, cellWidth: int, cellHeight: int)
    requires cellWidth > 0 && x0 >= 0 && x0 % cellWidth == 0
    ensures RowMajor(CandRow(x0, y, width, height, cellWidth, cellHeight))
    decreases width - x0
  {
    if x0 < width {
      var rest := CandRow(x0 + cellWidth, y, width, height, cellWidth, cellHeight);
      var row := [Candidate(x0, y, width, height, cellWidth, cellHeight)] + rest;
      ModStep(x0, cellWidth);
      CandRowOrdered(x0 + cellWidth, y, width, height, cellWidth, cellHeight);
      forall i, j | 0 <= i < j < |row|
        ensures Precedes(Origin(row[i]), Origin(row[j]))
      {
        CandRowMembership(x0 + cellWidth, y, width, height, cellWidth, cellHeight, row[j]);
        if i > 0 {
          assert row[i] == rest[i - 1] && row[j] == rest[j - 1];
        }
      }
    }
  }

  lemma {:induction false} CandRowsOrdered(y0: int, width: int, height: int, cellWidth: int, cellHeight: int)
    requires cellWidth > 0 && cellHeight > 0 && y0 >= 0 && y0 % cellHeight == 0
    ensures RowMajor(CandRows(y0, width, height, cellWidth, cellHeight))
    decreases height - y0
  {
    if y0 < height {
      var row := CandRow(0, y0, width, height, cellWidth, cellHeight);
      var rest := CandRows(y0 + cellHeight, width, height, cellWidth, cellHeight);
      ModStep(y0, cellHeight);
      CandRowOrdered(0, y0, width, height, cellWidth, cellHeight);
      CandRowsOrdered(y0 + cellHeight, width, height, cellWidth, cellHeight);
      forall i, j | 0 <= i < j < |row + rest|
        ensures Precedes(Origin((row + rest)[i]), Origin((row + rest)[j]))
      {
        if i < |row| && j >= |row| {
          CandRowMembership(0, y0, width, height, cellWidth, cellHeight, row[i]);
          CandRowsMembership(y0 + cellHeight, width, height, cellWidth, cellHeight, rest[j - |row|]);
        }
      }
    }
  }

  /** The partitioner visits candidates with y as the outer loop and x as the inner one. */
  lemma CandidatesOrdered(width: int, height: int, cellWidth: int, cellHeight: int)
    requires cellWidth > 0 && cellHeight > 0
    ensures RowMajor(Candidates(width, height, cellWidth, cellHeight))
  {
    CandRowsOrdered(0, width, height, cellWidth, cellHeight);
  }

  // ---------------------------------------------------------------- coverage

  /** The owner of a pixel of the image is a candidate containing it. */
  lemma OwnerContains(width: int, height: int, cellWidth: int, cellHeight: int, p: Point)
    requires cellWidth > 0 && cellHeight > 0 && InRect(p, 0, width, 0, height)
    ensures Owner(p, width, height, cellWidth, cellHeight) in Candidates(width, height, cellWidth, cellHeight)
    ensures Contains(Owner(p, width, height, cellWidth, cellHeight), p)
  {
    RoundDown(p.x, cellWidth);
    RoundDown(p.y, cellHeight);
    CandidatesMembership(width, height, cellWidth, cellHeight, Owner(p, width, height, cellWidth, cellHeight));
  }

  /** Any candidate containing a pixel is its owner. */
  lemma OwnerUnique(width: int, height: int, cellWidth: int, cellHeight: int, p: Point, r: Rect)
    requires cellWidth > 0 && cellHeight > 0
    requires r in Candidates(width, height, cellWidth, cellHeight) && Contains(r, p)
    ensures r == Owner(p, width, height, cellWidth, cellHeight)
  {
    CandidatesInside(width, height, cellWidth, cellHeight, r);
    CandidatesMembership(width, height, cellWidth, cellHeight, r);
    RoundDownUnique(p.x, r.x, cellWidth);
    RoundDownUnique(p.y, r.y, cellHeight);
  }

  /** Row-major order makes candidates at distinct positions distinct. */
  lemma OrderedDistinct(rs: seq<Rect>, i: int, j: int)
    requires RowMajor(rs) && 0 <= i < |rs| && 0 <= j < |rs| && rs[i] == rs[j]
    ensures i == j
  {
  }

  /** Every pixel of the image lies in exactly one candidate, and a pixel outside the image
      in none. */
  lemma CoveredOnce(width: int, height: int, cellWidth: int, cellHeight: int, p: Point)
    requires cellWidth > 0 && cellHeight > 0
    ensures var cs := Candidates(width, height, cellWidth, cellHeight);
            InRect(p, 0, width, 0, height) ==>
              exists i :: 0 <= i < |cs| && Contains(cs[i], p) &&
                forall j :: 0 <= j < |cs| && Contains(cs[j], p) ==> j == i
    ensures var cs := Candidates(width, height, cellWidth, cellHeight);
            !InRect(p, 0, width, 0, height) ==> forall j :: 0 <= j < |cs| ==> !Contains(cs[j], p)
  {
    var cs := Candidates(width, height, cellWidth, cellHeight);
    if InRect(p, 0, width, 0, height) {
      OwnerContains(width, height, cellWidth, cellHeight, p);
      CandidatesOrdered(width, height, cellWidth, cellHeight);
      var i :| 0 <= i < |cs| && cs[i] == Owner(p, width, height, cellWidth, cellHeight);
      forall j | 0 <= j < |cs| && Contains(cs[j], p)
        ensures j == i
      {
        OwnerUnique(width, height, cellWidth, cellHeight, p, cs[j]);
        OrderedDistinct(cs, i, j);
      }
    } else {
      forall j | 0 <= j < |cs|
        ensures !Contains(cs[j], p)
      {
        CandidatesInside(width, height, cellWidth, cellHeight, cs[j]);
      }
    }
  }

  /** Two different candidates share no pixel. */
  lemma CandidatesDisjoint(width: int, height: int, cellWidth: int, cellHeight: int, i: int, j: int, p: Point)
    requires cellWidth > 0 && cellHeight > 0
    requires 0 <= i < j < |Candidates(width, height, cellWidth, cellHeight)|
    ensures !(Contains(Candidates(width, height, cellWidth, cellHeight)[i], p) &&
              Contains(Candidates(width, height, cellWidth, cellHeight)[j], p))
  {
    var cs := Candidates(width, height, cellWidth, cellHeight);
    if Contains(cs[i], p) && Contains(cs[j], p) {
      OwnerUnique(width, height, cellWidth, cellHeight, p, cs[i]);
      OwnerUnique(width, height, cellWidth, cellHeight, p, cs[j]);
      CandidatesOrdered(width, height, cellWidth, cellHeight);
      OrderedDistinct(cs, i, j);
    }
  }

  // ---------------------------------------------------------------- count

  lemma {:induction false} CandRowLength(x0: int, y: int, width: int, height: int, cellWidth: int, cellHeight: int)
    requires cellWidth > 0
    ensures |CandRow(x0, y, width, height, cellWidth, cellHeight)| == Ceil(Max0(width - x0), cellWidth)
    decreases width - x0
  {
    if x0 < width {
      CandRowLength(x0 + cellWidth, y, width, height, cellWidth, cellHeight);
      CeilStep(width - x0, cellWidth);
    } else {
      CeilZero(cellWidth);
    }
  }

  lemma {:induction false} CandRowsLength(y0: int, width: int, height: int, cellWidth: int, cellHeight: int)
    requires cellWidth > 0 && cellHeight > 0
    ensures |CandRows(y0, width, height, cellWidth, cellHeight)| == Ceil(Max0(height - y0), cellHeight) * Ceil(Max0(width), cellWidth)
    decreases height - y0
  {
    var n := Ceil(Max0(width), cellWidth);
    if y0 < height {
      CandRowLength(0, y0, width, height, cellWidth, cellHeight);
      CandRowsLength(y0 + cellHeight, width, height, cellWidth, cellHeight);
      CeilStep(height - y0, cellHeight);
      MulSucc(Ceil(Max0(height - (y0 + cellHeight)), cellHeight), n);
    } else {
      CeilZero(cellHeight);
    }
  }

  /** The partitioner builds `ceil(width / cellWidth) * ceil(height / cellHeight)` candidates. */
  lemma CandidatesCount(width: int, height: int, cellWidth: int, cellHeight: int)
    requires cellWidth > 0 && cellHeight > 0 && width >= 0 && height >= 0
    ensures |Candidates(width, height, cellWidth, cellHeight)| == Ceil(width, cellWidth) * Ceil(height, cellHeight)
  {
    CandRowsLength(0, width, height, cellWidth, cellHeight);
  }

  /** 20 × 20 in 10 × 10 cells makes 4 candidates, 25 × 25 makes 9 (the edge cells being
      5 wide or high), and 4 × 4 in 2 × 2 cells makes 4. */
  lemma CandidateCounts()
    ensures |Candidates(20, 20, 10, 10)| == 4
    ensures |Candidates(25, 25, 10, 10)| == 9
    ensures Candidate(20, 20, 25, 25, 10, 10) == Rect(20, 20, 5, 5)
    ensures |Candidates(4, 4, 2, 2)| == 4
  {
    CandidatesCount(20, 20, 10, 10);
    CandidatesCount(25, 25, 10, 10);
    CandidatesCount(4, 4, 2, 2);
  }
}
