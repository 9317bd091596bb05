/** `partitionImageIntoCells`: build every candidate cell of the grid in row-major order,
    ask each whether it has pixels and keep those that do. A `hasPixels` that throws ends the
    sweep with its failure. */
module Partition {
  import opened Outcomes
  import opened Geometry
  import opened Grid
  import opened CanvasStore
  import opened Cells

  /** Where a sweep over candidates stands: the rectangles kept so far, in order, and the
      failure that stopped it, if any. */
  datatype Swept = Swept(kept: seq<Rect>, failure: Option<Error>)

  /** `hasPixels` of a cell with the given rectangle, reading the image d. */
  function Scanner(d: ImageData): Rect -> Result<bool> {
    r => ScanHit(d, Pixels(r))
  }

  /** The sweep over the candidates cs, asking scan for each: one is kept when its scan is
      true, and the first scan that fails stops the sweep with that failure. */
  function Sweep(scan: Rect -> Result<bool>, cs: seq<Rect>): Swept {
    if cs == [] then Swept([], None)
    else
      match scan(cs[0])
      case Err(e) => Swept([], Some(e))
      case Ok(b) =>
        var rest := Sweep(scan, cs[1..]);
        Swept((if b then [cs[0]] else []) + rest.kept, rest.failure)
  }

  /** A sweep continued after the rectangles acc were kept. */
  function After(acc: seq<Rect>, s: Swept): Swept {
    Swept(acc + s.kept, s.failure)
  }

  /** The rectangles of a list of cells. */
  function Areas(cs: seq<Cell>): (r: seq<Rect>)
    ensures |r| == |cs| && forall i :: 0 <= i < |cs| ==> r[i] == cs[i].Area()
  {
    seq(|cs|, i requires 0 <= i < |cs| => cs[i].Area())
  }

  /** Every cell of cs reads the store a. */
  predicate OnAdapter(cs: seq<Cell>, a: NodeCanvasAdapter) {
    forall i :: 0 <= i < |cs| ==> cs[i].adapter == a
  }

  lemma OnAdapterAppend(cs: seq<Cell>, more: seq<Cell>, a: NodeCanvasAdapter)
    requires OnAdapter(cs, a) && OnAdapter(more, a)
    ensures OnAdapter(cs + more, a)
  {
  }

  /** Pushing b and then c pushes b + c. */
  lemma PushTwice(a: seq<Cell>, b: seq<Cell>, c: seq<Cell>)
    ensures (a + b) + c == a + (b + c)
  {
  }

  lemma AreasAppend(cs: seq<Cell>, more: seq<Cell>)
    ensures Areas(cs + more) == Areas(cs) + Areas(more)
  {
  }

  lemma AreasSnoc(cs: seq<Cell>, c: Cell)
    ensures Areas(cs + [c]) == Areas(cs) + [c.Area()]
  {
  }

  // ---------------------------------------------------------------- the sweep

  /** The sweep never fails exactly when every scan succeeds. */
  lemma {:induction false} SweepSucceeds(scan: Rect -> Result<bool>, cs: seq<Rect>)
    ensures Sweep(scan, cs).failure.None? <==> forall i :: 0 <= i < |cs| ==> scan(cs[i]).Ok?
  {
    if cs != [] {
      SweepSucceeds(scan, cs[1..]);
      assert forall i :: 1 <= i < |cs| ==> cs[i] == cs[1..][i - 1];
    }
  }

  /** A sweep keeps only candidates that have pixels, and one that completes keeps every
      candidate that has pixels: a cell is kept iff `hasPixels()` holds. */
  lemma {:induction false} SweepKeeps(scan: Rect -> Result<bool>, cs: seq<Rect>, r: Rect)
    ensures r in Sweep(scan, cs).kept ==> r in cs && scan(r) == Ok(true)
    ensures Sweep(scan, cs).failure.None? ==>
              (r in Sweep(scan, cs).kept <==> r in cs && scan(r) == Ok(true))
  {
    if cs != [] {
      SweepKeeps(scan, cs[1..], r);
      assert cs == [cs[0]] + cs[1..];
    }
  }

  /** The kept rectangles appear in the order of the candidates. */
  lemma {:induction false} SweepOrdered(scan: Rect -> Result<bool>, cs: seq<Rect>)
    requires RowMajor(cs)
    ensures RowMajor(Sweep(scan, cs).kept)
  {
    if cs != [] {
      var tail := cs[1..];
      assert RowMajor(tail) by {
        forall i, j | 0 <= i < j < |tail|
          ensures Precedes(Origin(tail[i]), Origin(tail[j]))
        {
          assert tail[i] == cs[i + 1] && tail[j] == cs[j + 1];
        }
      }
      SweepOrdered(scan, tail);
      var rest := Sweep(scan, tail).kept;
      forall k | 0 <= k < |rest|
        ensures Precedes(Origin(cs[0]), Origin(rest[k]))
      {
        SweepKeeps(scan, tail, rest[k]);
        var j :| 0 <= j < |tail| && tail[j] == rest[k];
        assert cs[j + 1] == rest[k];
      }
    }
  }

  /** When every candidate has pixels the sweep keeps all of them. */
  lemma {:induction false} SweepAll(scan: Rect -> Result<bool>, cs: seq<Rect>)
    requires forall i :: 0 <= i < |cs| ==> scan(cs[i]) == Ok(true)
    ensures Sweep(scan, cs) == Swept(cs, None)
  {
    if cs != [] {
      assert forall i :: 0 <= i < |cs[1..]| ==> cs[1..][i] == cs[i + 1];
      SweepAll(scan, cs[1..]);
    }
  }

  /** One candidate of the loop: its scan decides whether it is kept or the sweep stops. */
  lemma SweepStep(scan: Rect -> Result<bool>, c: Rect, rest: seq<Rect>, acc: seq<Rect>, found: Result<bool>)
    requires found == scan(c)
    ensures found.Err? ==> After(acc, Sweep(scan, [c] + rest)) == Swept(acc, Some(found.error))
    ensures found.Ok? ==>
              After(acc, Sweep(scan, [c] + rest)) == After(acc + (if found.value then [c] else []), Sweep(scan, rest))
  {
    assert ([c] + rest)[1..] == rest;
  }

  /** One step of the inner loop: the candidate at x is scanned first, then the rest of the row. */
  lemma CandStep(scan: Rect -> Result<bool>, x: int, y: int, width: int, height: int, cellWidth: int, cellHeight: int, acc: seq<Rect>, found: Result<bool>)
    requires cellWidth > 0 && x < width
    requires found == scan(Candidate(x, y, width, height, cellWidth, cellHeight))
    ensures found.Err? ==> After(acc, Sweep(scan, CandRow(x, y, width, height, cellWidth, cellHeight))) == Swept(acc, Some(found.error))
    ensures found.Ok? ==>
              After(acc, Sweep(scan, CandRow(x, y, width, height, cellWidth, cellHeight)))
                == After(acc + (if found.value then [Candidate(x, y, width, height, cellWidth, cellHeight)] else []),
                         Sweep(scan, CandRow(x + cellWidth, y, width, height, cellWidth, cellHeight)))
  {
    SweepStep(scan, Candidate(x, y, width, height, cellWidth, cellHeight), CandRow(x + cellWidth, y, width, height, cellWidth, cellHeight), acc, found);
  }

  /** The end of a row: no candidate is left. */
  lemma RowEnd(scan: Rect -> Result<bool>, x: int, y: int, width: int, height: int, cellWidth: int, cellHeight: int, acc: seq<Rect>)
    requires cellWidth > 0 && x >= width
    ensures After(acc, Sweep(scan, CandRow(x, y, width, height, cellWidth, cellHeight))) == Swept(acc, None)
  {
  }

  /** The sweep over the candidates up to row y + 1, continued from row y's outcome. */
  lemma {:induction false} SweepAppend(scan: Rect -> Result<bool>, ps: seq<Rect>, qs: seq<Rect>)
    ensures Sweep(scan, ps + qs) == if Sweep(scan, ps).failure.Some? then Sweep(scan, ps) else After(Sweep(scan, ps).kept, Sweep(scan, qs))
  {
    if ps == [] {
      assert ps + qs == qs;
    } else {
      assert (ps + qs)[0] == ps[0] && (ps + qs)[1..] == ps[1..] + qs;
      SweepAppend(scan, ps[1..], qs);
    }
  }

  /** One row of the outer loop: a failure in the row ends the sweep, otherwise the next
      row goes on from what the row kept. */
  lemma RowsStep(scan: Rect -> Result<bool>, y: int, width: int, height: int, cellWidth: int, cellHeight: int, acc: seq<Rect>, row: Swept)
    requires cellWidth > 0 && cellHeight > 0 && y < height
    requires row == After(acc, Sweep(scan, CandRow(0, y, width, height, cellWidth, cellHeight)))
    ensures row.failure.Some? ==> After(acc, Sweep(scan, CandRows(y, width, height, cellWidth, cellHeight))) == row
    ensures row.failure.None? ==>
              After(acc, Sweep(scan, CandRows(y, width, height, cellWidth, cellHeight)))
                == After(row.kept, Sweep(scan, CandRows(y + cellHeight, width, height, cellWidth, cellHeight)))
  {
    var first, rest := CandRow(0, y, width, height, cellWidth, cellHeight), CandRows(y + cellHeight, width, height, cellWidth, cellHeight);
    assert CandRows(y, width, height, cellWidth, cellHeight) == first + rest;
    SweepAppend(scan, first, rest);
    var s0, s1 := Sweep(scan, first), Sweep(scan, rest);
    if s0.failure.None? {
      assert acc + (s0.kept + s1.kept) == (acc + s0.kept) + s1.kept;
    }
  }

  /** The end of the outer loop: no row is left. */
  lemma RowsEnd(scan: Rect -> Result<bool>, y: int, width: int, height: int, cellWidth: int, cellHeight: int, acc: seq<Rect>)
    requires cellWidth > 0 && cellHeight > 0 && y >= height
    ensures After(acc, Sweep(scan, CandRows(y, width, height, cellWidth, cellHeight))) == Swept(acc, None)
  {
  }

  // ---------------------------------------------------------------- the partition's promises

  /** A candidate inside the image whose first pixel has an r has pixels. */
  lemma CornerHit(d: ImageData, c: Rect)
    requires c.width >= 1 && c.height >= 1 && Hit(d, Point(c.x, c.y))
    ensures ScanHit(d, Pixels(c)) == Ok(true)
  {
    RowsNonEmpty(c.x, c.x + c.width, c.y, c.y + c.height);
  }

  /** Every kept rectangle is a candidate: inside the image, on the lattice, with the clamped
      size; and the kept rectangles stay in row-major order. */
  lemma PartitionInside(d: ImageData, width: int, height: int, cellWidth: int, cellHeight: int, r: Rect)
    requires cellWidth > 0 && cellHeight > 0
    requires r in Sweep(Scanner(d), Candidates(width, height, cellWidth, cellHeight)).kept
    ensures IsCandidate(r, width, height, cellWidth, cellHeight)
    ensures 0 <= r.x && r.x + r.width <= width && 0 <= r.y && r.y + r.height <= height
    ensures RowMajor(Sweep(Scanner(d), Candidates(width, height, cellWidth, cellHeight)).kept)
  {
    SweepKeeps(Scanner(d), Candidates(width, height, cellWidth, cellHeight), r);
    CandidatesMembership(width, height, cellWidth, cellHeight, r);
    CandidatesInside(width, height, cellWidth, cellHeight, r);
    CandidatesOrdered(width, height, cellWidth, cellHeight);
    SweepOrdered(Scanner(d), Candidates(width, height, cellWidth, cellHeight));
  }

  /** When every pixel of the image has an r, every candidate is kept:
      `ceil(width / cellWidth) * ceil(height / cellHeight)` cells. */
  lemma PartitionComplete(d: ImageData, width: int, height: int, cellWidth: int, cellHeight: int)
    requires cellWidth > 0 && cellHeight > 0 && width >= 0 && height >= 0
    requires forall p :: InRect(p, 0, width, 0, height) ==> Hit(d, p)
    ensures Sweep(Scanner(d), Candidates(width, height, cellWidth, cellHeight)) == Swept(Candidates(width, height, cellWidth, cellHeight), None)
    ensures |Sweep(Scanner(d), Candidates(width, height, cellWidth, cellHeight)).kept| == Ceil(width, cellWidth) * Ceil(height, cellHeight)
  {
    var cs := Candidates(width, height, cellWidth, cellHeight);
    forall i | 0 <= i < |cs|
      ensures Scanner(d)(cs[i]) == Ok(true)
    {
      CandidatesInside(width, height, cellWidth, cellHeight, cs[i]);
      assert InRect(Point(cs[i].x, cs[i].y), 0, width, 0, height);
      CornerHit(d, cs[i]);
    }
    SweepAll(Scanner(d), cs);
    CandidatesCount(width, height, cellWidth, cellHeight);
  }

  /** A 20 × 20 image of set pixels in 10 × 10 cells gives 4 cells, a 25 × 25 one gives 9. */
  lemma PartitionCounts(d: ImageData)
    requires forall p :: InRect(p, 0, 25, 0, 25) ==> Hit(d, p)
    ensures |Sweep(Scanner(d), Candidates(20, 20, 10, 10)).kept| == 4
    ensures |Sweep(Scanner(d), Candidates(25, 25, 10, 10)).kept| == 9
  {
    PartitionComplete(d, 20, 20, 10, 10);
    PartitionComplete(d, 25, 25, 10, 10);
  }

  // ---------------------------------------------------------------- the loops

  /** One pass of the inner loop: the cell at (x, y), clipped to the image, is built on the
      adapter and scanned; it is pushed onto cells when it has pixels, and a failing scan is
      reported. */
  method Visit(adapter: NodeCanvasAdapter, x: int, y: int, width: int, height: int, cellWidth: int, cellHeight: int,
               cells: seq<Cell>, ghost acc: seq<Cell>, ghost added: seq<Cell>)
    returns (next: seq<Cell>, failure: Option<Error>, ghost nextAdded: seq<Cell>)
    requires cellWidth > 0 && x < width
    requires cells == acc + added && OnAdapter(added, adapter)
    ensures failure.Some? ==>
              After(Areas(cells), Sweep(Scanner(adapter.imageData), CandRow(x, y, width, height, cellWidth, cellHeight)))
                == Swept(Areas(next), failure)
    ensures failure.None? ==>
              After(Areas(cells), Sweep(Scanner(adapter.imageData), CandRow(x, y, width, height, cellWidth, cellHeight)))
                == After(Areas(next), Sweep(Scanner(adapter.imageData), CandRow(x + cellWidth, y, width, height, cellWidth, cellHeight)))
    ensures next == acc + nextAdded && OnAdapter(nextAdded, adapter)
  {
    var cell := new Cell(x, y, Min(cellWidth, width - x), Min(cellHeight, height - y), adapter);
    assert cell.Area() == Candidate(x, y, width, height, cellWidth, cellHeight);
    var found := cell.HasPixels();
    CandStep(Scanner(adapter.imageData), x, y, width, height, cellWidth, cellHeight, Areas(cells), found);
    if found.Err? {
      return cells, Some(found.error), added;
    }
    if found.value {
      AreasSnoc(cells, cell);
      PushTwice(acc, added, [cell]);
      return cells + [cell], None, added + [cell];
    }
    return cells, None, added;
  }

  /** The inner loop of both partitioners on row y: x from 0 by cellWidth, a new cell per
      step, pushed onto acc when it has pixels; a failing `hasPixels` stops the row with the
      cells pushed so far. */
  method SweepRow(adapter: NodeCanvasAdapter, y: int, width: int, height: int, cellWidth: int, cellHeight: int, acc: seq<Cell>)
    returns (cells: seq<Cell>, failure: Option<Error>, ghost added: seq<Cell>)
    requires cellWidth > 0 && cellHeight > 0
    ensures Swept(Areas(cells), failure) == After(Areas(acc), Sweep(Scanner(adapter.imageData), CandRow(0, y, width, height, cellWidth, cellHeight)))
    ensures cells == acc + added && OnAdapter(added, adapter)
  {
    ghost var d := adapter.imageData;
    cells, added := acc, [];
    var x := 0;
    while x < width
      invariant adapter.imageData == d
      invariant After(Areas(acc), Sweep(Scanner(d), CandRow(0, y, width, height, cellWidth, cellHeight)))
                  == After(Areas(cells), Sweep(Scanner(d), CandRow(x, y, width, height, cellWidth, cellHeight)))
      invariant cells == acc + added && OnAdapter(added, adapter)
      decreases width - x
    {
      var next, rowFailure, nextAdded := Visit(adapter, x, y, width, height, cellWidth, cellHeight, cells, acc, added);
      cells, added := next, nextAdded;
      if rowFailure.Some? {
        return cells, rowFailure, added;
      }
      x := x + cellWidth;
    }
    RowEnd(Scanner(d), x, y, width, height, cellWidth, cellHeight, Areas(cells));
    return cells, None, added;
  }

  /** One pass of the outer loop: row y swept onto cells, reported as the step it makes in the
      sweep over the rows from y on. */
  method VisitRow(adapter: NodeCanvasAdapter, y: int, width: int, height: int, cellWidth: int, cellHeight: int,
                  cells: seq<Cell>, ghost acc: seq<Cell>, ghost added: seq<Cell>)
    returns (next: seq<Cell>, failure: Option<Error>, ghost nextAdded: seq<Cell>)
    requires cellWidth > 0 && cellHeight > 0 && y < height
    requires cells == acc + added && OnAdapter(added, adapter)
    ensures failure.Some? ==>
              After(Areas(cells), Sweep(Scanner(adapter.imageData), CandRows(y, width, height, cellWidth, cellHeight)))
                == Swept(Areas(next), failure)
    ensures failure.None? ==>
              After(Areas(cells), Sweep(Scanner(adapter.imageData), CandRows(y, width, height, cellWidth, cellHeight)))
                == After(Areas(next), Sweep(Scanner(adapter.imageData), CandRows(y + cellHeight, width, height, cellWidth, cellHeight)))
    ensures next == acc + nextAdded && OnAdapter(nextAdded, adapter)
  {
    ghost var rowAdded;
    next, failure, rowAdded := SweepRow(adapter, y, width, height, cellWidth, cellHeight, cells);
    RowsStep(Scanner(adapter.imageData), y, width, height, cellWidth, cellHeight, Areas(cells), Swept(Areas(next), failure));
    OnAdapterAppend(added, rowAdded, adapter);
    PushTwice(acc, added, rowAdded);
    nextAdded := added + rowAdded;
  }

  /** The outer loop of both partitioners: y from 0 by cellHeight, each row's cells pushed
      onto acc; a failing `hasPixels` stops the loop with the cells pushed so far. */
  method SweepRows(adapter: NodeCanvasAdapter, width: int, height: int, cellWidth: int, cellHeight: int, acc: seq<Cell>)
    returns (cells: seq<Cell>, failure: Option<Error>, ghost added: seq<Cell>)
    requires cellWidth > 0 && cellHeight > 0
    ensures Swept(Areas(cells), failure) == After(Areas(acc), Sweep(Scanner(adapter.imageData), Candidates(width, height, cellWidth, cellHeight)))
    ensures cells == acc + added && OnAdapter(added, adapter)
  {
    ghost var d := adapter.imageData;
    cells, added := acc, [];
    var y := 0;
    while y < height
      invariant adapter.imageData == d
      invariant After(Areas(acc), Sweep(Scanner(d), Candidates(width, height, cellWidth, cellHeight)))
                  == After(Areas(cells), Sweep(Scanner(d), CandRows(y, width, height, cellWidth, cellHeight)))
      invariant cells == acc + added && OnAdapter(added, adapter)
      decreases height - y
    {
      var next, rowFailure, nextAdded := VisitRow(adapter, y, width, height, cellWidth, cellHeight, cells, acc, added);
      cells, added := next, nextAdded;
      if rowFailure.Some? {
        return cells, rowFailure, added;
      }
      y := y + cellHeight;
    }
    RowsEnd(Scanner(d), y, width, height, cellWidth, cellHeight, Areas(cells));
    return cells, None, added;
  }

  /** The guard `!width || !height` of a dimension: true for `undefined` and for 0. */
  predicate NoSize(v: Option<int>) {
    v.None? || v.value == 0
  }

  /** `partitionImageIntoCells` as written: the grid is sized by the `{ width, height }` that
      `getMetadata()` destructures to, and a missing or zero side gives no cell. */
  function MetadataSweep(dims: Dimensions, d: ImageData, cellWidth: int, cellHeight: int): Swept
    requires cellWidth > 0 && cellHeight > 0
  {
    if NoSize(dims.width) || NoSize(dims.height) then Swept([], None)
    else Sweep(Scanner(d), Candidates(dims.width.value, dims.height.value, cellWidth, cellHeight))
  }

  /** `partitionImageIntoCells` as written, given what the adapter's `getMetadata()` resolves
      to: the cells of the candidates that have pixels, in row-major order, or the failure of
      the first `hasPixels` that fails. */
  method PartitionImageIntoCellsAsWritten(adapter: NodeCanvasAdapter, dims: Dimensions, cellWidth: int, cellHeight: int)
    returns (r: Result<seq<Cell>>)
    requires cellWidth > 0 && cellHeight > 0
    ensures var s := MetadataSweep(dims, adapter.imageData, cellWidth, cellHeight);
            && (r.Err? <==> s.failure.Some?)
            && (r.Err? ==> r.error == s.failure.value)
            && (r.Ok? ==> Areas(r.value) == s.kept)
    ensures r.Ok? ==> forall i :: 0 <= i < |r.value| ==> r.value[i].adapter == adapter
    ensures NoSize(dims.width) || NoSize(dims.height) ==> r == Ok([])
  {
    if NoSize(dims.width) || NoSize(dims.height) {
      return Ok([]);
    }
    var cells, failure, added := SweepRows(adapter, dims.width.value, dims.height.value, cellWidth, cellHeight, []);
    if failure.Some? {
      return Err(failure.value);
    }
    return Ok(cells);
  }

  /** Over the pixel-record store the metadata has no width or height, so the partition as
      written finds no cell in a 4 × 4 image of set pixels, where the grid of the image's own
      dimensions keeps all four 2 × 2 cells. */
  lemma MetadataPartitionLosesCells(d: ImageData)
    requires d.width == 4 && d.height == 4
    requires forall p :: InRect(p, 0, 4, 0, 4) ==> Hit(d, p)
    ensures MetadataSweep(MetadataDimensions(d.imageMetadata), d, 2, 2) == Swept([], None)
    ensures Sweep(Scanner(d), Candidates(d.width, d.height, 2, 2)).failure.None?
    ensures |Sweep(Scanner(d), Candidates(d.width, d.height, 2, 2)).kept| == 4
  {
    PartitionComplete(d, 4, 4, 2, 2);
  }

  /** `partitionImageIntoCells` with the grid sized by the stored image, as
      `partitionCellsFromImage` reads it: the cells of the candidates that have pixels, in
      row-major order, or the failure of the first `hasPixels` that fails. */
  method PartitionImageIntoCells(adapter: NodeCanvasAdapter, cellWidth: int, cellHeight: int)
    returns (r: Result<seq<Cell>>)
    requires cellWidth > 0 && cellHeight > 0
    ensures var d := adapter.imageData;
            var s := Sweep(Scanner(d), Candidates(d.width, d.height, cellWidth, cellHeight));
            && (r.Err? <==> s.failure.Some?)
            && (r.Err? ==> r.error == s.failure.value)
            && (r.Ok? ==> Areas(r.value) == s.kept)
    ensures r.Ok? ==> forall i :: 0 <= i < |r.value| ==> r.value[i].adapter == adapter
    ensures adapter.imageData.width == 0 || adapter.imageData.height == 0 ==> r == Ok([])
  {
    var width := adapter.GetImageData().width;
    var height := adapter.GetImageData().height;
    if width == 0 || height == 0 {
      CandidatesEmpty(width, height, cellWidth, cellHeight);
      return Ok([]);
    }
    var cells, failure, added := SweepRows(adapter, width, height, cellWidth, cellHeight, []);
    if failure.Some? {
      return Err(failure.value);
    }
    return Ok(cells);
  }
}
