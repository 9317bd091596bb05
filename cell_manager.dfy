/** `CellManager`: an insertion-ordered registry of cells that can be appended to, searched
    by origin, pruned of one instance and extended by partitioning an image. */
module Manager {
  import opened Outcomes
  import opened Geometry
  import opened Grid
  import opened CanvasStore
  import opened Cells
  import opened Partition

  /** The cell has origin (x, y): `cell.x === x && cell.y === y`. */
  predicate At(c: Cell, x: int, y: int) {
    c.x == x && c.y == y
  }

  /** The position `find` stops at: the first cell with origin (x, y), or none when no cell
      has it. */
  function FirstAt(cs: seq<Cell>, x: int, y: int): (r: Option<nat>)
    ensures r.Some? ==> r.value < |cs| && At(cs[r.value], x, y) && forall j :: 0 <= j < r.value ==> !At(cs[j], x, y)
    ensures r.None? ==> forall j :: 0 <= j < |cs| ==> !At(cs[j], x, y)
  {
    if cs == [] then None
    else if At(cs[0], x, y) then Some(0)
    else
      match FirstAt(cs[1..], x, y)
      case None => None
      case Some(i) => Some(i + 1)
  }

  /** `cells.filter(c => c !== cell)`: every other cell, in order; the order of the result
      is pinned down by WithoutAppend. */
  function Without(cs: seq<Cell>, cell: Cell): (r: seq<Cell>)
    ensures forall i :: 0 <= i < |r| ==> r[i] in cs && r[i] != cell
    ensures forall i :: 0 <= i < |cs| && cs[i] != cell ==> cs[i] in r
    ensures |r| == |cs| - multiset(cs)[cell]
  {
    if cs == [] then []
    else
      assert cs == [cs[0]] + cs[1..];
      (if cs[0] == cell then [] else [cs[0]]) + Without(cs[1..], cell)
  }

  /** Filtering a concatenation filters each part. With the single-cell cases this fixes the
      order of what remains: the cells that stay are those of the old list, in its order. */
  lemma {:induction false} WithoutAppend(a: seq<Cell>, b: seq<Cell>, cell: Cell)
    ensures Without(a + b, cell) == Without(a, cell) + Without(b, cell)
    ensures Without([cell], cell) == []
    ensures forall c :: c != cell ==> Without([c], cell) == [c]
  {
    if a == [] {
      assert a + b == b;
    } else {
      assert (a + b)[0] == a[0] && (a + b)[1..] == a[1..] + b;
      WithoutAppend(a[1..], b, cell);
    }
  }

  class CellManager {
    /** The registered cells, in insertion order. */
    var cells: seq<Cell>

    /** A new manager holds no cell. */
    constructor ()
      ensures cells == []
    {
      cells := [];
    }

    /** `addCell`: the cell goes at the end; the earlier cells stay as they were. */
    method AddCell(cell: Cell)
      modifies this
      ensures cells == old(cells) + [cell]
    {
      cells := cells + [cell];
    }

    /** `getCell(x, y)`: the first cell in insertion order whose origin is (x, y), or none. */
    function GetCell(x: int, y: int): (r: Option<Cell>)
      reads this
      ensures r.None? <==> forall j :: 0 <= j < |cells| ==> !At(cells[j], x, y)
      ensures r.Some? ==> exists i :: 0 <= i < |cells| && cells[i] == r.value && At(cells[i], x, y) &&
                                      forall j :: 0 <= j < i ==> !At(cells[j], x, y)
    {
      match FirstAt(cells, x, y)
      case None => None
      case Some(i) => Some(cells[i])
    }

    /** `removeCell(cell)`: every occurrence of that instance goes; the others stay in order. */
    method RemoveCell(cell: Cell)
      modifies this
      ensures cells == Without(old(cells), cell)
    {
      cells := Without(cells, cell);
    }

    /** `partitionCellsFromImage`: the partition of the adapter's image (by the dimensions
        of its stored image data) pushed onto the registered cells, in row-major order. A
        failing `hasPixels` rejects the call, leaving the cells pushed before it registered. */
    method PartitionCellsFromImage(adapter: NodeCanvasAdapter, cellWidth: int, cellHeight: int)
      returns (o: Outcome)
      requires cellWidth > 0 && cellHeight > 0
      modifies this
      ensures var d := adapter.imageData;
              var s := Sweep(Scanner(d), Candidates(d.width, d.height, cellWidth, cellHeight));
              && |old(cells)| <= |cells| && cells[..|old(cells)|] == old(cells)
              && Areas(cells) == Areas(old(cells)) + s.kept
              && o == (if s.failure.Some? then Fail(s.failure.value) else Pass)
      ensures forall i :: |old(cells)| <= i < |cells| ==> cells[i].adapter == adapter
      ensures adapter.imageData.width == 0 || adapter.imageData.height == 0 ==> cells == old(cells) && o == Pass
    {
      var width := adapter.GetImageData().width;
      var height := adapter.GetImageData().height;
      if width == 0 || height == 0 {
        CandidatesEmpty(width, height, cellWidth, cellHeight);
        return Pass;
      }
      var next, failure, added := SweepRows(adapter, width, height, cellWidth, cellHeight, cells);
      cells := next;
      return if failure.Some? then Fail(failure.value) else Pass;
    }
  }

  /** A 4 × 4 image of set pixels partitioned into 2 × 2 cells adds 4 cells. */
  lemma ManagerAddsFour(d: ImageData)
    requires d.width == 4 && d.height == 4
    requires forall p :: InRect(p, 0, 4, 0, 4) ==> Hit(d, p)
    ensures Sweep(Scanner(d), Candidates(d.width, d.height, 2, 2)).failure.None?
    ensures |Sweep(Scanner(d), Candidates(d.width, d.height, 2, 2)).kept| == 4
  {
    PartitionComplete(d, 4, 4, 2, 2);
  }

  /** Removing a cell keeps a different cell with the same origin, and getCell then finds
      that other cell. */
  lemma RemoveKeepsTwin(a: Cell, b: Cell)
    requires a != b && a.x == b.x && a.y == b.y
    ensures Without([a, b], a) == [b]
    ensures FirstAt(Without([a, b], a), b.x, b.y) == Some(0)
  {
    WithoutAppend([a], [b], a);
    assert [a, b] == [a] + [b];
  }
}
