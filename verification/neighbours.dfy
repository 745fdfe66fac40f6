/**
 `calcNeigbNum`: the neighbour count of life.js, modelled as written. Its
 window is rows max(0, row-1)..min(height, row+1) and columns
 max(0, col-1)..min(width, col+1), both bounds inclusive, so row `height`
 and column `width` (one past the board) are scanned too.
 */
module Neighbours {
  import opened Cells
  import opened Rule

  function Max(a: int, b: int): int { if a >= b then a else b }
  function Min(a: int, b: int): int { if a <= b then a else b }

  /** Number of integers in the inclusive range lo..hi. */
  function Span(lo: int, hi: int): nat { if lo <= hi then hi - lo + 1 else 0 }

  /** 1 when `self` lies in the inclusive rectangle, else 0. */
  function Inside(self: Cell, xs: int, xe: int, ys: int, ye: int): nat {
    if xs <= self.x <= xe && ys <= self.y <= ye then 1 else 0
  }

  /** Live cells of the list in the inclusive rectangle, `self` excluded. */
  function LiveIn(cells: seq<Cell>, self: Cell, xs: int, xe: int, ys: int, ye: int): set<Cell> {
    set p | p in cells && xs <= p.x <= xe && ys <= p.y <= ye && p != self
  }

  /** The inner loop of `calcNeigbNum`: columns x..xe of row y, skipping `self`. */
  function CountCols(cells: seq<Cell>, self: Cell, y: int, x: int, xe: int): (r: nat)
    ensures r == |LiveIn(cells, self, x, xe, y, y)|
    ensures r <= Span(x, xe) - Inside(self, x, xe, y, y)
    decreases xe - x + 1
  {
    if x > xe then
      assert LiveIn(cells, self, x, xe, y, y) == {};
      0
    else
      var hit := if Cell(x, y) == self then 0 else if CellExists(cells, x, y) != -1 then 1 else 0;
      var rest := CountCols(cells, self, y, x + 1, xe);
      ColumnStep(cells, self, y, x, xe);
      hit + rest
  }

  /** Column x of row y adds its cell to the live cells of columns x+1..xe exactly when it is live and not `self`. */
  lemma ColumnStep(cells: seq<Cell>, self: Cell, y: int, x: int, xe: int)
    requires x <= xe
    ensures LiveIn(cells, self, x, xe, y, y)
         == LiveIn(cells, self, x + 1, xe, y, y) + (if Cell(x, y) != self && Cell(x, y) in cells then {Cell(x, y)} else {})
  {
  }

  lemma SpanStep(y: int, ye: int, w: nat)
    requires y <= ye
    ensures Span(y, ye) * w == w + Span(y + 1, ye) * w
  {
    assert Span(y, ye) == 1 + Span(y + 1, ye);
  }

  /** The outer loop of `calcNeigbNum`: rows y..ye, each scanned over columns xs..xe. */
  function CountRows(cells: seq<Cell>, self: Cell, y: int, ye: int, xs: int, xe: int): (r: nat)
    ensures r == |LiveIn(cells, self, xs, xe, y, ye)|
    ensures r <= Span(y, ye) * Span(xs, xe) - Inside(self, xs, xe, y, ye)
    decreases ye - y + 1
  {
    if y > ye then
      assert LiveIn(cells, self, xs, xe, y, ye) == {};
      0
    else
      var here := CountCols(cells, self, y, xs, xe);
      var rest := CountRows(cells, self, y + 1, ye, xs, xe);
      RowStep(cells, self, y, ye, xs, xe);
      SpanStep(y, ye, Span(xs, xe));
      here + rest
  }

  /** The live cells of rows y..ye are those of row y and, disjointly, those of rows y+1..ye. */
  lemma RowStep(cells: seq<Cell>, self: Cell, y: int, ye: int, xs: int, xe: int)
    requires y <= ye
    ensures LiveIn(cells, self, xs, xe, y, ye)
         == LiveIn(cells, self, xs, xe, y, y) + LiveIn(cells, self, xs, xe, y + 1, ye)
    ensures LiveIn(cells, self, xs, xe, y, y) !! LiveIn(cells, self, xs, xe, y + 1, ye)
  {
  }

  /** The positions `calcNeigbNum(col, row)` examines. */
  predicate InScan(width: int, height: int, col: int, row: int, p: Cell) {
    && Max(0, row - 1) <= p.y <= Min(height, row + 1)
    && Max(0, col - 1) <= p.x <= Min(width, col + 1)
    && p != Cell(col, row)
  }

  /** The live cells `calcNeigbNum(col, row)` finds. */
  function ScannedLive(cells: seq<Cell>, width: int, height: int, col: int, row: int): set<Cell> {
    set p | p in cells && InScan(width, height, col, row, p)
  }

  /** How many positions `calcNeigbNum(col, row)` examines. */
  function ScanSize(width: int, height: int, col: int, row: int): int {
    var ys, ye := Max(0, row - 1), Min(height, row + 1);
    var xs, xe := Max(0, col - 1), Min(width, col + 1);
    Span(ys, ye) * Span(xs, xe) - Inside(Cell(col, row), xs, xe, ys, ye)
  }

  lemma SmallProduct(a: nat, b: nat, bound: nat)
    requires a <= 3 && b <= 3 && (a <= 1 || b <= 1 || bound == 9)
    requires bound == 3 || bound == 9
    ensures a * b <= bound
  {
  }

  /** At most eight positions are examined, whatever the arguments. */
  lemma ScanSizeAtMostEight(width: int, height: int, col: int, row: int)
    ensures ScanSize(width, height, col, row) <= 8
  {
    var ys, ye := Max(0, row - 1), Min(height, row + 1);
    var xs, xe := Max(0, col - 1), Min(width, col + 1);
    if Inside(Cell(col, row), xs, xe, ys, ye) == 1 {
      SmallProduct(Span(ys, ye), Span(xs, xe), 9);
    } else {
      SmallProduct(Span(ys, ye), Span(xs, xe), 3);
    }
  }

  /**
   `calcNeigbNum(col, row)`: the number of live cells among the examined
   positions. The cell itself is never counted and nothing outside the
   window is, so the count is at most eight.
   */
  function CalcNeighbours(cells: seq<Cell>, width: int, height: int, col: int, row: int): (r: nat)
    ensures r == |ScannedLive(cells, width, height, col, row)|
    ensures r <= ScanSize(width, height, col, row) <= 8
  {
    var self := Cell(col, row);
    var ys, ye := Max(0, row - 1), Min(height, row + 1);
    var xs, xe := Max(0, col - 1), Min(width, col + 1);
    assert LiveIn(cells, self, xs, xe, ys, ye) == ScannedLive(cells, width, height, col, row);
    ScanSizeAtMostEight(width, height, col, row);
    CountRows(cells, self, ys, ye, xs, xe)
  }

  /**
   The corner (0, 0) of any board with positive width and height examines
   exactly (1, 0), (0, 1) and (1, 1); on a 1 × 1 board these are phantom
   positions in column `width` and row `height`.
   */
  lemma CornerScan(cells: seq<Cell>, width: int, height: int)
    requires width >= 1 && height >= 1
    ensures forall p :: InScan(width, height, 0, 0, p) <==> p in {Cell(1, 0), Cell(0, 1), Cell(1, 1)}
    ensures CalcNeighbours(cells, width, height, 0, 0) <= 3
  {
  }

  /**
   The quirk of the inclusive upper clamp: a live cell in column `width`, one
   past the board, is counted as a neighbour of the last column.
   */
  lemma PhantomColumnCounted(cells: seq<Cell>, width: int, height: int, row: int)
    requires 0 <= row < height && width >= 1
    requires Cell(width, row) in cells
    ensures CalcNeighbours(cells, width, height, width - 1, row) >= 1
  {
    assert Cell(width, row) in ScannedLive(cells, width, height, width - 1, row);
  }

  /**
   When every live cell lies on the board, the as-written count equals the
   strict on-board count of the reference rule.
   */
  lemma StrictCount(cells: seq<Cell>, width: int, height: int, col: int, row: int)
    requires AllInBoard(width, height, cells)
    ensures CalcNeighbours(cells, width, height, col, row) == LiveNeighbours(Elems(cells), width, height, Cell(col, row))
  {
    var scanned := ScannedLive(cells, width, height, col, row);
    forall p
      ensures p in scanned <==> p in LiveNeighbourSet(Elems(cells), width, height, Cell(col, row))
    {
      if p in cells {
        assert InBoard(width, height, p);
      }
    }
    assert scanned == LiveNeighbourSet(Elems(cells), width, height, Cell(col, row));
  }
}
