/** How many boards to lay out, and which cells make up one board. */
module BoardGeneration {
  import opened Hex
  import opened Board
  import opened Collections

  const MaxBoardCount: int := 8

  function Min(x: int, y: int): (m: int) {
    if x < y then x else y
  }

  /** One board per player, bounded by the number of origins and by MaxBoardCount;
      no boards when either count is not positive. */
  function CalculateBoardCount(originCount: int, playerCount: int): (count: int)
    ensures originCount <= 0 || playerCount <= 0 ==> count == 0
    ensures 0 <= count <= MaxBoardCount
    ensures originCount > 0 && playerCount > 0 ==>
              count <= originCount && count <= playerCount
              && (count == originCount || count == playerCount || count == MaxBoardCount)
  {
    if originCount <= 0 || playerCount <= 0 then 0
    else Min(playerCount, Min(MaxBoardCount, originCount))
  }

  /** The cases pinned down by the plan's unit tests. */
  lemma BoardCountExamples()
    ensures CalculateBoardCount(10, 9) == MaxBoardCount
    ensures CalculateBoardCount(0, 1) == 0
    ensures CalculateBoardCount(4, 0) == 0
  {
  }

  /** A further case, beyond the unit tests: with fewer origins than players
      and than MaxBoardCount, the origins bound the count. */
  lemma BoardCountOriginBound()
    ensures CalculateBoardCount(3, 5) == 3
  {
  }

  /** The k-th cell in row-major order (rows outer, columns inner). */
  function RowMajorCell(k: int): (c: HexCoord)
    requires k >= 0
  {
    HexCoord(k % BoardWidth, k / BoardWidth)
  }

  /** The whole board in row-major order. */
  function BoardCells(): (cells: seq<HexCoord>) {
    seq(BoardWidth * BoardHeight, k requires 0 <= k < BoardWidth * BoardHeight => RowMajorCell(k))
  }

  /** Row-major indexing is a bijection between 0..55 and the board's cells. */
  lemma RowMajorBijection(c: HexCoord)
    ensures forall k | 0 <= k < BoardWidth * BoardHeight :: IsInside(RowMajorCell(k))
    ensures IsInside(c) ==> RowMajorCell(c.r * BoardWidth + c.q) == c
    ensures forall j, k | 0 <= j < k < BoardWidth * BoardHeight :: RowMajorCell(j) != RowMajorCell(k)
  {
  }

  /** Every board cell occurs in BoardCells exactly once, and nothing else does. */
  lemma BoardCellsCoverBoard()
    ensures |BoardCells()| == BoardWidth * BoardHeight
    ensures forall c :: c in BoardCells() <==> IsInside(c)
    ensures Distinct(BoardCells())
  {
    var cells := BoardCells();
    forall c | IsInside(c) ensures c in cells {
      RowMajorBijection(c);
      assert cells[c.r * BoardWidth + c.q] == c;
    }
    RowMajorBijection(HexCoord(0, 0));
  }

  /** A board has 56 cells. */
  lemma InsideCellCount()
    ensures |InsideCells()| == BoardWidth * BoardHeight == 56
  {
    BoardCellsCoverBoard();
    DistinctCardinality(BoardCells());
    assert (set x | x in BoardCells()) == InsideCells();
  }

  /** Yields every cell of one board, row by row. */
  method EnumerateBoardCoords() returns (coords: seq<HexCoord>)
    ensures coords == BoardCells()
    ensures |coords| == BoardWidth * BoardHeight
    ensures forall k | 0 <= k < |coords| :: coords[k] == HexCoord(k % BoardWidth, k / BoardWidth)
    ensures forall c :: c in coords <==> IsInside(c)
    ensures Distinct(coords)
  {
    coords := [];
    for r := 0 to BoardHeight
      invariant |coords| == r * BoardWidth
      invariant forall k | 0 <= k < |coords| :: coords[k] == RowMajorCell(k)
    {
      for q := 0 to BoardWidth
        invariant |coords| == r * BoardWidth + q
        invariant forall k | 0 <= k < |coords| :: coords[k] == RowMajorCell(k)
      {
        assert RowMajorCell(r * BoardWidth + q) == HexCoord(q, r);
        coords := coords + [HexCoord(q, r)];
      }
    }
    BoardCellsCoverBoard();
  }
}
