/** The eight winning lines of the 3x3 grid (BoardLine and BoardLineType). */
module Lines {
  import opened Primitives

  datatype BoardLineType = NoLine | Row | Col | MainDia | AntiDia

  /** A line tag plus a row or column number (unused for the diagonals). */
  datatype BoardLine = BoardLine(kind: BoardLineType, index: int)

  /** `default(BoardLine)`: tag NoLine, index 0. */
  const DefaultLine: BoardLine := BoardLine(NoLine, 0)

  /** The order in which lines are examined: rows and columns interleaved,
      then the main diagonal, then the anti-diagonal. */
  const AllLines: seq<BoardLine> := [
    BoardLine(Row, 0), BoardLine(Col, 0),
    BoardLine(Row, 1), BoardLine(Col, 1),
    BoardLine(Row, 2), BoardLine(Col, 2),
    BoardLine(MainDia, 0), BoardLine(AntiDia, 0)
  ]

  /** The implicit conversion of an `(int, int)` pair to a Position. */
  function Cell(x: int, y: int): Position {
    Position(ToByte(x), ToByte(y))
  }

  /** The conversion keeps every pair of byte values, and wraps the rest
      modulo 256. */
  lemma CellExact(x: int, y: int)
    ensures 0 <= x < 256 && 0 <= y < 256 ==> Cell(x, y) == Position(x, y)
    ensures (Cell(x, y).x - x) % 256 == 0 && (Cell(x, y).y - y) % 256 == 0
  {
  }

  /** The cells of a line, in the order they are visited. */
  function LineCells(line: BoardLine): (cells: seq<Position>)
    ensures line.kind == NoLine <==> cells == []
    ensures line.kind != NoLine ==> |cells| == 3
  {
    match line.kind
    case NoLine => []
    case Row => [Cell(0, line.index), Cell(1, line.index), Cell(2, line.index)]
    case Col => [Cell(line.index, 0), Cell(line.index, 1), Cell(line.index, 2)]
    case MainDia => [Cell(0, 0), Cell(1, 1), Cell(2, 2)]
    case AntiDia => [Cell(2, 0), Cell(1, 1), Cell(0, 2)]
  }

  /** What each kind of line covers: a row keeps its `y`, a column its `x`,
      the main diagonal has `x == y` and the anti-diagonal `x + y == 2`, all
      on the grid. */
  lemma LineGeometry(line: BoardLine)
    requires line.kind != NoLine && 0 <= line.index < 3
    ensures line.kind == Row ==> forall c | c in LineCells(line) :: c.OnBoard() && c.y == line.index
    ensures line.kind == Col ==> forall c | c in LineCells(line) :: c.OnBoard() && c.x == line.index
    ensures line.kind == MainDia ==> forall c | c in LineCells(line) :: c.OnBoard() && c.x == c.y
    ensures line.kind == AntiDia ==> forall c | c in LineCells(line) :: c.OnBoard() && c.x + c.y == 2
  {
    var i := line.index;
    CellExact(0, i); CellExact(1, i); CellExact(2, i);
    CellExact(i, 0); CellExact(i, 1); CellExact(i, 2);
    CellExact(0, 0); CellExact(1, 1); CellExact(2, 2); CellExact(2, 0); CellExact(0, 2);
    match line.kind
    case Row => assert LineCells(line) == [Position(0, i), Position(1, i), Position(2, i)];
    case Col => assert LineCells(line) == [Position(i, 0), Position(i, 1), Position(i, 2)];
    case MainDia => assert LineCells(line) == [Position(0, 0), Position(1, 1), Position(2, 2)];
    case AntiDia => assert LineCells(line) == [Position(2, 0), Position(1, 1), Position(0, 2)];
  }

  /** The cells of each examined line: the three rows, three columns and two
      diagonals of the grid, each visited in increasing index order except the
      anti-diagonal, which runs from the top-right corner. */
  lemma AllLinesCells()
    ensures |AllLines| == 8
    ensures LineCells(AllLines[0]) == [Position(0, 0), Position(1, 0), Position(2, 0)]
    ensures LineCells(AllLines[1]) == [Position(0, 0), Position(0, 1), Position(0, 2)]
    ensures LineCells(AllLines[2]) == [Position(0, 1), Position(1, 1), Position(2, 1)]
    ensures LineCells(AllLines[3]) == [Position(1, 0), Position(1, 1), Position(1, 2)]
    ensures LineCells(AllLines[4]) == [Position(0, 2), Position(1, 2), Position(2, 2)]
    ensures LineCells(AllLines[5]) == [Position(2, 0), Position(2, 1), Position(2, 2)]
    ensures LineCells(AllLines[6]) == [Position(0, 0), Position(1, 1), Position(2, 2)]
    ensures LineCells(AllLines[7]) == [Position(2, 0), Position(1, 1), Position(0, 2)]
  {
    assert ToByte(0) == 0 && ToByte(1) == 1 && ToByte(2) == 2;
  }
}
