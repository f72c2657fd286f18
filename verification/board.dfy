/**
 * The board and what a piece can do on it (pages/base.tsx:88-108,
 * 131-149, 177-185): the placement test, the placement itself, and the
 * scans over anchors and rotations that decide whether a piece can still
 * go anywhere.
 *
 * The board is `rows` x `columns` cells; a piece at anchor (row, col)
 * covers board cell (row + i, col + j) for every 1 at (i, j) of the piece.
 */
module Board {
  import opened Matrix
  import opened Rotations

  /** The fixed scan bounds the game-over test uses (pages/base.tsx:5-6). */
  const ROWS: int := 7
  const COLUMNS: int := 7

  predicate IsBoard(b: Grid, rows: int, columns: int) {
    |b| == rows && Rectangular(b, columns)
  }

  /**
   * Every 1 of piece `t` at anchor (row, col) lands inside the board on a
   * cell that is not yet 1.
   */
  ghost predicate Fits(b: Grid, rows: int, columns: int, row: int, col: int, t: Grid) {
    forall i, j :: Filled(t, i, j) ==>
      row + i < rows && col + j < columns && !Filled(b, row + i, col + j)
  }

  /** The test canPlaceTetrimino makes for cell (i, j) of the piece. */
  predicate CellOk(b: Grid, rows: int, columns: int, row: int, col: int, t: Grid, i: int, j: int)
    requires IsBoard(b, rows, columns) && 0 <= row && 0 <= col
    requires 0 <= i < |t| && 0 <= j < |t[i]|
    ensures CellOk(b, rows, columns, row, col, t, i, j) <==>
      (Filled(t, i, j) ==> row + i < rows && col + j < columns && !Filled(b, row + i, col + j))
  {
    if t[i][j] == 1 && (row + i >= rows || col + j >= columns) then false
    else if t[i][j] == 1 && b[row + i][col + j] == 1 then false
    else true
  }

  /** canPlaceTetrimino's inner loop over row `i` of the piece, from column `j`. */
  predicate CanPlaceRow(b: Grid, rows: int, columns: int, row: int, col: int, t: Grid, i: int, j: int)
    requires IsBoard(b, rows, columns) && 0 <= row && 0 <= col
    requires 0 <= i < |t| && 0 <= j <= |t[i]|
    decreases |t[i]| - j
    ensures CanPlaceRow(b, rows, columns, row, col, t, i, j) <==>
      forall k :: j <= k && Filled(t, i, k) ==>
        row + i < rows && col + k < columns && !Filled(b, row + i, col + k)
  {
    if j == |t[i]| then true
    else if !CellOk(b, rows, columns, row, col, t, i, j) then
      assert Filled(t, i, j);
      false
    else CanPlaceRow(b, rows, columns, row, col, t, i, j + 1)
  }

  /** canPlaceTetrimino's outer loop, from row `i` of the piece. */
  predicate CanPlaceFrom(b: Grid, rows: int, columns: int, row: int, col: int, t: Grid, i: int)
    requires IsBoard(b, rows, columns) && 0 <= row && 0 <= col && 0 <= i <= |t|
    decreases |t| - i
    ensures CanPlaceFrom(b, rows, columns, row, col, t, i) <==>
      forall h, k :: i <= h && Filled(t, h, k) ==>
        row + h < rows && col + k < columns && !Filled(b, row + h, col + k)
  {
    if i == |t| then true
    else if !CanPlaceRow(b, rows, columns, row, col, t, i, 0) then false
    else CanPlaceFrom(b, rows, columns, row, col, t, i + 1)
  }

  /**
   * canPlaceTetrimino: the bounds test of each 1 comes before the board is
   * read at that cell, so the board is only read inside its bounds.
   */
  predicate CanPlace(b: Grid, rows: int, columns: int, row: int, col: int, t: Grid)
    requires IsBoard(b, rows, columns) && 0 <= row && 0 <= col
    ensures CanPlace(b, rows, columns, row, col, t) <==> Fits(b, rows, columns, row, col, t)
  {
    CanPlaceFrom(b, rows, columns, row, col, t, 0)
  }

  /** The board after a placement, and the points it earned. */
  datatype Placement = Placement(board: Grid, points: int)

  /** The placement loop of handleCellClick over row `i` of the piece, from column `j`. */
  function PlaceRow(nb: Grid, points: int, rows: int, columns: int, row: int, col: int,
                    t: Grid, i: int, j: int): (r: Placement)
    requires IsBoard(nb, rows, columns) && 0 <= row && 0 <= col
    requires 0 <= i < |t| && 0 <= j <= |t[i]|
    requires forall k :: j <= k && Filled(t, i, k) ==> row + i < rows && col + k < columns
    decreases |t[i]| - j
    ensures IsBoard(r.board, rows, columns)
    ensures r.points == points + CountRow(t[i]) - CountRow(t[i][..j])
    ensures forall x, y :: 0 <= x < rows && 0 <= y < columns ==>
      r.board[x][y] == if x == row + i && j <= y - col && Filled(t, i, y - col) then 1 else nb[x][y]
  {
    if j == |t[i]| then
      assert t[i][..j] == t[i];
      Placement(nb, points)
    else
      assert t[i][..j + 1][..j] == t[i][..j];
      if t[i][j] == 1 then
        assert Filled(t, i, j);
        PlaceRow(nb[row + i := nb[row + i][col + j := 1]], points + 1, rows, columns, row, col, t, i, j + 1)
      else
        PlaceRow(nb, points, rows, columns, row, col, t, i, j + 1)
  }

  /** The placement loop of handleCellClick, from row `i` of the piece. */
  function PlaceFrom(nb: Grid, points: int, rows: int, columns: int, row: int, col: int,
                     t: Grid, i: int): (r: Placement)
    requires IsBoard(nb, rows, columns) && 0 <= row && 0 <= col && 0 <= i <= |t|
    requires forall h, k :: i <= h && Filled(t, h, k) ==> row + h < rows && col + k < columns
    decreases |t| - i
    ensures IsBoard(r.board, rows, columns)
    ensures r.points == points + CountOnes(t) - CountOnes(t[..i])
    ensures forall x, y :: 0 <= x < rows && 0 <= y < columns ==>
      r.board[x][y] == if i <= x - row && Filled(t, x - row, y - col) then 1 else nb[x][y]
  {
    if i == |t| then
      assert t[..i] == t;
      Placement(nb, points)
    else
      assert t[..i + 1][..i] == t[..i];
      var p := PlaceRow(nb, points, rows, columns, row, col, t, i, 0);
      assert t[i][..0] == [];
      PlaceFrom(p.board, p.points, rows, columns, row, col, t, i + 1)
  }

  /**
   * Placing a piece that fits: every 1 of the piece becomes a 1 of the
   * board, every other cell keeps its value, and the placement earns one
   * point per 1 of the piece.
   */
  function Place(b: Grid, rows: int, columns: int, row: int, col: int, t: Grid): (r: Placement)
    requires IsBoard(b, rows, columns) && 0 <= row && 0 <= col
    requires Fits(b, rows, columns, row, col, t)
    ensures IsBoard(r.board, rows, columns)
    ensures r.points == CountOnes(t)
    ensures forall x, y :: 0 <= x < rows && 0 <= y < columns ==>
      r.board[x][y] == if Filled(t, x - row, y - col) then 1 else b[x][y]
  {
    assert t[..0] == [];
    PlaceFrom(b, 0, rows, columns, row, col, t, 0)
  }

  /**
   * Some anchor (x, y) with x < height and y < width takes the piece. The
   * source scans the fixed bounds ROWS x COLUMNS.
   */
  ghost predicate FitsWithin(b: Grid, rows: int, columns: int, t: Grid, height: int, width: int) {
    exists x, y :: 0 <= x < height && 0 <= y < width && Fits(b, rows, columns, x, y, t)
  }

  /** The inner anchor loop of canPlaceTetriminoForAnyPosition, over row `x` from column `y`. */
  predicate ScanRow(b: Grid, rows: int, columns: int, t: Grid, x: int, y: int, width: int)
    requires IsBoard(b, rows, columns) && 0 <= x && 0 <= y <= width
    decreases width - y
    ensures ScanRow(b, rows, columns, t, x, y, width) <==>
      exists c :: y <= c < width && Fits(b, rows, columns, x, c, t)
  {
    if y == width then false
    else if CanPlace(b, rows, columns, x, y, t) then true
    else ScanRow(b, rows, columns, t, x, y + 1, width)
  }

  /** The outer anchor loop of canPlaceTetriminoForAnyPosition, from row `x`. */
  predicate ScanFrom(b: Grid, rows: int, columns: int, t: Grid, x: int, height: int, width: int)
    requires IsBoard(b, rows, columns) && 0 <= x <= height && 0 <= width
    decreases height - x
    ensures ScanFrom(b, rows, columns, t, x, height, width) <==>
      exists r, c :: x <= r < height && 0 <= c < width && Fits(b, rows, columns, r, c, t)
  {
    if x == height then false
    else if ScanRow(b, rows, columns, t, x, 0, width) then true
    else ScanFrom(b, rows, columns, t, x + 1, height, width)
  }

  /** canPlaceTetriminoForAnyPosition, scanning anchors below `height` x `width`. */
  predicate AnyPosition(b: Grid, rows: int, columns: int, t: Grid, height: int, width: int)
    requires IsBoard(b, rows, columns) && 0 <= height && 0 <= width
    ensures AnyPosition(b, rows, columns, t, height, width) <==>
      FitsWithin(b, rows, columns, t, height, width)
  {
    ScanFrom(b, rows, columns, t, 0, height, width)
  }

  /** Some of the first `n` rotations of `t` fits below `height` x `width`. */
  ghost predicate FitsTurned(b: Grid, rows: int, columns: int, t: Grid, n: nat, height: int, width: int)
    requires IsPiece(t)
  {
    exists k :: 1 <= k <= n && FitsWithin(b, rows, columns, Turns(t, k), height, width)
  }

  /**
   * The rotation loop of canPlaceTetriminoForAnyRotation with `n` rounds
   * left: each round rotates first and then scans.
   */
  predicate RotationsFrom(b: Grid, rows: int, columns: int, t: Grid, n: nat, height: int, width: int)
    requires IsBoard(b, rows, columns) && IsPiece(t) && 0 <= height && 0 <= width
    decreases n
    ensures RotationsFrom(b, rows, columns, t, n, height, width) <==>
      FitsTurned(b, rows, columns, t, n, height, width)
  {
    if n == 0 then false
    else
      var u := MakeRotatee(t);
      OrbitShift(b, rows, columns, t, u, n, height, width);
      if AnyPosition(b, rows, columns, u, height, width) then true
      else RotationsFrom(b, rows, columns, u, n - 1, height, width)
  }

  /** The rotations of `t` after the first are the rotations of its first rotation `u`. */
  lemma OrbitShift(b: Grid, rows: int, columns: int, t: Grid, u: Grid, n: nat, height: int, width: int)
    requires IsPiece(t) && u == MakeRotatee(t) && n >= 1
    ensures FitsTurned(b, rows, columns, t, n, height, width) <==>
      FitsWithin(b, rows, columns, u, height, width) || FitsTurned(b, rows, columns, u, n - 1, height, width)
  {
    forall k | 1 <= k <= n ensures Turns(t, k) == Turns(u, k - 1) {
    }
    if FitsTurned(b, rows, columns, t, n, height, width) {
      var k :| 1 <= k <= n && FitsWithin(b, rows, columns, Turns(t, k), height, width);
      if k > 1 {
        assert FitsWithin(b, rows, columns, Turns(u, k - 1), height, width);
      }
    }
    if FitsTurned(b, rows, columns, u, n - 1, height, width) {
      var k :| 1 <= k <= n - 1 && FitsWithin(b, rows, columns, Turns(u, k), height, width);
      assert Turns(t, k + 1) == Turns(u, k);
    }
    if FitsWithin(b, rows, columns, u, height, width) {
      assert Turns(t, 1) == u;
      assert FitsWithin(b, rows, columns, Turns(t, 1), height, width);
    }
  }

  /**
   * canPlaceTetriminoForAnyRotation: the piece turned once, twice, three
   * and four times, each scanned over all anchors below `height` x `width`.
   */
  predicate AnyRotation(b: Grid, rows: int, columns: int, t: Grid, height: int, width: int)
    requires IsBoard(b, rows, columns) && IsPiece(t) && 0 <= height && 0 <= width
    ensures AnyRotation(b, rows, columns, t, height, width) <==>
      FitsTurned(b, rows, columns, t, 4, height, width)
  {
    RotationsFrom(b, rows, columns, t, 4, height, width)
  }

  /** The positions of the 1s of piece `t` at anchor (row, col), in board coordinates. */
  ghost function Covered(t: Grid, row: int, col: int): set<(int, int)> {
    set q | q in Cells(t) :: (q.0 + row, q.1 + col)
  }

  /**
   * A placement adds exactly the cells the piece covers to the 1s of the
   * board, none of which was a 1 before; so the board gains as many 1s as
   * the placement earned points.
   */
  lemma PlaceAddsCells(b: Grid, rows: int, columns: int, row: int, col: int, t: Grid)
    requires IsBoard(b, rows, columns) && 0 <= row && 0 <= col
    requires Fits(b, rows, columns, row, col, t)
    ensures Cells(Place(b, rows, columns, row, col, t).board) == Cells(b) + Covered(t, row, col)
    ensures Cells(b) !! Covered(t, row, col)
    ensures CountOnes(Place(b, rows, columns, row, col, t).board) == CountOnes(b) + CountOnes(t)
  {
    var nb := Place(b, rows, columns, row, col, t).board;
    PlacedCells(b, nb, rows, columns, row, col, t);
    CoveredSize(t, row, col);
    CountOnesIsSize(nb);
    CountOnesIsSize(b);
    CountOnesIsSize(t);
  }

  /** The 1s of a board `nb` that is `b` with the piece written in. */
  lemma PlacedCells(b: Grid, nb: Grid, rows: int, columns: int, row: int, col: int, t: Grid)
    requires IsBoard(b, rows, columns) && IsBoard(nb, rows, columns) && 0 <= row && 0 <= col
    requires Fits(b, rows, columns, row, col, t)
    requires forall x, y :: 0 <= x < rows && 0 <= y < columns ==>
      nb[x][y] == if Filled(t, x - row, y - col) then 1 else b[x][y]
    ensures Cells(nb) == Cells(b) + Covered(t, row, col)
    ensures Cells(b) !! Covered(t, row, col)
  {
    forall q | q in Covered(t, row, col) ensures q in Cells(nb) && q !in Cells(b) {
      var i, j := q.0 - row, q.1 - col;
      assert (i, j) in Cells(t);
      assert Filled(t, i, j);
    }
    forall q | q in Cells(nb) ensures q in Cells(b) + Covered(t, row, col) {
      var x, y := q.0, q.1;
      if Filled(t, x - row, y - col) {
        assert (x - row, y - col) in Cells(t);
      }
    }
  }

  /** Moving the cells of a piece to an anchor keeps their number. */
  lemma CoveredSize(t: Grid, row: int, col: int)
    ensures |Covered(t, row, col)| == |Cells(t)|
  {
    var f := (q: (int, int)) => (q.0 + row, q.1 + col);
    assert Covered(t, row, col) == set q | q in Cells(t) :: f(q);
    InjectiveImage(Cells(t), f);
  }

  /** Once placed, a piece with a 1 cannot be placed again at the same anchor. */
  lemma PlacedSpotTaken(b: Grid, rows: int, columns: int, row: int, col: int, t: Grid)
    requires IsBoard(b, rows, columns) && 0 <= row && 0 <= col
    requires Fits(b, rows, columns, row, col, t) && HasOne(t)
    ensures !CanPlace(Place(b, rows, columns, row, col, t).board, rows, columns, row, col, t)
  {
    var i :| 0 <= i < |t| && RowHasOne(t[i]);
    var j :| 0 <= j < |t[i]| && t[i][j] == 1;
    assert Filled(t, i, j);
    assert Filled(Place(b, rows, columns, row, col, t).board, row + i, col + j);
  }

  /** Some of the first `n` rotations fits exactly when some of the first `n - 1` or the `n`th does. */
  lemma PeelLastTurn(b: Grid, rows: int, columns: int, t: Grid, n: nat, height: int, width: int)
    requires IsPiece(t) && n >= 1
    ensures FitsTurned(b, rows, columns, t, n, height, width) <==>
      FitsTurned(b, rows, columns, t, n - 1, height, width) ||
      FitsWithin(b, rows, columns, Turns(t, n), height, width)
  {
    if FitsTurned(b, rows, columns, t, n, height, width) {
      var k :| 1 <= k <= n && FitsWithin(b, rows, columns, Turns(t, k), height, width);
      if k < n {
        assert FitsTurned(b, rows, columns, t, n - 1, height, width);
      } else {
        assert FitsWithin(b, rows, columns, Turns(t, n), height, width);
      }
    }
    if FitsTurned(b, rows, columns, t, n - 1, height, width) {
      var k :| 1 <= k <= n - 1 && FitsWithin(b, rows, columns, Turns(t, k), height, width);
      assert 1 <= k <= n;
      assert FitsTurned(b, rows, columns, t, n, height, width);
    }
    if FitsWithin(b, rows, columns, Turns(t, n), height, width) {
      assert FitsTurned(b, rows, columns, t, n, height, width);
    }
  }

  /**
   * Rotating first and testing four rotations still covers the piece as it
   * is: for a canonical piece the fourth rotation is the piece itself.
   */
  lemma FourthTurnIsPiece(b: Grid, rows: int, columns: int, t: Grid, height: int, width: int)
    requires Normal(t) && FitsWithin(b, rows, columns, t, height, width)
    ensures FitsTurned(b, rows, columns, t, 4, height, width)
  {
    FourTurns(t);
    assert FitsWithin(b, rows, columns, Turns(t, 4), height, width);
  }

  /**
   * A rotation never changes whether some rotation of a canonical piece
   * fits: the four rotations of the rotated piece are those of the piece.
   */
  lemma TurnedSameVerdict(b: Grid, rows: int, columns: int, t: Grid, height: int, width: int)
    requires Normal(t)
    ensures FitsTurned(b, rows, columns, t, 4, height, width) <==>
      FitsTurned(b, rows, columns, MakeRotatee(t), 4, height, width)
  {
    var u := MakeRotatee(t);
    RotateKeepsShape(t);
    FourTurns(u);
    OrbitShift(b, rows, columns, t, u, 4, height, width);
    PeelLastTurn(b, rows, columns, u, 4, height, width);
  }

  /** A piece with a 1 only fits at anchors inside the board. */
  lemma FitsInsideBoard(b: Grid, rows: int, columns: int, t: Grid, height: int, width: int)
    requires HasOne(t) && FitsWithin(b, rows, columns, t, height, width)
    ensures FitsWithin(b, rows, columns, t, rows, columns)
  {
    var x, y :| 0 <= x < height && 0 <= y < width && Fits(b, rows, columns, x, y, t);
    var i :| 0 <= i < |t| && RowHasOne(t[i]);
    var j :| 0 <= j < |t[i]| && t[i][j] == 1;
    assert Filled(t, i, j);
  }

  /** Scanning more anchors finds at least what scanning fewer finds. */
  lemma FitsWithinWider(b: Grid, rows: int, columns: int, t: Grid, height: int, width: int,
                        height': int, width': int)
    requires height <= height' && width <= width'
    requires FitsWithin(b, rows, columns, t, height, width)
    ensures FitsWithin(b, rows, columns, t, height', width')
  {
    var x, y :| 0 <= x < height && 0 <= y < width && Fits(b, rows, columns, x, y, t);
    assert 0 <= x < height' && 0 <= y < width';
  }

  /**
   * A rotation that fits anywhere in the fixed scan fits inside the board;
   * and when the board is no larger than the fixed scan, the converse holds.
   */
  lemma ScanBoundsCompared(b: Grid, rows: int, columns: int, t: Grid, n: nat)
    requires IsPiece(t)
    ensures FitsTurned(b, rows, columns, t, n, ROWS, COLUMNS) ==>
      FitsTurned(b, rows, columns, t, n, rows, columns)
    ensures rows <= ROWS && columns <= COLUMNS ==>
      (FitsTurned(b, rows, columns, t, n, ROWS, COLUMNS) <==>
       FitsTurned(b, rows, columns, t, n, rows, columns))
  {
    if FitsTurned(b, rows, columns, t, n, ROWS, COLUMNS) {
      var k :| 1 <= k <= n && FitsWithin(b, rows, columns, Turns(t, k), ROWS, COLUMNS);
      FitsInsideBoard(b, rows, columns, Turns(t, k), ROWS, COLUMNS);
    }
    if rows <= ROWS && columns <= COLUMNS && FitsTurned(b, rows, columns, t, n, rows, columns) {
      var k :| 1 <= k <= n && FitsWithin(b, rows, columns, Turns(t, k), rows, columns);
      FitsWithinWider(b, rows, columns, Turns(t, k), rows, columns, ROWS, COLUMNS);
    }
  }

  /** A fresh board of `rows` rows of `columns` zeros each. */
  function Zeros(rows: nat, columns: nat): (b: Grid)
    ensures IsBoard(b, rows, columns)
    ensures forall x, y :: !Filled(b, x, y)
  {
    seq(rows, _ => seq(columns, _ => 0))
  }

  /**
   * On an empty board of at least 4 x 4 cells a 4 x 4 piece fits at the
   * top-left corner, so its first rotation fits in any scan.
   */
  lemma EmptyBoardTakesPiece(rows: nat, columns: nat, t: Grid, height: int, width: int)
    requires 4 <= rows && 4 <= columns && IsPiece(t) && 1 <= height && 1 <= width
    ensures FitsTurned(Zeros(rows, columns), rows, columns, t, 4, height, width)
  {
    var u := Turns(t, 1);
    assert Fits(Zeros(rows, columns), rows, columns, 0, 0, u);
    assert FitsWithin(Zeros(rows, columns), rows, columns, u, height, width);
  }
}
