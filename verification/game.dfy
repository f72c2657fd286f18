/**
 * The game session of pages/base.tsx:62-199: the board, the piece on offer,
 * the score and the game-over flag, and the three things a player can do:
 * start over on a fresh board, rotate the piece, and click a cell to place
 * the piece with its top-left corner there.
 *
 * React state updates are modelled as one new state per handler. The
 * piece-change effect (pages/base.tsx:80-86) recomputes the game-over flag
 * whenever a new piece is offered, so every handler that changes the piece
 * recomputes the flag here. The random draw is the parameter `k`.
 *
 * The session is stated for both game-over tests: `AsWritten`, the fixed
 * 7 x 7 anchor scan of the source, and `WholeBoard`, the scan over every
 * cell that the finding in the README calls for.
 */
module Game {
  import opened Matrix
  import opened Rotations
  import opened Catalog
  import opened Board

  /** The board size the component starts with (pages/base.tsx:63-64). */
  const DefaultSize: int := 16

  /** Points per filled cell of a placed piece (pages/base.tsx:188). */
  const CellPoints: int := 100

  datatype State = State(
    rows: int,
    columns: int,
    board: Grid,
    piece: Grid,
    score: int,
    isGameOver: bool)

  /**
   * The game-over test as the source writes it (pages/base.tsx:83, 88-108):
   * no rotation of the piece fits at any anchor below the fixed ROWS x
   * COLUMNS, whatever the size of the board.
   */
  predicate GameOverAsWritten(b: Grid, rows: int, columns: int, t: Grid)
    requires IsBoard(b, rows, columns) && IsPiece(t)
    ensures GameOverAsWritten(b, rows, columns, t) <==>
      !FitsTurned(b, rows, columns, t, 4, ROWS, COLUMNS)
  {
    !AnyRotation(b, rows, columns, t, ROWS, COLUMNS)
  }

  /**
   * The game-over test with the anchor scan over the whole board: no
   * rotation of the piece fits at any cell.
   */
  predicate GameOver(b: Grid, rows: int, columns: int, t: Grid)
    requires IsBoard(b, rows, columns) && IsPiece(t) && 0 <= columns
    ensures GameOver(b, rows, columns, t) <==> !FitsSomewhere(b, rows, columns, t)
  {
    SomeTurnFits(b, rows, columns, t);
    !AnyRotation(b, rows, columns, t, rows, columns)
  }

  /** Some rotation of the piece fits at some cell of the board. */
  ghost predicate FitsSomewhere(b: Grid, rows: int, columns: int, t: Grid)
    requires IsPiece(t)
  {
    exists k, x, y :: 1 <= k <= 4 && 0 <= x < rows && 0 <= y < columns &&
      Fits(b, rows, columns, x, y, Turns(t, k))
  }

  /** A rotation fits on the board exactly when one fits at some cell. */
  lemma SomeTurnFits(b: Grid, rows: int, columns: int, t: Grid)
    requires IsPiece(t)
    ensures FitsTurned(b, rows, columns, t, 4, rows, columns) <==> FitsSomewhere(b, rows, columns, t)
  {
    if FitsTurned(b, rows, columns, t, 4, rows, columns) {
      TurnFitsSomewhere(b, rows, columns, t);
    }
    if FitsSomewhere(b, rows, columns, t) {
      SomewhereTurnFits(b, rows, columns, t);
    }
  }

  lemma TurnFitsSomewhere(b: Grid, rows: int, columns: int, t: Grid)
    requires IsPiece(t) && FitsTurned(b, rows, columns, t, 4, rows, columns)
    ensures FitsSomewhere(b, rows, columns, t)
  {
    var k :| 1 <= k <= 4 && FitsWithin(b, rows, columns, Turns(t, k), rows, columns);
    var x, y :| 0 <= x < rows && 0 <= y < columns && Fits(b, rows, columns, x, y, Turns(t, k));
  }

  lemma SomewhereTurnFits(b: Grid, rows: int, columns: int, t: Grid)
    requires IsPiece(t) && FitsSomewhere(b, rows, columns, t)
    ensures FitsTurned(b, rows, columns, t, 4, rows, columns)
  {
    var k, x, y :| 1 <= k <= 4 && 0 <= x < rows && 0 <= y < columns &&
      Fits(b, rows, columns, x, y, Turns(t, k));
    assert FitsWithin(b, rows, columns, Turns(t, k), rows, columns);
  }

  /**
   * The anchors the game-over test scans: the fixed ROWS x COLUMNS of the
   * source (pages/base.tsx:5-6, 100-101), or every cell of the board.
   */
  datatype Scan = AsWritten | WholeBoard

  /** The anchor rows scanned under `m` on a board of `rows` rows. */
  function ScanRows(m: Scan, rows: int): int {
    if m == AsWritten then ROWS else rows
  }

  /** The anchor columns scanned under `m` on a board of `columns` columns. */
  function ScanColumns(m: Scan, columns: int): int {
    if m == AsWritten then COLUMNS else columns
  }

  /**
   * The game-over flag the piece-change effect sets (pages/base.tsx:80-86)
   * under scan `m`: no rotation of the piece fits at a scanned anchor.
   */
  predicate Over(m: Scan, b: Grid, rows: int, columns: int, t: Grid)
    requires IsBoard(b, rows, columns) && IsPiece(t) && 0 <= columns
    ensures Over(m, b, rows, columns, t) <==>
      !FitsTurned(b, rows, columns, t, 4, ScanRows(m, rows), ScanColumns(m, columns))
  {
    if m == AsWritten then GameOverAsWritten(b, rows, columns, t)
    else GameOver(b, rows, columns, t)
  }

  /**
   * What every reachable state of the session under scan `m` satisfies: a
   * 0/1 board of the chosen size, a tetrimino on offer, a score of 100
   * points per filled cell, and the game-over flag of that scan.
   */
  ghost predicate Valid(m: Scan, s: State) {
    && 0 <= s.rows && 0 <= s.columns
    && IsBoard(s.board, s.rows, s.columns) && Binary(s.board)
    && Tetrimino(s.piece)
    && s.score == CellPoints * CountOnes(s.board)
    && s.isGameOver ==
         !FitsTurned(s.board, s.rows, s.columns, s.piece, 4, ScanRows(m, s.rows), ScanColumns(m, s.columns))
  }

  /**
   * With the whole-board scan the flag means what the game promises: it is
   * set exactly when no rotation of the piece fits at any cell.
   */
  lemma OverMeansNoFit(s: State)
    requires Valid(WholeBoard, s)
    ensures s.isGameOver <==> !FitsSomewhere(s.board, s.rows, s.columns, s.piece)
  {
    SomeTurnFits(s.board, s.rows, s.columns, s.piece);
  }

  /**
   * A fresh board of the chosen size, as the reset button and every change
   * of the size inputs make it (pages/base.tsx:71-78, 110-118): all cells 0,
   * score 0, a drawn piece, and the game-over flag of that piece on the
   * empty board. On a board of at least 4 x 4 cells the game is not over.
   */
  function Reset(m: Scan, rows: int, columns: int, k: nat): (s: State)
    requires 0 <= rows && 0 <= columns && k < |Shapes|
    ensures Valid(m, s)
    ensures s.rows == rows && s.columns == columns && s.piece == Shapes[k]
    ensures Cells(s.board) == {} && s.score == 0
    ensures 4 <= rows && 4 <= columns ==> !s.isGameOver
  {
    var b := Zeros(rows, columns);
    var p := Draw(k);
    assert forall i, j :: 0 <= i < |b| && 0 <= j < |b[i]| ==> b[i][j] == 0;
    assert Cells(b) == {};
    CountOnesIsSize(b);
    assert 4 <= rows && 4 <= columns ==>
      FitsTurned(b, rows, columns, p, 4, ScanRows(m, rows), ScanColumns(m, columns)) by {
      if 4 <= rows && 4 <= columns {
        EmptyBoardTakesPiece(rows, columns, p, ScanRows(m, rows), ScanColumns(m, columns));
      }
    }
    State(rows, columns, b, p, 0, Over(m, b, rows, columns, p))
  }

  /** The first state after the component mounts, on its default 16 x 16 board. */
  function Start(m: Scan, k: nat): (s: State)
    requires k < |Shapes|
    ensures Valid(m, s) && !s.isGameOver && s.score == 0
  {
    Reset(m, DefaultSize, DefaultSize, k)
  }

  /**
   * rotateTetrimino (pages/base.tsx:194-199): the piece turns whether or not
   * the game is over. The board and score stay, and so does the game-over
   * verdict, since the turned piece has the same four rotations.
   */
  function RotatePress(m: Scan, s: State): (r: State)
    requires Valid(m, s)
    ensures Valid(m, r)
    ensures r.piece == MakeRotatee(s.piece)
    ensures r.rows == s.rows && r.columns == s.columns
    ensures r.board == s.board && r.score == s.score
    ensures r.isGameOver == s.isGameOver
  {
    var p := MakeRotatee(s.piece);
    var h, w := ScanRows(m, s.rows), ScanColumns(m, s.columns);
    RotatedTetrimino(s.piece);
    assert FitsTurned(s.board, s.rows, s.columns, s.piece, 4, h, w) <==>
           FitsTurned(s.board, s.rows, s.columns, p, 4, h, w) by {
      TurnedSameVerdict(s.board, s.rows, s.columns, s.piece, h, w);
    }
    s.(piece := p, isGameOver := Over(m, s.board, s.rows, s.columns, p))
  }

  /**
   * A 0/1 board holding one more tetrimino than a valid state's, with a
   * freshly drawn piece and 400 more points, makes a valid state again.
   */
  lemma OneMorePiece(m: Scan, s: State, nb: Grid, p: Grid)
    requires Valid(m, s) && IsBoard(nb, s.rows, s.columns) && Binary(nb) && Tetrimino(p)
    requires CountOnes(nb) == CountOnes(s.board) + 4
    ensures Valid(m, State(s.rows, s.columns, nb, p, s.score + 4 * CellPoints,
                           Over(m, nb, s.rows, s.columns, p)))
  {
  }

  /**
   * The successful branch of handleCellClick (pages/base.tsx:173-189): the
   * piece's cells are filled, 100 points are earned per cell, and the drawn
   * piece is offered with the game-over flag recomputed for it. Since both
   * boards are 0/1, the new board is the old one with exactly the piece's
   * cells set to 1.
   */
  function PlaceAndDraw(m: Scan, s: State, row: int, col: int, k: nat): (r: State)
    requires Valid(m, s) && 0 <= row && 0 <= col && k < |Shapes|
    requires Fits(s.board, s.rows, s.columns, row, col, s.piece)
    ensures Valid(m, r)
    ensures r.rows == s.rows && r.columns == s.columns
    ensures Cells(r.board) == Cells(s.board) + Covered(s.piece, row, col)
    ensures Cells(s.board) !! Covered(s.piece, row, col)
    ensures r.score == s.score + 4 * CellPoints
    ensures r.piece == Shapes[k]
  {
    var placed := Place(s.board, s.rows, s.columns, row, col, s.piece);
    PlaceAddsCells(s.board, s.rows, s.columns, row, col, s.piece);
    assert Binary(placed.board) by {
      forall x, y | 0 <= x < s.rows && 0 <= y < s.columns
        ensures placed.board[x][y] == 0 || placed.board[x][y] == 1
      {
      }
    }
    var p := Draw(k);
    OneMorePiece(m, s, placed.board, p);
    State(s.rows, s.columns, placed.board, p, s.score + placed.points * CellPoints,
          Over(m, placed.board, s.rows, s.columns, p))
  }

  /**
   * handleCellClick (pages/base.tsx:160-192) with the next draw `k`: ignored
   * once the game is over; a no-op when the piece does not fit at the
   * clicked cell; otherwise the piece is placed and a new one drawn.
   */
  function Click(m: Scan, s: State, row: int, col: int, k: nat): (r: State)
    requires Valid(m, s) && 0 <= row < s.rows && 0 <= col < s.columns && k < |Shapes|
    ensures Valid(m, r)
    ensures r.rows == s.rows && r.columns == s.columns
    ensures s.isGameOver ==> r == s
    ensures !Fits(s.board, s.rows, s.columns, row, col, s.piece) ==> r == s
    ensures !s.isGameOver && Fits(s.board, s.rows, s.columns, row, col, s.piece) ==>
      && Cells(r.board) == Cells(s.board) + Covered(s.piece, row, col)
      && r.score == s.score + 4 * CellPoints
      && r.piece == Shapes[k]
  {
    if s.isGameOver then s
    else if !CanPlace(s.board, s.rows, s.columns, row, col, s.piece) then s
    else PlaceAndDraw(m, s, row, col, k)
  }

  /** The state after `n` presses of the rotate button. */
  function Presses(m: Scan, s: State, n: nat): (r: State)
    requires Valid(m, s)
    ensures Valid(m, r)
    ensures r.piece == Turns(s.piece, n)
    ensures r.rows == s.rows && r.columns == s.columns
    ensures r.board == s.board && r.score == s.score
    ensures r.isGameOver == s.isGameOver
    decreases n
  {
    if n == 0 then s else Presses(m, RotatePress(m, s), n - 1)
  }

  /**
   * After `n` presses of the rotate button, a click on cell (x, y) earns
   * points.
   */
  ghost predicate Scores(m: Scan, s: State, n: nat, x: int, y: int)
    requires Valid(m, s) && 0 <= x < s.rows && 0 <= y < s.columns
  {
    Click(m, Presses(m, s, n), x, y, 0).score > s.score
  }

  /**
   * Some number of rotate presses, one to four, followed by a click on some
   * cell earns points.
   */
  ghost predicate SomeMoveScores(m: Scan, s: State)
    requires Valid(m, s)
  {
    exists n: nat, x, y :: 1 <= n <= 4 && 0 <= x < s.rows && 0 <= y < s.columns && Scores(m, s, n, x, y)
  }

  /**
   * Under either scan, the game is not over exactly when some number of
   * rotate presses, one to four, followed by a click on some cell earns
   * points.
   */
  lemma NotOverIffSomeMoveScores(m: Scan, s: State)
    requires Valid(m, s)
    ensures !s.isGameOver <==> SomeMoveScores(m, s)
  {
    if !s.isGameOver {
      NotOverMoveScores(m, s);
    } else {
      OverNoMoveScores(m, s);
    }
  }

  lemma NotOverMoveScores(m: Scan, s: State)
    requires Valid(m, s) && !s.isGameOver
    ensures SomeMoveScores(m, s)
  {
    var h, w := ScanRows(m, s.rows), ScanColumns(m, s.columns);
    var n :| 1 <= n <= 4 && FitsWithin(s.board, s.rows, s.columns, Turns(s.piece, n), h, w);
    FitsInsideBoard(s.board, s.rows, s.columns, Turns(s.piece, n), h, w);
    var x, y :| 0 <= x < s.rows && 0 <= y < s.columns &&
      Fits(s.board, s.rows, s.columns, x, y, Turns(s.piece, n));
    var r := Presses(m, s, n);
    assert Fits(r.board, r.rows, r.columns, x, y, r.piece);
    assert Scores(m, s, n, x, y);
  }

  lemma OverNoMoveScores(m: Scan, s: State)
    requires Valid(m, s) && s.isGameOver
    ensures forall n: nat, x, y :: 0 <= x < s.rows && 0 <= y < s.columns ==> !Scores(m, s, n, x, y)
    ensures !SomeMoveScores(m, s)
  {
    forall n: nat, x, y | 0 <= x < s.rows && 0 <= y < s.columns
      ensures !Scores(m, s, n, x, y)
    {
      var r := Presses(m, s, n);
      assert Click(m, r, x, y, 0) == r;
    }
  }

  /**
   * A size x size board filled everywhere except its bottom-right 4 x 4
   * corner.
   */
  function Cornered(size: nat): (b: Grid)
    requires 4 <= size
    ensures IsBoard(b, size, size)
    ensures forall x, y :: 0 <= x < size && 0 <= y < size ==>
      (Filled(b, x, y) <==> x < size - 4 || y < size - 4)
  {
    seq(size, x => seq(size, y => if x < size - 4 || y < size - 4 then 1 else 0))
  }

  /** A piece anchored inside the fixed scan area overlaps the filled part. */
  lemma NoFitNearTop(size: nat, u: Grid, x: int, y: int)
    requires ROWS + 7 <= size && IsPiece(u)
    requires 0 <= x < ROWS && 0 <= y < COLUMNS
    ensures !Fits(Cornered(size), size, size, x, y, u)
  {
    var i :| 0 <= i < |u| && RowHasOne(u[i]);
    var j :| 0 <= j < |u[i]| && u[i][j] == 1;
    assert Filled(u, i, j);
    assert Filled(Cornered(size), x + i, y + j);
  }

  /** Any piece fits in the empty bottom-right corner. */
  lemma CornerTakesPiece(size: nat, u: Grid)
    requires 4 <= size && Is4x4(u)
    ensures Fits(Cornered(size), size, size, size - 4, size - 4, u)
  {
  }

  /**
   * On a 16 x 16 board, or any square board of at least 14 cells a side,
   * filled except for its bottom-right 4 x 4 corner, the game-over test as
   * written reports game over for every piece, though every piece fits in
   * the corner.
   */
  lemma CornerMissedAsWritten(size: nat, t: Grid)
    requires ROWS + 7 <= size && IsPiece(t)
    ensures GameOverAsWritten(Cornered(size), size, size, t)
    ensures !GameOver(Cornered(size), size, size, t)
  {
    var b := Cornered(size);
    forall k | 1 <= k <= 4
      ensures !FitsWithin(b, size, size, Turns(t, k), ROWS, COLUMNS)
    {
      forall x, y | 0 <= x < ROWS && 0 <= y < COLUMNS
        ensures !Fits(b, size, size, x, y, Turns(t, k))
      {
        NoFitNearTop(size, Turns(t, k), x, y);
      }
    }
    assert !FitsTurned(b, size, size, t, 4, ROWS, COLUMNS);
    CornerTakesPiece(size, Turns(t, 1));
    assert FitsWithin(b, size, size, Turns(t, 1), size, size);
    assert FitsTurned(b, size, size, t, 4, size, size);
  }

  /**
   * On a board no larger than ROWS x COLUMNS the game-over test as written
   * and the whole-board test agree.
   */
  lemma SmallBoardsAgree(b: Grid, rows: int, columns: int, t: Grid)
    requires IsBoard(b, rows, columns) && IsPiece(t)
    requires 0 <= rows <= ROWS && 0 <= columns <= COLUMNS
    ensures GameOverAsWritten(b, rows, columns, t) <==> GameOver(b, rows, columns, t)
  {
    ScanBoundsCompared(b, rows, columns, t, 4);
  }

  /** The test as written never reports a fit that the whole-board test misses. */
  lemma AsWrittenOverReports(b: Grid, rows: int, columns: int, t: Grid)
    requires IsBoard(b, rows, columns) && IsPiece(t) && 0 <= columns
    ensures GameOver(b, rows, columns, t) ==> GameOverAsWritten(b, rows, columns, t)
  {
    ScanBoundsCompared(b, rows, columns, t, 4);
  }

  /**
   * The session as written on the cornered board: the flag is set, so a
   * click in the empty corner is ignored, though the piece fits there.
   */
  lemma CornerClickIgnored(s: State, k: nat)
    requires Valid(AsWritten, s) && ROWS + 7 <= s.rows && s.columns == s.rows
    requires s.board == Cornered(s.rows) && k < |Shapes|
    ensures s.isGameOver && FitsSomewhere(s.board, s.rows, s.columns, s.piece)
    ensures Click(AsWritten, s, s.rows - 4, s.columns - 4, k) == s
  {
    CornerMissedAsWritten(s.rows, s.piece);
  }

  /**
   * On the cornered board the whole-board flag is clear and the piece as
   * offered fits in the empty corner.
   */
  lemma CornerOpen(s: State)
    requires Valid(WholeBoard, s) && ROWS + 7 <= s.rows && s.columns == s.rows
    requires s.board == Cornered(s.rows)
    ensures !s.isGameOver
    ensures Fits(s.board, s.rows, s.columns, s.rows - 4, s.columns - 4, s.piece)
  {
    var size := s.rows;
    CornerTakesPiece(size, s.piece);
    assert FitsWithin(s.board, size, size, s.piece, size, size);
    FourthTurnIsPiece(s.board, size, size, s.piece, size, size);
  }

  /**
   * The corrected session on the same board: the game goes on, and the
   * click in the empty corner places the piece for 400 points.
   */
  lemma CornerClickScores(s: State, k: nat)
    requires Valid(WholeBoard, s) && ROWS + 7 <= s.rows && s.columns == s.rows
    requires s.board == Cornered(s.rows) && k < |Shapes|
    ensures !s.isGameOver
    ensures Click(WholeBoard, s, s.rows - 4, s.columns - 4, k).score == s.score + 4 * CellPoints
  {
    CornerOpen(s);
    FitClickScores(WholeBoard, s, s.rows - 4, s.columns - 4, k);
  }

  /** In a game that is not over, a click where the piece fits earns 400 points. */
  lemma FitClickScores(m: Scan, s: State, row: int, col: int, k: nat)
    requires Valid(m, s) && !s.isGameOver && k < |Shapes|
    requires 0 <= row < s.rows && 0 <= col < s.columns
    requires Fits(s.board, s.rows, s.columns, row, col, s.piece)
    ensures Click(m, s, row, col, k).score == s.score + 4 * CellPoints
  {
  }
}
