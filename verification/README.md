# Tetrimino placement game — Dafny model

A model of the game logic in `pages/base.tsx`, a single-page puzzle game. The
player is offered one of seven tetriminos (I, O, T, L, J, S, Z) as a 4 x 4
0/1 matrix. They may turn it clockwise with the rotate button, and they place
it by clicking a board cell, which becomes the piece's top-left corner. A
placement is allowed when every 1 of the piece lands inside the board on an
empty cell. It fills those cells, earns 100 points per cell and draws a new
piece. Whenever a new piece is offered, the program sets a game-over flag
when no rotation of the piece fits at any anchor of a fixed 7 x 7 scan area,
whatever the size of the board. Once the flag is set, clicks are ignored. The
reset button, and any change of the board size, clears the board and the
score.

The project has five modules:

- `Matrix` (`matrix.dfy`): the matrix transforms behind the rotate button.
  These are the clockwise quarter turn, the crop to the top-left 1 and the
  padding back to 4 x 4, composed as `MakeRotatee`. The module also counts
  the 1s of a matrix.
- `Rotations` (`rotations.dfy`): what one rotate step does to a piece. Each 1
  moves as in a quarter turn, then the piece is pushed into the top-left
  corner. The result is canonical, keeps its number of cells, and four steps
  give a canonical piece back.
- `Catalog` (`catalog.dfy`): the seven pieces and the draw of one of them.
- `Board` (`board.dfy`): the placement check, the placement itself, the
  anchor scan, and the rotation scan of the game-over test.
- `Game` (`game.dfy`): the session state and its three transitions (reset,
  rotate, click), the invariant they keep, and the finding below. The
  session is stated for a scan parameter: `AsWritten` is the program's
  7 x 7 anchor scan, and `WholeBoard` scans every cell of the board, as the
  finding calls for. Every session property is proved for both.

Cells are `int`, as in the source, which compares cells with `=== 1`. A
cell outside a matrix reads as "not 1", as `undefined === 1` does.

## Model

| member | source | states |
|---|---|---|
| Matrix.MinColStep | pages/base.tsx:218-223 | One step of the column search: a row without a 1 keeps the running minimum. Otherwise the result is the row's first 1 when there is no minimum yet, and the smaller of the two when there is one. |
| Matrix.FirstOne | pages/base.tsx:219 | The index of the first 1 of a row. The result is -1 exactly when the row has no 1; otherwise that cell is 1 and no earlier cell is. |
| Matrix.TopRow | pages/base.tsx:225 | The first row holding a 1, or -1 exactly when the matrix has no 1. No 1 lies above it. |
| Matrix.LeftCol | pages/base.tsx:218-224 | The smallest column holding a 1 in any row, or -1 exactly when there is none. Some row has a 1 in that column and no 1 lies left of it. |
| Matrix.Rotate | pages/base.tsx:201-215 | The result has the input's width as its height and the input's height as its width. Cell (c, k) of the result is cell (rows-1-k, c) of the input: a clockwise quarter turn. |
| Matrix.RotateFilled | pages/base.tsx:201-215 | A quarter turn moves the 1 at (i, j) to (j, rows-1-i) and creates no other 1. It keeps "has a 1". |
| Matrix.HalfTurn | pages/base.tsx:201-215 | Two quarter turns keep the dimensions and read the matrix back to front in both directions. |
| Matrix.FourQuarterTurns | pages/base.tsx:201-215 | Four quarter turns give any non-empty rectangular matrix back. |
| Matrix.Crop | pages/base.tsx:227-231 | The crop has one row per input row from the top row on. Each of its rows is that input row sliced from the left column on. |
| Matrix.CropKeepsOnes | pages/base.tsx:227-231 | Cropping at a matrix's first 1-row and first 1-column moves every 1 up and left by that offset and loses none. The crop's first row and first column each hold a 1. |
| Matrix.ShiftToTopLeft | pages/base.tsx:217-234 | For a matrix with a 1, the result is the input cropped at its top row and left column of 1s. Its first row and its first column each hold a 1. |
| Matrix.PadRow | pages/base.tsx:243-247 | The inner padding loop over row i, from column j up to the width of row 0: a frame cell of row i at or after j becomes 1 exactly when the input has a 1 there, and every other cell is unchanged. |
| Matrix.PadRows | pages/base.tsx:242-248 | The outer padding loop from row i: a frame cell in a row at or after i, left of the width of row 0, becomes 1 exactly when the input has a 1 there, and every other cell is unchanged. |
| Matrix.PadTo4x4 | pages/base.tsx:236-251 | The result is a 4 x 4 0/1 matrix. Each cell is 1 exactly when the input has a 1 at the same position left of the width of row 0, the loop bound the source takes. 1s beyond the frame or right of that width are dropped. |
| Matrix.PadCropped | pages/base.tsx:227-251 | Padding a crop of a rectangular matrix gives the frame whose cell (a, b) is 1 exactly when the original has a 1 at (a+top, b+left). |
| Matrix.ShiftThenPad | pages/base.tsx:217-251 | Shifting to the top-left and padding gives that frame, anchored at the matrix's top row and left column. |
| Matrix.MakeRotatee | pages/base.tsx:254-264 | A rotate step gives a 4 x 4 0/1 matrix, which still holds a 1 when the input has at most 4 rows. |
| Matrix.RotateeFramed | pages/base.tsx:254-264 | A rotate step's result is the quarter-turned input, pushed so that its first 1-row and first 1-column sit at row 0 and column 0. |
| Matrix.CountOnesIsSize | pages/base.tsx:177-185 | Counting the 1s row by row gives the number of filled cells. |
| Rotations.BoxExists | pages/base.tsx:217-225 | Every 4 x 4 piece with a 1 has a bounding box, starting at its top row and left column of 1s, that holds all its 1s. |
| Rotations.Step | pages/base.tsx:254-264 | On a piece with bounding box [r0..r1] x [c0..c1], a rotate step moves the 1 at (x, y) to (y-c0, r1-x) and creates no other 1. The new box is [0..c1-c0] x [0..r1-r0]. |
| Rotations.Turns | pages/base.tsx:88-97 | Any number of rotate steps keeps a 4 x 4 matrix with a 1. |
| Rotations.SameOnes | pages/base.tsx:236-251 | Two 4 x 4 0/1 frames with the same 1s are equal. |
| Rotations.FourTurns | pages/base.tsx:194-199 | For a canonical piece (top row and left column of 1s both at 0), one step gives a canonical piece and four steps give the piece back. |
| Rotations.NormalAfterStep | pages/base.tsx:254-264 | A rotate step on any piece gives a canonical piece. |
| Rotations.CountMoved | pages/base.tsx:177-185 | Moving every 1 by the step's map keeps the number of 1s. |
| Rotations.RotateKeepsShape | pages/base.tsx:254-264 | A rotate step on any piece gives a canonical piece with the same number of 1s. |
| Catalog.ShapesAreTetriminos | pages/base.tsx:16-59 | Each of the seven pieces is canonical, 0/1, and has exactly four 1s. |
| Catalog.Draw | pages/base.tsx:120-124 | The drawn piece is one of the seven and is a tetrimino. |
| Catalog.RotatedTetrimino | pages/base.tsx:194-199 | A rotate press keeps a tetrimino a tetrimino, and four presses give the same piece back. |
| Board.CellOk | pages/base.tsx:134-145 | The test for one cell of the piece passes exactly when that cell is not 1, or it lands inside the board on a cell that is not 1. |
| Board.CanPlaceRow | pages/base.tsx:133-148 | The inner loop of the placement check accepts exactly when every 1 from column j on lands inside the board on an empty cell. |
| Board.CanPlaceFrom | pages/base.tsx:132-148 | The outer loop accepts exactly when every 1 from row i on lands inside the board on an empty cell. |
| Board.CanPlace | pages/base.tsx:131-149 | The placement check accepts exactly when every 1 of the piece lands inside the board on a cell that is not 1. The bounds test comes before the board read. |
| Board.PlaceRow | pages/base.tsx:178-184 | The inner placement loop over row i of the piece, from column j: each 1 of that row at or after j becomes a 1 of the board, every other cell keeps its value, and one point is earned per such 1. |
| Board.PlaceFrom | pages/base.tsx:177-185 | The outer placement loop from row i of the piece: each 1 in the remaining rows becomes a 1 of the board, every other cell keeps its value, and one point is earned per such 1. |
| Board.Place | pages/base.tsx:166-185 | Placing a piece that fits keeps the board's size and counts one point per 1 of the piece. Each cell becomes 1 where the piece has a 1 and is unchanged elsewhere. |
| Board.PlaceAddsCells | pages/base.tsx:166-187 | After a placement, the filled cells are the old ones plus the piece's cells moved to the anchor. The two sets are disjoint, and the number of 1s grows by the piece's count. |
| Board.PlacedSpotTaken | pages/base.tsx:131-149 | A piece with a 1 that was just placed no longer fits at the same anchor. |
| Board.ScanRow | pages/base.tsx:101-105 | The inner anchor loop finds a fit exactly when the piece fits at some column from y up to the width in that row. |
| Board.ScanFrom | pages/base.tsx:100-106 | The outer anchor loop finds a fit exactly when the piece fits at some anchor from row x on. |
| Board.AnyPosition | pages/base.tsx:99-108 | The anchor scan succeeds exactly when the piece fits at some anchor below the given height and width. |
| Board.RotationsFrom | pages/base.tsx:88-97 | The rotation loop with n steps left succeeds exactly when one of rotations 1..n of the piece fits in the scan. Each step turns the piece before it is checked. |
| Board.OrbitShift | pages/base.tsx:89-93 | Rotations 1..n of a piece are its next rotation plus rotations 1..n-1 of that next rotation. |
| Board.AnyRotation | pages/base.tsx:88-97 | The game-over scan succeeds exactly when one of rotations 1..4 of the piece fits at some scanned anchor. |
| Board.PeelLastTurn | pages/base.tsx:88-97 | Rotations 1..n fit exactly when rotations 1..n-1 fit or rotation n does. |
| Board.FourthTurnIsPiece | pages/base.tsx:88-97 | For a canonical piece, the fourth rotation checked is the piece itself, so a piece that fits as offered passes the scan. |
| Board.TurnedSameVerdict | pages/base.tsx:80-97 | Turning a canonical piece does not change whether some rotation of it fits. |
| Board.FitsInsideBoard | pages/base.tsx:131-149 | A piece with a 1 can fit only at anchors inside the board. |
| Board.FitsWithinWider | pages/base.tsx:99-108 | Scanning more anchors never loses a fit. |
| Board.ScanBoundsCompared | pages/base.tsx:5-6 | A fit found by the fixed 7 x 7 anchor scan is a fit on the board. On boards no larger than 7 x 7 the two scans agree. |
| Board.Zeros | pages/base.tsx:73 | A fresh board has the requested size and no 1. |
| Board.EmptyBoardTakesPiece | pages/base.tsx:71-78 | On an empty board of at least 4 x 4 cells, some rotation of any piece fits. |
| Game.GameOverAsWritten | pages/base.tsx:83-108 | The program's game-over test: over exactly when none of rotations 1..4 of the piece fits at an anchor of the fixed 7 x 7 scan area. |
| Game.GameOver | pages/base.tsx:80-86 | Corrected game-over test: over exactly when no rotation 1..4 of the piece fits at any cell of the board. |
| Game.Over | pages/base.tsx:80-86 | The flag under a scan: set exactly when no rotation 1..4 of the piece fits at an anchor of that scan (7 x 7 as written, the whole board when corrected). |
| Game.Valid | pages/base.tsx:61-86 | The session invariant: a 0/1 board of the chosen size, a tetrimino on offer, 100 points per filled cell, and the game-over flag of the scan in use. |
| Game.OverMeansNoFit | pages/base.tsx:80-86 | With the whole-board scan, the flag is set exactly when no rotation of the piece fits at any cell. |
| Game.SomeTurnFits | pages/base.tsx:88-108 | The rotation scan over the whole board succeeds exactly when some rotation fits at some cell. |
| Game.Reset | pages/base.tsx:110-118 | Under either scan, a reset keeps the chosen size, empties the board, zeroes the score, offers the drawn piece, and gives a valid state. On a board of at least 4 x 4 cells the game is not over. |
| Game.Start | pages/base.tsx:63-78 | Under either scan, after mounting the 16 x 16 game is valid, not over, and scores 0. |
| Game.RotatePress | pages/base.tsx:194-199 | Under either scan, a rotate press turns the piece even after game over. It keeps board, score and validity, and does not change the game-over flag. |
| Game.OneMorePiece | pages/base.tsx:188 | A 0/1 board with four more 1s, 400 more points and a new tetrimino keeps the state valid. |
| Game.PlaceAndDraw | pages/base.tsx:173-189 | A successful click adds exactly the piece's cells to the filled cells, without overlap, and the board stays 0/1, so every other cell is unchanged. It earns 400 points, offers the drawn piece, and keeps the state valid. |
| Game.Click | pages/base.tsx:160-192 | Under either scan, a click does nothing once the flag is set or when the piece does not fit. Otherwise it fills exactly the piece's cells, adds 400 points and offers the drawn piece. Every outcome is a valid state. |
| Game.Presses | pages/base.tsx:194-199 | After n rotate presses the piece is its n-th rotation. The board, score and game-over flag are unchanged and the state stays valid. |
| Game.NotOverIffSomeMoveScores | pages/base.tsx:80-108 | Under either scan, the flag is clear exactly when some number of rotate presses (1 to 4), followed by a click on some cell, earns points. |
| Game.TurnFitsSomewhere | pages/base.tsx:88-108 | A fit found by the rotation scan is a fit of a rotation at a cell. |
| Game.SomewhereTurnFits | pages/base.tsx:88-108 | A rotation that fits at a cell is found by the rotation scan. |
| Game.NotOverMoveScores | pages/base.tsx:160-192 | When the game is not over, some rotation count and cell make a click score. |
| Game.OverNoMoveScores | pages/base.tsx:160-164 | When the game is over, no number of rotate presses (any number, and in particular 1 to 4) followed by a click on any cell scores. |
| Game.Cornered | pages/base.tsx:99-108 | A square board that is full except for its bottom-right 4 x 4 corner. |
| Game.NoFitNearTop | pages/base.tsx:99-108 | On such a board of at least 14 cells a side, no piece fits at any anchor of the fixed 7 x 7 scan. |
| Game.CornerMissedAsWritten | pages/base.tsx:99-108 | On that board the game-over test as written reports game over for every piece, though every piece fits in the corner. |
| Game.SmallBoardsAgree | pages/base.tsx:5-6 | On boards no larger than 7 x 7 the test as written and the corrected test agree. |
| Game.AsWrittenOverReports | pages/base.tsx:99-108 | Whenever the corrected test reports game over, so does the test as written. |
| Game.CornerClickIgnored | pages/base.tsx:160-164 | In the program's session on that board the flag is set though the piece fits somewhere, and a click in the empty corner is ignored. |
| Game.CornerOpen | pages/base.tsx:99-108 | In the corrected session on that board the flag is clear and the piece fits in the corner. |
| Game.CornerClickScores | pages/base.tsx:160-189 | In the corrected session on that board a click in the empty corner earns 400 points. |

## Left out

- Rendering is not modelled: the JSX, the hover highlight and its handlers (pages/base.tsx:151-158, 266-367), and `console.log`.
- `Math.random` is not modelled. The draw in `getRandomTetrimino` is the index `k` passed to `Catalog.Draw`, `Game.Reset` and `Game.Click`.
- The size inputs are not modelled. They go through `parseInt` (pages/base.tsx:348-352), which can yield `NaN` or a negative number. `Game.Reset` takes the size as two non-negative integers. A negative or `NaN` row count gives an empty board through `Array.from({ length: rows })` without throwing. A negative or `NaN` column count with at least one row throws in `Array(columns)`. Both are outside the model.
- The short first render is not modelled. It has a 7 x 7 board and no piece (pages/base.tsx:65-66); `Game.Start` is the state after the mount effect has run.
- `Game.Reset`: the reset handler also sets the game-over flag to false (pages/base.tsx:117). The model keeps the value that the piece-change effect (pages/base.tsx:80-86) recomputes afterwards. The two agree on every board of at least 4 x 4 cells, which `Game.Reset` proves.
- React re-runs the piece-change effect only when the new piece is a different array. Drawing the same catalog array twice in a row skips the recomputation. The model always recomputes. The difference shows only when the same piece is drawn twice in a row, and then in the flag. After a placement the flag keeps its old value (clear), even when the new board leaves the piece no room. After a change of the size inputs (pages/base.tsx:71-78), which never clears the flag, a game that was over stays over on the fresh board, and every click on it is ignored.
- React batches state updates; each handler is modelled as one atomic step from one state to the next.
- The `selectedTetrimino` null checks (pages/base.tsx:82, 171, 195) are not modelled. After mounting a piece is always present, so the model's state always holds one.
- Scores are unbounded integers. JavaScript numbers lose precision beyond 2^53, which no game reaches.
- `Matrix.MakeRotatee`: its own contract states only the shape of the result. What the step does to each cell is stated by `Matrix.RotateeFramed` and `Rotations.Step`, because the full statement as a function contract made every use of the function too expensive to verify.
- `Matrix.ShiftToTopLeft` requires a 1 in its input. On a matrix without one, the source reads `matrix[-1]` and throws. No piece reaches that case.
- `Matrix.Rotate` requires a non-empty, rectangular input, and `Matrix.PadTo4x4` a non-empty one. The source reads `matrix[0].length` and throws on an empty matrix, and pieces are always 4 x 4.
- `Rotations.Turns`: periodicity is proved only as `Turns(p, 4) == p` for canonical pieces, not `Turns(p, n + 4) == Turns(p, n)` for every `n`. The game only ever tests rotations 1 to 4.

## Findings

| source | as written | input that shows it | evidently intended | confidence | as-written member | corrected member |
|---|---|---|---|---|---|---|
| pages/base.tsx:99-108 | The game-over anchor scan runs over rows 0..ROWS-1 and columns 0..COLUMNS-1, with the fixed ROWS = COLUMNS = 7. The board is `rows` x `columns`, 16 x 16 by default. | A 16 x 16 board (or any square board of at least 14 cells a side) that is full except for its bottom-right 4 x 4 corner, with any piece on offer. The scan reports game over and later clicks are ignored, but the piece fits with its top-left corner at (12, 12). | Scan every anchor of the `rows` x `columns` board, so that the game ends only when no rotation of the piece fits anywhere. | high; not executed | Game.CornerClickIgnored | Game.OverMeansNoFit |

`Game.GameOverAsWritten` is the test as written and `Game.CornerMissedAsWritten` exhibits the missed fit. `Game.CornerClickIgnored` shows the consequence in the program's session (`AsWritten`): the click in the free corner is ignored. `Game.GameOver` is the corrected test. In the corrected session (`WholeBoard`), `Game.OverMeansNoFit` proves the flag exact, and `Game.CornerClickScores` shows the same click placing the piece. `Game.NotOverIffSomeMoveScores` holds under both scans, because under either one a set flag makes every click a no-op.
