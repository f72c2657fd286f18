/**
 * Integer matrices as sequences of rows, and the three transforms that turn
 * a piece into its next clockwise quarter-turn: rotate, shift to the
 * top-left corner, and pad back to a 4x4 frame (pages/base.tsx:201-264).
 *
 * A cell counts as filled only when it holds exactly 1, as the source's
 * `=== 1` tests do; reading past the end of a row in JavaScript yields
 * `undefined`, which is not 1, and `Filled` is false there as well.
 */
module Matrix {

  type Grid = seq<seq<int>>

  /** Every row has `width` cells. */
  predicate Rectangular(m: Grid, width: int) {
    forall i :: 0 <= i < |m| ==> |m[i]| == width
  }

  predicate Is4x4(m: Grid) {
    |m| == 4 && Rectangular(m, 4)
  }

  /** Every cell is 0 or 1. */
  predicate Binary(m: Grid) {
    forall i, j :: 0 <= i < |m| && 0 <= j < |m[i]| ==> m[i][j] == 0 || m[i][j] == 1
  }

  /** `m[i][j] === 1`, false for any position outside the matrix. */
  predicate Filled(m: Grid, i: int, j: int) {
    0 <= i < |m| && 0 <= j < |m[i]| && m[i][j] == 1
  }

  /** Some cell of the row holds a 1. */
  predicate RowHasOne(row: seq<int>) {
    exists j :: 0 <= j < |row| && row[j] == 1
  }

  predicate HasOne(m: Grid) {
    exists i :: 0 <= i < |m| && RowHasOne(m[i])
  }

  /** The first column of the row holding a 1, or -1 when there is none. */
  function FirstOne(row: seq<int>): (k: int)
    ensures -1 <= k < |row|
    ensures k == -1 <==> !RowHasOne(row)
    ensures 0 <= k ==> row[k] == 1 && forall j :: 0 <= j < k ==> row[j] != 1
  {
    if |row| == 0 then -1
    else if row[0] == 1 then 0
    else
      var k := FirstOne(row[1..]);
      assert forall j :: 0 < j < |row| ==> row[j] == row[1..][j - 1];
      if k == -1 then -1 else k + 1
  }

  /**
   * The first row holding a 1, searched from the top, or -1 when there is
   * none.
   */
  function TopRow(m: Grid): (top: int)
    ensures -1 <= top < |m|
    ensures top == -1 <==> !HasOne(m)
    ensures 0 <= top ==> RowHasOne(m[top])
    ensures forall i, j :: Filled(m, i, j) ==> top <= i
  {
    if |m| == 0 then -1
    else if RowHasOne(m[0]) then 0
    else
      var k := TopRow(m[1..]);
      assert forall i, j :: Filled(m, i, j) && 0 < i ==> Filled(m[1..], i - 1, j);
      if k == -1 then -1 else k + 1
  }

  /**
   * The callback of the column search in shiftToTopLeft: keep the smaller of
   * the running minimum and this row's first 1, where -1 means "none yet".
   */
  function MinColStep(minCol: int, row: seq<int>): (r: int)
    ensures !RowHasOne(row) ==> r == minCol
    ensures RowHasOne(row) && minCol == -1 ==>
      0 <= r < |row| && row[r] == 1 && forall j :: 0 <= j < r ==> row[j] != 1
    ensures RowHasOne(row) && 0 <= minCol ==>
      && 0 <= r <= minCol
      && (r < minCol ==> r < |row| && row[r] == 1)
      && forall j :: 0 <= j < r && j < |row| ==> row[j] != 1
  {
    var first := FirstOne(row);
    if first != -1 && (minCol == -1 || first < minCol) then first else minCol
  }

  /**
   * `matrix.reduce(MinColStep, -1)`: the leftmost column holding a 1 in any
   * row, or -1 when there is none.
   */
  function LeftCol(m: Grid): (left: int)
    ensures -1 <= left
    ensures left == -1 <==> !HasOne(m)
    ensures 0 <= left ==> exists i :: Filled(m, i, left)
    ensures forall i, j :: Filled(m, i, j) ==> left <= j
  {
    if |m| == 0 then -1
    else
      var prefix := m[..|m| - 1];
      var prev := LeftCol(prefix);
      assert forall i, j :: Filled(prefix, i, j) ==> Filled(m, i, j);
      assert forall i, j :: 0 <= i < |m| - 1 && Filled(m, i, j) ==> Filled(prefix, i, j);
      var last := m[|m| - 1];
      assert HasOne(m) <==> HasOne(prefix) || RowHasOne(last) by {
        assert forall i :: 0 <= i < |prefix| ==> prefix[i] == m[i];
      }
      var left := MinColStep(prev, last);
      assert left == FirstOne(last) ==> 0 <= left ==> Filled(m, |m| - 1, left);
      assert left == prev ==> 0 <= left ==> exists i :: Filled(prefix, i, left);
      left
  }

  /**
   * rotateMatrix: a quarter-turn clockwise. Row c of the result is column c
   * of `m` read from the bottom up.
   */
  function Rotate(m: Grid): (r: Grid)
    requires |m| >= 1 && Rectangular(m, |m[0]|)
    ensures |r| == |m[0]| && Rectangular(r, |m|)
    ensures forall c, k :: 0 <= c < |r| && 0 <= k < |m| ==> r[c][k] == m[|m| - 1 - k][c]
  {
    seq(|m[0]|, c requires 0 <= c < |m[0]| =>
      seq(|m|, k requires 0 <= k < |m| => m[|m| - 1 - k][c]))
  }

  /** A cell of `m` is filled exactly when its image under Rotate is. */
  lemma RotateFilled(m: Grid)
    requires |m| >= 1 && Rectangular(m, |m[0]|)
    ensures forall i, j :: Filled(m, i, j) <==> Filled(Rotate(m), j, |m| - 1 - i)
    ensures HasOne(m) <==> HasOne(Rotate(m))
  {
    var r := Rotate(m);
    if HasOne(m) {
      var i :| 0 <= i < |m| && RowHasOne(m[i]);
      var j :| 0 <= j < |m[i]| && m[i][j] == 1;
      assert r[j][|m| - 1 - i] == 1;
    }
    if HasOne(r) {
      var c :| 0 <= c < |r| && RowHasOne(r[c]);
      var k :| 0 <= k < |r[c]| && r[c][k] == 1;
      assert m[|m| - 1 - k][c] == 1;
    }
  }

  /** Two quarter turns read the matrix back to front in both directions. */
  lemma HalfTurn(m: Grid)
    requires |m| >= 1 && |m[0]| >= 1 && Rectangular(m, |m[0]|)
    ensures |Rotate(Rotate(m))| == |m| && Rectangular(Rotate(Rotate(m)), |m[0]|)
    ensures forall a, b :: 0 <= a < |m| && 0 <= b < |m[0]| ==>
      Rotate(Rotate(m))[a][b] == m[|m| - 1 - a][|m[0]| - 1 - b]
  {
    var r := Rotate(m);
    assert |r[0]| == |m|;
    var r2 := Rotate(r);
    forall a, b | 0 <= a < |m| && 0 <= b < |m[0]|
      ensures r2[a][b] == m[|m| - 1 - a][|m[0]| - 1 - b]
    {
      assert r2[a][b] == r[|r| - 1 - b][a];
    }
  }

  /** Four quarter turns give any non-empty rectangular matrix back. */
  lemma FourQuarterTurns(m: Grid)
    requires |m| >= 1 && |m[0]| >= 1 && Rectangular(m, |m[0]|)
    ensures Rotate(Rotate(Rotate(Rotate(m)))) == m
  {
    HalfTurn(m);
    var r2 := Rotate(Rotate(m));
    assert |r2[0]| == |m[0]|;
    HalfTurn(r2);
    var r4 := Rotate(Rotate(r2));
    forall a | 0 <= a < |m| ensures r4[a] == m[a] {
      forall b | 0 <= b < |m[0]| ensures r4[a][b] == m[a][b] {
        assert r4[a][b] == r2[|m| - 1 - a][|m[0]| - 1 - b];
      }
    }
  }

  /** JavaScript's `row.slice(start)` for a non-negative start. */
  function Slice(row: seq<int>, start: nat): seq<int> {
    if start <= |row| then row[start..] else []
  }

  /** Rows `top..` of `m`, each sliced from column `left` on. */
  function Crop(m: Grid, top: nat, left: nat): (r: Grid)
    requires top <= |m|
    ensures |r| == |m| - top
    ensures forall i :: 0 <= i < |r| ==> r[i] == Slice(m[i + top], left)
  {
    seq(|m| - top, i requires 0 <= i < |m| - top => Slice(m[i + top], left))
  }

  /**
   * `r` is `m` without its first `top` rows and first `left` columns: cell
   * (i, j) of `r` is cell (i + top, j + left) of `m`.
   */
  ghost predicate CroppedFrom(r: Grid, m: Grid, top: int, left: int) {
    && |r| == |m| - top
    && (forall i, j :: 0 <= i < |r| && 0 <= j < |r[i]| ==>
          0 <= i + top < |m| && 0 <= j + left < |m[i + top]| && r[i][j] == m[i + top][j + left])
    && (forall i, j :: Filled(r, i, j) <==> Filled(m, i + top, j + left))
    && (forall w :: Rectangular(m, w) ==> Rectangular(r, w - left))
  }

  /** Cropping above the first 1 and left of the leftmost 1 loses no 1. */
  lemma CropKeepsOnes(m: Grid, top: nat, left: nat)
    requires top < |m| && RowHasOne(m[top])
    requires exists i :: Filled(m, i, left)
    requires forall i, j :: Filled(m, i, j) ==> top <= i && left <= j
    ensures CroppedFrom(Crop(m, top, left), m, top, left)
    ensures RowHasOne(Crop(m, top, left)[0])
    ensures exists i :: Filled(Crop(m, top, left), i, 0)
  {
    var r := Crop(m, top, left);
    forall i, j | 0 <= i < |r| && 0 <= j < |r[i]|
      ensures 0 <= i + top < |m| && 0 <= j + left < |m[i + top]| && r[i][j] == m[i + top][j + left]
    {
      assert r[i] == Slice(m[i + top], left);
    }
    forall i, j ensures Filled(r, i, j) <==> Filled(m, i + top, j + left) {
      if Filled(m, i + top, j + left) {
        assert r[i] == Slice(m[i + top], left);
      }
    }
    assert RowHasOne(r[0]) by {
      var j :| 0 <= j < |m[top]| && m[top][j] == 1;
      assert Filled(m, top, j);
      assert Filled(r, 0, j - left);
    }
    forall w | Rectangular(m, w) ensures Rectangular(r, w - left) {
      forall i | 0 <= i < |r| ensures |r[i]| == w - left {
        assert r[i] == Slice(m[i + top], left);
      }
    }
    var i :| Filled(m, i, left);
    assert Filled(r, i - top, 0);
  }

  /**
   * shiftToTopLeft: drops the rows above the first row holding a 1 and the
   * columns left of the leftmost 1, so that row 0 and column 0 of the result
   * both hold a 1. The source reads `matrix[-1]` and throws when no cell
   * holds a 1, hence the precondition.
   */
  function ShiftToTopLeft(m: Grid): (r: Grid)
    requires HasOne(m)
    ensures CroppedFrom(r, m, TopRow(m), LeftCol(m))
    ensures RowHasOne(r[0])
    ensures exists i :: Filled(r, i, 0)
  {
    CropKeepsOnes(m, TopRow(m), LeftCol(m));
    Crop(m, TopRow(m), LeftCol(m))
  }

  const Empty4: Grid := [[0, 0, 0, 0], [0, 0, 0, 0], [0, 0, 0, 0], [0, 0, 0, 0]]

  /** padTo4x4's inner loop over row `i`, from column `j` up to `cols`. */
  function PadRow(acc: Grid, m: Grid, cols: int, i: nat, j: nat): (r: Grid)
    requires Is4x4(acc) && i < |m| && j <= cols
    decreases cols - j
    ensures Is4x4(r)
    ensures forall a, b {:trigger r[a][b]} :: 0 <= a < 4 && 0 <= b < 4 ==>
      r[a][b] == if a == i && j <= b < cols && Filled(m, a, b) then 1 else acc[a][b]
  {
    if j == cols then acc
    else
      var next := if i < 4 && j < 4 && Filled(m, i, j) then acc[i := acc[i][j := 1]] else acc;
      PadRow(next, m, cols, i, j + 1)
  }

  /** padTo4x4's outer loop, from row `i` to the last row of `m`. */
  function PadRows(acc: Grid, m: Grid, cols: int, i: nat): (r: Grid)
    requires Is4x4(acc) && i <= |m| && 0 <= cols
    decreases |m| - i
    ensures Is4x4(r)
    ensures forall a, b {:trigger r[a][b]} :: 0 <= a < 4 && 0 <= b < 4 ==>
      r[a][b] == if i <= a && b < cols && Filled(m, a, b) then 1 else acc[a][b]
  {
    if i == |m| then acc
    else PadRows(PadRow(acc, m, cols, i, 0), m, cols, i + 1)
  }

  /**
   * padTo4x4: a fresh 4x4 frame holding a 1 exactly where `m` does; cells of
   * `m` at row or column 4 and beyond, and beyond the width of row 0 (the
   * loop bound the source takes), are dropped.
   */
  function PadTo4x4(m: Grid): (r: Grid)
    requires |m| >= 1
    ensures Is4x4(r) && Binary(r)
    ensures forall a, b {:trigger r[a][b]} :: 0 <= a < 4 && 0 <= b < 4 ==>
      r[a][b] == if b < |m[0]| && Filled(m, a, b) then 1 else 0
  {
    PadRows(Empty4, m, |m[0]|, 0)
  }

  /**
   * `r` is the 4x4 window of `n` whose top-left corner is (top, left), with
   * a 1 exactly where `n` has one and 0 elsewhere.
   */
  ghost predicate Framed(r: Grid, n: Grid, top: int, left: int) {
    && Is4x4(r)
    && forall a, b :: 0 <= a < 4 && 0 <= b < 4 ==>
         r[a][b] == if Filled(n, a + top, b + left) then 1 else 0
  }

  /** Shifting then padding frames the matrix at its first 1s. */
  lemma ShiftThenPad(n: Grid, w: int, top: int, left: int)
    requires HasOne(n) && Rectangular(n, w)
    requires top == TopRow(n) && left == LeftCol(n)
    ensures Framed(PadTo4x4(ShiftToTopLeft(n)), n, top, left)
  {
    PadCropped(ShiftToTopLeft(n), n, w, top, left);
  }

  /** Padding a crop of `n` frames `n` at the crop's corner. */
  lemma PadCropped(s: Grid, n: Grid, w: int, top: int, left: int)
    requires CroppedFrom(s, n, top, left) && |s| >= 1 && Rectangular(n, w)
    ensures Framed(PadTo4x4(s), n, top, left)
  {
    assert Rectangular(s, w - left);
    var r := PadTo4x4(s);
    forall a, b | 0 <= a < 4 && 0 <= b < 4
      ensures r[a][b] == if Filled(n, a + top, b + left) then 1 else 0
    {
      assert Filled(s, a, b) <==> Filled(n, a + top, b + left);
    }
  }

  /**
   * makeRotateeMatrix = padTo4x4 . shiftToTopLeft . rotateMatrix: the
   * rotated matrix, framed at its first filled row and leftmost filled
   * column.
   */
  function MakeRotatee(m: Grid): (r: Grid)
    requires |m| >= 1 && Rectangular(m, |m[0]|) && HasOne(m)
    ensures Is4x4(r) && Binary(r)
    ensures |m| <= 4 ==> HasOne(r)
  {
    RotateFilled(m);
    var n := Rotate(m);
    var top, left := TopRow(n), LeftCol(n);
    ShiftThenPad(n, |m|, top, left);
    var r := PadTo4x4(ShiftToTopLeft(n));
    assert |m| <= 4 ==> HasOne(r) by {
      if |m| <= 4 {
        var k :| 0 <= k < |n[top]| && n[top][k] == 1;
        assert Filled(n, top, k);
        assert r[0][k - left] == 1;
        assert RowHasOne(r[0]);
      }
    }
    r
  }

  /**
   * The result of makeRotateeMatrix is the rotated matrix seen through a 4x4
   * window whose corner is the rotated matrix's first filled row and
   * leftmost filled column.
   */
  lemma RotateeFramed(m: Grid)
    requires |m| >= 1 && Rectangular(m, |m[0]|) && HasOne(m)
    ensures Framed(MakeRotatee(m), Rotate(m), TopRow(Rotate(m)), LeftCol(Rotate(m)))
  {
    RotateFilled(m);
    var n := Rotate(m);
    ShiftThenPad(n, |m|, TopRow(n), LeftCol(n));
  }

  /** The number of cells of `row` holding 1. */
  function CountRow(row: seq<int>): nat {
    if |row| == 0 then 0
    else CountRow(row[..|row| - 1]) + (if row[|row| - 1] == 1 then 1 else 0)
  }

  /** The number of cells of `m` holding 1. */
  function CountOnes(m: Grid): nat {
    if |m| == 0 then 0 else CountOnes(m[..|m| - 1]) + CountRow(m[|m| - 1])
  }

  /** The positions of the 1s of `m`. */
  ghost function Cells(m: Grid): set<(int, int)> {
    set i, j | 0 <= i < |m| && 0 <= j < |m[i]| && m[i][j] == 1 :: (i, j)
  }

  ghost function RowCells(row: seq<int>, i: int): set<(int, int)> {
    set j | 0 <= j < |row| && row[j] == 1 :: (i, j)
  }

  lemma {:induction false} CountRowIsSize(row: seq<int>, i: int)
    ensures CountRow(row) == |RowCells(row, i)|
  {
    if |row| > 0 {
      var prefix := row[..|row| - 1];
      CountRowIsSize(prefix, i);
      var last := if row[|row| - 1] == 1 then {(i, |row| - 1)} else {};
      assert RowCells(row, i) == RowCells(prefix, i) + last;
      assert RowCells(prefix, i) !! last;
    }
  }

  /** CountOnes counts exactly the positions of the 1s. */
  lemma {:induction false} CountOnesIsSize(m: Grid)
    ensures CountOnes(m) == |Cells(m)|
  {
    if |m| > 0 {
      var prefix := m[..|m| - 1];
      CountOnesIsSize(prefix);
      CountRowIsSize(m[|m| - 1], |m| - 1);
      assert Cells(m) == Cells(prefix) + RowCells(m[|m| - 1], |m| - 1);
      assert Cells(prefix) !! RowCells(m[|m| - 1], |m| - 1);
    }
  }

  /** The image of a set under a map that is one-to-one on it has the same size. */
  lemma {:induction false} InjectiveImage(s: set<(int, int)>, f: ((int, int)) -> (int, int))
    requires forall p, q :: p in s && q in s && f(p) == f(q) ==> p == q
    ensures |set p | p in s :: f(p)| == |s|
  {
    if s != {} {
      var x :| x in s;
      var rest := s - {x};
      InjectiveImage(rest, f);
      assert (set p | p in s :: f(p)) == (set p | p in rest :: f(p)) + {f(x)};
    }
  }
}
