/**
 * What makeRotateeMatrix does to a piece (pages/base.tsx:254-264): on a 4x4
 * frame it moves every 1 by one fixed quarter-turn-and-translate map, so no
 * 1 is lost or gained, and four such steps bring a piece that sits in the
 * top-left corner back to itself.
 */
module Rotations {
  import opened Matrix

  /** A piece as the game holds it: a 4x4 frame with at least one 1. */
  predicate IsPiece(p: Grid) {
    Is4x4(p) && HasOne(p)
  }

  /**
   * A piece in canonical form: 0/1 cells, with a 1 in row 0 and a 1 in
   * column 0. Every catalog shape and every output of makeRotateeMatrix on a
   * piece is in this form.
   */
  predicate Normal(p: Grid) {
    IsPiece(p) && Binary(p) && TopRow(p) == 0 && LeftCol(p) == 0
  }

  /**
   * The 1s of `m` lie in rows r0..r1 and columns c0..c1, and each of these
   * four bounds is reached by some 1.
   */
  ghost predicate Box(m: Grid, r0: int, c0: int, r1: int, c1: int) {
    && (forall i, j :: Filled(m, i, j) ==> r0 <= i <= r1 && c0 <= j <= c1)
    && (exists j :: Filled(m, r0, j))
    && (exists j :: Filled(m, r1, j))
    && (exists i :: Filled(m, i, c0))
    && (exists i :: Filled(m, i, c1))
  }

  /** Every piece has a bounding box, with its top-left corner at (TopRow, LeftCol). */
  lemma BoxExists(m: Grid) returns (r1: int, c1: int)
    requires IsPiece(m)
    ensures Box(m, TopRow(m), LeftCol(m), r1, c1)
  {
    RotateFilled(m);
    var n := Rotate(m);
    RotateFilled(n);
    var nn := Rotate(n);
    r1 := 3 - LeftCol(n);
    c1 := 3 - LeftCol(nn);
    forall i, j | Filled(m, i, j) ensures i <= r1 && j <= c1 {
      assert Filled(n, j, 3 - i);
      assert Filled(nn, 3 - i, 3 - j);
    }
    var a :| Filled(n, a, LeftCol(n));
    assert Filled(m, r1, a);
    var b :| Filled(nn, b, LeftCol(nn));
    assert Filled(n, c1, b);
    assert Filled(m, 3 - b, c1);
    var top := TopRow(m);
    var k :| 0 <= k < |m[top]| && m[top][k] == 1;
    assert Filled(m, top, k);
  }

  /**
   * One makeRotateeMatrix step on a piece with bounding box
   * [r0..r1] x [c0..c1]: the 1 at (x, y) moves to (y - c0, r1 - x), and
   * nothing else is filled. The new box is [0..c1-c0] x [0..r1-r0].
   */
  lemma Step(m: Grid, r0: int, c0: int, r1: int, c1: int)
    requires IsPiece(m) && Box(m, r0, c0, r1, c1)
    ensures forall x, y :: Filled(m, x, y) <==> Filled(MakeRotatee(m), y - c0, r1 - x)
    ensures Box(MakeRotatee(m), 0, 0, c1 - c0, r1 - r0)
  {
    RotateeFramed(m);
    StepFramed(m, MakeRotatee(m), r0, c0, r1, c1);
  }

  /** Step, for any `r` that meets the contract of MakeRotatee on `m`. */
  lemma StepFramed(m: Grid, r: Grid, r0: int, c0: int, r1: int, c1: int)
    requires IsPiece(m) && Box(m, r0, c0, r1, c1)
    requires Framed(r, Rotate(m), TopRow(Rotate(m)), LeftCol(Rotate(m)))
    ensures forall x, y :: Filled(m, x, y) <==> Filled(r, y - c0, r1 - x)
    ensures Box(r, 0, 0, c1 - c0, r1 - r0)
  {
    RotateFilled(m);
    var n := Rotate(m);
    var top, left := TopRow(n), LeftCol(n);
    TopOfTurned(m, n, top, r0, c0, r1, c1);
    LeftOfTurned(m, n, left, r0, c0, r1, c1);
    MovedCells(m, n, r, top, left, r0, c0, r1, c1);
  }

  /** The first row with a 1 of the turned piece is the piece's first column with a 1. */
  lemma TopOfTurned(m: Grid, n: Grid, top: int, r0: int, c0: int, r1: int, c1: int)
    requires Box(m, r0, c0, r1, c1)
    requires forall i, j :: Filled(m, i, j) <==> Filled(n, j, 3 - i)
    requires top == TopRow(n)
    ensures top == c0
  {
    var i0 :| Filled(m, i0, c0);
    assert Filled(n, c0, 3 - i0);
    var k :| 0 <= k < |n[top]| && n[top][k] == 1;
    assert Filled(n, top, k);
    assert Filled(m, 3 - k, top);
  }

  /** The first column with a 1 of the turned piece mirrors the piece's last row with a 1. */
  lemma LeftOfTurned(m: Grid, n: Grid, left: int, r0: int, c0: int, r1: int, c1: int)
    requires Box(m, r0, c0, r1, c1)
    requires forall i, j :: Filled(m, i, j) <==> Filled(n, j, 3 - i)
    requires left == LeftCol(n)
    ensures left == 3 - r1
  {
    var j1 :| Filled(m, r1, j1);
    assert Filled(n, j1, 3 - r1);
    var i2 :| Filled(n, i2, left);
    assert Filled(m, 3 - left, i2);
  }

  /** The framed, turned piece holds each 1 of `m` at its moved place, and its box. */
  lemma MovedCells(m: Grid, n: Grid, r: Grid, top: int, left: int,
                   r0: int, c0: int, r1: int, c1: int)
    requires Is4x4(m) && Box(m, r0, c0, r1, c1)
    requires forall i, j :: Filled(m, i, j) <==> Filled(n, j, 3 - i)
    requires Framed(r, n, top, left) && top == c0 && left == 3 - r1
    ensures forall x, y :: Filled(m, x, y) <==> Filled(r, y - c0, r1 - x)
    ensures Box(r, 0, 0, c1 - c0, r1 - r0)
  {
    forall x, y ensures Filled(m, x, y) <==> Filled(r, y - c0, r1 - x) {
      var a, b := y - c0, r1 - x;
      if Filled(m, x, y) {
        assert 0 <= a < 4 && 0 <= b < 4;
      }
      if 0 <= a < 4 && 0 <= b < 4 {
        assert r[a][b] == if Filled(n, a + top, b + left) then 1 else 0;
        assert Filled(n, y, 3 - x) <==> Filled(m, x, y);
      }
    }
    forall i, j | Filled(r, i, j) ensures 0 <= i <= c1 - c0 && 0 <= j <= r1 - r0 {
      assert Filled(m, r1 - j, i + c0);
    }
    var i0 :| Filled(m, i0, c0);
    assert Filled(r, 0, r1 - i0);
    var i3 :| Filled(m, i3, c1);
    assert Filled(r, c1 - c0, r1 - i3);
    var j1 :| Filled(m, r1, j1);
    assert Filled(r, j1 - c0, 0);
    var j4 :| Filled(m, r0, j4);
    assert Filled(r, j4 - c0, r1 - r0);
  }

  /** A piece after `k` presses of the rotate button. */
  function Turns(p: Grid, k: nat): (r: Grid)
    requires IsPiece(p)
    ensures IsPiece(r)
    decreases k
  {
    if k == 0 then p else Turns(MakeRotatee(p), k - 1)
  }

  /** Two 0/1 frames with the same 1s are equal. */
  lemma SameOnes(a: Grid, b: Grid)
    requires Is4x4(a) && Is4x4(b) && Binary(a) && Binary(b)
    requires forall x, y :: Filled(a, x, y) <==> Filled(b, x, y)
    ensures a == b
  {
    forall x | 0 <= x < 4 ensures a[x] == b[x] {
      forall y | 0 <= y < 4 ensures a[x][y] == b[x][y] {
        assert Filled(a, x, y) <==> Filled(b, x, y);
      }
    }
  }

  /**
   * A rotation leaves a piece in canonical form, and four rotations of a
   * canonical piece give the piece back.
   */
  lemma {:induction false} FourTurns(p: Grid)
    requires Normal(p)
    ensures Normal(MakeRotatee(p))
    ensures Turns(p, 4) == p
  {
    var r1, c1 := BoxExists(p);
    var p1 := MakeRotatee(p);
    Step(p, 0, 0, r1, c1);
    var p2 := MakeRotatee(p1);
    Step(p1, 0, 0, c1, r1);
    var p3 := MakeRotatee(p2);
    Step(p2, 0, 0, r1, c1);
    var p4 := MakeRotatee(p3);
    Step(p3, 0, 0, c1, r1);
    forall x, y ensures Filled(p, x, y) <==> Filled(p4, x, y) {
      assert Filled(p, x, y) <==> Filled(p1, y, r1 - x);
      assert Filled(p1, y, r1 - x) <==> Filled(p2, r1 - x, c1 - y);
      assert Filled(p2, r1 - x, c1 - y) <==> Filled(p3, c1 - y, x);
      assert Filled(p3, c1 - y, x) <==> Filled(p4, x, y);
    }
    SameOnes(p, p4);
    assert Turns(p, 4) == p4;
    NormalAfterStep(p, 0, 0, r1, c1);
  }

  /** The box of a step's output starts at (0, 0), so the output is canonical. */
  lemma NormalAfterStep(p: Grid, top: int, left: int, r1: int, c1: int)
    requires IsPiece(p) && top == TopRow(p) && left == LeftCol(p)
    requires Box(p, top, left, r1, c1)
    ensures Normal(MakeRotatee(p))
  {
    RotateeFramed(p);
    FramedIsNormal(p, MakeRotatee(p), top, left, r1, c1);
  }

  /** NormalAfterStep, for any 0/1 frame `r` that meets the contract of MakeRotatee on `p`. */
  lemma FramedIsNormal(p: Grid, r: Grid, r0: int, c0: int, r1: int, c1: int)
    requires IsPiece(p) && Box(p, r0, c0, r1, c1)
    requires Is4x4(r) && Binary(r)
    requires Framed(r, Rotate(p), TopRow(Rotate(p)), LeftCol(Rotate(p)))
    ensures Normal(r)
  {
    assert Box(r, 0, 0, c1 - c0, r1 - r0) by {
      StepFramed(p, r, r0, c0, r1, c1);
    }
    CornerIsNormal(r, c1 - c0, r1 - r0);
  }

  /** A 0/1 frame whose box starts at (0, 0) is canonical. */
  lemma CornerIsNormal(r: Grid, h: int, w: int)
    requires Is4x4(r) && Binary(r) && Box(r, 0, 0, h, w)
    ensures Normal(r)
  {
    var j :| Filled(r, 0, j);
    assert RowHasOne(r[0]);
    var i :| Filled(r, i, 0);
  }

  /** A rotation keeps the number of 1s of a piece whose bounding box is given. */
  lemma KeepsCountIn(p: Grid, top: int, left: int, r1: int, c1: int)
    requires IsPiece(p) && top == TopRow(p) && left == LeftCol(p)
    requires Box(p, top, left, r1, c1)
    ensures CountOnes(MakeRotatee(p)) == CountOnes(p)
  {
    Step(p, top, left, r1, c1);
    CountMoved(p, MakeRotatee(p), left, r1);
  }

  /** Moving every 1 by (x, y) -> (y - c0, r1 - x) keeps the number of 1s. */
  lemma CountMoved(p: Grid, r: Grid, c0: int, r1: int)
    requires forall x, y :: Filled(p, x, y) <==> Filled(r, y - c0, r1 - x)
    ensures CountOnes(r) == CountOnes(p)
  {
    var f := (q: (int, int)) => (q.1 - c0, r1 - q.0);
    InjectiveImage(Cells(p), f);
    assert Cells(r) == set q | q in Cells(p) :: f(q) by {
      forall q | q in Cells(r) ensures q in set q | q in Cells(p) :: f(q) {
        assert Filled(r, q.0, q.1);
        assert Filled(p, r1 - q.1, q.0 + c0);
        assert f((r1 - q.1, q.0 + c0)) == q;
      }
      forall q | q in Cells(p) ensures f(q) in Cells(r) {
        assert Filled(p, q.0, q.1);
      }
    }
    CountOnesIsSize(p);
    CountOnesIsSize(r);
  }

  /** Rotating any piece leaves it in canonical form with as many 1s as before. */
  lemma RotateKeepsShape(p: Grid)
    requires IsPiece(p)
    ensures Normal(MakeRotatee(p))
    ensures CountOnes(MakeRotatee(p)) == CountOnes(p)
  {
    var r1, c1 := BoxExists(p);
    NormalAfterStep(p, TopRow(p), LeftCol(p), r1, c1);
    KeepsCountIn(p, TopRow(p), LeftCol(p), r1, c1);
  }
}
