/**
 * The seven tetrimino shapes of the game (pages/base.tsx:16-59) and the
 * draw of a random one (pages/base.tsx:120-124). The random number is not
 * modelled: the caller passes the index that `Math.floor(Math.random() * 7)`
 * would have produced.
 */
module Catalog {
  import opened Matrix
  import opened Rotations

  /** The shapes in the order `Object.keys` lists them: I, O, T, L, J, S, Z. */
  const Shapes: seq<Grid> := [
    [[1, 1, 1, 1], [0, 0, 0, 0], [0, 0, 0, 0], [0, 0, 0, 0]],
    [[1, 1, 0, 0], [1, 1, 0, 0], [0, 0, 0, 0], [0, 0, 0, 0]],
    [[0, 1, 0, 0], [1, 1, 1, 0], [0, 0, 0, 0], [0, 0, 0, 0]],
    [[1, 0, 0, 0], [1, 1, 1, 0], [0, 0, 0, 0], [0, 0, 0, 0]],
    [[0, 0, 1, 0], [1, 1, 1, 0], [0, 0, 0, 0], [0, 0, 0, 0]],
    [[0, 1, 1, 0], [1, 1, 0, 0], [0, 0, 0, 0], [0, 0, 0, 0]],
    [[1, 1, 0, 0], [0, 1, 1, 0], [0, 0, 0, 0], [0, 0, 0, 0]]
  ]

  /** Every shape is a canonical piece of four cells. */
  predicate Tetrimino(p: Grid) {
    Normal(p) && CountOnes(p) == 4
  }

  /** getRandomTetrimino, given the drawn index. */
  function Draw(k: nat): (p: Grid)
    requires k < |Shapes|
    ensures Tetrimino(p)
    ensures p in Shapes
  {
    ShapesAreTetriminos(k);
    Shapes[k]
  }

  lemma ShapesAreTetriminos(k: nat)
    requires k < |Shapes|
    ensures Tetrimino(Shapes[k])
  {
    var p := Shapes[k];
    assert Filled(p, 0, 1) || Filled(p, 0, 0) || Filled(p, 0, 2);
    assert RowHasOne(p[0]);
    assert Filled(p, 1, 0) || Filled(p, 0, 0);
    CountFrame(p);
  }

  /** The number of 1s of a 4x4 frame, row by row and cell by cell. */
  lemma CountFrame(p: Grid)
    requires Is4x4(p)
    ensures CountOnes(p) == CountFour(p[0]) + CountFour(p[1]) + CountFour(p[2]) + CountFour(p[3])
  {
    forall i | 0 <= i < 4 ensures CountRow(p[i]) == CountFour(p[i]) {
      CountRowFour(p[i]);
    }
    assert p[..3][..2] == p[..2] && p[..2][..1] == p[..1] && p[..1][..0] == [];
    assert CountOnes(p[..1]) == CountRow(p[0]);
    assert CountOnes(p[..2]) == CountOnes(p[..1]) + CountRow(p[1]);
    assert CountOnes(p[..3]) == CountOnes(p[..2]) + CountRow(p[2]);
  }

  lemma CountRowFour(r: seq<int>)
    requires |r| == 4
    ensures CountRow(r) == CountFour(r)
  {
    assert r[..3][..2] == r[..2] && r[..2][..1] == r[..1] && r[..1][..0] == [];
    assert CountRow(r[..1]) == if r[0] == 1 then 1 else 0;
    assert CountRow(r[..2]) == CountRow(r[..1]) + if r[1] == 1 then 1 else 0;
    assert CountRow(r[..3]) == CountRow(r[..2]) + if r[2] == 1 then 1 else 0;
  }

  function CountFour(row: seq<int>): int
    requires |row| == 4
  {
    (if row[0] == 1 then 1 else 0) + (if row[1] == 1 then 1 else 0)
    + (if row[2] == 1 then 1 else 0) + (if row[3] == 1 then 1 else 0)
  }

  /**
   * A press of the rotate button keeps a tetrimino a tetrimino, and the
   * fourth press gives the piece back.
   */
  lemma RotatedTetrimino(p: Grid)
    requires Tetrimino(p)
    ensures Tetrimino(MakeRotatee(p))
    ensures Turns(p, 4) == p
  {
    RotateKeepsShape(p);
    FourTurns(p);
  }
}
