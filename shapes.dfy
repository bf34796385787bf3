/**
 * The piece catalogue: seven shapes, each in four rotation states. A rotation
 * state lists the four occupied cells of a 4x4 box as indices 0..15; index i
 * is the cell (i % 4, i / 4) of the box. Rotating a piece is a lookup in this
 * table, not an arithmetic transform.
 */
module Shapes {

  /** Number of piece kinds and of rotation states per kind. */
  const Kinds := 7
  const Turns := 4

  /** Bricks[kind][rotation] = the four box indices occupied by that state. */
  const Bricks: seq<seq<seq<int>>> := [
    [[2, 6, 10, 14], [8, 9, 10, 11], [1, 5, 9, 13], [4, 5, 6, 7]],
    [[5, 6, 9, 10], [5, 6, 9, 10], [5, 6, 9, 10], [5, 6, 9, 10]],
    [[2, 6, 9, 10], [5, 9, 10, 11], [5, 6, 9, 13], [4, 5, 6, 10]],
    [[1, 5, 9, 10], [5, 6, 7, 9], [5, 6, 10, 14], [6, 8, 9, 10]],
    [[2, 5, 6, 9], [5, 6, 10, 11], [6, 9, 10, 13], [4, 5, 9, 10]],
    [[1, 5, 6, 9], [5, 6, 7, 10], [6, 9, 10, 14], [5, 8, 9, 10]],
    [[1, 5, 6, 10], [6, 7, 9, 10], [5, 9, 10, 14], [5, 6, 8, 9]]
  ]

  /** Box index of the i-th cell of kind b in rotation state r. */
  function Cell(b: int, r: int, i: int): (c: int)
    requires 0 <= b < Kinds && 0 <= r < Turns && 0 <= i < 4
    ensures 0 <= c < 16
  {
    TableInRange(b, r);
    Bricks[b][r][i]
  }

  /** Every table entry is a box index, listed in strictly increasing order. */
  lemma TableInRange(b: int, r: int)
    requires 0 <= b < Kinds && 0 <= r < Turns
    ensures |Bricks[b][r]| == 4
    ensures 0 <= Bricks[b][r][0] < Bricks[b][r][1] < Bricks[b][r][2] < Bricks[b][r][3] < 16
  {
    assert |Bricks| == Kinds;
    if b == 0 {} else if b == 1 {} else if b == 2 {} else if b == 3 {}
    else if b == 4 {} else if b == 5 {} else {}
  }

  /** Each rotation state lists four distinct cells. */
  lemma CellsDistinct(b: int, r: int, i: int, j: int)
    requires 0 <= b < Kinds && 0 <= r < Turns && 0 <= i < 4 && 0 <= j < 4
    requires i != j
    ensures Cell(b, r, i) != Cell(b, r, j)
  {
    TableInRange(b, r);
  }

  /** Decodes a box index into its column and row offsets inside the box. */
  function Offset(c: int): (d: (int, int))
    requires 0 <= c < 16
    ensures 0 <= d.0 < 4 && 0 <= d.1 < 4
    ensures 4 * d.1 + d.0 == c
  {
    (c % 4, c / 4)
  }

  /**
   * The rotate key: the state steps down by one and wraps from -1 to 3,
   * i.e. one quarter-turn back around the four states.
   */
  function TurnBack(r: int): (r': int)
    requires 0 <= r < Turns
    ensures 0 <= r' < Turns
    ensures (r' + 1) % Turns == r
  {
    if r - 1 == -1 then 3 else r - 1
  }

  /** Four presses of the rotate key bring a piece back to its state. */
  lemma TurnBackPeriod(r: int)
    requires 0 <= r < Turns
    ensures TurnBack(TurnBack(TurnBack(TurnBack(r)))) == r
    ensures TurnBack(r) != r && TurnBack(TurnBack(r)) != r
  {
  }
}
