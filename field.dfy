/**
 * The playing field as a value: a 9-wide, 16-high grid of colour ids stored
 * by rows (row 0 at the bottom), with the specifications of the three grid
 * operations of the game: the validity check of a piece placement, stamping a
 * piece's cells with a colour, and the line-clear scan.
 */
module Field {
  import opened Shapes

  /** Width and height of the field. */
  const W := 9
  const H := 16

  /** One row of cells; 0 is an empty cell, anything else a filled one. */
  type Row = seq<int>

  /** The field by rows: b[ty][tx] is the cell in column tx of row ty. */
  type Board = seq<Row>

  predicate Shaped(b: Board)
  {
    |b| == H && forall ty :: 0 <= ty < |b| ==> |b[ty]| == W
  }

  function EmptyBoard(): (b: Board)
    ensures Shaped(b)
    ensures forall ty, tx :: 0 <= ty < H && 0 <= tx < W ==> b[ty][tx] == 0
  {
    seq(H, _ => seq(W, _ => 0))
  }

  // ---------------------------------------------------------------------------
  // Pieces and the validity check

  /** A piece: its kind, the world position of its 4x4 box and its rotation state. */
  datatype Piece = Piece(brick: int, x: int, y: int, rotate: int)

  /** The kind and rotation state index the shape table. */
  predicate Oriented(p: Piece)
  {
    0 <= p.brick < Kinds && 0 <= p.rotate < Turns
  }

  /** World column and row of the i-th cell of a piece. */
  function CellX(p: Piece, i: int): int
    requires Oriented(p) && 0 <= i < 4
  {
    p.x + Offset(Cell(p.brick, p.rotate, i)).0
  }

  function CellY(p: Piece, i: int): int
    requires Oriented(p) && 0 <= i < 4
  {
    p.y + Offset(Cell(p.brick, p.rotate, i)).1
  }

  /**
   * A world cell a piece may occupy: inside the columns, not below the floor,
   * and empty if it lies within the field. Cells above the top are allowed.
   */
  predicate Free(b: Board, tx: int, ty: int)
    requires Shaped(b)
  {
    0 <= tx < W && 0 <= ty && (ty < H ==> b[ty][tx] == 0)
  }

  /** A placement is valid when all four of its cells are free. */
  predicate Fits(b: Board, p: Piece): (ok: bool)
    requires Shaped(b) && Oriented(p)
    ensures ok ==> forall i :: 0 <= i < 4 ==> 0 <= CellX(p, i) < W && 0 <= CellY(p, i)
    ensures ok ==> forall tx, ty :: 0 <= tx < W && 0 <= ty < H && Covers(p, tx, ty) ==> b[ty][tx] == 0
  {
    forall i :: 0 <= i < 4 ==> Free(b, CellX(p, i), CellY(p, i))
  }

  /** One of the first n cells of p is the world cell (tx, ty). */
  predicate CoveredBy(p: Piece, n: int, tx: int, ty: int)
    requires Oriented(p) && 0 <= n <= 4
  {
    exists i :: 0 <= i < n && CellX(p, i) == tx && CellY(p, i) == ty
  }

  predicate Covers(p: Piece, tx: int, ty: int)
    requires Oriented(p)
  {
    CoveredBy(p, 4, tx, ty)
  }

  /** The field with every in-field cell of p set to colour c. */
  function Stamp(b: Board, p: Piece, c: int): (s: Board)
    requires Oriented(p)
    ensures Shaped(b) ==> Shaped(s)
    ensures Shaped(b) ==> forall i :: 0 <= i < 4 && 0 <= CellX(p, i) < W && 0 <= CellY(p, i) < H ==>
      s[CellY(p, i)][CellX(p, i)] == c
    ensures Shaped(b) ==> forall tx, ty :: 0 <= tx < W && 0 <= ty < H && !Covers(p, tx, ty) ==>
      s[ty][tx] == b[ty][tx]
  {
    seq(|b|, ty requires 0 <= ty < |b| =>
      seq(|b[ty]|, tx requires 0 <= tx < |b[ty]| =>
        if Covers(p, tx, ty) then c else b[ty][tx]))
  }

  /** Erasing a piece drawn over a field it fits gives back that field. */
  lemma OverlayRoundTrip(b: Board, p: Piece)
    requires Shaped(b) && Oriented(p) && Fits(b, p)
    ensures Stamp(Stamp(b, p, 1), p, 0) == b
  {
    var s := Stamp(Stamp(b, p, 1), p, 0);
    forall ty | 0 <= ty < H
      ensures s[ty] == b[ty]
    {
      forall tx | 0 <= tx < W
        ensures s[ty][tx] == b[ty][tx]
      {
        if Covers(p, tx, ty) {
          var i :| 0 <= i < 4 && CellX(p, i) == tx && CellY(p, i) == ty;
          assert Free(b, CellX(p, i), CellY(p, i));
        }
      }
    }
  }

  /** Drawing the same piece twice with one colour is drawing it once. */
  lemma StampIdempotent(b: Board, p: Piece, c: int)
    requires Shaped(b) && Oriented(p)
    ensures Stamp(Stamp(b, p, c), p, c) == Stamp(b, p, c)
  {
    var s, t := Stamp(b, p, c), Stamp(Stamp(b, p, c), p, c);
    forall ty | 0 <= ty < H
      ensures t[ty] == s[ty]
    {
    }
  }

  /** Once a piece with a cell inside the field is drawn filled, it no longer fits there. */
  lemma StampedCollides(b: Board, p: Piece, c: int, i: int)
    requires Shaped(b) && Oriented(p) && c != 0 && 0 <= i < 4
    requires 0 <= CellX(p, i) < W && 0 <= CellY(p, i) < H
    ensures !Fits(Stamp(b, p, c), p)
  {
    assert Covers(p, CellX(p, i), CellY(p, i));
    assert !Free(Stamp(b, p, c), CellX(p, i), CellY(p, i));
  }

  /** A cell left of column 0, right of the last column or below the floor rejects the placement. */
  lemma OutsideRejected(b: Board, p: Piece, i: int)
    requires Shaped(b) && Oriented(p) && 0 <= i < 4
    requires CellX(p, i) < 0 || W <= CellX(p, i) || CellY(p, i) < 0
    ensures !Fits(b, p)
  {
    assert !Free(b, CellX(p, i), CellY(p, i));
  }

  /** Cells above the top row never reject a placement, whatever the field holds. */
  lemma AboveTopFits(b: Board, p: Piece)
    requires Shaped(b) && Oriented(p)
    requires forall i :: 0 <= i < 4 ==> 0 <= CellX(p, i) < W && H <= CellY(p, i)
    ensures Fits(b, p)
  {
  }

  /** On an empty field, any box that stays within the columns and above the floor fits. */
  lemma EmptyBoardFits(p: Piece)
    requires Oriented(p) && 0 <= p.x <= W - 4 && 0 <= p.y
    ensures Fits(EmptyBoard(), p)
  {
  }

  // ---------------------------------------------------------------------------
  // Rows: full, blank and counted

  /** A row with no empty cell. */
  predicate Full(r: Row)
  {
    forall i :: 0 <= i < |r| ==> r[i] != 0
  }

  /** A row with only empty cells. */
  predicate Blank(r: Row)
  {
    forall i :: 0 <= i < |r| ==> r[i] == 0
  }

  /** Number of empty cells in a row, counted from the left. */
  function ZeroCount(r: Row): (n: nat)
    ensures n <= |r|
  {
    if r == [] then 0
    else
      ZeroCount(r[..|r| - 1]) + (if r[|r| - 1] == 0 then 1 else 0)
  }

  /** The count is the number of zero cells in the row, independent of their order. */
  lemma {:induction false} ZeroCountMultiset(r: Row)
    ensures ZeroCount(r) == multiset(r)[0]
  {
    if r != [] {
      ZeroCountMultiset(r[..|r| - 1]);
      assert r == r[..|r| - 1] + [r[|r| - 1]];
    }
  }

  lemma {:induction false} ZeroCountFull(r: Row)
    ensures ZeroCount(r) == 0 <==> Full(r)
  {
    if r != [] {
      var q := r[..|r| - 1];
      ZeroCountFull(q);
      assert forall i :: 0 <= i < |q| ==> q[i] == r[i];
    }
  }

  lemma {:induction false} ZeroCountBlank(r: Row)
    ensures ZeroCount(r) == |r| <==> Blank(r)
  {
    if r != [] {
      var q := r[..|r| - 1];
      ZeroCountBlank(q);
      assert forall i :: 0 <= i < |q| ==> q[i] == r[i];
    }
  }

  /** A full row of a field is not blank. */
  lemma FullNotBlank(r: Row)
    requires |r| == W && Full(r)
    ensures !Blank(r)
  {
    assert r[0] != 0;
  }

  // ---------------------------------------------------------------------------
  // The line-clear scan

  /** Index of the lowest blank row, or |b| when there is none. */
  function FirstBlank(b: Board): (e: nat)
    ensures e <= |b|
    ensures forall j :: 0 <= j < e ==> !Blank(b[j])
    ensures e < |b| ==> Blank(b[e])
  {
    if b == [] then 0 else if Blank(b[0]) then 0 else 1 + FirstBlank(b[1..])
  }

  /** The rows that are not full, bottom to top. */
  function Survivors(rows: Board): (kept: Board)
    ensures |kept| <= |rows|
    ensures forall j :: 0 <= j < |kept| ==> !Full(kept[j])
  {
    if rows == [] then []
    else
      var init := rows[..|rows| - 1];
      var last := rows[|rows| - 1];
      Survivors(init) + (if Full(last) then [] else [last])
  }

  /** Every kept row is one of the rows. */
  lemma {:induction false} SurvivorsFrom(rows: Board, j: nat)
    requires j < |Survivors(rows)|
    ensures Survivors(rows)[j] in rows
  {
    var init := rows[..|rows| - 1];
    if j < |Survivors(init)| {
      SurvivorsFrom(init, j);
      assert Survivors(init)[j] in init;
    }
  }

  /** Number of full rows. */
  function FullCount(rows: Board): (n: nat)
    ensures n <= |rows|
  {
    if rows == [] then 0
    else FullCount(rows[..|rows| - 1]) + (if Full(rows[|rows| - 1]) then 1 else 0)
  }

  /** Survivors drops exactly the full rows. */
  lemma {:induction false} SurvivorsDropsFull(rows: Board)
    ensures |Survivors(rows)| + FullCount(rows) == |rows|
  {
    if rows != [] {
      SurvivorsDropsFull(rows[..|rows| - 1]);
    }
  }

  lemma SurvivorsSnoc(b: Board, c: nat)
    requires c < |b|
    ensures Survivors(b[..c + 1]) == Survivors(b[..c]) + (if Full(b[c]) then [] else [b[c]])
    ensures FullCount(b[..c + 1]) == FullCount(b[..c]) + (if Full(b[c]) then 1 else 0)
  {
    assert b[..c + 1][..c] == b[..c];
  }

  /** Keeping as many rows as there are means keeping all of them. */
  lemma {:induction false} SurvivorsKeepsAll(rows: Board)
    ensures |Survivors(rows)| == |rows| ==> Survivors(rows) == rows
  {
    if rows != [] {
      var init := rows[..|rows| - 1];
      var last := rows[|rows| - 1];
      assert Survivors(rows) == Survivors(init) + (if Full(last) then [] else [last]);
      SurvivorsKeepsAll(init);
      assert rows == init + [last];
    }
  }

  /** A non-full row j sits in Survivors at the number of survivors below it. */
  lemma {:induction false} SurvivorAt(rows: Board, j: nat)
    requires j < |rows| && !Full(rows[j])
    ensures |Survivors(rows[..j])| < |Survivors(rows)|
    ensures Survivors(rows)[|Survivors(rows[..j])|] == rows[j]
  {
    var n := |rows| - 1;
    var init := rows[..n];
    if j == n {
      assert rows[..j] == init;
    } else {
      assert init[..j] == rows[..j];
      SurvivorAt(init, j);
    }
  }

  /** More rows never means fewer survivors. */
  lemma {:induction false} SurvivorsGrow(rows: Board, i: nat, j: nat)
    requires i <= j <= |rows|
    ensures |Survivors(rows[..i])| <= |Survivors(rows[..j])|
    decreases j - i
  {
    if i < j {
      SurvivorsSnoc(rows, i);
      SurvivorsGrow(rows, i + 1, j);
    }
  }

  function Repeat(row: Row, n: nat): (r: Board)
    ensures |r| == n && forall j :: 0 <= j < n ==> r[j] == row
  {
    seq(n, _ => row)
  }

  /**
   * The field part-way through the scan once its lowest c original rows have
   * been looked at: the non-full ones among them, then the rows not yet looked
   * at, then one copy of the top row for every full row removed (a removal
   * shifts everything above down and leaves the top row as it was).
   */
  function Layout(b: Board, c: nat): Board
    requires 0 < |b| && c <= |b|
  {
    var kept := Survivors(b[..c]);
    kept + b[c..] + Repeat(b[|b| - 1], c - |kept|)
  }

  /** The scan's result: it stops at the lowest blank row (or the top). */
  function Compacted(b: Board): (r: Board)
    requires Shaped(b)
    ensures Shaped(r)
    ensures r[H - 1] == b[H - 1]
  {
    LayoutShape(b, FirstBlank(b));
    LayoutTop(b, FirstBlank(b));
    Layout(b, FirstBlank(b))
  }

  /** Number of rows the scan removes: the full rows below its stop row. */
  function Cleared(b: Board): nat
    requires Shaped(b)
  {
    FullCount(b[..FirstBlank(b)])
  }

  /**
   * The scan never ends: it finds no blank row to stop at and eventually scans
   * the full top row, which a shift copies down but never empties.
   */
  predicate Diverges(b: Board)
    requires 0 < |b|
  {
    FirstBlank(b) == |b| && Full(b[|b| - 1])
  }

  /** A field whose scan diverges has no blank row at all. */
  lemma DivergesHasNoBlank(b: Board)
    requires 0 < |b| && Diverges(b)
    ensures forall j :: 0 <= j < |b| ==> !Blank(b[j])
  {
  }

  /** Removing row y: every row above moves down one, the top row stays. */
  function DropRow(b: Board, y: nat): (r: Board)
    requires y < |b|
    ensures |r| == |b|
  {
    b[..y] + b[y + 1..] + [b[|b| - 1]]
  }

  /** Rows below y stay, rows above y move down one, and the top row stays as well. */
  lemma DropRowShifts(b: Board, y: nat)
    requires y < |b|
    ensures var r := DropRow(b, y);
      r[..y] == b[..y] && r[|b| - 1] == b[|b| - 1] &&
      forall j :: y <= j < |b| - 1 ==> r[j] == b[j + 1]
  {
  }

  /** Every row from y up is the same as row y. */
  predicate Uniform(b: Board, y: nat)
    requires Shaped(b) && y < H
  {
    forall j, i :: y <= j < H && 0 <= i < W ==> b[j][i] == b[y][i]
  }

  /** Rows y..t of b agree with row y: what a shift that started at row y has compared so far. */
  predicate SameUpTo(b: Board, y: nat, t: nat)
    requires Shaped(b) && y <= t < H
  {
    forall j, i :: y <= j <= t && 0 <= i < W ==> b[j][i] == b[y][i]
  }

  lemma SameUpToNext(b: Board, y: nat, t: nat)
    requires Shaped(b) && y <= t < H - 1
    ensures SameUpTo(b, y, t + 1) <==>
      SameUpTo(b, y, t) && forall i :: 0 <= i < W ==> b[t][i] == b[t + 1][i]
  {
    if SameUpTo(b, y, t) && forall i :: 0 <= i < W ==> b[t][i] == b[t + 1][i] {
      forall j, i | y <= j <= t + 1 && 0 <= i < W
        ensures b[j][i] == b[y][i]
      {
        if j == t + 1 {
          assert b[t][i] == b[y][i];
        }
      }
    }
    if SameUpTo(b, y, t + 1) {
      forall i | 0 <= i < W
        ensures b[t][i] == b[t + 1][i]
      {
        assert b[t][i] == b[y][i] && b[t + 1][i] == b[y][i];
      }
    }
  }

  lemma SameUpToEnd(b: Board, y: nat)
    requires Shaped(b) && y < H
    ensures SameUpTo(b, y, H - 1) <==> Uniform(b, y)
  {
  }

  lemma SameUpToStart(b: Board, y: nat)
    requires Shaped(b) && y < H
    ensures SameUpTo(b, y, y)
  {
  }

  /** The shift at row y leaves the field as it was exactly when every row from y up is the same. */
  lemma UniformFixed(b: Board, y: nat)
    requires Shaped(b) && y < H
    ensures Uniform(b, y) <==> DropRow(b, y) == b
  {
    if Uniform(b, y) {
      UniformKept(b, y);
    }
    if DropRow(b, y) == b {
      KeptUniform(b, y);
    }
  }

  lemma UniformKept(b: Board, y: nat)
    requires Shaped(b) && y < H && Uniform(b, y)
    ensures DropRow(b, y) == b
  {
    var d := DropRow(b, y);
    DropRowShifts(b, y);
    forall j | 0 <= j < H
      ensures d[j] == b[j]
    {
      if y <= j < H - 1 {
        forall i | 0 <= i < W
          ensures b[j + 1][i] == b[j][i]
        {
          assert b[j + 1][i] == b[y][i];
        }
      } else if j < y {
        assert d[..y][j] == b[..y][j];
      }
    }
  }

  lemma KeptUniform(b: Board, y: nat)
    requires Shaped(b) && y < H && DropRow(b, y) == b
    ensures Uniform(b, y)
  {
    DropRowShifts(b, y);
    forall j, i | y <= j < H && 0 <= i < W
      ensures b[j][i] == b[y][i]
    {
      var k := y;
      while k < j
        invariant y <= k <= j && b[k] == b[y]
      {
        k := k + 1;
      }
    }
  }

  lemma LayoutAt(b: Board, c: nat)
    requires 0 < |b| && c <= |b|
    ensures var s := |Survivors(b[..c])|;
      |Layout(b, c)| == |b| &&
      (forall j :: 0 <= j < s ==> Layout(b, c)[j] == Survivors(b[..c])[j]) &&
      (forall j :: s <= j < s + |b| - c ==> Layout(b, c)[j] == b[c + j - s]) &&
      (forall j :: s + |b| - c <= j < |b| ==> Layout(b, c)[j] == b[|b| - 1])
  {
  }

  lemma LayoutShape(b: Board, c: nat)
    requires Shaped(b) && c <= H
    ensures Shaped(Layout(b, c))
  {
    LayoutAt(b, c);
    var kept := Survivors(b[..c]);
    forall j | 0 <= j < |kept|
      ensures |kept[j]| == W
    {
      SurvivorsFrom(b[..c], j);
    }
  }

  lemma LayoutTop(b: Board, c: nat)
    requires 0 < |b| && c <= |b|
    ensures Layout(b, c)[|b| - 1] == b[|b| - 1]
  {
    LayoutAt(b, c);
    var kept := Survivors(b[..c]);
    if c == |b| && |kept| == c {
      assert b[..c] == b;
      SurvivorsKeepsAll(b);
    }
  }

  /** Looking at a row that is not full leaves the field as it is. */
  lemma LayoutPass(b: Board, c: nat)
    requires c < |b| && !Full(b[c])
    ensures Layout(b, c + 1) == Layout(b, c)
  {
    SurvivorsSnoc(b, c);
    assert b[c..] == [b[c]] + b[c + 1..];
  }

  /** Looking at a full row drops it. */
  lemma LayoutDrop(b: Board, c: nat)
    requires c < |b| && Full(b[c])
    ensures Layout(b, c + 1) == DropRow(Layout(b, c), |Survivors(b[..c])|)
  {
    SurvivorsSnoc(b, c);
    LayoutTop(b, c);
    var kept := Survivors(b[..c]);
    var k := c - |kept|;
    assert Repeat(b[|b| - 1], k + 1) == Repeat(b[|b| - 1], k) + [b[|b| - 1]];
    var L := Layout(b, c);
    assert L[..|kept|] == kept;
    assert L[|kept| + 1..] == b[c + 1..] + Repeat(b[|b| - 1], k);
  }

  /** The layout once the scan has stopped: past the lowest blank row, or past every row. */
  lemma LayoutFinal(b: Board)
    requires Shaped(b)
    ensures FirstBlank(b) < H ==> Layout(b, FirstBlank(b) + 1) == Compacted(b)
    ensures FirstBlank(b) == H ==> Layout(b, H) == Compacted(b)
  {
    var e := FirstBlank(b);
    if e < H {
      assert b[e][0] == 0;
      LayoutPass(b, e);
    }
  }

  /**
   * A full row at position y of the layout above which every row is the same:
   * the shift changes nothing, so the source's scan is stuck for good; that
   * happens only when the field has no blank row and a full top row.
   */
  lemma UniformDiverges(b: Board, c: nat, y: nat)
    requires Shaped(b) && c <= H && y < H
    requires |Survivors(b[..c])| <= y && (c < H ==> y == |Survivors(b[..c])|)
    requires forall j :: 0 <= j < c ==> !Blank(b[j])
    requires Full(Layout(b, c)[y])
    requires forall j, i :: y <= j < H && 0 <= i < W ==> Layout(b, c)[j][i] == Layout(b, c)[y][i]
    ensures Diverges(b)
  {
    var L := Layout(b, c);
    LayoutAt(b, c);
    LayoutTop(b, c);
    LayoutShape(b, c);
    var top := L[H - 1];
    assert Full(top) by {
      forall i | 0 <= i < W ensures top[i] != 0 {
        assert top[i] == L[y][i];
      }
    }
    var s := |Survivors(b[..c])|;
    forall j | c <= j < H
      ensures !Blank(b[j])
    {
      assert b[j] == L[s + j - c];
      assert Full(b[j]) by {
        forall i | 0 <= i < W ensures b[j][i] != 0 {
          assert L[s + j - c][i] == L[y][i];
        }
      }
      FullNotBlank(b[j]);
    }
    assert FirstBlank(b) == H;
  }

  // ---------------------------------------------------------------------------
  // What the line-clear scan guarantees

  /**
   * Where the scan of field r stands: the field is now g, c original rows have
   * been looked at, the scan is at row y, p of the rows passed are copies of
   * the top row, and empty is the number of empty cells in the row looked at
   * last. No row looked at was blank, except the last one when the scan is
   * about to stop.
   */
  ghost predicate Scan(r: Board, g: Board, c: nat, p: nat, y: nat, empty: int)
    requires Shaped(r)
  {
    c <= H && 0 <= empty <= W && g == Layout(r, c) && Shaped(g) &&
    y == |Survivors(r[..c])| + p && p <= c - |Survivors(r[..c])| &&
    (p > 0 ==> c == H && !Full(r[H - 1])) &&
    (forall j :: 0 <= j < c ==> !Blank(r[j]) || (empty == W && j == c - 1)) &&
    (empty == W ==> 0 < c && Blank(r[c - 1]))
  }

  lemma ScanStart(r: Board)
    requires Shaped(r)
    ensures Scan(r, r, 0, 0, 0, 0)
  {
    assert r[..0] == [];
    assert r[0..] == r;
  }

  /**
   * A row with an empty cell is passed over: the field stays as it is and the
   * scan moves up one row, looking at one more original row if any is left.
   */
  lemma ScanPass(r: Board, g: Board, c: nat, p: nat, y: nat, empty: int, e: int) returns (c': nat, p': nat)
    requires Shaped(r) && Scan(r, g, c, p, y, empty) && empty < W && y < H
    requires e == ZeroCount(g[y]) && 0 < e
    ensures Scan(r, g, c', p', y + 1, e)
    ensures c < H ==> c' == c + 1 && p' == p
    ensures c == H ==> c' == c && p' == p + 1
  {
    LayoutAt(r, c);
    ZeroCountFull(g[y]);
    ZeroCountBlank(g[y]);
    if c < H {
      assert g[y] == r[c];
      LayoutPass(r, c);
      SurvivorsSnoc(r, c);
      c', p' := c + 1, p;
    } else {
      assert g[y] == r[H - 1];
      c', p' := c, p + 1;
    }
  }

  /** A full row that the shift changes is dropped: the scan stays on row y. */
  lemma ScanDrop(r: Board, g: Board, c: nat, p: nat, y: nat, empty: int)
    requires Shaped(r) && Scan(r, g, c, p, y, empty) && empty < W && y < H
    requires ZeroCount(g[y]) == 0 && !Uniform(g, y)
    ensures c < H && Scan(r, DropRow(g, y), c + 1, p, y, 0)
  {
    LayoutAt(r, c);
    ZeroCountFull(g[y]);
    if c == H {
      // every row from y up is a copy of the top row, so the shift would change nothing
      assert false;
    }
    assert g[y] == r[c];
    LayoutDrop(r, c);
    LayoutShape(r, c + 1);
    SurvivorsSnoc(r, c);
    FullNotBlank(r[c]);
  }

  /** A full row that the shift leaves as it is: the source's scan never ends. */
  lemma ScanHangs(r: Board, g: Board, c: nat, p: nat, y: nat, empty: int)
    requires Shaped(r) && Scan(r, g, c, p, y, empty) && empty < W && y < H
    requires ZeroCount(g[y]) == 0 && Uniform(g, y)
    ensures Diverges(r)
  {
    LayoutAt(r, c);
    ZeroCountFull(g[y]);
    UniformDiverges(r, c, y);
  }

  /**
   * One pass of the scan's loop at row y, given what the pass found (e empty
   * cells, whether a shift moved a cell) and the field g2 it left: the scan
   * either hangs, or stands at row y' with the field g2.
   */
  lemma ScanStep(r: Board, g: Board, c: nat, p: nat, y: nat, empty: int, e: int, moved: bool, g2: Board)
    returns (c': nat, p': nat)
    requires Shaped(r) && Scan(r, g, c, p, y, empty) && empty < W && y < H
    requires e == ZeroCount(g[y])
    requires e != 0 ==> g2 == g
    requires e == 0 ==> g2 == DropRow(g, y) && (!moved <==> Uniform(g, y))
    ensures c' <= H
    ensures e == 0 && !moved ==> Diverges(r)
    ensures e == 0 && moved ==> Scan(r, g2, c', p', y, e) && c' == c + 1 && c' <= H
    ensures e != 0 ==> Scan(r, g2, c', p', y + 1, e) && c <= c' <= H
  {
    c', p' := c, p;
    if e == 0 {
      if moved {
        ScanDrop(r, g, c, p, y, empty);
        c' := c + 1;
      } else {
        ScanHangs(r, g, c, p, y, empty);
      }
    } else {
      c', p' := ScanPass(r, g, c, p, y, empty, e);
    }
  }

  /** When the scan stops, the field is the compacted one and the scan did not diverge. */
  lemma ScanEnds(r: Board, g: Board, c: nat, p: nat, y: nat, empty: int)
    requires Shaped(r) && Scan(r, g, c, p, y, empty) && !(empty < W && y < H)
    ensures g == Compacted(r) && !Diverges(r)
  {
    LayoutFinal(r);
    if empty == W {
      assert FirstBlank(r) == c - 1;
    } else {
      assert FirstBlank(r) == H;
      assert r[..H] == r;
      if p == 0 {
        SurvivorsKeepsAll(r);
        assert Survivors(r)[H - 1] == r[H - 1];
      }
    }
  }

  /** No full row is left at or below the point where the scan stops; the stop row is blank. */
  lemma CompactedBelowStop(b: Board)
    requires Shaped(b)
    ensures Cleared(b) <= FirstBlank(b)
    ensures var s := FirstBlank(b) - Cleared(b);
      (forall j :: 0 <= j < s ==> !Full(Compacted(b)[j])) &&
      (FirstBlank(b) < H ==> Blank(Compacted(b)[s]))
  {
    var e := FirstBlank(b);
    SurvivorsDropsFull(b[..e]);
    LayoutAt(b, e);
  }

  /** A non-full row j below the stop row moves down by the number of full rows beneath it. */
  lemma CompactedKeeps(b: Board, j: nat)
    requires Shaped(b) && j < FirstBlank(b) && !Full(b[j])
    ensures FullCount(b[..j]) <= j && j - FullCount(b[..j]) == |Survivors(b[..j])|
    ensures Compacted(b)[j - FullCount(b[..j])] == b[j]
  {
    var e := FirstBlank(b);
    var pre := b[..e];
    assert pre[..j] == b[..j];
    SurvivorsDropsFull(b[..j]);
    SurvivorAt(pre, j);
    LayoutAt(b, e);
  }

  /**
   * The rows the scan keeps stay in their order: a non-full row j below the
   * stop row moves down by the number of full rows beneath it.
   */
  lemma CompactedKeepsOrder(b: Board, j1: nat, j2: nat)
    requires Shaped(b) && j1 < j2 < FirstBlank(b)
    requires !Full(b[j1]) && !Full(b[j2])
    ensures j1 - FullCount(b[..j1]) < j2 - FullCount(b[..j2])
    ensures Compacted(b)[j1 - FullCount(b[..j1])] == b[j1]
    ensures Compacted(b)[j2 - FullCount(b[..j2])] == b[j2]
  {
    CompactedKeeps(b, j1);
    CompactedKeeps(b, j2);
    SurvivorsSnoc(b, j1);
    SurvivorsGrow(b, j1 + 1, j2);
  }

  /** Rows from the stop row up move down by the number of rows removed. */
  lemma CompactedShiftsRest(b: Board, j: nat)
    requires Shaped(b) && FirstBlank(b) <= j < H
    ensures Cleared(b) <= j && Compacted(b)[j - Cleared(b)] == b[j]
  {
    var e := FirstBlank(b);
    SurvivorsDropsFull(b[..e]);
    LayoutAt(b, e);
  }

  /** The top row is never reset: one copy of it fills each place a removal frees. */
  lemma CompactedRepeatsTop(b: Board, j: nat)
    requires Shaped(b) && H - Cleared(b) <= j < H
    ensures Compacted(b)[j] == b[H - 1]
  {
    var e := FirstBlank(b);
    SurvivorsDropsFull(b[..e]);
    LayoutAt(b, e);
  }

  /** Without a full row below the stop row the scan changes nothing. */
  lemma CompactedIdentity(b: Board)
    requires Shaped(b) && Cleared(b) == 0
    ensures Compacted(b) == b
  {
    var e := FirstBlank(b);
    SurvivorsDropsFull(b[..e]);
    SurvivorsKeepsAll(b[..e]);
    assert b[..e] + b[e..] == b;
  }

  /** A filled bottom row under an otherwise empty field is cleared, leaving the field empty. */
  lemma ClearBottomRow()
    ensures var b := [seq(W, _ => 1)] + EmptyBoard()[1..];
      Shaped(b) && FirstBlank(b) == 1 && Cleared(b) == 1 && !Diverges(b) &&
      Compacted(b) == EmptyBoard()
  {
    var b := [seq(W, _ => 1)] + EmptyBoard()[1..];
    assert !Blank(b[0]) by { assert b[0][0] == 1; }
    assert Blank(b[1]);
    assert b[1..][0] == b[1];
    assert FirstBlank(b) == 1;
    assert b[..1] == [b[0]];
    assert b[..1][..0] == [];
    assert Survivors(b[..1]) == [];
    assert FullCount(b[..1]) == 1;
    var c := Compacted(b);
    assert c == b[1..] + [b[H - 1]];
    assert c == EmptyBoard();
  }
}
