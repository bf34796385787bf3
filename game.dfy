/**
 * The game state as the source keeps it: the matrix[x][y] grid, the active
 * piece (BRICK, X, Y, ROTATE), its scratch copy (the m_ variables) that moves
 * are tried on, and the time up to which gravity has run. Every method is
 * proved against the value-level specification of the Field and Simulation
 * modules.
 */
module Game {
  import opened Shapes
  import opened Field
  import opened Simulation

  class Tetris {
    /** matrix[tx, ty]: colour id of column tx, row ty (row 0 at the bottom). */
    var matrix: array2<int>

    /** The active piece. */
    var Brick: int
    var X: int
    var Y: int
    var Rotate: int

    /** The scratch copy that a move is tried on before it is committed. */
    var mBrick: int
    var mX: int
    var mY: int
    var mRotate: int

    /** Time up to which gravity has run, in milliseconds. */
    var tickTime: int

    ghost predicate Valid()
      reads this`matrix, this`Brick, this`Rotate, this`mBrick, this`mRotate
    {
      matrix.Length0 == W && matrix.Length1 == H &&
      0 <= Brick < Kinds && 0 <= Rotate < Turns &&
      0 <= mBrick < Kinds && 0 <= mRotate < Turns
    }

    /** The grid as a field value: Rows()[ty][tx] == matrix[tx, ty]. */
    ghost function Rows(): (b: Board)
      reads this`matrix, matrix
      requires matrix.Length0 == W && matrix.Length1 == H
      ensures Shaped(b)
    {
      var m := matrix;
      seq(H, ty requires 0 <= ty < H reads m =>
        seq(W, tx requires 0 <= tx < W reads m => m[tx, ty]))
    }

    ghost function Active(): Piece
      reads this`Brick, this`X, this`Y, this`Rotate
    {
      Piece(Brick, X, Y, Rotate)
    }

    ghost function Scratch(): Piece
      reads this`mBrick, this`mX, this`mY, this`mRotate
    {
      Piece(mBrick, mX, mY, mRotate)
    }

    lemma RowsAre(g: Board)
      requires matrix.Length0 == W && matrix.Length1 == H && Shaped(g)
      requires forall tx, ty :: 0 <= tx < W && 0 <= ty < H ==> matrix[tx, ty] == g[ty][tx]
      ensures Rows() == g
    {
      var b := Rows();
      forall ty | 0 <= ty < H
        ensures b[ty] == g[ty]
      {
      }
    }

    /** The state before the first piece: an empty grid and every variable zero. */
    constructor ()
      ensures Valid() && fresh(matrix)
      ensures Rows() == EmptyBoard()
      ensures Active() == Piece(0, 0, 0, 0) && Scratch() == Piece(0, 0, 0, 0) && tickTime == 0
    {
      matrix := new int[W, H]((_, _) => 0);
      Brick, X, Y, Rotate := 0, 0, 0, 0;
      mBrick, mX, mY, mRotate := 0, 0, 0, 0;
      tickTime := 0;
      new;
      RowsAre(EmptyBoard());
    }

    // -------------------------------------------------------------------------
    // The grid operations

    /** Whether piece (b, r) with its box at (x, y) is a valid placement; reads only. */
    method Check(x: int, y: int, b: int, r: int) returns (ok: bool)
      requires Valid() && 0 <= b < Kinds && 0 <= r < Turns
      ensures ok <==> Fits(Rows(), Piece(b, x, y, r))
    {
      ghost var p := Piece(b, x, y, r);
      var i := 0;
      while i < 4
        invariant 0 <= i <= 4
        invariant forall k :: 0 <= k < i ==> Free(Rows(), CellX(p, k), CellY(p, k))
      {
        var tx := x + Cell(b, r, i) % 4;
        var ty := y + Cell(b, r, i) / 4;
        assert tx == CellX(p, i) && ty == CellY(p, i);
        if 0 <= tx < W && 0 <= ty < H {
          if matrix[tx, ty] != 0 {
            return false;
          }
        } else {
          if tx < 0 || tx >= W || ty < 0 {
            return false;
          }
        }
        i := i + 1;
      }
      return true;
    }

    /** Writes colour c into the in-field cells of piece (b, r) at (x, y); skips the rest. */
    method Draw(x: int, y: int, b: int, r: int, c: int)
      requires Valid() && 0 <= b < Kinds && 0 <= r < Turns
      modifies matrix
      ensures Rows() == Stamp(old(Rows()), Piece(b, x, y, r), c)
    {
      ghost var p := Piece(b, x, y, r);
      ghost var b0 := Rows();
      for i := 0 to 4
        invariant forall tx, ty :: 0 <= tx < W && 0 <= ty < H ==>
          matrix[tx, ty] == if CoveredBy(p, i, tx, ty) then c else b0[ty][tx]
      {
        var tx := x + Cell(b, r, i) % 4;
        var ty := y + Cell(b, r, i) / 4;
        assert tx == CellX(p, i) && ty == CellY(p, i);
        if 0 <= tx < W && 0 <= ty < H {
          matrix[tx, ty] := c;
        }
      }
      RowsAre(Stamp(b0, p, c));
    }

    /**
     * One step of the line-clear scan at row y: counts the empty cells of the
     * row and, when there are none, shifts the rows above it down.
     */
    method ScanRow(y: int) returns (empty: int, moved: bool)
      requires Valid() && 0 <= y < H
      modifies matrix
      ensures empty == ZeroCount(old(Rows())[y])
      ensures empty != 0 ==> Rows() == old(Rows())
      ensures empty == 0 ==> Rows() == DropRow(old(Rows()), y) && (!moved <==> Uniform(old(Rows()), y))
      ensures !moved <==> Rows() == old(Rows())
    {
      ghost var row := Rows()[y];
      empty := 0;
      for x := 0 to W
        invariant empty == ZeroCount(row[..x])
      {
        assert row[..x + 1][..x] == row[..x];
        if matrix[x, y] == 0 {
          empty := empty + 1;
        }
      }
      assert row[..W] == row;
      moved := false;
      if empty == 0 {
        moved := ShiftDown(y);
      }
    }

    /**
     * Copies every row above y one row down; the top row keeps its cells.
     * moved is false exactly when no cell changed: every row from y up was the same.
     */
    method ShiftDown(y: int) returns (moved: bool)
      requires Valid() && 0 <= y < H
      modifies matrix
      ensures Rows() == DropRow(old(Rows()), y)
      ensures !moved <==> Uniform(old(Rows()), y)
      ensures !moved <==> Rows() == old(Rows())
    {
      ghost var b0 := Rows();
      moved := false;
      SameUpToStart(b0, y);
      for t := y to H - 1
        invariant forall tx, ty :: 0 <= tx < W && 0 <= ty < H ==>
          matrix[tx, ty] == if y <= ty < t then b0[ty + 1][tx] else b0[ty][tx]
        invariant moved == !SameUpTo(b0, y, t)
      {
        assert forall tx :: 0 <= tx < W ==> matrix[tx, t] == b0[t][tx] && matrix[tx, t + 1] == b0[t + 1][tx];
        var differs := CopyRowDown(t);
        assert differs <==> exists tx :: 0 <= tx < W && b0[t][tx] != b0[t + 1][tx];
        SameUpToNext(b0, y, t);
        moved := moved || differs;
      }
      SameUpToEnd(b0, y);
      UniformFixed(b0, y);
      RowsAre(DropRow(b0, y));
    }

    /** Copies row t + 1 into row t, cell by cell; differs tells whether any cell changed. */
    method CopyRowDown(t: int) returns (differs: bool)
      requires Valid() && 0 <= t < H - 1
      modifies matrix
      ensures forall tx, ty :: 0 <= tx < W && 0 <= ty < H ==>
        matrix[tx, ty] == if ty == t then old(matrix[tx, t + 1]) else old(matrix[tx, ty])
      ensures differs <==> exists tx :: 0 <= tx < W && old(matrix[tx, t]) != old(matrix[tx, t + 1])
    {
      differs := false;
      for x := 0 to W
        invariant forall tx, ty :: 0 <= tx < W && 0 <= ty < H ==>
          matrix[tx, ty] == if ty == t && tx < x then old(matrix[tx, t + 1]) else old(matrix[tx, ty])
        invariant differs <==> exists tx :: 0 <= tx < x && old(matrix[tx, t]) != old(matrix[tx, t + 1])
      {
        if matrix[x, t] != matrix[x, t + 1] {
          differs := true;
        }
        matrix[x, t] := matrix[x, t + 1];
      }
    }

    /**
     * The line-clear scan, bottom-up from row 0: a full row is removed by
     * shifting the rows above it down (the scan stays on that row); the scan
     * stops after the first blank row or at the top. When the scan reaches a
     * full row above which every row is the same, the shift changes nothing and
     * the source loops forever; the model stops there and reports hung.
     */
    method DeleteRow() returns (hung: bool)
      requires Valid()
      modifies matrix
      ensures hung <==> Diverges(old(Rows()))
      ensures !hung ==> Rows() == Compacted(old(Rows()))
    {
      ghost var r := Rows();
      ghost var g := r;
      ghost var c: nat := 0;
      ghost var p: nat := 0;
      var y := 0;
      var empty := 0;
      hung := false;
      ScanStart(r);
      while empty < W && y < H && !hung
        invariant c <= H && y <= H
        invariant !hung ==> Scan(r, g, c, p, y, empty) && Rows() == g
        invariant hung ==> Diverges(r)
        decreases if hung then 0 else 1, H - c, H - y
      {
        var e, moved := ScanRow(y);
        ghost var g2 := if e == 0 then DropRow(g, y) else g;
        c, p := ScanStep(r, g, c, p, y, empty, e, moved, g2);
        g := g2;
        if e == 0 {
          hung := !moved;
        } else {
          y := y + 1;
        }
        empty := e;
      }
      if !hung {
        ScanEnds(r, g, c, p, y, empty);
      }
    }

    // -------------------------------------------------------------------------
    // The piece and its scratch copy

    /** Copies the active piece into the scratch copy. */
    method CopyBrick()
      modifies this`mBrick, this`mX, this`mY, this`mRotate
      ensures Scratch() == Active()
    {
      mBrick, mX, mY, mRotate := Brick, X, Y, Rotate;
    }

    /** Commits the scratch copy as the active piece. */
    method Apply()
      modifies this`Brick, this`X, this`Y, this`Rotate
      ensures Active() == Scratch()
    {
      Brick, X, Y, Rotate := mBrick, mX, mY, mRotate;
    }

    /** A new piece of kind roll % 7 at the middle column and top row in rotation 0. */
    method InitBrick(roll: nat)
      modifies this`Brick, this`X, this`Y, this`Rotate
      ensures Active() == Spawn(roll)
    {
      Brick := roll % Kinds;
      X := W / 2;
      Y := H - 1;
      Rotate := 0;
    }

    /** The frame's key presses applied to the scratch copy, in the order the source tests the keys. */
    method Steer(k: Keys)
      requires 0 <= mBrick < Kinds && 0 <= mRotate < Turns
      modifies this`mX, this`mY, this`mRotate
      ensures Scratch() == Candidate(old(Scratch()), k)
    {
      if k.raise {
        mY := mY + 1;
      }
      if k.left {
        mX := mX - 1;
      }
      if k.right {
        mX := mX + 1;
      }
      if k.drop {
        mY := mY - 1;
      }
      if k.turn {
        mRotate := mRotate - 1;
        if mRotate == -1 {
          mRotate := 3;
        }
      }
    }

    /** Applies the frame's keys to the scratch copy and commits them only if the result is valid. */
    method Control(k: Keys)
      requires Valid()
      modifies this`Brick, this`X, this`Y, this`Rotate, this`mBrick, this`mX, this`mY, this`mRotate
      ensures Valid()
      ensures Active() == Controlled(Rows(), old(Active()), k)
      ensures Scratch() == Candidate(old(Active()), k)
    {
      CopyBrick();
      Steer(k);
      var ok := Check(mX, mY, mBrick, mRotate);
      if ok {
        Apply();
      }
    }

    /** Bakes the piece into the grid, clears rows and spawns the next piece. */
    method StopBrick(roll: nat) returns (hung: bool)
      requires Valid()
      modifies this`Brick, this`X, this`Y, this`Rotate, matrix
      ensures Valid()
      ensures var o := Lock(State(old(Rows()), old(Active())), roll);
        hung == o.hung && (!hung ==> Rows() == o.state.board && Active() == o.state.piece)
    {
      Draw(X, Y, Brick, Rotate, 1);
      hung := DeleteRow();
      if !hung {
        InitBrick(roll);
      }
    }

    /** One gravity tick: the piece moves down a row if that is valid and is locked otherwise. */
    method Descend(roll: nat) returns (hung: bool)
      requires Valid()
      modifies this`Brick, this`X, this`Y, this`Rotate, this`mBrick, this`mX, this`mY, this`mRotate, matrix
      ensures Valid()
      ensures var o := Gravity(State(old(Rows()), old(Active())), roll);
        hung == o.hung && (!hung ==> Rows() == o.state.board && Active() == o.state.piece)
    {
      ghost var s := State(Rows(), Active());
      CopyBrick();
      mY := mY - 1;
      assert Scratch() == Lowered(s.piece, 1) && Rows() == s.board;
      var ok := Check(mX, mY, mBrick, mRotate);
      hung := false;
      if ok {
        assert Gravity(s, roll) == Outcome(State(s.board, Lowered(s.piece, 1)), false);
        Apply();
      } else {
        assert Gravity(s, roll) == Lock(s, roll);
        assert State(Rows(), Active()) == s;
        hung := StopBrick(roll);
      }
    }

    /**
     * Gravity's catch-up loop: while a whole tick fits before now, advance the
     * tick time by one tick and let the piece descend.
     */
    method Fall(now: int, rolls: seq<nat>) returns (hung: bool)
      requires Valid() && Steps(tickTime, now) <= |rolls|
      modifies this`Brick, this`X, this`Y, this`Rotate, this`mBrick, this`mX, this`mY, this`mRotate
      modifies this`tickTime, matrix
      ensures Valid()
      ensures var o := Run(State(old(Rows()), old(Active())), rolls, 0, Steps(old(tickTime), now));
        hung == o.hung &&
        (!hung ==> Rows() == o.state.board && Active() == o.state.piece &&
                   tickTime == old(tickTime) + Steps(old(tickTime), now) * Tick &&
                   now <= tickTime + Tick)
    {
      ghost var s0 := State(Rows(), Active());
      ghost var n := Steps(tickTime, now);
      var i := 0;
      hung := false;
      while tickTime + Tick < now && !hung
        invariant Valid()
        invariant 0 <= i <= n
        invariant !hung ==> Steps(tickTime, now) == n - i && tickTime == old(tickTime) + i * Tick
        invariant !hung ==> Run(s0, rolls, 0, n) == Run(State(Rows(), Active()), rolls, i, n)
        invariant hung ==> Run(s0, rolls, 0, n).hung
        decreases if hung then 0 else 1, now - tickTime
      {
        ghost var before := State(Rows(), Active());
        StepsNext(tickTime, now);
        tickTime := tickTime + Tick;
        hung := Descend(rolls[i]);
        if hung {
          RunHangs(before, rolls, i, n);
        } else {
          RunStep(before, State(Rows(), Active()), rolls, i, n);
        }
        i := i + 1;
      }
      if !hung {
        StepsExit(old(tickTime), now);
      }
    }

    /** One frame: erase the piece from the grid, apply the keys, run gravity, draw the piece again. */
    method Update(k: Keys, now: int, rolls: seq<nat>) returns (hung: bool)
      requires Valid() && Steps(tickTime, now) <= |rolls|
      modifies this`Brick, this`X, this`Y, this`Rotate, this`mBrick, this`mX, this`mY, this`mRotate
      modifies this`tickTime, matrix
      ensures Valid()
      ensures var o := Frame(State(old(Rows()), old(Active())), k, Steps(old(tickTime), now), rolls);
        hung == o.hung &&
        (!hung ==> Rows() == o.state.board && Active() == o.state.piece &&
                   tickTime == old(tickTime) + Steps(old(tickTime), now) * Tick)
    {
      Draw(X, Y, Brick, Rotate, 0);
      Control(k);
      hung := Fall(now, rolls);
      if !hung {
        Draw(X, Y, Brick, Rotate, 1);
      }
    }
  }
}
