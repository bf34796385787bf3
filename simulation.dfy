/**
 * The game's state machine as values: the frame's key presses applied to the
 * active piece and committed only if the combined placement is valid, the
 * fixed-step gravity that moves the piece down or locks it, and the lock that
 * bakes the piece into the field, clears rows and spawns the next piece.
 * Time is counted in whole milliseconds.
 */
module Simulation {
  import opened Shapes
  import opened Field

  /** Gravity interval in milliseconds (half a second). */
  const Tick := 500

  /** The keys pressed this frame: W raises the piece, the arrows move, drop and rotate it. */
  datatype Keys = Keys(raise: bool, left: bool, right: bool, drop: bool, turn: bool)

  /** Everything the frame's key presses do to the piece, before any check. */
  function Candidate(p: Piece, k: Keys): (q: Piece)
    requires Oriented(p)
    ensures Oriented(q) && q.brick == p.brick
    ensures -1 <= q.x - p.x <= 1 && -1 <= q.y - p.y <= 1
    ensures k == Keys(false, false, false, false, false) ==> q == p
  {
    var y := p.y + (if k.raise then 1 else 0);
    var x := p.x - (if k.left then 1 else 0) + (if k.right then 1 else 0);
    var y' := y - (if k.drop then 1 else 0);
    var r := if k.turn then TurnBack(p.rotate) else p.rotate;
    Piece(p.brick, x, y', r)
  }

  /** The input step commits all of the frame's moves together or none of them. */
  function Controlled(b: Board, p: Piece, k: Keys): (q: Piece)
    requires Shaped(b) && Oriented(p)
    ensures Oriented(q)
    ensures q == p || (q == Candidate(p, k) && Fits(b, q))
    ensures Fits(b, Candidate(p, k)) ==> q == Candidate(p, k)
    ensures Fits(b, p) ==> Fits(b, q)
  {
    if Fits(b, Candidate(p, k)) then Candidate(p, k) else p
  }

  /** A fresh piece: the rolled kind, box at the middle column and top row, rotation 0. */
  function Spawn(roll: nat): (p: Piece)
    ensures Oriented(p) && p.brick == roll % Kinds
    ensures p.x == 4 && p.y == 15 && p.rotate == 0
  {
    Piece(roll % Kinds, W / 2, H - 1, 0)
  }

  /** The field with the active piece, which is never part of the field itself. */
  datatype State = State(board: Board, piece: Piece)

  predicate Consistent(s: State)
  {
    Shaped(s.board) && Oriented(s.piece)
  }

  /** A step's result; hung means the line-clear scan never ends and the game stops there. */
  datatype Outcome = Outcome(state: State, hung: bool)

  /** The piece moved down by d rows. */
  function Lowered(p: Piece, d: int): Piece
  {
    p.(y := p.y - d)
  }

  /**
   * Locking: bake the piece, clear rows, spawn the next piece without checking it.
   * When the scan diverges the source never returns; the hung outcome then holds
   * the baked field only as a placeholder, not as a state the source reaches.
   */
  function Lock(s: State, roll: nat): (o: Outcome)
    requires Consistent(s)
    ensures Consistent(o.state)
  {
    var baked := Stamp(s.board, s.piece, 1);
    if Diverges(baked) then Outcome(State(baked, s.piece), true)
    else Outcome(State(Compacted(baked), Spawn(roll)), false)
  }

  /** One gravity tick: move down a row if that is valid, lock otherwise. */
  function Gravity(s: State, roll: nat): (o: Outcome)
    requires Consistent(s)
    ensures Consistent(o.state)
  {
    if Fits(s.board, Lowered(s.piece, 1)) then Outcome(State(s.board, Lowered(s.piece, 1)), false)
    else Lock(s, roll)
  }

  /** Number of gravity ticks the catch-up loop runs from tick time t at time now. */
  function Steps(t: int, now: int): (n: nat)
    ensures n == 0 <==> now <= t + Tick
    decreases now - t
  {
    if t + Tick < now then 1 + Steps(t + Tick, now) else 0
  }

  /** Gravity ticks i, i + 1, ..., n - 1 in order; tick j uses rolls[j] if it locks; stops if the game hangs. */
  function Run(s: State, rolls: seq<nat>, i: nat, n: nat): (o: Outcome)
    requires Consistent(s) && i <= n <= |rolls|
    ensures Consistent(o.state)
    ensures i == n ==> o == Outcome(s, false)
    ensures o.hung ==> i < n
    decreases n - i
  {
    if i == n then Outcome(s, false)
    else
      var o := Gravity(s, rolls[i]);
      if o.hung then o else Run(o.state, rolls, i + 1, n)
  }

  /**
   * One frame over a field that holds the piece drawn in: erase the piece,
   * apply the keys, run n gravity ticks, draw the piece again.
   */
  function Frame(s: State, k: Keys, n: nat, rolls: seq<nat>): (o: Outcome)
    requires Consistent(s) && n <= |rolls|
    ensures Consistent(o.state)
    ensures o.hung ==> 0 < n
    ensures n == 0 ==> !o.hung && o.state.piece == Controlled(Stamp(s.board, s.piece, 0), s.piece, k)
  {
    var settled := Stamp(s.board, s.piece, 0);
    var p := Controlled(settled, s.piece, k);
    var o := Run(State(settled, p), rolls, 0, n);
    if o.hung then o
    else Outcome(State(Stamp(o.state.board, o.state.piece, 1), o.state.piece), false)
  }

  // ---------------------------------------------------------------------------
  // Properties

  /** A tick that starts before now leaves one tick fewer to run. */
  lemma StepsNext(t: int, now: int)
    requires t + Tick < now
    ensures Steps(t, now) == 1 + Steps(t + Tick, now)
  {
  }

  /** The catch-up loop stops as soon as one more tick would reach the current time. */
  lemma {:induction false} StepsExit(t: int, now: int)
    ensures now <= t + (Steps(t, now) + 1) * Tick
    ensures Steps(t, now) > 0 ==> t + Steps(t, now) * Tick < now
    decreases now - t
  {
    if t + Tick < now {
      StepsExit(t + Tick, now);
    }
  }

  /**
   * With the strict comparison of the loop, the time n * Tick after tick time
   * t yields n - 1 ticks, not n.
   */
  lemma {:induction false} StepsFromStart(t: int, n: nat)
    requires 1 <= n
    ensures Steps(t, t + n * Tick) == n - 1
    decreases n
  {
    if n > 1 {
      StepsFromStart(t + Tick, n - 1);
      assert t + n * Tick == (t + Tick) + (n - 1) * Tick;
    }
  }

  /** A tick that does not hang hands its state on to the rest of the run. */
  lemma RunStep(s: State, t: State, rolls: seq<nat>, i: nat, n: nat)
    requires Consistent(s) && Consistent(t) && i < n <= |rolls|
    requires Gravity(s, rolls[i]) == Outcome(t, false)
    ensures Run(s, rolls, i, n) == Run(t, rolls, i + 1, n)
  {
  }

  /** A tick that hangs ends the run hung. */
  lemma RunHangs(s: State, rolls: seq<nat>, i: nat, n: nat)
    requires Consistent(s) && i < n <= |rolls| && Gravity(s, rolls[i]).hung
    ensures Run(s, rolls, i, n).hung
  {
  }

  /** While the way down is clear, the ticks i..n - 1 lower the piece by exactly n - i rows. */
  lemma {:induction false} RunUnobstructed(s: State, rolls: seq<nat>, i: nat, n: nat)
    requires Consistent(s) && i <= n <= |rolls|
    requires forall d :: 1 <= d <= n - i ==> Fits(s.board, Lowered(s.piece, d))
    ensures Run(s, rolls, i, n) == Outcome(State(s.board, Lowered(s.piece, n - i)), false)
    decreases n - i
  {
    if i < n {
      var s' := State(s.board, Lowered(s.piece, 1));
      assert Gravity(s, rolls[i]) == Outcome(s', false);
      forall d | 1 <= d <= n - (i + 1)
        ensures Fits(s'.board, Lowered(s'.piece, d))
      {
        assert Lowered(s'.piece, d) == Lowered(s.piece, d + 1);
      }
      RunUnobstructed(s', rolls, i + 1, n);
      assert Lowered(s'.piece, n - (i + 1)) == Lowered(s.piece, n - i);
    }
  }

  /**
   * The lock hangs exactly when the scan of the field with the piece baked in
   * diverges; otherwise the next piece is the spawned one and the top row is
   * the baked top row.
   */
  lemma LockOutcome(s: State, roll: nat)
    requires Consistent(s)
    ensures var o := Lock(s, roll); var baked := Stamp(s.board, s.piece, 1);
      (o.hung <==> Diverges(baked)) &&
      (o.hung ==> o.state.board == baked) &&
      (!o.hung ==> o.state.piece == Spawn(roll) && o.state.board[H - 1] == baked[H - 1])
  {
  }

  /** A tick on which the piece can move down moves it exactly one row and changes nothing else. */
  lemma GravityMoves(s: State, roll: nat)
    requires Consistent(s) && Fits(s.board, Lowered(s.piece, 1))
    ensures var o := Gravity(s, roll);
      !o.hung && o.state.board == s.board && o.state.piece.brick == s.piece.brick &&
      o.state.piece.x == s.piece.x && o.state.piece.y == s.piece.y - 1 &&
      o.state.piece.rotate == s.piece.rotate
  {
  }

  /** A piece that cannot move down is locked and replaced by a freshly spawned one. */
  lemma LockRespawns(s: State, roll: nat)
    requires Consistent(s) && !Fits(s.board, Lowered(s.piece, 1))
    ensures var o := Gravity(s, roll);
      o.hung == Diverges(Stamp(s.board, s.piece, 1)) &&
      (!o.hung ==> o.state == State(Compacted(Stamp(s.board, s.piece, 1)), Spawn(roll)))
  {
  }

  /** A piece spawned on an empty field falls one row on the first tick. */
  lemma SpawnFallsOneRow(roll: nat, next: nat)
    ensures Gravity(State(EmptyBoard(), Spawn(roll)), next)
      == Outcome(State(EmptyBoard(), Piece(roll % Kinds, 4, 14, 0)), false)
  {
    assert Lowered(Spawn(roll), 1) == Piece(roll % Kinds, 4, 14, 0);
    EmptyBoardFits(Piece(roll % Kinds, 4, 14, 0));
  }

  /** A move to the left is refused when a cell of the piece is already in column 0. */
  lemma LeftAtWall(b: Board, p: Piece, i: int)
    requires Shaped(b) && Oriented(p) && 0 <= i < 4 && CellX(p, i) == 0
    ensures Controlled(b, p, Keys(false, true, false, false, false)) == p
  {
    var q := Candidate(p, Keys(false, true, false, false, false));
    assert CellX(q, i) == -1;
    assert !Free(b, CellX(q, i), CellY(q, i));
  }

  /**
   * Spawning never checks the new placement: a piece of the first kind that
   * falls onto a single filled cell in row 14 locks with a cell in row 15, and
   * the next piece of that kind is spawned onto that cell.
   */
  lemma SpawnUnchecked()
    ensures var b := EmptyBoard()[14 := EmptyBoard()[14][6 := 1]];
      var o := Gravity(State(b, Spawn(0)), 0);
      Shaped(b) && !o.hung && o.state.piece == Spawn(0) && !Fits(o.state.board, o.state.piece)
  {
    var b := EmptyBoard()[14 := EmptyBoard()[14][6 := 1]];
    var p := Spawn(0);
    assert Offset(Cell(0, 0, 0)) == (2, 0);
    assert !Free(b, CellX(Lowered(p, 1), 0), CellY(Lowered(p, 1), 0));
    var baked := Stamp(b, p, 1);
    forall tx | 0 <= tx < W
      ensures baked[0][tx] == 0
    {
      assert !Covers(p, tx, 0);
    }
    assert FirstBlank(baked) == 0;
    CompactedIdentity(baked);
    StampedCollides(b, p, 1, 0);
  }

  /**
   * A frame over a field that holds a fitting piece drawn in sees the field
   * without the piece: the keys and gravity are checked against that field.
   */
  lemma FrameSeesSettledField(g: Board, p: Piece, k: Keys, n: nat, rolls: seq<nat>)
    requires Shaped(g) && Oriented(p) && Fits(g, p) && n <= |rolls|
    ensures var o := Run(State(g, Controlled(g, p, k)), rolls, 0, n);
      Frame(State(Stamp(g, p, 1), p), k, n, rolls) ==
        if o.hung then o else Outcome(State(Stamp(o.state.board, o.state.piece, 1), o.state.piece), false)
    ensures Fits(g, Controlled(g, p, k))
  {
    OverlayRoundTrip(g, p);
  }
}
