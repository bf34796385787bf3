# Falling-block game core, modelled in Dafny

This project models the simulation core of a small falling-block game written in C++ (`main.cpp`).

The game state is:

- a 9-wide, 16-high grid `matrix[x][y]` of colour ids, with row 0 at the bottom;
- one active piece, given by its kind, the position of its 4x4 box and its rotation state;
- a scratch copy of the piece that moves are tried on;
- the time up to which gravity has run.

There are seven kinds of piece with four rotation states each. A rotation state is a row of a constant table. It lists the four occupied cells of the box as indices 0..15, and index i is the cell (i % 4, i / 4).

Each frame does four things in order:

1. It erases the piece from the grid.
2. It applies the frame's key presses to the scratch copy and commits them only if the whole combined move is a valid placement.
3. It runs the fixed-step gravity loop. The loop moves the piece down a row, or locks it when it cannot move. Locking draws the piece into the grid, runs the line-clear scan and spawns a new piece.
4. It draws the piece again.

The project has four modules:

- `Shapes` holds the piece table, the decoding of a box index and the rotate key.
- `Field` holds the grid as a value (`Board`, stored by rows) and the specification functions of the three grid operations:
  - `Fits` is the validity check;
  - `Stamp` draws a piece in a colour;
  - `Compacted` and `Diverges` describe the line-clear scan.
- `Simulation` holds the game's state machine as values:
  - `Candidate` and `Controlled` handle the keys;
  - `Spawn` creates a piece;
  - `Lock` and `Gravity` are one gravity tick;
  - `Steps` and `Run` are the catch-up loop;
  - `Frame` is one whole frame.
- `Game` holds the class `Tetris`. It has the source's fields: an `array2<int>` grid, the piece, the scratch copy and the tick time. It has one method per source function. Each method is proved against the corresponding `Field` or `Simulation` function, through the ghost views `Rows()`, `Active()` and `Scratch()`.

Time is counted in whole milliseconds, and the gravity interval is 500. The current time is a parameter of a frame. The values that `rand()` would return for the frame's locks are the sequence `rolls` (tick i of the frame uses `rolls[i]`, and only if it locks). The keys of the frame are five booleans:

- `raise` is W;
- `left` and `right` are the arrows;
- `drop` is down;
- `turn` is up.

How the code behaves. The model follows the code as written:

- **Tick count.** The gravity loop compares with a strict `<`. From tick time t, the time t + n * 500 therefore yields n - 1 ticks (`Simulation.StepsFromStart`).
- **The top row.** The line-clear shift copies rows t + 1 into t only for t < h - 1, so the top row keeps its cells. Each removed row leaves one copy of the old top row at the top (`Field.CompactedRepeatsTop`).
- **Where the scan stops.** The scan stops after the first all-empty row. Full rows above that row are not cleared (`Field.CompactedShiftsRest`).
- **Endless scan.** Suppose the scan finds no empty row on its way up and the top row is full. It then reaches a full row above which every row is the same, and the shift changes nothing, so the source loops forever. The model's `DeleteRow` detects the shift that changes no cell and returns `hung`. It is proved that `hung` holds exactly when the field before the scan has no empty row and a full top row (`Field.Diverges`, `Game.Tetris.DeleteRow`). `hung` passes up through `StopBrick`, `Descend`, `Fall` and `Update`, whose results are then guaranteed only up to that point.
- **Spawning.** A new piece is never checked against the field, and there is no game-over test (`Simulation.SpawnUnchecked`).

## Model

| member | source | states |
|---|---|---|
| Shapes.Cell | main.cpp:69-112 | every table entry, for every kind, rotation state and cell, is a box index in [0, 16) |
| Shapes.TableInRange | main.cpp:69-112 | each rotation state lists exactly four box indices, strictly increasing, all in [0, 16) |
| Shapes.CellsDistinct | main.cpp:69-112 | the four cells of a rotation state are pairwise distinct |
| Shapes.Offset | main.cpp:475-476 | decoding a box index gives a column and a row offset in [0, 4) that encode back to the index (4 * dy + dx) |
| Shapes.TurnBack | main.cpp:405-410 | the rotate key keeps the state in [0, 4) and steps it one back around the four states (the next state after the result is the old one) |
| Shapes.TurnBackPeriod | main.cpp:405-410 | four presses of the rotate key restore the state; one or two presses change it |
| Field.Fits | main.cpp:469-489 | a valid placement has every cell between the walls and at or above the floor, and every in-grid cell it covers is empty |
| Field.OutsideRejected | main.cpp:473-486 | a placement with a cell left of column 0, right of the last column or below row 0 is invalid |
| Field.AboveTopFits | main.cpp:478-486 | cells inside the columns but above the top row never make a placement invalid, whatever the grid holds |
| Field.EmptyBoardFits | main.cpp:469-489 | on an empty grid, every box inside the columns and not below the floor is a valid placement |
| Field.StampedCollides | main.cpp:478-501 | once a piece with a cell inside the grid is drawn in a non-zero colour, the same placement is no longer valid |
| Field.Stamp | main.cpp:491-503 | the drawn grid keeps its shape, every in-grid cell of the piece holds the colour, and every cell the piece does not cover keeps its value |
| Field.OverlayRoundTrip | main.cpp:491-503 | erasing a piece drawn over a grid where it fits gives back that grid exactly |
| Field.StampIdempotent | main.cpp:491-503 | drawing a piece twice in the same colour is the same as drawing it once |
| Field.ZeroCount | main.cpp:454-458 | the count of empty cells in a row is at most the row's width |
| Field.ZeroCountMultiset | main.cpp:454-458 | the count equals the number of zero cells in the row, whatever their order |
| Field.ZeroCountFull | main.cpp:454-460 | the count of empty cells in a row is zero exactly when the row is full |
| Field.ZeroCountBlank | main.cpp:452-458 | the count of empty cells equals the width exactly when the row is all empty |
| Field.FirstBlank | main.cpp:452 | the row where the scan stops is the lowest all-empty row: every row below it is not all empty, and it is all empty unless it is past the top |
| Field.DropRow | main.cpp:460-463 | removing a row keeps the number of rows |
| Field.DropRowShifts | main.cpp:460-463 | removing row y keeps the rows below y, moves every row above y down one, and keeps the top row |
| Field.UniformFixed | main.cpp:460-463 | the shift at row y leaves the grid exactly as it was if and only if every row from y up is the same as row y |
| Field.SurvivorsDropsFull | main.cpp:460-465 | the rows the scan keeps and the full rows it removes together make up all the rows it looks at |
| Field.ScanPass | main.cpp:464-465 | a row with an empty cell is passed over: the grid is unchanged and the scan moves up one row |
| Field.ScanDrop | main.cpp:460-463 | a full row that the shift changes is removed, and the scan stays on the same row with one more original row consumed |
| Field.ScanHangs | main.cpp:452-463 | a full row that the shift does not change happens only on a grid with no empty row and a full top row |
| Field.ScanStep | main.cpp:452-466 | one pass of the scan loop: a shift that changes nothing means the grid diverges; a shift that changes the grid keeps the scan on row y; a row with an empty cell moves the scan to row y + 1 |
| Field.DivergesHasNoBlank | main.cpp:452-463 | a grid on which the scan never ends has no all-empty row at all |
| Field.ScanEnds | main.cpp:452-466 | when the scan's loop condition fails, the grid is the compacted grid and the scan did not diverge |
| Field.UniformDiverges | main.cpp:452-463 | a full row with only identical rows above it during the scan implies no empty row and a full top row in the original grid |
| Field.Compacted | main.cpp:448-467 | the grid after the scan is again 9 by 16 |
| Field.CompactedBelowStop | main.cpp:448-467 | after the scan, no full row is left below the stop row, and the stop row, when there is one, is all empty |
| Field.CompactedKeeps | main.cpp:448-467 | a non-full row below the stop row moves down by the number of full rows beneath it |
| Field.CompactedKeepsOrder | main.cpp:448-467 | two non-full rows below the stop row keep their order; each moves down by the number of full rows beneath it |
| Field.CompactedShiftsRest | main.cpp:460-463 | every row from the stop row up moves down by the number of rows removed |
| Field.CompactedRepeatsTop | main.cpp:461-463 | the places freed at the top all hold copies of the old top row |
| Field.CompactedIdentity | main.cpp:448-467 | with no full row below the stop row, the scan leaves the grid unchanged |
| Field.ClearBottomRow | main.cpp:448-467 | a full bottom row under an otherwise empty grid is cleared and leaves the grid empty |
| Simulation.Candidate | main.cpp:391-410 | the frame's keys move the piece by at most one column and one row, keep its kind and keep the rotation state valid; with no key pressed the piece is unchanged |
| Simulation.Controlled | main.cpp:412-413 | the input step commits the whole candidate move or nothing; when the candidate is valid it is committed; a valid piece stays valid |
| Simulation.Spawn | main.cpp:416-422 | a new piece has kind roll % 7, box at column 4 and row 15, and rotation 0 |
| Simulation.Lock | main.cpp:441-446 | the state after a lock is a 9 by 16 grid and a piece whose kind and rotation index the table |
| Simulation.LockOutcome | main.cpp:441-446 | a lock hangs exactly when the scan of the grid with the piece drawn in diverges, and the hung state then holds that grid as a placeholder, since the source never returns; otherwise the next piece is the spawned one and the top row is the top row of the grid with the piece drawn in |
| Simulation.Gravity | main.cpp:428-437 | the state after a gravity tick is a 9 by 16 grid and a piece whose kind and rotation index the table |
| Simulation.GravityMoves | main.cpp:430-435 | when the piece can move down, the tick moves it exactly one row, keeps its column, kind and rotation, and leaves the grid unchanged |
| Simulation.Steps | main.cpp:426 | the catch-up loop runs no tick exactly when the current time is not past the tick time plus one interval |
| Simulation.StepsNext | main.cpp:426-428 | a tick that starts before now leaves exactly one tick fewer to run |
| Simulation.StepsExit | main.cpp:426 | the catch-up loop stops only once one more tick would reach the current time, and every tick it ran lies before that time |
| Simulation.StepsFromStart | main.cpp:426-428 | the time n ticks after the tick time yields n - 1 ticks |
| Simulation.Run | main.cpp:424-439 | a run of no ticks changes nothing, a run can hang only if it runs a tick, and the state stays well formed |
| Simulation.RunStep | main.cpp:426-437 | a tick that does not hang hands its state on to the remaining ticks |
| Simulation.RunHangs | main.cpp:426-437 | a tick that hangs ends the run hung |
| Simulation.RunUnobstructed | main.cpp:424-439 | while the way down is clear, k gravity ticks lower the piece by exactly k rows and change nothing else |
| Simulation.LockRespawns | main.cpp:434-446 | a piece that cannot move down is drawn into the grid, the grid is compacted and a freshly spawned piece replaces it, unless the scan diverges |
| Simulation.SpawnFallsOneRow | main.cpp:416-435 | a piece spawned on an empty grid moves down one row on the first tick |
| Simulation.LeftAtWall | main.cpp:396-397 | a move to the left is refused when a cell of the piece is in column 0 |
| Simulation.SpawnUnchecked | main.cpp:416-422 | spawning does not check the new placement: a piece of the first kind that falls onto a single filled cell locks, the game goes on, and the next spawned piece of that kind does not fit |
| Simulation.Frame | main.cpp:381-387 | a frame hangs only if gravity ticks run in it; a frame in which no tick is due only applies the keys to the grid without the piece |
| Simulation.FrameSeesSettledField | main.cpp:381-387 | a frame over a grid with the piece drawn in applies keys and gravity to the grid without the piece, and the committed piece fits that grid |
| Game.Tetris.constructor | main.cpp:143-157 | the initial state: an all-empty grid, every piece variable zero and tick time zero |
| Game.Tetris.Check | main.cpp:469-489 | returns true exactly when every cell of the placement is inside the columns, not below the floor and on an empty grid cell if it lies within the grid; it changes nothing |
| Game.Tetris.Draw | main.cpp:491-503 | the grid afterwards is the old grid with exactly the piece's in-grid cells set to the colour |
| Game.Tetris.ScanRow | main.cpp:454-465 | counts the empty cells of row y; a row with an empty cell is left alone; a full row is removed by the shift; it reports a move exactly when the grid changed |
| Game.Tetris.ShiftDown | main.cpp:460-463 | every row above y moves down one and the top row keeps its cells; it reports no move exactly when the grid is unchanged, which is exactly when every row from y up is the same |
| Game.Tetris.CopyRowDown | main.cpp:462-463 | row t takes the cells of row t + 1 and every other cell keeps its value; it reports whether any cell of row t changed |
| Game.Tetris.DeleteRow | main.cpp:448-467 | the scan hangs exactly when the grid has no empty row and a full top row; otherwise the grid afterwards is the compacted grid |
| Game.Tetris.CopyBrick | main.cpp:505-511 | the scratch copy equals the active piece |
| Game.Tetris.Apply | main.cpp:513-519 | the active piece equals the scratch copy |
| Game.Tetris.InitBrick | main.cpp:416-422 | the active piece is the spawned piece for the roll |
| Game.Tetris.Steer | main.cpp:393-410 | the scratch copy is moved by the frame's keys, in the source's key order, with the rotation wrapping from -1 to 3 |
| Game.Tetris.Control | main.cpp:389-414 | the active piece becomes the combined candidate if that is valid on the current grid and stays unchanged otherwise |
| Game.Tetris.StopBrick | main.cpp:441-446 | the grid and piece afterwards are those of a lock: piece drawn in, rows cleared, new piece spawned; or the scan hangs |
| Game.Tetris.Descend | main.cpp:428-437 | one gravity tick: the piece moves down one row if that is valid and is locked otherwise |
| Game.Tetris.Fall | main.cpp:424-439 | runs exactly the number of ticks that fit before now, advancing the tick time by one interval each, and exits only when one more tick would reach now |
| Game.Tetris.Update | main.cpp:381-387 | one frame: erase the piece, apply the keys, run gravity, draw the piece again |

## Left out

- Graphics: window setup, shaders, vertex buffers and the render loop (main.cpp:17-46, 161-296, 305-344) draw the grid and compute nothing the game uses. `main` itself (main.cpp:297-304) spawns the first piece with `InitBrick` and calls `Update` once per frame; a frame of the model is one call of `Update`.
- Key polling: edge detection and the key-state map (main.cpp:50-57, 356-375) call the windowing library. The frame's key presses are a `Keys` parameter.
- The E key is tracked but not used by `Control`, so it is not modelled.
- The clock: `glfwGetTime()` and the `double` tick of 0.5 s become integer milliseconds and a tick of 500. Floating-point rounding of the accumulated tick time is not modelled.
- `rand()`: the values it returns are the sequence `rolls`. Only `roll % 7` is used.
- The colour arrays (main.cpp:60-67) are used for rendering only. The grid holds the colour ids 0 and 1.
- Game.Tetris.DeleteRow: where the source never returns, the model stops at the first shift that changes nothing and reports `hung`. It says nothing about the grid in that case.
- Game.Tetris.Fall: after `hung`, its contract says nothing about the grid, the piece or the tick time.
- Game.Tetris.Fall: the clock is read once per frame, as the parameter `now`. The source calls `glfwGetTime()` again at every test of the loop condition (main.cpp:426), so a tick boundary passed while the loop runs adds a tick in the same frame. The model runs that tick in the next frame.
- Simulation.Lock: its own contract states only that the state stays well formed. What a lock does is stated by `Simulation.LockOutcome` and `Simulation.LockRespawns`.
- Simulation.Gravity: its own contract states only that the state stays well formed. What a tick does is stated by `Simulation.GravityMoves` and `Simulation.LockRespawns`.
- Game.Tetris.Update: after `hung`, its contract says nothing about the grid, the piece or the tick time.
- Game.Tetris.Descend: the scratch copy it leaves behind is constrained only by `Valid()`; the same holds for `Fall` and `Update`. The source reads the scratch copy only after `CopyBrick` has overwritten it.
- Game.Tetris.Steer: integers are unbounded, so 32-bit overflow is not modelled. The W key can raise the piece above the top one row per frame; `Y` would overflow only after about two billion such frames.
