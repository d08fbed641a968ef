# Tetris engine model

A Dafny model of the game engine in `tetris.js`, a falling-block puzzle on a
10-by-20 grid. The model covers:

- the seven tetromino shapes and the exact 90-degree matrix turn;
- the 7-bag Fisher-Yates shuffle and the lookahead queue;
- spawning at the centred column, and game over when a spawn collides;
- the collision test, moves, the soft and hard drop, and the kicked rotation;
- the ghost-row search and locking (merge, instant line clear, respawn);
- the score table, the level and the gravity interval;
- the hold slot, usable once per spawn;
- the gravity step of the animation frame;
- the start, pause, end and reset lifecycle, and the keyboard handlers.

Layout:

- `wrappers.dfy`: the `Option` datatype.
- `pieces.dfy`: piece types, matrices, `Rotate`, bags and the shuffle.
- `grid.dfy`: the board, `Collides`, merging, line clearing, the landing
  row, the kick search and the spawn placement.
- `scoring.dfy`: the score table, `LevelFor` and `GravityInterval`.
- `keys.dfy`: which key names trigger which command.
- `game.dfy`: the class `Game`, holding the module-level variables of the
  script and one method per function that updates them.

Design:

- The grid is a `seq` of rows. The methods reassign it the way the script
  splices and writes its row arrays.
- `Valid()` is the class invariant. The board is 20 by 10 with no full row.
  Level and gravity interval match the cleared lines. While the game runs,
  the active piece lies on free cells.
- `GhostOk()` says that the ghost piece sits at the active piece's landing
  row.
- `State()` is a snapshot of the play state: every field except the pause
  flag, the frame clock and the drop counter, which the methods state
  separately.
- Step predicates give the new play state of an operation in terms of the
  old one: `MovedFrom`, `RotatedFrom`, `LockedFrom`, `SoftDroppedFrom`,
  `HeldFrom`, `FellFrom`, `AdvancedFrom` and `DispatchedFrom`. Each pins
  every field of `State()`, together with `Valid()`, which fixes the level
  and the interval from the lines, and `GhostOk()`, which fixes the ghost
  from the active piece and the board.
- Ghost out-parameters are witnesses. `next` is the type taken from the
  queue; it depends on the shuffle's random choices. The landing row, the
  turned piece and the kick index are fixed by the state (`LandingUnique`,
  `FirstFit`); they are returned so that contracts can refer to them.

## Model

| member | source | states |
|---|---|---|
| Pieces.Canonical | tetris.js:5-41 | each of the seven shapes is square, 2 to 4 wide, with a filled cell |
| Pieces.Width | tetris.js:134 | the spawn width is the first row's length, between 2 and 4, equal to the matrix size |
| Pieces.Rotate | tetris.js:97-111 | a turn of an n-by-n matrix is again n-by-n |
| Pieces.RotateCells | tetris.js:97-111 | a cell is filled after a turn exactly when its pre-image under the turn was filled before |
| Pieces.ImageSize | tetris.js:97-111 | the cell map of a turn is injective, so it keeps the number of cells |
| Pieces.RotateKeepsCount | tetris.js:97-111 | rotate keeps the matrix n-by-n and keeps its number of filled cells |
| Pieces.RotateKeepsShape | tetris.js:97-111 | a turned piece shape is still a valid shape |
| Pieces.RotateInverse | tetris.js:97-111 | `rotate(rotate(m, 1), -1) == m` and `rotate(rotate(m, -1), 1) == m` |
| Pieces.FourTurns | tetris.js:97-111 | four turns in one direction give back the matrix |
| Pieces.OnceBetween | tetris.js:113-120 | an entry absent from both sides of a position occurs exactly once |
| Pieces.AllTypesOnce | tetris.js:114 | each type occurs once among the keys of the shape table |
| Pieces.BagIsPermutation | tetris.js:113-120 | seven entries covering every type is the same as a permutation of the seven types |
| Pieces.BagHasEachOnce | tetris.js:113-120 | a bag holds every type exactly once |
| Pieces.Swap | tetris.js:117 | the exchange swaps the two entries and keeps the multiset |
| Pieces.RandomBag | tetris.js:113-120 | the shuffle returns a permutation of the seven types, whatever indices the random draws give |
| Grid.CreateBoard | tetris.js:89-91 | the new board is 20 rows of 10 cells, all empty |
| Grid.CreateBoardNotFull | tetris.js:89-91 | a fresh board has no full row |
| Grid.CollidesScan | tetris.js:149-165 | the nested scan returns true exactly when some filled cell, shifted by the offset, is off the grid or on an occupied cell |
| Grid.CollidesShift | tetris.js:149-165 | probing a moved piece is the same as probing the original at the summed offset |
| Grid.KeptSize | tetris.js:180-190 | the rows kept plus the rows cleared make up the board; the kept rows are exactly the non-full ones |
| Grid.KeptAppend | tetris.js:180-190 | clearing a board split in two keeps the upper kept rows above the lower ones, and the full counts add |
| Grid.ClearedBoardOk | tetris.js:180-190 | after clearing, the board is still 20 by 10 and has no full row |
| Grid.ClearedBoardContents | tetris.js:180-190 | the top `cleared` rows are empty, below them are the non-full rows in their old order, and with no full row the board is unchanged |
| Grid.NoFullKeepsAll | tetris.js:180-190 | with no full row every row is kept |
| Grid.FullCountWithin | tetris.js:180-193 | if all full rows lie in a band, at most its height are full |
| Grid.MergeFillsAtMostSpan | tetris.js:167-193 | merging into a board without full rows fills at most as many rows as the piece spans, so `SCORING[cleared]` is always in range |
| Grid.LandingUnique | tetris.js:207-218 | the landing row is unique |
| Grid.FreeIsAboveFloor | tetris.js:214-217 | a free position d rows down is above the floor, which bounds the ghost loop |
| Grid.LandingRow | tetris.js:214-217 | the downward probe stops at the landing row: every step to it is free and the next one collides |
| Grid.LandingFits | tetris.js:354-358 | a fitting piece also fits at its landing row |
| Grid.FallKeepsLanding | tetris.js:361-364 | falling one free row keeps the landing row |
| Grid.FirstFit | tetris.js:377-388 | the chosen kick index fits and every earlier offset collides; no index is chosen exactly when all offsets collide |
| Grid.FirstFitAt | tetris.js:380-387 | the first fitting offset after colliding ones is the one FirstFit picks |
| Grid.FirstFitScan | tetris.js:380-387 | the kick loop returns the first offset index at which the turned piece fits |
| Grid.SpawnPlacement | tetris.js:131-136 | a spawned piece has the canonical matrix, row 0 and is centred, with the extra column on the right for odd widths |
| Grid.SpawnFitsEmpty | tetris.js:126-147 | on an empty board every spawn fits |
| Grid.ScanRemovesFull | tetris.js:183-187 | splicing out a full row and putting an empty one on top advances the clearing scan by one row and one line |
| Grid.ScanKeeps | tetris.js:183-189 | a non-full row stays, and the scan moves up one row |
| Grid.ScanStep | tetris.js:182-190 | each scan step, full row or not, leads to the next scan position |
| Grid.ScanDone | tetris.js:182-190 | the finished scan is the cleared board |
| Grid.ScanTopNotFull | tetris.js:182-190 | the empty rows the scan puts on top are never full |
| Scoring.AwardFacts | tetris.js:54 | clearing nothing scores nothing, more rows at once score more, and the award at level n is n + 1 times the level-0 award |
| Scoring.LevelFor | tetris.js:200 | the level is the number of whole tens of cleared lines |
| Scoring.GravityInterval | tetris.js:203 | the interval is `max(100, 1000 - 70 * level)`, so it lies in [100, 1000] |
| Scoring.LevelMonotone | tetris.js:199-205 | more cleared lines never lower the level, and a higher level never slows gravity |
| Keys.CommandForKeys | tetris.js:533-563 | a key selects a command exactly when it is among that command's keys, and is ignored exactly when it is bound to none |
| Keys.ToLower | tetris.js:527 | lowering keeps the length and maps A-Z to a-z, leaving other characters alone |
| Keys.PauseKeys | tetris.js:527 | exactly "p" and "P" are pause keys |
| Keys.PauseKeysIgnored | tetris.js:527-563 | a pause key has no binding in the running switch |
| Game.Game.constructor | tetris.js:72-87 | the loaded script starts with an empty board, an empty queue and hold, a stopped game and zero counters |
| Game.Game.RefillQueue | tetris.js:122-124 | one bag of all seven types is appended and the old queue is its prefix |
| Game.Game.UpdateGhostPiece | tetris.js:207-218 | the ghost is the active piece at its landing row; with no active piece nothing changes |
| Game.Game.EndGame | tetris.js:483-486 | the game is over and no longer runs |
| Game.Game.Activate | tetris.js:143-146 | the fitting piece becomes active, hold is allowed again and the ghost is right |
| Game.Game.TakeNext | tetris.js:127-130 | the queue is refilled by one bag when fewer than 4 wait, then the front type is removed and returned |
| Game.Game.SpawnPiece | tetris.js:126-147 | the next type spawns centred at row 0. On a collision the game ends and the active piece and ghost stay. Otherwise it becomes active, hold is reset and the ghost is right |
| Game.Game.MergePiece | tetris.js:167-178 | every on-grid cell covered by the piece takes its type; all other cells are unchanged |
| Game.Game.UpdateLevel | tetris.js:199-205 | the level is lines / 10 and the interval is `max(100, 1000 - 70 * level)` |
| Game.Game.RemoveFullRows | tetris.js:181-190 | the labelled loop returns the number of full rows and leaves the cleared board |
| Game.Game.ClearLines | tetris.js:180-197 | the full rows are removed, lines grow by the count, score grows by `SCORING[cleared] * (level + 1)` at the old level, and level and interval are recomputed |
| Game.Game.MergeAndClear | tetris.js:416-417 | merging then clearing keeps the invariant, with fewer than 5 rows cleared |
| Game.Game.SpawnAndTrack | tetris.js:418-419 | the next piece spawns and the ghost is recomputed for whichever piece is active |
| Game.Game.LockPiece | tetris.js:415-421 | the piece is merged, full rows are cleared and scored, and the next piece spawns; hold is re-enabled unless the game ended, and the hold slot keeps its type |
| Game.Game.Place | tetris.js:373-374 | a fitting piece becomes active and its ghost is right |
| Game.Game.Move | tetris.js:370-375 | if the shifted piece fits, it becomes the active piece with its ghost recomputed and nothing else changes; otherwise nothing changes |
| Game.Game.Fall | tetris.js:362-363 | one row down when free; the ghost stays right |
| Game.Game.SoftDrop | tetris.js:361-368 | if the next row is free: one row down for level + 1 points and nothing else changes. Otherwise: lock |
| Game.Game.HardDrop | tetris.js:354-359 | the piece locks at its landing row, the row the ghost search finds |
| Game.Game.RotateActive | tetris.js:377-388 | the turned piece, moved by the first offset in 0, -1, 1, -2, 2 at which it fits, becomes the active piece with its ghost recomputed; row and type stay, and nothing else changes; if no offset fits nothing changes |
| Game.Game.PlaceKicked | tetris.js:381-386 | with the index the offset search found: the turned piece, moved by that offset, becomes active with a correct ghost; with no index nothing changes |
| Game.Game.PlaceShifted | tetris.js:383-385 | a turned piece that fits at the offset becomes active, moved by it, with a correct ghost |
| Game.Game.SwapIn | tetris.js:398-409 | the held type comes in at its spawn placement; on a collision the game ends, otherwise the ghost is recomputed |
| Game.Game.HoldPiece | tetris.js:390-413 | with hold used nothing changes. Otherwise the current type goes to hold, and either the next piece spawns or the held one swaps in. Hold is spent unless the swap ends the game. Board, lines, level, score and interval stay, and the ghost stays whenever the incoming piece collides |
| Game.Game.StashAndSpawn | tetris.js:393-395 | the active type goes on hold, the next piece spawns and hold is spent; the ghost stays if that spawn collides |
| Game.Game.StashAndSwap | tetris.js:396-411 | the active type goes on hold and the held type comes in at its spawn placement. On a collision the game ends and the ghost and hold flag stay; otherwise hold is spent and the ghost is recomputed |
| Game.Game.GravityStep | tetris.js:436-440 | one row down when free; otherwise lock |
| Game.Game.Advance | tetris.js:431-442 | the clock advances and the counter grows by the elapsed time; once it exceeds the interval, one gravity step runs and the counter resets |
| Game.Game.Update | tetris.js:429-446 | a stopped or paused game is unchanged; otherwise one frame advances as Advance says |
| Game.Game.ClearPlayfield | tetris.js:449-460 | an empty board, zero lines, level and score, interval 1000, counter and clock 0 |
| Game.Game.ClearForStart | tetris.js:449-462 | a fresh board, a queue of one bag, an empty hold, zero counters, running and not paused |
| Game.Game.StartGame | tetris.js:448-468 | a fresh running game with the first piece of a new bag active at its spawn placement and the rest of the bag queued |
| Game.Game.TogglePause | tetris.js:470-481 | only a running game that is not over flips the pause; resuming restarts the clock and the drop counter |
| Game.Game.ResetGame | tetris.js:499-516 | stopped, not paused, not over, empty board, queue and hold, zero counters, interval 1000 |
| Game.Game.Dispatch | tetris.js:533-563 | each command has the full effect of its operation: Left and Right move by -1 and +1, Down soft-drops, Clockwise and CounterClockwise rotate by 1 and -1, Drop hard-drops, HoldSwap holds, and Ignored changes nothing |
| Game.Game.HandleKeyDown | tetris.js:525-564 | a stopped, paused or over game ignores every key except a pause key on a paused running game, which resumes; otherwise the key's command runs |
| Game.Game.KeyWhileHalted | tetris.js:526-530 | on a stopped, paused or over game only a pause key on a running game that is not over acts, and it resumes with the clock and counter restarted |
| Game.Game.HandleKeyUp | tetris.js:566-570 | a pause key toggles the pause; any other key changes nothing |
| Game.Game.PressPauseKey | tetris.js:525-570 | as written, a pause-key press (keydown then keyup) on a running game leaves it paused, even when it was paused before |
| Game.Game.HandleKeyDownFixed | tetris.js:525-531 | with the pause left to keyup, a stopped, paused or over game ignores every key |
| Game.Game.PressPauseKeyFixed | tetris.js:525-570 | with the corrected keydown, a pause-key press on a running game toggles the pause exactly once |

## Left out

- Rendering is not modelled: `drawBoard`, `drawCell`, `drawGrid`, `drawPreview`, `getBounds`, `updatePreviews`, the game-over overlay and `COLORS`. They produce pixel output and use floating point.
- DOM output is not modelled: `updateScoreboard`, `updateButtons` and the element lookups. The button listeners are left out; they only call `startGame` (when not running), `togglePause` and `resetGame`, which are modelled.
- The frame clock, `lastTime` and `dropCounter` are whole milliseconds (`int`) in the model. The script's `requestAnimationFrame` timestamps and `performance.now()` readings are fractional, so `dropCounter > dropInterval` compares fractional values there.
- Frame scheduling (`requestAnimationFrame`, `cancelAnimationFrame`) is not modelled. `Update` is one call with the frame's clock reading `time`. `performance.now()` in `togglePause` is the parameter `now`.
- `Math.random` in `randomBag` is not modelled. The swap index is any j with 0 <= j <= i, so uniformity is not modelled.
- `cloneMatrix` is not modelled as a separate step. Matrices are immutable values, so copying has no observable effect.
- The ghost piece's `"ghost"` type tag is not modelled; it only selects a colour. The modelled ghost keeps the active piece's type.
- Keys.ToLower: only the ASCII letters A-Z are lowered, not full Unicode case mapping. The comparison with "p" does not depend on the rest.
- Game.Game.HardDrop: the row-by-row fall is computed by `LandingRow` and the piece moves to that row once. Each intermediate row is free, which `IsLanding` states.
- Game.Game.ResetGame: as in the script, the active piece, the ghost, `holdUsed` and `lastTime` are left as they were.

## Findings

| source | as written | input that shows it | evidently intended | confidence | as-written member | corrected member |
|---|---|---|---|---|---|---|
| tetris.js:525-570 | `handleKeyDown` toggles the pause for "p" while the game is paused, and `handleKeyUp` toggles it again for the same key | press "p" on a running, paused game: keydown resumes, keyup pauses again | one press of "p" resumes a paused game, the same as it pauses a running one | not executed | Game.Game.PressPauseKey | Game.Game.PressPauseKeyFixed |
