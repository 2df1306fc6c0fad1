# A verified model of the tetris.js game engine

This project models the playable logic of `tetris.js`, a browser falling-block
game, and proves properties of it in Dafny. The model covers:

- the 20 x 10 arena and its cell values 0..7;
- the seven piece matrices and their in-place rotation;
- the collision test and the merge of a landed piece;
- the row sweep with its `y++` rewind, the scoring and level rules, and the win clamp at 4500;
- the session: the player, the flags `started`/`paused`/`gameWon` and the timers `dropCounter`/`lastTime`;
- the operations on the session: move, drop, rotate with its kick search, reset/spawn with the game-over wipe, pause, the scheduling part of the animation frame, the keydown gate and the start button;
- two pure leaderboard helpers: the `M:SS.d` time format and the local top-10 update.

The model is split into these modules:

| module | file | what it holds |
|---|---|---|
| `Matrices` | matrices.dfy | the square piece matrix as a value, `Rotated`, and the in-place `Rotate` on a two-dimensional array |
| `Pieces` | pieces.dfy | `createPiece`; the random draw becomes a parameter `kind` in 0..6 |
| `Board` | board.dfy | the arena, `collide` as a nested loop proved against a predicate, `merge` as a function, and `createMatrix` |
| `Sweep` | sweep.dfy | the row loop of `arenaSweep`, proved against the functions `Keep`, `FullCount` and `Trace` |
| `Scoring` | scoring.dfy | `calculateScore`, the level rule, the drop-interval test and the award that ends a sweep |
| `Engine` | engine.dfy | the session as a value (`GameState`) with one step function per operation, the invariant `Inv`, and the lemmas about each step |
| `Session` | session.dfy | the class `Game`; its fields are the source's mutable state and its methods its functions |
| `Leaderboard` | leaderboard.dfy | `formatTime`, and the push / sort / `splice(10)` of the local fallback |

`Game` keeps `player.matrix` and `player.next` as two-dimensional arrays, and `rotate` works on them in place. Every game operation of `Game` (`PlayerMove`, `PlayerRotate`, `PlayerReset`, `ArenaSweep`, `Land`, `PlayerDrop`, `HandlePauseToggle`, `Update`, `KeyDown`, `Start`) ensures `State() == XStep(old(State()), ...)`, where `XStep` is its step function in `Engine`. So every lemma about a step function also holds of the object. The smaller blocks these are built from (`ClearArena`, `Merge`, `AwardClear`, `DrawPieces`, `GameOver`, `ResetGame`) state their new state directly. A `Game` owns itself and whichever of its two piece arrays exist (`Repr()`); every public operation changes only what it owns, and any array it adds is fresh, so a caller can create a `Game`, press start and feed it key events (`PlayKeys`). The invariant `Inv` holds between operations:

- the arena is 20 x 10 with cells 0..7;
- a started game has an active piece;
- the active and next pieces are squares of side 2..4 with cells 0..7 (`IsShape`), and the active one lies inside the grid;
- the score stays in 0..4500 and reaches 4500 exactly when the game is won;
- until the game is won, the level follows the line count;
- no row of the arena is full.

### Behaviours of the code that the model keeps

- A piece cell above the top row collides: `arena[-1]` is undefined, and `!arena[y + o.y]` counts it as blocked (tetris.js:436-437).
- `merge` overwrites every arena cell under a nonzero piece cell, whatever that cell held (tetris.js:427).
- `rotate` transposes in both directions; a clockwise turn then reverses each row, a counter-clockwise turn reverses the row order (tetris.js:606-612).
- `clearedRows` records indices after the earlier removals have shifted the arena: after a removal `y++` scans the same index again (tetris.js:475-484). Two full rows at 18 and 19 are recorded as `[19, 19]`.
- `playerDrop` calls `playerReset`, with its spawn and game-over check, before `arenaSweep` (tetris.js:580-582). So after a sweep the active piece may overlap settled cells, and `Inv` does not claim otherwise.
- `update` receives an absolute timestamp and does not advance `lastTime` while stopped or paused (tetris.js:692-717). So the first frame after a pause adds the whole paused interval to `dropCounter`.
- `playerDrop` sets `dropCounter` to 0 on every drop, manual drops included (tetris.js:584).

## Model

| member | source | states |
|---|---|---|
| Matrices.Rotated | tetris.js:605-613 | after `rotate(m, dir)` cell (i, j) holds m[n-1-j][i] when dir > 0 and m[j][n-1-i] otherwise; the matrix stays n x n |
| Matrices.TransposeInPlace | tetris.js:606-610 | swapping `matrix[x][y]` and `matrix[y][x]` for every x < y leaves a[i, j] equal to the old a[j, i] |
| Matrices.ReverseEachRow | tetris.js:611 | `row.reverse()` on every row: a[i, j] is the old a[i, w-1-j] |
| Matrices.ReverseRowOrder | tetris.js:612 | `matrix.reverse()`: a[i, j] is the old a[n-1-i, j] |
| Matrices.Rotate | tetris.js:605-613 | the in-place rotation leaves the array holding `Rotated(m, dir)` |
| Matrices.RotateRoundTrip | tetris.js:605-613 | rotating by dir and then by -dir restores the matrix exactly, for either sign of dir |
| Matrices.RotatePreservesCells | tetris.js:605-613 | a rotation keeps the square size and the multiset of cell values |
| Matrices.CellsTranspose | tetris.js:606-610 | the transpose has the same multiset of cell values |
| Matrices.ClockwiseByTranspose | tetris.js:605-611 | a clockwise turn equals the transpose of the matrix with its rows in reverse order, an independent definition of the same rotation |
| Pieces.CreatePiece | tetris.js:271-280 | each of the seven letters gives a square of side 2..4 with cells 0..7; any other letter gives `[[0]]` |
| Pieces.CatalogueColours | tetris.js:271-279 | every piece uses a single colour, the index of its letter in T,O,L,J,I,S,Z, and its cell [1][1] has that colour |
| Pieces.ColourTable | tetris.js:271-279 | the colour index of each letter: T 1, O 2, L 3, J 4, I 5, S 6, Z 7 |
| Pieces.DrawnShape | tetris.js:270 | each of the seven draws from `'TJLOSZI'` yields a square of side 2..4 with cells 0..7 |
| Pieces.NewPiece | tetris.js:630-636 | `createPiece(pieces[kind])` as a fresh two-dimensional array holding the drawn shape |
| Board.CreateMatrix | tetris.js:282-288 | the result has `h` rows of `w` zeros |
| Board.EmptyArena | tetris.js:644 | the wiped arena is a valid 20 x 10 arena of zero rows |
| Board.Collide | tetris.js:432-443 | the result is true exactly when some nonzero piece cell lands on a missing row (above the top or below the floor), a missing column or a nonzero arena cell; it changes nothing |
| Board.CollidesOnEmptyArena | tetris.js:432-443 | on the empty arena a placement collides exactly when it leaves the grid, rows above the top included |
| Board.FreeIsInBounds | tetris.js:432-443 | a placement that does not collide lies inside the 20 x 10 grid |
| Board.SpawnInBounds | tetris.js:638-640 | a square of side 2..4 placed at column `5 - floor(width/2)`, row 0, fits the grid |
| Board.MergedProperties | tetris.js:424-430 | merging an in-bounds piece writes each of its nonzero cells, leaves every cell not under a nonzero piece cell (in particular every row it does not span) unchanged and keeps a valid arena |
| Board.Merged | tetris.js:424-430 | the arena after `merge`: same rows and row widths; a cell under a nonzero piece cell takes the piece's value, every other cell keeps its own (proved of it in `MergedProperties`) |
| Board.MergedSoFarStep | tetris.js:425-429 | one visit of the merge loop overwrites exactly the arena cell under a nonzero piece cell, which lies inside the grid |
| Sweep.SweepRows | tetris.js:475-485 | the row loop returns the swept arena, `rowCount` equal to the number of full rows on entry, and the recorded indices `Trace` |
| Sweep.Swept | tetris.js:475-485 | the arena the row loop leaves: one zero row on top for each full row, then the rows that are not full in their order (proved of it in `SweptProperties` and `KeepAndCount`) |
| Sweep.Trace | tetris.js:475-478 | the indices pushed onto `clearedRows`: a full row is recorded at its index plus the number of full rows below it (proved of it in `TraceBounds` and `BottomTwoRowsExample`) |
| Sweep.SweptProperties | tetris.js:475-485 | the swept arena keeps 20 rows of width 10 and cells 0..7 and has no full row; one index is recorded per full row, each in 0..19 |
| Sweep.KeepAndCount | tetris.js:475-485 | the surviving rows are exactly the rows that are not full; survivors plus removed rows account for every row |
| Sweep.TraceBounds | tetris.js:475-478 | the recorded indices lie in the scanned range and never increase |
| Sweep.SweepWithoutFullRows | tetris.js:475-485 | an arena without full rows is unchanged, and no index is recorded |
| Sweep.TwoFullRowsAtBottom | tetris.js:475-485 | two full rows under rows that are not full are both recorded at the lower index, because the upper row shifts into its place; the other rows move down by two |
| Sweep.BottomTwoRowsExample | tetris.js:475-485 | with rows 18 and 19 full and the rest empty, `clearedRows` is [19, 19] and the arena ends empty |
| Sweep.FullCountWindow | tetris.js:424-430 | when only the rows a merged piece spans can be full, at most that many rows are full, so `basePoints[rowCount]` stays in range |
| Scoring.BasePoints | tetris.js:455-461 | no rows earn nothing; one to four rows earn between 100 and 1500 |
| Scoring.CalculateScore | tetris.js:453-467 | the points are zero exactly when no rows were cleared, and never negative |
| Scoring.CalculateScoreIsFloor | tetris.js:463-466 | the points are the real product `base * (1 + (level - 1) * 0.3)` rounded down |
| Scoring.LevelOneEarnsBase | tetris.js:463-466 | at level 1 a clear earns exactly its base points |
| Scoring.ScoreGrowsWithLevel | tetris.js:463-466 | a higher level never earns fewer points, and never fewer than the base |
| Scoring.ScoreExamples | tetris.js:453-467 | a single at level 2 earns 130, and a four-row clear at level 3 earns 2400 |
| Scoring.LevelFor | tetris.js:522 | `level - 1` is the number of whole groups of 8 lines |
| Scoring.LevelMonotone | tetris.js:522 | more lines never give a lower level |
| Scoring.DropDueIsPastInterval | tetris.js:720-721 | the test `counter * level > 1000` agrees with the source's `dropCounter > 1000 / level` over the reals |
| Scoring.DropDue | tetris.js:720-721 | the drop test as `dropCounter * level > 1000`; `DropDueIsPastInterval` proves it is the source's `dropCounter > 1000 / level` |
| Scoring.AwardProperties | tetris.js:494-522 | lines grow by `rowCount`; the game is won exactly when the unclamped score reaches 4500, and then the score is 4500 and the level is left stale; otherwise the score rose by the points and the level follows the lines |
| Scoring.Award | tetris.js:494-522 | the award of a clear: points at the current level and the rows added, the clamp to 4500 with the win flag, or the new level (proved of it in `AwardProperties`) |
| Engine.Initial | tetris.js:290-304 | the page-load session satisfies the invariant, is not started and has no piece |
| Engine.MoveProperties | tetris.js:566-572 | a won game does not move; otherwise a move either commits a free placement `dir` columns over or leaves the session as it was; a free target is always taken; only x changes; the invariant is kept |
| Engine.MoveStep | tetris.js:566-572 | `playerMove` on a snapshot: nothing after a win, x shifted by `dir` unless that collides (proved of it in `MoveProperties`) |
| Engine.OffsetClosedForm | tetris.js:591-596 | the kick offsets run 1, -2, 3, -4, ... |
| Engine.NetClosedForm | tetris.js:595-596 | the net shifts of x tried run 0, +1, -1, +2, -2, ... |
| Engine.KickLimit | tetris.js:597 | the number of placements tested is even and at least 2 |
| Engine.KickEnds | tetris.js:596-600 | among kick steps 1..`KickLimit(w)` the offset first exceeds the piece width at the last one, where the loop gives up |
| Engine.KickOrder | tetris.js:587-603 | the O piece tries shifts 0, +1; the 3 x 3 pieces and the I try 0, +1, -1, +2; the shift -2 is never tested |
| Engine.FirstFree | tetris.js:594-602 | the placement found is free and every earlier one collides; none found means every placement tested collides |
| Engine.RotateStep | tetris.js:587-603 | `playerRotate` on a snapshot: the rotated piece at the first free kick placement, or rotated back with x kept when none is free (proved of it in `RotateProperties`) |
| Engine.RotateProperties | tetris.js:587-603 | a rotation keeps the invariant; it commits the rotated piece at the first free kick placement, or leaves the session exactly as it was when all collide or the game is won |
| Engine.KickStep | tetris.js:595-597 | one kick step adds the current offset to the net shift, and the next offset flips sign and grows by one; it exceeds the piece width exactly at the last step |
| Engine.RotatedKeepsInv | tetris.js:594-602 | committing a rotated piece at a free column keeps the invariant |
| Engine.RotateCommits | tetris.js:594-602 | a free kick placement commits the rotated piece there and keeps the invariant |
| Engine.RotateGivesUp | tetris.js:597-600 | when every kick placement collides, rotating back the other way and restoring x gives the original session |
| Engine.RotatedIsShape | tetris.js:605-613 | a rotated square of side 2..4 with cells 0..7 is still one |
| Engine.EmptyArenaNotFull | tetris.js:644 | the wiped arena has no full row and sweeps to itself |
| Engine.Drawn | tetris.js:630-636 | the draw of `playerReset`: `next` (or a draw of `first` when there is no piece) becomes active and a draw of `kind` becomes next |
| Engine.SpawnStep | tetris.js:629-665 | `playerReset` on a snapshot: the draw, the spawn at column `5 - floor(w/2)` on row 0, and the game-over wipe on a collision (proved of it in `SpawnKeepsShape`, `DropLands` and `StartProperties`) |
| Engine.Wiped | tetris.js:642-646 | game over: the arena emptied, `started` and `paused` false, everything else kept |
| Engine.SweepStep | tetris.js:469-540 | `arenaSweep` on a snapshot: the swept arena, and when rows were cleared the award with its win flag (proved of it in `SweepProperties` and `SweepFrame`) |
| Engine.SweepProperties | tetris.js:469-540 | from a session not yet won that lacks the invariant only in having at most four full rows, the sweep restores it and leaves the arena swept; the lines grow by the number of full rows; a win stops the game at exactly 4500 |
| Engine.SweepFrame | tetris.js:469-540 | a sweep changes only the arena, the tally and the `gameWon`/`started` flags; with nothing to clear it only rebuilds the arena |
| Engine.MergeFillsFewRows | tetris.js:424-430 | after a merge the arena is valid and has at most as many full rows as the piece has rows |
| Engine.SpawnFillsFewRows | tetris.js:629-665 | spawning onto the merged arena keeps a valid arena with at most 4 full rows |
| Engine.SpawnKeepsShape | tetris.js:629-665 | spawning onto the merged arena keeps every part of the invariant except the full-row condition |
| Engine.LandKeepsInv | tetris.js:579-582 | merge, then `playerReset`, then `arenaSweep` keeps the invariant |
| Engine.LandStep | tetris.js:579-582 | the landing branch of `playerDrop`: merge at the current position, then `playerReset`, then `arenaSweep` (proved of it in `LandKeepsInv` and `DropLands`) |
| Engine.DropStep | tetris.js:574-585 | `playerDrop` on a snapshot: nothing after a win, one row down when free, otherwise the landing; the counter ends at 0 (proved of it in `DropProperties`) |
| Engine.DropKeepsInv | tetris.js:574-585 | a drop keeps the invariant |
| Engine.DropLands | tetris.js:578-584 | a piece that cannot fall is merged at its pre-drop position; the next piece becomes active at the spawn column on row 0 and a new one is drawn; a spawn collision wipes the arena, stops and unpauses with the tally unchanged, and otherwise the merged arena is swept |
| Engine.DropProperties | tetris.js:574-585 | after a win nothing changes; otherwise the counter ends at 0, the piece moves down exactly when the lower row is free, and a landing behaves as in `DropLands`; the invariant is kept |
| Engine.PauseProperties | tetris.js:615-618 | the pause flag flips exactly when the game is started and not won, and nothing else changes; toggling twice restores the session; the invariant is kept |
| Engine.PauseStep | tetris.js:615-618 | `handlePauseToggle` on a snapshot: `paused` flips in a started game not yet won (proved of it in `PauseProperties`) |
| Engine.UpdateKeepsInv | tetris.js:692-723 | a frame keeps the invariant |
| Engine.UpdateProperties | tetris.js:692-723 | a frame after a win, while stopped or while paused changes nothing, `lastTime` included; otherwise the counter grows by `time - lastTime`, `lastTime` becomes `time`, and a drop happens exactly when the counter exceeds 1000 / level |
| Engine.UpdateStep | tetris.js:692-723 | `update(time)` on a snapshot: the three early returns, the timers, and a drop when due (proved of it in `UpdateProperties` and `UpdateKeepsInv`) |
| Engine.Tick | tetris.js:716-718 | the timers of a running frame: `lastTime` becomes `time` and the counter grows by `time - lastTime` |
| Engine.KeyProperties | tetris.js:745-766 | no key does anything unless the game is started, not won and the name field unfocused; while paused only Space and P act, and they resume; the invariant is kept |
| Engine.KeyStep | tetris.js:745-766 | the keydown handler on a snapshot: the gate, then the dispatch of each key (proved of it in `KeyProperties`) |
| Engine.Replay | tetris.js:745-766 | the keydown handler applied to a sequence of key presses, each with the piece a landing would draw; every session it reaches keeps the invariant |
| Engine.StartProperties | tetris.js:1077-1110 | from any session, the start button yields a running game in the invariant: empty arena, the drawn pieces, the first one at the spawn position, score 0, lines 0, level 1, both timers 0 |
| Engine.Restarted | tetris.js:1077-1085 | the reset block of the start button: empty arena, no pieces, score 0, lines 0, level 1, running, unpaused, not won |
| Engine.StartStep | tetris.js:1077-1110 | the start button on a snapshot: the reset block, `playerReset`, then both timers 0 (proved of it in `StartProperties`) |
| Engine.StaleLevelOnWin | tetris.js:499-522 | 4000 points and 7 lines at level 1, then a four-row clear, win at 4500 with level still 1 although 11 lines give level 2 |
| Session.TurnWithKicks | tetris.js:590-602 | the piece array is rotated in place, then turned back exactly when no kick placement is free; otherwise x is the start column shifted by the net shift of the first free placement |
| Session.KickSearch | tetris.js:594-602 | the loop gives up exactly when no kick placement is free, and otherwise stops at x shifted by the net shift of the first free one |
| Session.Game.constructor | tetris.js:290-304 | the new session is valid, equals the page-load state, and every object it owns is fresh |
| Session.Game.ClearArena | tetris.js:644 | `arena.forEach(row => row.fill(0))` empties the arena and changes nothing else |
| Session.Game.Merge | tetris.js:424-430 | the merge loop leaves the arena equal to `Merged` of the old arena and piece; nothing else changes |
| Session.Game.PlayerMove | tetris.js:566-572 | the object moves as `MoveStep` says and stays valid |
| Session.Game.PlayerRotate | tetris.js:587-603 | the piece array is rotated in place and x is kicked as `RotateStep` says; the object stays valid |
| Session.Game.DrawPieces | tetris.js:630-636 | `next` (or a draw of `first` when there is no piece yet) becomes active, and a fresh array for `kind` becomes next |
| Session.Game.PlayerReset | tetris.js:629-665 | draws the pieces, places the active one centred on row 0, and on a collision wipes the arena and stops, as `SpawnStep` says |
| Session.Game.GameOver | tetris.js:642-646 | the arena is emptied and the session stopped and unpaused; pieces are kept |
| Session.Game.ArenaSweep | tetris.js:469-540 | the arena and tally move as `SweepStep` says; pieces are kept |
| Session.Game.AwardClear | tetris.js:494-522 | score, lines, level and flags move as `Award` says |
| Session.Game.Land | tetris.js:579-582 | merge, `playerReset`, then `arenaSweep`, as `LandStep` says |
| Session.Game.PlayerDrop | tetris.js:574-585 | the object moves as `DropStep` says and stays valid |
| Session.Game.HandlePauseToggle | tetris.js:615-627 | the object moves as `PauseStep` says and stays valid |
| Session.Game.Update | tetris.js:692-723 | the object moves as `UpdateStep` says and stays valid |
| Session.Game.KeyDown | tetris.js:745-766 | the object moves as `KeyStep` says and stays valid; it changes only objects it owns, and any it adds are fresh |
| Session.Game.ResetGame | tetris.js:1077-1085 | arena wiped, both pieces null, tally zeroed at level 1, started, unpaused, not won |
| Session.Game.Start | tetris.js:1077-1110 | the object moves as `StartStep` says and stays valid; it changes only objects it owns, and any it adds are fresh |
| Session.PlayKeys | tetris.js:745-766 | a page load, the start button, then any sequence of key presses, run on a new `Game`: the session ends valid, in the state `Replay` gives for those presses, and owns only fresh objects |
| Leaderboard.DecimalString | tetris.js:192 | `${minutes}`: one or more decimal digits with no leading zero, a single digit below 10 |
| Leaderboard.ParseDecimalString | tetris.js:192 | reading the printed number back gives the number |
| Leaderboard.DecimalStringParse | tetris.js:192 | printing the value of a digit string without a leading zero gives the string back |
| Leaderboard.PadStart | tetris.js:192 | `padStart(len, c)` has length `max(len, |s|)` |
| Leaderboard.PadStartPads | tetris.js:192 | the padded string ends with `s`, and only `c` stands in front of it |
| Leaderboard.PaddedTwoDigits | tetris.js:190-192 | a number of seconds below 100, padded to two digits, reads back as itself |
| Leaderboard.FormatTime | tetris.js:187-193 | `formatTime(ms)`: whole minutes, the seconds of the minute padded to two digits, and the tenths, as `M:SS.d` (proved of it in `ParseFormatTime` and `FormatParseTime`) |
| Leaderboard.TimeTextFields | tetris.js:192 | the text has the `M:SS.d` shape, its minutes field is the printed minutes, and the seconds and tenths fields read back as given |
| Leaderboard.TimeDecomposition | tetris.js:188-191 | minutes times 60000, plus the seconds of the minute times 1000, plus the tenths times 100, is ms rounded down to a tenth of a second |
| Leaderboard.ParseFormatTime | tetris.js:187-193 | `formatTime(ms)` has the canonical `M:SS.d` shape (minutes without leading zeros, two-digit seconds below 60, one tenths digit) and reads back as ms rounded down to a tenth of a second |
| Leaderboard.FormatParseTime | tetris.js:187-193 | formatting the time a canonical `M:SS.d` string stands for gives the string back |
| Leaderboard.Named | tetris.js:147 | `playerName \|\| 'Anonymous Cat'`: never empty, and a non-empty name is kept |
| Leaderboard.Slot | tetris.js:148 | where a stable sort by time puts a later record: after every record of equal or lower time |
| Leaderboard.SortByTime | tetris.js:148 | `records.sort((a, b) => a.time_ms - b.time_ms)` as a stable insertion sort (proved of it in `SortByTimeProperties` and `SortSorted`) |
| Leaderboard.SortByTimeProperties | tetris.js:148 | the sort by `time_ms` is sorted, a permutation, and stable: records with equal times keep their order |
| Leaderboard.InsertProperties | tetris.js:148 | inserting into a sorted board keeps it sorted, adds exactly the record, and places it after the records with the same time |
| Leaderboard.SortSorted | tetris.js:148 | sorting an already sorted board changes nothing |
| Leaderboard.TakeKeepsFastest | tetris.js:149 | `splice(10)` keeps a sorted prefix, and every record dropped is at least as slow as every record kept |
| Leaderboard.Take | tetris.js:149 | `records.splice(10)`: the first ten records, or all of them when there are fewer (proved of it in `TakeKeepsFastest`) |
| Leaderboard.AddRecord | tetris.js:147-149 | the new board has `min(n + 1, 10)` records, is sorted by time, is drawn from the old board plus the new record, and no dropped record is faster than a kept one |
| Leaderboard.AddRecordEnters | tetris.js:147-149 | on a sorted board the new record is kept exactly when the board has fewer than ten records or its time is strictly below the tenth; otherwise the board is its old first ten |

## Left out

- Rendering, audio, screen effects, particles, vibration, the win screen, modals, the leaderboard HTML and the best-time display: these are output only and have no effect on the game state.
- Firebase and `localStorage` reads and writes, `loadTop10`, `getBest`, `clear`, `updateBestTime` and the name modal: these are I/O. Only the pure update of the local fallback list is modelled.
- `loadTop10`'s fallback from the legacy field `time` to `time_ms`: this is I/O data migration.
- `updateScore` and `updateNextBackground`: they only write to the page.
- The wall-clock session timer (`startTimer`, `stopTimer`, `elapsedTime`) and `requestAnimationFrame`: the frame time is a parameter of `Update`.
- Touch and mouse controls, auto-repeat and debouncing, and the keydown handler's `preventDefault`: only the keydown gate and its dispatch are modelled.
- `Math.random` in the piece draw: the drawn index 0..6 is a parameter (`first`, `kind`).
- `createPiece`'s fallback `[[0]]` is modelled, but the draw never reaches it: the index is always 0..6.
- Scoring.CalculateScore: computes `base * (10 + 3 * (level - 1)) / 10` exactly, rather than the IEEE double product `1 + (level - 1) * 0.3`; both agree unless the binary rounding of the multiplier crosses an integer.
- Scoring.DropDue: compares `counter * level > 1000` exactly, rather than dividing 1000 by the level in floating point.
- Engine.UpdateStep: timestamps are integers; the source's fractional `performance.now()` values are not modelled.
- Leaderboard.FormatTime: defined for whole, non-negative milliseconds; negative or fractional inputs and the exponent notation JavaScript prints for numbers of 10^21 and above are not modelled.
- Leaderboard.SortByTime: written as a stable insertion sort. JavaScript's `Array.prototype.sort` is stable, and every stable sort orders the records the same way, but the engine's sorting algorithm itself is not modelled. The comparator is taken on integer times.
- `player.matrix` and `player.next` are two-dimensional arrays rather than arrays of row arrays. `rotate` swaps and reverses them in place, but row aliasing is not modelled. The arena is a sequence of rows that the methods reassign, not mutate in place.
- `rotate` with `dir == 0` takes the counter-clockwise branch, as in the source. `RotateStep` accepts any `dir`; `PlayerRotate` and `RotateProperties` accept any nonzero `dir`, because with `dir == 0` rotating back by `-dir` does not undo the turn. The keys only send 1 and -1.
- Session.Game.PlayerDrop: tests the lower row before moving instead of moving down and back up on a collision; both leave the same state.
- `null` for `player.matrix` and `player.next` is the empty matrix in the snapshot; in `Game` the arrays are nullable.
