/**
 * The session of tetris.js as values: a snapshot of `arena`, `player` and the
 * flags, and one step function per operation. The class `Session.Game` is
 * proved to move between snapshots exactly as these functions say.
 */
module Engine {
  import opened Matrices
  import opened Pieces
  import opened Board
  import opened Sweep
  import opened Scoring

  datatype Option<T> = None | Some(value: T)

  /**
   * A snapshot of the session. `piece` and `next` are `player.matrix` and
   * `player.next`; the empty matrix stands for `null`, before the first start.
   */
  datatype GameState = GameState(
    arena: Matrix, piece: Matrix, next: Matrix, x: int, y: int,
    score: int, lines: int, level: int,
    dropCounter: int, lastTime: int,
    paused: bool, started: bool, gameWon: bool)

  /** The keys the keydown handler dispatches on; `Other` is any other key. */
  datatype Key = ArrowLeft | ArrowRight | ArrowDown | KeyQ | KeyW | Space | KeyP | Other

  /**
   * What holds of every snapshot, also part-way through a drop: a 20 x 10
   * arena of colours; a started game has an active piece; the active and
   * next pieces are squares of side 2..4 with cells 0..7 (`IsShape`), and
   * the active one lies inside the grid, from row 0 down; the score stays in
   * 0..4500 and reaches 4500 exactly when the game is won; until then the
   * level follows the line count.
   */
  predicate Shaped(s: GameState) {
    IsArena(s.arena) &&
    (s.piece == [] <==> s.next == []) &&
    (s.started ==> s.piece != []) &&
    (s.piece != [] ==> IsShape(s.piece) && IsShape(s.next) && InBounds(s.piece, s.x, s.y) && 0 <= s.y) &&
    s.lines >= 0 && s.level >= 1 && 0 <= s.score <= WinScore &&
    (s.gameWon ==> !s.started && s.score == WinScore) &&
    (!s.gameWon ==> s.level == LevelFor(s.lines) && s.score < WinScore)
  }

  /** Between operations, in addition, no row of the arena is full. */
  predicate Inv(s: GameState) {
    Shaped(s) && NoFullRow(s.arena)
  }

  /** The page as loaded: empty arena, no piece, level 1, nothing started. */
  function Initial(): (s: GameState)
    ensures Inv(s) && !s.started && !s.gameWon && s.piece == []
  {
    ZeroRowsNotFull(Height);
    GameState(EmptyArena(), [], [], 0, 0, 0, 0, 1, 0, 0, false, false, false)
  }

  // ---------------------------------------------------------------- moving

  /** tetris.js `playerMove`: shift by `dir` columns unless that collides. */
  ghost function MoveStep(s: GameState, dir: int): GameState {
    if s.gameWon || Collides(s.arena, s.piece, s.x + dir, s.y) then s
    else s.(x := s.x + dir)
  }

  /**
   * A move either commits a free placement one step sideways or leaves the
   * snapshot as it was; a won game does not move; only x ever changes, and
   * the invariant is kept.
   */
  lemma MoveProperties(s: GameState, dir: int)
    requires Inv(s)
    ensures var r := MoveStep(s, dir);
      Inv(r) && r == s.(x := r.x) &&
      (s.gameWon ==> r == s) &&
      (r.x == s.x || (r.x == s.x + dir && !Collides(s.arena, s.piece, r.x, s.y))) &&
      (!s.gameWon && !Collides(s.arena, s.piece, s.x + dir, s.y) ==> r.x == s.x + dir)
  {
    if !s.gameWon && !Collides(s.arena, s.piece, s.x + dir, s.y) {
      FreeIsInBounds(s.arena, s.piece, s.x + dir, s.y);
    }
  }

  // -------------------------------------------------------------- rotating

  /**
   * The value of `offset` after k steps of the kick search: it starts at 1
   * and each step replaces it by `-(offset + sign(offset))`.
   */
  function Offset(k: nat): int {
    if k == 0 then 1 else -(Offset(k - 1) + (if Offset(k - 1) > 0 then 1 else -1))
  }

  /** The net shift of x after k steps: the sum of the first k offsets. */
  function Net(k: nat): int {
    if k == 0 then 0 else Net(k - 1) + Offset(k - 1)
  }

  /** The offsets alternate in sign and grow by one: 1, -2, 3, -4, ... */
  lemma {:induction false} OffsetClosedForm(k: nat)
    ensures Offset(k) == if k % 2 == 0 then k + 1 else -(k + 1)
  {
    if k > 0 {
      OffsetClosedForm(k - 1);
    }
  }

  /** The net shifts visit 0, +1, -1, +2, -2, ... */
  lemma {:induction false} NetClosedForm(k: nat)
    ensures Net(k) == if k % 2 == 1 then (k + 1) / 2 else -(k / 2)
  {
    if k > 0 {
      NetClosedForm(k - 1);
      OffsetClosedForm(k - 1);
    }
  }

  /**
   * How many placements the kick search of a width-w piece tests: it gives up
   * after the first step whose next offset is positive and exceeds w, before
   * testing the placement that step reached.
   */
  function KickLimit(w: nat): (n: nat)
    ensures n >= 2 && n % 2 == 0
  {
    if w < 2 then 2 else if w % 2 == 0 then w else w + 1
  }

  /** Among steps 1..KickLimit(w), the search stops exactly at the last. */
  lemma KickEnds(w: nat, k: nat)
    requires 1 <= k <= KickLimit(w)
    ensures Offset(k) > w <==> k == KickLimit(w)
  {
    OffsetClosedForm(k);
  }

  /** One step of the kick search: the shift and offset it moves to, and whether it then gives up. */
  lemma KickStep(w: nat, k: nat)
    requires k < KickLimit(w)
    ensures Net(k + 1) == Net(k) + Offset(k)
    ensures Offset(k + 1) == -(Offset(k) + (if Offset(k) > 0 then 1 else -1))
    ensures Offset(k + 1) > w <==> k + 1 == KickLimit(w)
  {
    KickEnds(w, k + 1);
  }

  /** A colliding placement k sends the search on to k + 1. */
  lemma FirstFreeSkip(arena: Matrix, m: Matrix, x0: int, y: int, k: nat, limit: nat)
    requires k < limit && KickCollides(arena, m, x0, y, k)
    ensures FirstFree(arena, m, x0, y, k, limit) == FirstFree(arena, m, x0, y, k + 1, limit)
  {
  }

  /**
   * The net shifts tried: 0 and +1 for the square O; 0, +1, -1, +2 for the
   * 3 x 3 pieces and the 4 x 4 I (the shift to -2 is never tested).
   */
  lemma KickOrder()
    ensures KickLimit(2) == 2 && KickLimit(3) == 4 && KickLimit(4) == 4
    ensures [Net(0), Net(1), Net(2), Net(3), Net(4)] == [0, 1, -1, 2, -2]
  {
  }

  /** Placement k of the kick search, x0 shifted by `Net(k)`, collides. */
  ghost predicate KickCollides(arena: Matrix, m: Matrix, x0: int, y: int, k: nat) {
    Collides(arena, m, x0 + Net(k), y)
  }

  /** The first of the placements k..limit-1 of the kick search that does not collide. */
  ghost function FirstFree(arena: Matrix, m: Matrix, x0: int, y: int, k: nat, limit: nat): (r: Option<nat>)
    ensures r.Some? ==>
      (k <= r.value < limit && !Collides(arena, m, x0 + Net(r.value), y) &&
       forall i :: k <= i < r.value ==> KickCollides(arena, m, x0, y, i))
    ensures r.None? ==> forall i :: k <= i < limit ==> KickCollides(arena, m, x0, y, i)
    decreases limit - k
  {
    if k >= limit then None
    else if !Collides(arena, m, x0 + Net(k), y) then Some(k)
    else FirstFree(arena, m, x0, y, k + 1, limit)
  }

  /**
   * tetris.js `playerRotate`: rotate, then try the kick placements in order;
   * if all collide, rotate back the other way and restore x.
   */
  ghost function RotateStep(s: GameState, dir: int): GameState
    requires Square(s.piece)
  {
    if s.gameWon then s
    else
      var r := Rotated(s.piece, dir);
      match FirstFree(s.arena, r, s.x, s.y, 0, KickLimit(|r|))
      case Some(k) => s.(piece := r, x := s.x + Net(k))
      case None => s.(piece := Rotated(r, -dir))
  }

  /**
   * A rotation keeps the invariant. It either commits the rotated piece at
   * the first free kick placement (`FirstFree` says every earlier one
   * collides) or, when all of them collide, leaves the snapshot exactly as it
   * was: rotating back the other way undoes the rotation.
   */
  lemma RotateProperties(s: GameState, dir: int)
    requires Inv(s) && s.piece != [] && dir != 0
    ensures var r := RotateStep(s, dir);
      var m := Rotated(s.piece, dir);
      var f := FirstFree(s.arena, m, s.x, s.y, 0, KickLimit(|s.piece|));
      Inv(r) &&
      (s.gameWon || f.None? ==> r == s) &&
      (!s.gameWon && f.Some? ==> r == s.(piece := m, x := s.x + Net(f.value)))
  {
    if !s.gameWon {
      var m := Rotated(s.piece, dir);
      var f := FirstFree(s.arena, m, s.x, s.y, 0, KickLimit(|m|));
      if f.Some? {
        RotateCommits(s, dir, f.value);
      } else {
        RotateGivesUp(s, dir);
      }
    }
  }

  /** A free kick placement commits the rotated piece there. */
  lemma RotateCommits(s: GameState, dir: int, k: nat)
    requires Inv(s) && s.piece != [] && !s.gameWon
    requires FirstFree(s.arena, Rotated(s.piece, dir), s.x, s.y, 0, KickLimit(|s.piece|)) == Some(k)
    ensures var r := s.(piece := Rotated(s.piece, dir), x := s.x + Net(k));
      RotateStep(s, dir) == r && Inv(r)
  {
    assert |Rotated(s.piece, dir)| == |s.piece|;
    RotateStepFree(s, dir, k);
    RotatedKeepsInv(s, dir, s.x + Net(k));
  }

  /** The rotated piece, placed where it does not collide, keeps the invariant. */
  lemma RotatedKeepsInv(s: GameState, dir: int, x: int)
    requires Inv(s) && s.piece != []
    requires !Collides(s.arena, Rotated(s.piece, dir), x, s.y)
    ensures Inv(s.(piece := Rotated(s.piece, dir), x := x))
  {
    RotatedIsShape(s.piece, dir);
    FreeIsInBounds(s.arena, Rotated(s.piece, dir), x, s.y);
  }

  /** The step function's committing branch. */
  lemma RotateStepFree(s: GameState, dir: int, k: nat)
    requires Square(s.piece) && !s.gameWon
    requires FirstFree(s.arena, Rotated(s.piece, dir), s.x, s.y, 0, KickLimit(|Rotated(s.piece, dir)|)) == Some(k)
    ensures RotateStep(s, dir) == s.(piece := Rotated(s.piece, dir), x := s.x + Net(k))
  {
  }

  /** When no kick placement is free, rotating back the other way restores the piece. */
  lemma RotateGivesUp(s: GameState, dir: int)
    requires Square(s.piece) && !s.gameWon && dir != 0
    requires FirstFree(s.arena, Rotated(s.piece, dir), s.x, s.y, 0, KickLimit(|s.piece|)).None?
    ensures RotateStep(s, dir) == s
  {
    RotateRoundTrip(s.piece, dir);
  }

  /** Rotation keeps a square of side 2..4 with cells 0..7 such a square. */
  lemma RotatedIsShape(m: Matrix, dir: int)
    requires IsShape(m)
    ensures IsShape(Rotated(m, dir))
  {
    var r := Rotated(m, dir);
    forall i, j | 0 <= i < |r| && 0 <= j < |r|
      ensures 0 <= r[i][j] <= 7
    {
      if dir > 0 {
        assert r[i][j] == m[|m| - 1 - j][i];
      } else {
        assert r[i][j] == m[j][|m| - 1 - i];
      }
    }
  }

  // -------------------------------------------------------------- spawning

  /**
   * tetris.js `playerReset`: the next piece becomes active (both are drawn
   * when there is none yet: `first`, then `kind`), a new next piece is drawn,
   * and the active one is placed centred on row 0; if it collides there the
   * game is over: the arena is wiped and the session stops.
   */
  ghost function SpawnStep(s: GameState, first: PieceKind, kind: PieceKind): GameState {
    var t := Drawn(s, first, kind);
    var x := SpawnX(|t.piece|);
    var placed := t.(x := x, y := 0);
    if Collides(s.arena, t.piece, x, 0) then Wiped(placed) else placed
  }

  /** The pieces after `playerReset` draws: the next piece (or `first`) is active, `kind` is next. */
  function Drawn(s: GameState, first: PieceKind, kind: PieceKind): GameState {
    s.(piece := if s.piece == [] then DrawnShape(first) else s.next, next := DrawnShape(kind))
  }

  /** Game over: the arena is emptied and the session stops, unpaused. */
  function Wiped(s: GameState): GameState {
    s.(arena := EmptyArena(), started := false, paused := false)
  }

  /** The wiped arena has no full row. */
  lemma EmptyArenaNotFull()
    ensures NoFullRow(EmptyArena()) && FullCount(EmptyArena()) == 0 && Swept(EmptyArena()) == EmptyArena()
  {
    ZeroRowsNotFull(Height);
    SweepWithoutFullRows(EmptyArena());
    assert Swept(EmptyArena()) == [] + EmptyArena();
  }

  // -------------------------------------------------------------- sweeping

  /**
   * tetris.js `arenaSweep`: the row loop, then, when rows were cleared, the
   * award (points, lines, the win clamp or the new level).
   */
  function SweepStep(s: GameState): GameState
    requires IsArena(s.arena) && FullCount(s.arena) <= 4 && s.lines >= 0 && s.level >= 1
  {
    var rowCount := FullCount(s.arena);
    var t := s.(arena := Swept(s.arena));
    if rowCount == 0 then t
    else
      var (tally, won) := Award(Tally(s.score, s.lines, s.level), rowCount);
      var u := t.(score := tally.score, lines := tally.lines, level := tally.level);
      if won then u.(gameWon := true, started := false) else u
  }

  /** The sweep restores the full invariant from a snapshot that only lacks it for the rows. */
  lemma SweepProperties(s: GameState)
    requires Shaped(s) && !s.gameWon && FullCount(s.arena) <= 4
    ensures var r := SweepStep(s);
      Inv(r) && r.arena == Swept(s.arena) && r.lines == s.lines + FullCount(s.arena) &&
      r == s.(arena := r.arena, score := r.score, lines := r.lines, level := r.level,
              gameWon := r.gameWon, started := r.started) &&
      (r.gameWon ==> !r.started && r.score == WinScore) &&
      (FullCount(s.arena) == 0 ==> r == s.(arena := r.arena))
  {
    SweptProperties(s.arena);
    var rowCount := FullCount(s.arena);
    if rowCount > 0 {
      AwardProperties(Tally(s.score, s.lines, s.level), rowCount);
    }
  }

  /**
   * The sweep touches only the arena, the tally and the two flags, and it
   * counts every cleared row as a line; with nothing to clear it only
   * rebuilds the arena.
   */
  lemma SweepFrame(s: GameState)
    requires IsArena(s.arena) && FullCount(s.arena) <= 4 && s.lines >= 0 && s.level >= 1
    ensures var r := SweepStep(s);
      r == s.(arena := Swept(s.arena), score := r.score, lines := r.lines, level := r.level,
              gameWon := r.gameWon, started := r.started) &&
      r.lines == s.lines + FullCount(s.arena) &&
      (FullCount(s.arena) == 0 ==> r == s.(arena := Swept(s.arena)))
  {
  }

  // -------------------------------------------------------------- dropping

  /** After a merge at (x, y), only rows y .. y + |piece| - 1 can be full. */
  lemma MergeFillsFewRows(s: GameState)
    requires Inv(s) && s.piece != []
    ensures IsArena(Merged(s.arena, s.piece, s.x, s.y))
    ensures FullCount(Merged(s.arena, s.piece, s.x, s.y)) <= |s.piece|
  {
    var a := Merged(s.arena, s.piece, s.x, s.y);
    MergedProperties(s.arena, s.piece, s.x, s.y);
    FullCountWindow(a, s.y, s.y + |s.piece|);
  }

  /** Spawning onto the merged arena keeps an arena with at most |piece| full rows. */
  lemma SpawnFillsFewRows(s: GameState, kind: PieceKind)
    requires Inv(s) && s.piece != []
    ensures var t := SpawnStep(s.(arena := Merged(s.arena, s.piece, s.x, s.y)), kind, kind);
      IsArena(t.arena) && FullCount(t.arena) <= 4
  {
    MergeFillsFewRows(s);
    EmptyArenaNotFull();
  }

  /** Spawning onto the merged arena keeps every part of the invariant but the rows. */
  lemma SpawnKeepsShape(s: GameState, kind: PieceKind)
    requires Inv(s) && s.piece != []
    ensures Shaped(SpawnStep(s.(arena := Merged(s.arena, s.piece, s.x, s.y)), kind, kind))
  {
    MergeFillsFewRows(s);
    SpawnInBounds(s.next);
  }

  /**
   * tetris.js `playerDrop`: one row down if that is free; otherwise merge the
   * piece where it is, spawn the next one (with its game-over check) and only
   * then sweep. The drop counter is reset either way.
   */
  ghost function DropStep(s: GameState, kind: PieceKind): GameState
    requires Inv(s) && s.piece != []
  {
    if s.gameWon then s
    else if !Collides(s.arena, s.piece, s.x, s.y + 1) then s.(y := s.y + 1, dropCounter := 0)
    else LandStep(s, kind).(dropCounter := 0)
  }

  /**
   * The landing branch of `playerDrop`: merge the piece into the arena, make
   * the next piece active (`playerReset`), then sweep full rows.
   */
  ghost function LandStep(s: GameState, kind: PieceKind): GameState
    requires Inv(s) && s.piece != []
  {
    var merged := s.(arena := Merged(s.arena, s.piece, s.x, s.y));
    SpawnFillsFewRows(s, kind);
    SweepStep(SpawnStep(merged, kind, kind))
  }

  /** Landing keeps the invariant. */
  lemma LandKeepsInv(s: GameState, kind: PieceKind)
    requires Inv(s) && s.piece != [] && !s.gameWon
    ensures Inv(LandStep(s, kind))
  {
    var t := SpawnStep(s.(arena := Merged(s.arena, s.piece, s.x, s.y)), kind, kind);
    SpawnFillsFewRows(s, kind);
    SpawnKeepsShape(s, kind);
    SweepProperties(t);
  }

  /** A drop keeps the invariant. */
  lemma DropKeepsInv(s: GameState, kind: PieceKind)
    requires Inv(s) && s.piece != []
    ensures Inv(DropStep(s, kind))
  {
    if s.gameWon {
    } else if Collides(s.arena, s.piece, s.x, s.y + 1) {
      LandKeepsInv(s, kind);
      var r := LandStep(s, kind);
      assert DropStep(s, kind) == r.(dropCounter := 0);
    } else {
      FreeIsInBounds(s.arena, s.piece, s.x, s.y + 1);
    }
  }

  /** A piece that cannot fall further: merge, spawn, game-over check, sweep. */
  lemma DropLands(s: GameState, kind: PieceKind)
    requires Inv(s) && s.piece != [] && !s.gameWon && Collides(s.arena, s.piece, s.x, s.y + 1)
    ensures var r := DropStep(s, kind);
      var merged := Merged(s.arena, s.piece, s.x, s.y);
      var x0 := SpawnX(|s.next|);
      r.piece == s.next && r.next == DrawnShape(kind) && r.x == x0 && r.y == 0 && r.dropCounter == 0 &&
      (Collides(merged, s.next, x0, 0) ==>
        r.arena == EmptyArena() && !r.started && !r.paused &&
        r.score == s.score && r.lines == s.lines && r.level == s.level) &&
      (!Collides(merged, s.next, x0, 0) ==>
        r.arena == Swept(merged) && r.lines == s.lines + FullCount(merged))
  {
    var merged := Merged(s.arena, s.piece, s.x, s.y);
    var t := SpawnStep(s.(arena := merged), kind, kind);
    SpawnFillsFewRows(s, kind);
    assert DropStep(s, kind) == SweepStep(t).(dropCounter := 0);
    SweepFrame(t);
    EmptyArenaNotFull();
  }

  /**
   * A drop keeps the invariant. It moves one row down exactly when that
   * placement is free. Otherwise the next piece becomes active at the spawn
   * position, a fresh one is next, and either the spawn collided with the
   * merged arena (game over: empty arena, stopped, unpaused, tally as it was)
   * or the merged arena is swept and its full rows counted as lines.
   */
  lemma DropProperties(s: GameState, kind: PieceKind)
    requires Inv(s) && s.piece != []
    ensures var r := DropStep(s, kind);
      var merged := Merged(s.arena, s.piece, s.x, s.y);
      var x0 := SpawnX(|s.next|);
      Inv(r) &&
      (s.gameWon ==> r == s) &&
      (!s.gameWon ==> r.dropCounter == 0) &&
      (!s.gameWon && !Collides(s.arena, s.piece, s.x, s.y + 1) ==> r == s.(y := s.y + 1, dropCounter := 0)) &&
      (!s.gameWon && Collides(s.arena, s.piece, s.x, s.y + 1) ==>
        r.piece == s.next && r.next == DrawnShape(kind) && r.x == x0 && r.y == 0 &&
        (Collides(merged, s.next, x0, 0) ==>
          r.arena == EmptyArena() && !r.started && !r.paused &&
          r.score == s.score && r.lines == s.lines && r.level == s.level) &&
        (!Collides(merged, s.next, x0, 0) ==>
          r.arena == Swept(merged) && r.lines == s.lines + FullCount(merged)))
  {
    DropKeepsInv(s, kind);
    if !s.gameWon && Collides(s.arena, s.piece, s.x, s.y + 1) {
      DropLands(s, kind);
    }
  }

  // --------------------------------------------------------- pause, timer, keys

  /** tetris.js `handlePauseToggle`: flips `paused`, only in a started game not yet won. */
  function PauseStep(s: GameState): GameState {
    if !s.started || s.gameWon then s else s.(paused := !s.paused)
  }

  /** Pausing changes nothing but the flag, keeps the invariant, and twice is no change. */
  lemma PauseProperties(s: GameState)
    ensures var r := PauseStep(s);
      r == s.(paused := r.paused) &&
      (r.paused != s.paused <==> s.started && !s.gameWon) &&
      PauseStep(r) == s &&
      (Inv(s) ==> Inv(r))
  {
  }

  /**
   * The scheduling part of tetris.js `update(time)`: nothing after a win;
   * nothing but a redraw while stopped or paused; otherwise accumulate the
   * time since the last frame and drop when the counter is due.
   */
  ghost function UpdateStep(s: GameState, time: int, kind: PieceKind): GameState
    requires Inv(s)
  {
    if s.gameWon || !s.started || s.paused then s
    else
      var t := Tick(s, time);
      InvIgnoresTimers(s, t.lastTime, t.dropCounter);
      if DropDue(t.dropCounter, t.level) then DropStep(t, kind) else t
  }

  /** The timers of a running frame: `lastTime` becomes `time`, the counter grows by the elapsed time. */
  function Tick(s: GameState, time: int): GameState {
    s.(lastTime := time, dropCounter := s.dropCounter + (time - s.lastTime))
  }

  /** The timers take no part in the invariant. */
  lemma InvIgnoresTimers(s: GameState, lastTime: int, dropCounter: int)
    requires Inv(s)
    ensures Inv(s.(lastTime := lastTime, dropCounter := dropCounter))
  {
  }

  /** A frame keeps the invariant. */
  lemma UpdateKeepsInv(s: GameState, time: int, kind: PieceKind)
    requires Inv(s)
    ensures Inv(UpdateStep(s, time, kind))
  {
    if !s.gameWon && s.started && !s.paused {
      var t := Tick(s, time);
      InvIgnoresTimers(s, t.lastTime, t.dropCounter);
      if DropDue(t.dropCounter, t.level) {
        DropKeepsInv(t, kind);
        assert UpdateStep(s, time, kind) == DropStep(t, kind);
      } else {
        assert UpdateStep(s, time, kind) == t;
      }
    }
  }

  /**
   * Won, stopped or paused, a frame changes nothing: `lastTime` stays behind,
   * so the first frame after a pause counts the paused time. Otherwise the
   * counter grows by the elapsed time, `lastTime` becomes `time`, and a drop
   * happens exactly when the counter exceeds 1000 / level milliseconds.
   */
  lemma UpdateProperties(s: GameState, time: int, kind: PieceKind)
    requires Inv(s)
    ensures var r := UpdateStep(s, time, kind);
      var counter := s.dropCounter + (time - s.lastTime);
      var t := Tick(s, time);
      Inv(r) &&
      (s.gameWon || !s.started || s.paused ==> r == s) &&
      (!s.gameWon && s.started && !s.paused ==>
        (counter as real > BaseDropInterval as real / s.level as real ==> r == DropStep(t, kind)) &&
        (counter as real <= BaseDropInterval as real / s.level as real ==> r == t))
  {
    UpdateKeepsInv(s, time, kind);
    var counter := s.dropCounter + (time - s.lastTime);
    DropDueIsPastInterval(counter, s.level);
  }

  /**
   * The keydown handler: ignored unless started, not won and the name field
   * is not focused; arrows and Q/W act only while not paused; Space and P
   * toggle the pause.
   */
  ghost function KeyStep(s: GameState, key: Key, inputFocused: bool, kind: PieceKind): GameState
    requires Inv(s)
  {
    if !s.started || s.gameWon || inputFocused then s
    else
      match key
      case ArrowLeft => if s.paused then s else MoveStep(s, -1)
      case ArrowRight => if s.paused then s else MoveStep(s, 1)
      case ArrowDown => if s.paused then s else DropStep(s, kind)
      case KeyQ => if s.paused then s else RotateStep(s, -1)
      case KeyW => if s.paused then s else RotateStep(s, 1)
      case Space => PauseStep(s)
      case KeyP => PauseStep(s)
      case Other => s
  }

  /**
   * A key keeps the invariant. Outside a running game, or with the name field
   * focused, no key does anything; while paused only Space and P do, and they
   * resume the game.
   */
  lemma KeyProperties(s: GameState, key: Key, inputFocused: bool, kind: PieceKind)
    requires Inv(s)
    ensures var r := KeyStep(s, key, inputFocused, kind);
      Inv(r) &&
      (!s.started || s.gameWon || inputFocused ==> r == s) &&
      (s.paused && key != Space && key != KeyP ==> r == s) &&
      (s.paused && s.started && !s.gameWon && !inputFocused && (key == Space || key == KeyP) ==>
        r == s.(paused := false))
  {
    if s.started && !s.gameWon && !inputFocused && !s.paused {
      match key
      case ArrowLeft => MoveProperties(s, -1);
      case ArrowRight => MoveProperties(s, 1);
      case ArrowDown => DropKeepsInv(s, kind);
      case KeyQ => RotateProperties(s, -1);
      case KeyW => RotateProperties(s, 1);
      case _ =>
    }
  }

  /**
   * A run of keydown events, the name field unfocused; each event carries
   * the draw a landing it causes would make.
   */
  ghost function Replay(s: GameState, events: seq<(Key, PieceKind)>): (r: GameState)
    requires Inv(s)
    ensures Inv(r)
    decreases |events|
  {
    if events == [] then s
    else
      var (key, kind) := events[0];
      KeyProperties(s, key, false, kind);
      Replay(KeyStep(s, key, false, kind), events[1..])
  }

  // -------------------------------------------------------------- starting

  /**
   * The start button: wipe the arena, drop both pieces, reset score, level,
   * lines and flags, start; spawn (drawing `first`, then `kind`); then zero
   * `lastTime` and the drop counter.
   */
  ghost function StartStep(s: GameState, first: PieceKind, kind: PieceKind): GameState {
    SpawnStep(Restarted(s), first, kind).(lastTime := 0, dropCounter := 0)
  }

  /** The reset block of the start handler: empty arena, no pieces, zero tally, level 1, running. */
  function Restarted(s: GameState): GameState {
    s.(arena := EmptyArena(), piece := [], next := [], score := 0, level := 1, lines := 0,
       paused := false, started := true, gameWon := false)
  }

  /**
   * From any snapshot, a start yields a running game in the invariant: the
   * first piece can always spawn on the empty arena.
   */
  lemma StartProperties(s: GameState, first: PieceKind, kind: PieceKind)
    ensures var r := StartStep(s, first, kind);
      Inv(r) && r.started && !r.paused && !r.gameWon &&
      r.arena == EmptyArena() && r.piece == DrawnShape(first) && r.next == DrawnShape(kind) &&
      r.x == SpawnX(|r.piece|) && r.y == 0 &&
      r.score == 0 && r.lines == 0 && r.level == 1 && r.dropCounter == 0 && r.lastTime == 0
  {
    var m := DrawnShape(first);
    CollidesOnEmptyArena(m, SpawnX(|m|), 0);
    SpawnInBounds(m);
    EmptyArenaNotFull();
  }

  /** A win leaves the level where it was: 4000 points and 7 lines at level 1, then a four-row clear. */
  lemma StaleLevelOnWin()
    ensures Award(Tally(4000, 7, 1), 4) == (Tally(WinScore, 11, 1), true)
    ensures LevelFor(11) == 2
  {
  }
}
