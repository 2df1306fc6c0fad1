/**
 * The mutable session of tetris.js: `arena`, `player` and the flags as the
 * fields of one object, and the game-logic functions as its methods. Each
 * method is proved to move the object exactly as the matching step function
 * of `Engine` moves a snapshot, so the lemmas there apply to the object.
 */
module Session {
  import opened Matrices
  import opened Pieces
  import opened Board
  import opened Sweep
  import opened Scoring
  import opened Engine

  /**
   * The loop of tetris.js `playerRotate`: while the rotated piece `p` in
   * `m` collides, shift x by `offset` and advance it (1, -2, 3, -4, ...);
   * give up as soon as the next offset is positive and wider than the
   * piece. The result is the first free kick placement, or none.
   */
  method KickSearch(a: Matrix, m: array2<int>, ghost p: Matrix, pos: int, row: int) returns (px: int, gaveUp: bool)
    requires Holds(m, p)
    ensures var f := FirstFree(a, p, pos, row, 0, KickLimit(m.Length1));
      (gaveUp <==> f.None?) && (f.Some? ==> px == pos + Net(f.value))
  {
    var w := m.Length1;
    ghost var n := KickLimit(w);
    ghost var k: nat := 0;
    px := pos;
    gaveUp := false;
    var offset := 1;
    var hit := Collide(a, m, p, px, row);
    while hit && !gaveUp
      invariant 0 <= k <= n && px == pos + Net(k) && offset == Offset(k)
      invariant gaveUp <==> k == n
      invariant !gaveUp ==> (hit <==> KickCollides(a, p, pos, row, k))
      invariant FirstFree(a, p, pos, row, 0, n) == FirstFree(a, p, pos, row, k, n)
      decreases n - k
    {
      FirstFreeSkip(a, p, pos, row, k, n);
      KickStep(w, k);
      px := px + offset;
      offset := -(offset + (if offset > 0 then 1 else -1));
      k := k + 1;
      if offset > w {
        gaveUp := true;
      } else {
        hit := Collide(a, m, p, px, row);
      }
    }
    if gaveUp {
      assert FirstFree(a, p, pos, row, k, n) == None;
    } else {
      assert FirstFree(a, p, pos, row, k, n) == Some(k);
    }
  }

  /**
   * The array work of tetris.js `playerRotate`: rotate `m` (holding `p`) in
   * place, run the kick search from column `pos`, and when it gives up
   * rotate back the other way, leaving `p` in the array again.
   */
  method TurnWithKicks(a: Matrix, m: array2<int>, ghost p: Matrix, pos: int, row: int, dir: int)
    returns (px: int, gaveUp: bool)
    requires Holds(m, p) && IsShape(p) && dir != 0
    modifies m
    ensures var f := FirstFree(a, Rotated(p, dir), pos, row, 0, KickLimit(|p|));
      (gaveUp <==> f.None?) && (f.Some? ==> px == pos + Net(f.value))
    ensures Holds(m, if gaveUp then Rotated(Rotated(p, dir), -dir) else Rotated(p, dir))
  {
    assert |p[0]| == m.Length1;
    Rotate(m, dir, p);
    ghost var r := Rotated(p, dir);
    px, gaveUp := KickSearch(a, m, r, pos, row);
    if gaveUp {
      Rotate(m, -dir, r);
    }
  }

  /**
   * The page's life: the object made on load, the start button, then a run
   * of keydown events. The session ends as `Replay` says, and every object
   * it holds was allocated here, so no object of the caller is touched.
   */
  method PlayKeys(first: PieceKind, kind: PieceKind, events: seq<(Key, PieceKind)>) returns (g: Game)
    ensures fresh(g) && fresh(g.Repr()) && g.Valid()
    ensures g.State() == Replay(StartStep(Initial(), first, kind), events)
  {
    g := new Game();
    g.Start(first, kind);
    StartProperties(Initial(), first, kind);
    var i := 0;
    while i < |events|
      invariant 0 <= i <= |events|
      invariant fresh(g) && fresh(g.Repr()) && g.Valid()
      invariant Replay(g.State(), events[i..]) == Replay(StartStep(Initial(), first, kind), events)
    {
      var (key, draw) := events[i];
      assert events[i..][1..] == events[i + 1..];
      g.KeyDown(key, false, draw);
      i := i + 1;
    }
  }

  class Game {
    var arena: Matrix
    /** `player.matrix`, null before the first start. */
    var matrix: array2?<int>
    /** `player.next`, null before the first start. */
    var next: array2?<int>
    /** `player.pos`. */
    var x: int
    var y: int
    var score: int
    var lines: int
    var level: int
    var dropCounter: int
    var lastTime: int
    var paused: bool
    var started: bool
    var gameWon: bool
    /** The contents of `matrix` as a matrix value, empty while it is null. */
    ghost var piece: Matrix
    /** The contents of `next` as a matrix value, empty while it is null. */
    ghost var upcoming: Matrix
    /** The objects the session owns: itself and whichever piece arrays are not null. */
    ghost function Repr(): set<object>
      reads this`matrix, this`next
    {
      {this} + (if matrix == null then {} else {matrix as object}) +
      (if next == null then {} else {next as object})
    }

    /** The session as a value. */
    ghost function State(): GameState
      reads this
    {
      GameState(arena, piece, upcoming, x, y, score, lines, level, dropCounter, lastTime, paused, started, gameWon)
    }

    /**
     * The piece arrays hold `piece` and `upcoming`; a null array stands for
     * the empty matrix, and the two arrays are never the same one.
     */
    ghost predicate Linked()
      reads this`matrix, this`next, this`piece, this`upcoming, matrix, next
    {
      (matrix == null <==> next == null) &&
      (matrix == null <==> piece == []) && (next == null <==> upcoming == []) &&
      (matrix != null ==> Holds(matrix, piece) && matrix != next) &&
      (next != null ==> Holds(next, upcoming))
    }

    ghost predicate Valid()
      reads this, matrix, next
      ensures Valid() ==> this in Repr()
    {
      Linked() && Inv(State())
    }

    /** The page as loaded: `createMatrix(10, 20)`, no pieces, level 1, nothing started. */
    constructor()
      ensures Valid() && fresh(Repr()) && State() == Initial()
    {
      var rows := CreateMatrix(Width, Height);
      arena := rows;
      matrix, next := null, null;
      piece, upcoming := [], [];
      x, y := 0, 0;
      score, lines, level := 0, 0, 1;
      dropCounter, lastTime := 0, 0;
      paused, started, gameWon := false, false, false;
      new;
      forall r | 0 <= r < Height ensures arena[r] == ZeroRow(Width) {
      }
      assert arena == EmptyArena();
      assert State() == Initial();
    }

    /** `arena.forEach(row => row.fill(0))`. */
    method ClearArena()
      requires IsArena(arena)
      modifies this
      ensures matrix == old(matrix) && next == old(next) && piece == old(piece) && upcoming == old(upcoming)
      ensures State() == old(State()).(arena := EmptyArena())
    {
      var rows := arena;
      var r := 0;
      while r < |rows|
        invariant 0 <= r <= |rows| == Height
        invariant forall k :: 0 <= k < Height ==> |rows[k]| == Width
        invariant forall k :: 0 <= k < r ==> rows[k] == ZeroRow(Width)
        modifies {}
      {
        rows := rows[r := ZeroRow(|rows[r]|)];
        r := r + 1;
      }
      assert rows == EmptyArena();
      arena := rows;
    }

    /**
     * tetris.js `merge`: every nonzero cell of the piece overwrites the arena
     * cell under it, row by row.
     */
    method Merge()
      requires Linked() && matrix != null && IsArena(arena) && InBounds(piece, x, y)
      modifies this
      ensures matrix == old(matrix) && next == old(next)
      ensures State() == old(State()).(arena := Merged(old(arena), piece, x, y))
    {
      var m: array2<int> := matrix;
      var ox, oy := x, y;
      ghost var a0, p := arena, piece;
      var rows := arena;
      MergedSoFarStart(a0, p, ox, oy);
      var i := 0;
      while i < m.Length0
        invariant 0 <= i <= m.Length0 && Holds(m, p)
        invariant MergedSoFar(a0, p, ox, oy, i, 0, rows)
        modifies {}
      {
        var j := 0;
        while j < m.Length1
          invariant 0 <= j <= m.Length1
          invariant MergedSoFar(a0, p, ox, oy, i, j, rows)
          modifies {}
        {
          MergedSoFarStep(a0, p, ox, oy, i, j, rows);
          var v := m[i, j];
          if v != 0 {
            rows := rows[oy + i := rows[oy + i][ox + j := v]];
          }
          j := j + 1;
        }
        MergedSoFarRow(a0, p, ox, oy, i, m.Length1, rows);
        i := i + 1;
      }
      MergedSoFarDone(a0, p, ox, oy, rows);
      arena := rows;
    }

    /** tetris.js `playerMove`. */
    method PlayerMove(dir: int)
      requires Valid() && matrix != null
      modifies Repr()
      ensures Valid() && matrix == old(matrix) && next == old(next)
      ensures State() == MoveStep(old(State()), dir)
    {
      ghost var s0 := State();
      MoveProperties(s0, dir);
      if gameWon {
        return;
      }
      x := x + dir;
      var hit := Collide(arena, matrix, piece, x, y);
      if hit {
        x := x - dir;
      }
      assert State() == MoveStep(s0, dir);
    }

    /**
     * tetris.js `playerRotate`: rotate the piece in place, search for a free
     * kick placement, and if there is none rotate back the other way with x
     * restored.
     */
    method PlayerRotate(dir: int)
      requires Valid() && matrix != null && dir != 0
      modifies Repr()
      ensures Valid() && matrix == old(matrix) && next == old(next)
      ensures State() == RotateStep(old(State()), dir)
    {
      ghost var s0 := State();
      RotateProperties(s0, dir);
      if gameWon {
        return;
      }
      ghost var nx, up := next, upcoming;
      assert matrix != nx && Holds(nx, up);
      var px, gaveUp := TurnWithKicks(arena, matrix, piece, x, y, dir);
      if gaveUp {
        RotateRoundTrip(s0.piece, dir);
        piece := Rotated(Rotated(piece, dir), -dir);
        assert State() == s0;
      } else {
        x, piece := px, Rotated(piece, dir);
        assert State() == RotateStep(s0, dir);
      }
      assert Holds(nx, up);
    }

    /**
     * The first half of tetris.js `playerReset`: promote `next` to the active
     * piece (or draw `first` when there is none yet) and draw `kind` as the
     * new next piece.
     */
    method DrawPieces(first: PieceKind, kind: PieceKind)
      requires Linked()
      modifies this
      ensures Linked() && matrix != null && fresh(next) && fresh(Repr() - old(Repr()))
      ensures State() == Drawn(old(State()), first, kind)
    {
      var active: array2<int>;
      ghost var shape: Matrix;
      if matrix == null {
        active := NewPiece(first);
        shape := DrawnShape(first);
      } else {
        active, shape := next, upcoming;
      }
      var drawn := NewPiece(kind);
      ghost var s0 := State();
      matrix, piece, next, upcoming := active, shape, drawn, DrawnShape(kind);
      assert State() == s0.(piece := shape, next := upcoming);
    }

    /**
     * tetris.js `playerReset`: draw the pieces, place the active one centred
     * on row 0, and on a collision there wipe the arena and stop.
     */
    method PlayerReset(first: PieceKind, kind: PieceKind)
      requires Linked() && IsArena(arena) && (piece != [] ==> IsShape(upcoming))
      modifies this
      ensures Linked() && matrix != null && fresh(next) && fresh(Repr() - old(Repr()))
      ensures State() == SpawnStep(old(State()), first, kind)
    {
      DrawPieces(first, kind);
      ghost var t := State();
      assert IsShape(piece) && |piece[0]| == matrix.Length1;
      var w := matrix.Length1;
      y := 0;
      x := Width / 2 - w / 2;
      assert State() == t.(x := SpawnX(|t.piece|), y := 0);
      var hit := Collide(arena, matrix, piece, x, y);
      if hit {
        GameOver();
      }
    }

    /** The game-over branch of tetris.js `playerReset`: wipe the arena, stop and unpause. */
    method GameOver()
      requires IsArena(arena)
      modifies this
      ensures matrix == old(matrix) && next == old(next) && piece == old(piece) && upcoming == old(upcoming)
      ensures State() == Wiped(old(State()))
    {
      ClearArena();
      started := false;
      paused := false;
    }

    /**
     * tetris.js `arenaSweep`: the row loop, then, if rows were cleared, the
     * award. The cleared row indices only feed the particle effect.
     */
    method ArenaSweep()
      requires IsArena(arena) && FullCount(arena) <= 4 && lines >= 0 && level >= 1
      modifies this
      ensures matrix == old(matrix) && next == old(next) && piece == old(piece) && upcoming == old(upcoming)
      ensures State() == SweepStep(old(State()))
    {
      var swept, rowCount, cleared := SweepRows(arena);
      arena := swept;
      if rowCount > 0 {
        AwardClear(rowCount);
      }
    }

    /**
     * The scoring part of tetris.js `arenaSweep` once `rowCount` rows were
     * cleared: the points at the current level, the lines, and either the win
     * (score clamped to 4500, stopped, level left as it was) or the new level.
     */
    method AwardClear(rowCount: int)
      requires 1 <= rowCount <= 4 && lines >= 0 && level >= 1
      modifies this
      ensures matrix == old(matrix) && next == old(next) && piece == old(piece) && upcoming == old(upcoming)
      ensures var (t, won) := Award(Tally(old(score), old(lines), old(level)), rowCount);
        var r := old(State()).(score := t.score, lines := t.lines, level := t.level);
        State() == if won then r.(gameWon := true, started := false) else r
    {
      var points := CalculateScore(rowCount, level);
      score := score + points;
      lines := lines + rowCount;
      if score >= WinScore {
        score := WinScore;
        gameWon := true;
        started := false;
        return;
      }
      level := LevelFor(lines);
    }

    /**
     * tetris.js `playerDrop`: one row down; if that collides, stay, merge,
     * spawn the next piece, then sweep. The drop counter is reset. The
     * source moves down first and moves back on a collision; testing the
     * lower row before moving has the same effect.
     */
    method PlayerDrop(kind: PieceKind)
      requires Valid() && matrix != null
      modifies Repr()
      ensures Valid() && fresh(Repr() - old(Repr()))
      ensures State() == DropStep(old(State()), kind)
    {
      ghost var s0 := State();
      DropKeepsInv(s0, kind);
      if gameWon {
        return;
      }
      var hit := Collide(arena, matrix, piece, x, y + 1);
      ghost var t: GameState;
      if hit {
        Land(kind);
        t := LandStep(s0, kind);
      } else {
        y := y + 1;
        t := s0.(y := s0.y + 1);
      }
      assert State() == t;
      dropCounter := 0;
      assert State() == DropStep(s0, kind);
    }

    /**
     * The landing branch of tetris.js `playerDrop`: `merge`, then
     * `playerReset`, then `arenaSweep`, in that order.
     */
    method Land(kind: PieceKind)
      requires Valid() && matrix != null
      modifies Repr()
      ensures Linked() && fresh(Repr() - old(Repr()))
      ensures State() == LandStep(old(State()), kind)
    {
      ghost var s0 := State();
      MergeFillsFewRows(s0);
      SpawnFillsFewRows(s0, kind);
      Merge();
      PlayerReset(kind, kind);
      ArenaSweep();
    }

    /** tetris.js `handlePauseToggle`. */
    method HandlePauseToggle()
      requires Valid()
      modifies Repr()
      ensures Valid() && matrix == old(matrix) && next == old(next)
      ensures State() == PauseStep(old(State()))
    {
      PauseProperties(State());
      if !started || gameWon {
        return;
      }
      paused := !paused;
    }

    /**
     * The scheduling part of tetris.js `update(time)`: after a win, while
     * stopped or while paused, nothing; otherwise add the time since the last
     * frame to the drop counter and drop once it exceeds 1000 / level.
     */
    method Update(time: int, kind: PieceKind)
      requires Valid()
      modifies Repr()
      ensures Valid() && fresh(Repr() - old(Repr()))
      ensures State() == UpdateStep(old(State()), time, kind)
    {
      ghost var s0 := State();
      UpdateKeepsInv(s0, time, kind);
      if gameWon {
        return;
      }
      if !started {
        return;
      }
      if paused {
        return;
      }
      var delta := time - lastTime;
      lastTime := time;
      dropCounter := dropCounter + delta;
      ghost var t := State();
      assert t == Tick(s0, time);
      if DropDue(dropCounter, level) {
        assert UpdateStep(s0, time, kind) == DropStep(t, kind);
        assert Valid() && matrix != null;
        PlayerDrop(kind);
      } else {
        assert UpdateStep(s0, time, kind) == t;
      }
    }

    /**
     * The keydown handler: nothing unless started, not won and the name
     * field unfocused; arrows and Q/W only while not paused; Space and P
     * toggle the pause. `kind` is the piece a landing would draw.
     */
    method KeyDown(key: Key, inputFocused: bool, kind: PieceKind)
      requires Valid()
      modifies Repr()
      ensures Valid() && fresh(Repr() - old(Repr()))
      ensures State() == KeyStep(old(State()), key, inputFocused, kind)
    {
      if !started || gameWon || inputFocused {
        return;
      }
      match key
      case ArrowLeft =>
        if !paused {
          PlayerMove(-1);
        }
      case ArrowRight =>
        if !paused {
          PlayerMove(1);
        }
      case ArrowDown =>
        if !paused {
          PlayerDrop(kind);
        }
      case KeyQ =>
        if !paused {
          PlayerRotate(-1);
        }
      case KeyW =>
        if !paused {
          PlayerRotate(1);
        }
      case Space =>
        HandlePauseToggle();
      case KeyP =>
        HandlePauseToggle();
      case Other =>
    }

    /**
     * The start button: reset the session, spawn (drawing `first`, then
     * `kind`), and zero `lastTime` and the drop counter.
     */
    method Start(first: PieceKind, kind: PieceKind)
      requires Valid()
      modifies Repr()
      ensures Valid() && fresh(Repr() - old(Repr()))
      ensures State() == StartStep(old(State()), first, kind)
    {
      StartProperties(State(), first, kind);
      ResetGame();
      PlayerReset(first, kind);
      lastTime := 0;
      dropCounter := 0;
    }

    /**
     * The reset block of the start button: wipe the arena, forget both
     * pieces, zero the tally at level 1, and mark the game started, unpaused
     * and not won.
     */
    method ResetGame()
      requires IsArena(arena)
      modifies this
      ensures Linked() && matrix == null
      ensures State() == Restarted(old(State()))
    {
      ClearArena();
      matrix := null;
      next := null;
      piece, upcoming := [], [];
      score := 0;
      level := 1;
      lines := 0;
      paused := false;
      started := true;
      gameWon := false;
    }
  }
}
