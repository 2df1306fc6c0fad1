/** The arena of tetris.js: a 20 x 10 grid of colour indices, collision and merge. */
module Board {
  import opened Matrices

  const Width: int := 10
  const Height: int := 20

  /** 20 rows of 10 cells, each cell 0 (empty) or a colour index 1..7. */
  predicate IsArena(a: Matrix) {
    |a| == Height && (forall r :: 0 <= r < Height ==> |a[r]| == Width) &&
    forall r, c :: 0 <= r < Height && 0 <= c < Width ==> 0 <= a[r][c] <= 7
  }

  /** `new Array(w).fill(0)`. */
  function ZeroRow(w: nat): (row: seq<int>)
    ensures |row| == w && forall k :: 0 <= k < w ==> row[k] == 0
  {
    seq(w, _ => 0)
  }

  /** `k` empty rows of the arena's width. */
  function ZeroRows(k: nat): (z: Matrix)
    ensures |z| == k && forall r :: 0 <= r < k ==> z[r] == ZeroRow(Width)
  {
    seq(k, _ => ZeroRow(Width))
  }

  /** The arena with every cell empty, as after `arena.forEach(row => row.fill(0))`. */
  function EmptyArena(): (a: Matrix)
    ensures IsArena(a) && forall r :: 0 <= r < Height ==> a[r] == ZeroRow(Width)
  {
    ZeroRows(Height)
  }

  /** tetris.js `createMatrix(w, h)`: `h` rows of `w` zeros. */
  method CreateMatrix(w: nat, h: nat) returns (m: Matrix)
    ensures |m| == h
    ensures forall r :: 0 <= r < h ==> |m[r]| == w && forall c :: 0 <= c < w ==> m[r][c] == 0
  {
    m := [];
    var left := h;
    while left > 0
      invariant 0 <= left <= h && |m| == h - left
      invariant forall r :: 0 <= r < |m| ==> m[r] == ZeroRow(w)
    {
      m := m + [ZeroRow(w)];
      left := left - 1;
    }
  }

  /**
   * The test `!arena[r] || arena[r][c] !== 0` of `collide`: a missing row
   * (above the top or below the floor), a missing column, or a settled cell.
   */
  predicate Blocked(arena: Matrix, r: int, c: int) {
    !(0 <= r < |arena|) || !(0 <= c < |arena[r]|) || arena[r][c] != 0
  }

  /** Some nonzero cell of `m`, placed with its top-left corner at (ox, oy), lands on a blocked spot. */
  ghost predicate Collides(arena: Matrix, m: Matrix, ox: int, oy: int) {
    exists i, j :: 0 <= i < |m| && 0 <= j < |m[i]| && m[i][j] != 0 && Blocked(arena, oy + i, ox + j)
  }

  /**
   * tetris.js `collide`: scans the piece row by row and returns as soon as a
   * nonzero cell is blocked. It reads the arena and the piece and changes
   * nothing; `piece` is what the array holds.
   */
  method Collide(arena: Matrix, m: array2<int>, ghost piece: Matrix, ox: int, oy: int) returns (hit: bool)
    requires Holds(m, piece)
    ensures hit <==> Collides(arena, piece, ox, oy)
  {
    var y := 0;
    while y < m.Length0
      invariant 0 <= y <= m.Length0
      invariant forall i, j :: 0 <= i < y && 0 <= j < m.Length1 && m[i, j] != 0 ==>
        !Blocked(arena, oy + i, ox + j)
    {
      var x := 0;
      while x < m.Length1
        invariant 0 <= x <= m.Length1
        invariant forall i, j :: 0 <= i < y && 0 <= j < m.Length1 && m[i, j] != 0 ==>
          !Blocked(arena, oy + i, ox + j)
        invariant forall j :: 0 <= j < x && m[y, j] != 0 ==> !Blocked(arena, oy + y, ox + j)
      {
        if m[y, x] != 0 && Blocked(arena, oy + y, ox + x) {
          assert piece[y][x] == m[y, x];
          return true;
        }
        x := x + 1;
      }
      y := y + 1;
    }
    return false;
  }

  /** Every nonzero cell of `m` at (ox, oy) lies inside the 20 x 10 grid. */
  predicate InBounds(m: Matrix, ox: int, oy: int) {
    forall i, j :: 0 <= i < |m| && 0 <= j < |m[i]| && m[i][j] != 0 ==>
      0 <= oy + i < Height && 0 <= ox + j < Width
  }

  /** A placement that does not collide lies inside the grid. */
  lemma FreeIsInBounds(arena: Matrix, m: Matrix, ox: int, oy: int)
    requires IsArena(arena) && !Collides(arena, m, ox, oy)
    ensures InBounds(m, ox, oy)
  {
    forall i, j | 0 <= i < |m| && 0 <= j < |m[i]| && m[i][j] != 0
      ensures 0 <= oy + i < Height && 0 <= ox + j < Width
    {
      assert !Blocked(arena, oy + i, ox + j);
    }
  }

  /**
   * On the empty arena a placement collides exactly when it leaves the grid:
   * a piece cell above the top row collides as one below the floor does.
   */
  lemma CollidesOnEmptyArena(m: Matrix, ox: int, oy: int)
    ensures Collides(EmptyArena(), m, ox, oy) <==> !InBounds(m, ox, oy)
  {
    if !InBounds(m, ox, oy) {
      var i, j :| 0 <= i < |m| && 0 <= j < |m[i]| && m[i][j] != 0 &&
        !(0 <= oy + i < Height && 0 <= ox + j < Width);
      assert Blocked(EmptyArena(), oy + i, ox + j);
    }
  }

  /** The spawn column of `playerReset`: `(arena[0].length / 2 | 0) - (matrixWidth / 2 | 0)`. */
  function SpawnX(w: nat): int {
    Width / 2 - w / 2
  }

  /** Any square of side 2..4 fits the grid at the spawn position, row 0. */
  lemma SpawnInBounds(m: Matrix)
    requires Square(m) && 2 <= |m| <= 4
    ensures InBounds(m, SpawnX(|m|), 0)
  {
  }

  /** A cell of `m` covers row `i`, column `j` of the piece. */
  predicate Covers(m: Matrix, i: int, j: int) {
    0 <= i < |m| && 0 <= j < |m[i]| && m[i][j] != 0
  }

  /**
   * The arena after tetris.js `merge`: each nonzero piece cell overwrites the
   * arena cell under it; every other cell keeps its value.
   */
  function Merged(a: Matrix, m: Matrix, ox: int, oy: int): (r: Matrix)
    ensures |r| == |a| && forall k :: 0 <= k < |a| ==> |r[k]| == |a[k]|
  {
    seq(|a|, row requires 0 <= row < |a| =>
      seq(|a[row]|, col requires 0 <= col < |a[row]| =>
        if Covers(m, row - oy, col - ox) then m[row - oy][col - ox] else a[row][col]))
  }

  /**
   * Merging an in-bounds piece with cells 0..7 keeps a valid arena, writes
   * every nonzero piece cell, and leaves every other cell unchanged, in
   * particular the rows the piece does not span.
   */
  lemma MergedProperties(a: Matrix, m: Matrix, ox: int, oy: int)
    requires IsArena(a) && InBounds(m, ox, oy)
    requires forall i, j :: 0 <= i < |m| && 0 <= j < |m[i]| ==> 0 <= m[i][j] <= 7
    ensures IsArena(Merged(a, m, ox, oy))
    ensures forall i, j :: Covers(m, i, j) ==> Merged(a, m, ox, oy)[oy + i][ox + j] == m[i][j]
    ensures forall row :: 0 <= row < Height && !(oy <= row < oy + |m|) ==> Merged(a, m, ox, oy)[row] == a[row]
    ensures forall row, col :: 0 <= row < Height && 0 <= col < Width && !Covers(m, row - oy, col - ox) ==>
      Merged(a, m, ox, oy)[row][col] == a[row][col]
  {
    var r := Merged(a, m, ox, oy);
    forall row, col | 0 <= row < Height && 0 <= col < Width
      ensures 0 <= r[row][col] <= 7
      ensures !(oy <= row < oy + |m|) ==> r[row][col] == a[row][col]
      ensures !Covers(m, row - oy, col - ox) ==> r[row][col] == a[row][col]
    {
      if Covers(m, row - oy, col - ox) {
        assert r[row][col] == m[row - oy][col - ox];
      } else {
        assert r[row][col] == a[row][col];
      }
    }
    forall row | 0 <= row < Height && !(oy <= row < oy + |m|) ensures r[row] == a[row] {
    }
    forall i, j | Covers(m, i, j) ensures r[oy + i][ox + j] == m[i][j] {
      assert 0 <= oy + i < Height && 0 <= ox + j < Width;
      assert (oy + i) - oy == i && (ox + j) - ox == j;
    }
  }

  /** Cell (i, j) of the piece comes before cell (bi, bj) in row-major order. */
  predicate Before(i: int, j: int, bi: int, bj: int) {
    i < bi || (i == bi && j < bj)
  }

  /**
   * `cur` is the arena `a` after `merge` has visited the piece cells before
   * (i, j) in row-major order: those overwrite, every other cell is from `a`.
   */
  ghost predicate MergedSoFar(a: Matrix, m: Matrix, ox: int, oy: int, i: int, j: int, cur: Matrix) {
    |cur| == |a| && (forall r :: 0 <= r < |a| ==> |cur[r]| == |a[r]|) &&
    forall r, c :: 0 <= r < |a| && 0 <= c < |a[r]| ==>
      cur[r][c] == if Covers(m, r - oy, c - ox) && Before(r - oy, c - ox, i, j) then m[r - oy][c - ox] else a[r][c]
  }

  /** Nothing is visited yet: the arena itself. */
  lemma MergedSoFarStart(a: Matrix, m: Matrix, ox: int, oy: int)
    ensures MergedSoFar(a, m, ox, oy, 0, 0, a)
  {
  }

  /** Visiting cell (i, j): a nonzero cell overwrites the arena cell under it. */
  lemma MergedSoFarStep(a: Matrix, m: Matrix, ox: int, oy: int, i: int, j: int, cur: Matrix)
    requires MergedSoFar(a, m, ox, oy, i, j, cur) && IsArena(a) && InBounds(m, ox, oy)
    requires 0 <= i < |m| && 0 <= j < |m[i]|
    ensures m[i][j] != 0 ==> 0 <= oy + i < Height && 0 <= ox + j < Width
    ensures MergedSoFar(a, m, ox, oy, i, j + 1,
      if m[i][j] != 0 then cur[oy + i := cur[oy + i][ox + j := m[i][j]]] else cur)
  {
    var next := if m[i][j] != 0 then cur[oy + i := cur[oy + i][ox + j := m[i][j]]] else cur;
    forall r, c | 0 <= r < |a| && 0 <= c < |a[r]|
      ensures next[r][c] ==
        if Covers(m, r - oy, c - ox) && Before(r - oy, c - ox, i, j + 1) then m[r - oy][c - ox] else a[r][c]
    {
      if r - oy == i && c - ox == j {
        assert r == oy + i && c == ox + j;
      }
    }
  }

  /** The end of a row of width `w` is the start of the next row. */
  lemma MergedSoFarRow(a: Matrix, m: Matrix, ox: int, oy: int, i: int, w: int, cur: Matrix)
    requires MergedSoFar(a, m, ox, oy, i, w, cur)
    requires 0 <= i < |m| && |m[i]| == w
    ensures MergedSoFar(a, m, ox, oy, i + 1, 0, cur)
  {
    forall r, c | 0 <= r < |a| && 0 <= c < |a[r]|
      ensures cur[r][c] ==
        if Covers(m, r - oy, c - ox) && Before(r - oy, c - ox, i + 1, 0) then m[r - oy][c - ox] else a[r][c]
    {
      if Covers(m, r - oy, c - ox) {
        assert Before(r - oy, c - ox, i, w) == Before(r - oy, c - ox, i + 1, 0);
      }
    }
  }

  /** After the last row every piece cell is written: the merged arena. */
  lemma MergedSoFarDone(a: Matrix, m: Matrix, ox: int, oy: int, cur: Matrix)
    requires MergedSoFar(a, m, ox, oy, |m|, 0, cur)
    ensures cur == Merged(a, m, ox, oy)
  {
    var r := Merged(a, m, ox, oy);
    forall row | 0 <= row < |a| ensures cur[row] == r[row] {
      forall col | 0 <= col < |a[row]| ensures cur[row][col] == r[row][col] {
        if Covers(m, row - oy, col - ox) {
          assert Before(row - oy, col - ox, |m|, 0);
        }
      }
    }
  }
}
