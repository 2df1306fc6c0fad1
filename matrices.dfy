/** Square piece matrices and the rotation of tetris.js `rotate`. */
module Matrices {

  type Matrix = seq<seq<int>>

  /** Every row has as many cells as there are rows. */
  predicate Square(m: Matrix) {
    forall i :: 0 <= i < |m| ==> |m[i]| == |m|
  }

  /** Swap across the main diagonal. */
  function Transpose(m: Matrix): (t: Matrix)
    requires Square(m)
    ensures |t| == |m| && Square(t)
  {
    seq(|m|, i requires 0 <= i < |m| => seq(|m|, j requires 0 <= j < |m| => m[j][i]))
  }

  /** Reverse every row (`matrix.forEach(row => row.reverse())`). */
  function MirrorRows(m: Matrix): (r: Matrix)
    requires Square(m)
    ensures |r| == |m| && Square(r)
  {
    seq(|m|, i requires 0 <= i < |m| => seq(|m|, j requires 0 <= j < |m| => m[i][|m| - 1 - j]))
  }

  /** Reverse the order of the rows (`matrix.reverse()`). */
  function ReverseRows(m: Matrix): (r: Matrix)
    ensures |r| == |m|
  {
    seq(|m|, i requires 0 <= i < |m| => m[|m| - 1 - i])
  }

  /**
   * The result of `rotate(matrix, dir)`: transpose, then reverse each row
   * when `dir > 0` (clockwise), otherwise reverse the row order
   * (counter-clockwise).
   */
  function Rotated(m: Matrix, dir: int): (r: Matrix)
    requires Square(m)
    ensures |r| == |m| && Square(r)
    ensures forall i, j :: 0 <= i < |m| && 0 <= j < |m| ==>
      r[i][j] == if dir > 0 then m[|m| - 1 - j][i] else m[j][|m| - 1 - i]
  {
    if dir > 0 then MirrorRows(Transpose(m)) else ReverseRows(Transpose(m))
  }

  /** Rotating one way and then the other restores the matrix exactly. */
  lemma {:induction false} RotateRoundTrip(m: Matrix, dir: int)
    requires Square(m) && dir != 0
    ensures Rotated(Rotated(m, dir), -dir) == m
  {
    var r := Rotated(Rotated(m, dir), -dir);
    forall i | 0 <= i < |m|
      ensures r[i] == m[i]
    {
      assert |r[i]| == |m[i]|;
      forall j | 0 <= j < |m|
        ensures r[i][j] == m[i][j]
      {
        var n := |m|;
        if dir > 0 {
          assert r[i][j] == Rotated(m, dir)[j][n - 1 - i];
        } else {
          assert r[i][j] == Rotated(m, dir)[n - 1 - j][i];
        }
      }
    }
  }

  /** The multiset of all cell values, gathered row by row. */
  function Cells(m: Matrix): multiset<int>
  {
    if m == [] then multiset{} else Cells(m[..|m| - 1]) + multiset(m[|m| - 1])
  }

  lemma {:induction false} CellsAppend(a: Matrix, b: Matrix)
    ensures Cells(a + b) == Cells(a) + Cells(b)
  {
    if b != [] {
      assert (a + b)[..|a + b| - 1] == a + b[..|b| - 1];
      CellsAppend(a, b[..|b| - 1]);
    } else {
      assert a + b == a;
    }
  }

  lemma {:induction false} CellsReverseRows(m: Matrix)
    ensures Cells(ReverseRows(m)) == Cells(m)
  {
    if m != [] {
      var n := |m|;
      var front := m[..n - 1];
      assert ReverseRows(m) == [m[n - 1]] + ReverseRows(front);
      CellsAppend([m[n - 1]], ReverseRows(front));
      assert [m[n - 1]][..0] == [];
      CellsReverseRows(front);
    }
  }

  /** Cells m[i][j] with i < r and j < c, gathered row by row. */
  function Block(m: Matrix, r: nat, c: nat): multiset<int>
    requires r <= |m| && forall i :: 0 <= i < r ==> c <= |m[i]|
  {
    if r == 0 then multiset{} else Block(m, r - 1, c) + multiset(m[r - 1][..c])
  }

  /** Cells m[i][j] with i < r, for one column j. */
  function Column(m: Matrix, j: nat, r: nat): multiset<int>
    requires r <= |m| && forall i :: 0 <= i < r ==> j < |m[i]|
  {
    if r == 0 then multiset{} else Column(m, j, r - 1) + multiset{m[r - 1][j]}
  }

  lemma {:induction false} BlockAddColumn(m: Matrix, r: nat, c: nat)
    requires r <= |m| && forall i :: 0 <= i < r ==> c < |m[i]|
    ensures Block(m, r, c + 1) == Block(m, r, c) + Column(m, c, r)
  {
    if r > 0 {
      var row := m[r - 1];
      assert row[..c + 1] == row[..c] + [row[c]];
      calc {
        Block(m, r, c + 1);
        Block(m, r - 1, c + 1) + multiset(row[..c + 1]);
        { BlockAddColumn(m, r - 1, c); }
        Block(m, r - 1, c) + Column(m, c, r - 1) + (multiset(row[..c]) + multiset{row[c]});
        (Block(m, r - 1, c) + multiset(row[..c])) + (Column(m, c, r - 1) + multiset{row[c]});
      }
    }
  }

  /** `t` is the transpose of `m`, stated cell by cell. */
  predicate IsTransposeOf(t: Matrix, m: Matrix) {
    Square(m) && Square(t) && |t| == |m| &&
    forall i, j :: 0 <= i < |m| && 0 <= j < |m| ==> t[j][i] == m[i][j]
  }

  lemma {:induction false} TransposedRowIsColumn(t: Matrix, m: Matrix, j: nat, r: nat)
    requires IsTransposeOf(t, m) && j < |m| && r <= |m|
    ensures multiset(t[j][..r]) == Column(m, j, r)
  {
    if r > 0 {
      TransposedRowIsColumn(t, m, j, r - 1);
      assert t[j][..r] == t[j][..r - 1] + [m[r - 1][j]];
    }
  }

  lemma {:induction false} BlockTranspose(t: Matrix, m: Matrix, c: nat)
    requires IsTransposeOf(t, m) && c <= |m|
    ensures Block(t, c, |m|) == Block(m, |m|, c)
  {
    if c > 0 {
      var n := |m|;
      calc {
        Block(t, c, n);
        Block(t, c - 1, n) + multiset(t[c - 1][..n]);
        { BlockTranspose(t, m, c - 1); }
        Block(m, n, c - 1) + multiset(t[c - 1][..n]);
        { TransposedRowIsColumn(t, m, c - 1, n); }
        Block(m, n, c - 1) + Column(m, c - 1, n);
        { BlockAddColumn(m, n, c - 1); }
        Block(m, n, c);
      }
    } else {
      BlockNoColumns(m, |m|);
    }
  }

  lemma {:induction false} BlockNoColumns(m: Matrix, r: nat)
    requires r <= |m|
    ensures Block(m, r, 0) == multiset{}
  {
    if r > 0 {
      BlockNoColumns(m, r - 1);
    }
  }

  lemma {:induction false} BlockIsCells(m: Matrix, r: nat)
    requires Square(m) && r <= |m|
    ensures Block(m, r, |m|) == Cells(m[..r])
  {
    if r > 0 {
      BlockIsCells(m, r - 1);
      assert m[..r][..r - 1] == m[..r - 1];
      assert m[r - 1][..|m|] == m[r - 1];
    }
  }

  lemma CellsTranspose(m: Matrix)
    requires Square(m)
    ensures Cells(Transpose(m)) == Cells(m)
  {
    var t := Transpose(m);
    assert IsTransposeOf(t, m);
    BlockTranspose(t, m, |m|);
    BlockIsCells(t, |t|);
    BlockIsCells(m, |m|);
    assert t[..|t|] == t;
    assert m[..|m|] == m;
  }

  /** A clockwise turn is also the transpose of the matrix with its rows reversed. */
  lemma ClockwiseByTranspose(m: Matrix, dir: int)
    requires Square(m) && dir > 0
    ensures Rotated(m, dir) == Transpose(ReverseRows(m))
  {
    var r := ReverseRows(m);
    assert Square(r);
    var t := Transpose(r);
    forall i | 0 <= i < |m| ensures Rotated(m, dir)[i] == t[i] {
      forall j | 0 <= j < |m| ensures Rotated(m, dir)[i][j] == t[i][j] {
        assert t[i][j] == r[j][i];
      }
    }
  }

  /** Rotation keeps the square size and the multiset of cell values. */
  lemma RotatePreservesCells(m: Matrix, dir: int)
    requires Square(m)
    ensures |Rotated(m, dir)| == |m| && Cells(Rotated(m, dir)) == Cells(m)
  {
    if dir > 0 {
      var r := ReverseRows(m);
      assert Square(r);
      ClockwiseByTranspose(m, dir);
      CellsTranspose(r);
      CellsReverseRows(m);
    } else {
      CellsTranspose(m);
      CellsReverseRows(Transpose(m));
    }
  }

  /** The two-dimensional array `a` holds the matrix `m`: same shape, same cells. */
  ghost predicate Holds(a: array2<int>, m: Matrix)
    reads a
  {
    a.Length0 == |m| && (forall i :: 0 <= i < |m| ==> |m[i]| == a.Length1) &&
    forall i, j :: 0 <= i < a.Length0 && 0 <= j < a.Length1 ==> a[i, j] == m[i][j]
  }

  /** The first half of `rotate`: swap a[x, y] and a[y, x] for every x < y. */
  method TransposeInPlace(a: array2<int>)
    requires a.Length0 == a.Length1
    modifies a
    ensures forall i, j :: 0 <= i < a.Length0 && 0 <= j < a.Length1 ==> a[i, j] == old(a[j, i])
  {
    var n := a.Length0;
    var y := 0;
    while y < n
      invariant 0 <= y <= n
      invariant forall i, j :: 0 <= i < n && 0 <= j < n ==>
        a[i, j] == if i < y && j < y then old(a[j, i]) else old(a[i, j])
    {
      var x := 0;
      while x < y
        invariant 0 <= x <= y
        invariant forall i, j :: 0 <= i < n && 0 <= j < n ==>
          a[i, j] == if (i < y && j < y) || (i == y && j < x) || (j == y && i < x)
                     then old(a[j, i]) else old(a[i, j])
      {
        a[x, y], a[y, x] := a[y, x], a[x, y];
        x := x + 1;
      }
      y := y + 1;
    }
  }

  /** `row.reverse()` for every row. */
  method ReverseEachRow(a: array2<int>)
    modifies a
    ensures forall i, j :: 0 <= i < a.Length0 && 0 <= j < a.Length1 ==>
      a[i, j] == old(a[i, a.Length1 - 1 - j])
  {
    var n := a.Length1;
    var i := 0;
    while i < a.Length0
      invariant 0 <= i <= a.Length0
      invariant forall r, j :: 0 <= r < a.Length0 && 0 <= j < n ==>
        a[r, j] == if r < i then old(a[r, n - 1 - j]) else old(a[r, j])
    {
      var j := 0;
      while j < n / 2
        invariant 0 <= j <= n / 2
        invariant forall r, k :: 0 <= r < a.Length0 && 0 <= k < n ==>
          a[r, k] == if r < i || (r == i && (k < j || n - 1 - j < k))
                     then old(a[r, n - 1 - k]) else old(a[r, k])
      {
        a[i, j], a[i, n - 1 - j] := a[i, n - 1 - j], a[i, j];
        j := j + 1;
      }
      i := i + 1;
    }
  }

  /** `matrix.reverse()`: the rows in the opposite order. */
  method ReverseRowOrder(a: array2<int>)
    modifies a
    ensures forall i, j :: 0 <= i < a.Length0 && 0 <= j < a.Length1 ==>
      a[i, j] == old(a[a.Length0 - 1 - i, j])
  {
    var n := a.Length0;
    var i := 0;
    while i < n / 2
      invariant 0 <= i <= n / 2
      invariant forall r, k :: 0 <= r < n && 0 <= k < a.Length1 ==>
        a[r, k] == if r < i || n - 1 - i < r then old(a[n - 1 - r, k]) else old(a[r, k])
    {
      var j := 0;
      while j < a.Length1
        invariant 0 <= j <= a.Length1
        invariant forall r, k :: 0 <= r < n && 0 <= k < a.Length1 ==>
          a[r, k] == if r < i || n - 1 - i < r || ((r == i || r == n - 1 - i) && k < j)
                     then old(a[n - 1 - r, k]) else old(a[r, k])
      {
        a[i, j], a[n - 1 - i, j] := a[n - 1 - i, j], a[i, j];
        j := j + 1;
      }
      i := i + 1;
    }
  }

  /**
   * tetris.js `rotate`: rotates a square matrix in place; `m` is what the
   * array holds beforehand.
   */
  method Rotate(a: array2<int>, dir: int, ghost m: Matrix)
    requires Holds(a, m) && Square(m) && a.Length0 == a.Length1
    modifies a
    ensures Holds(a, Rotated(m, dir))
  {
    var n := a.Length0;
    TransposeInPlace(a);
    label transposed:
    var r := Rotated(m, dir);
    if dir > 0 {
      ReverseEachRow(a);
      forall i, j | 0 <= i < n && 0 <= j < n ensures a[i, j] == r[i][j] {
        assert a[i, j] == old@transposed(a[i, n - 1 - j]) == m[n - 1 - j][i];
      }
    } else {
      ReverseRowOrder(a);
      forall i, j | 0 <= i < n && 0 <= j < n ensures a[i, j] == r[i][j] {
        assert a[i, j] == old@transposed(a[n - 1 - i, j]) == m[j][n - 1 - i];
      }
    }
  }
}
