/** The row loop of tetris.js `arenaSweep`: full rows out, empty rows in at the top. */
module Sweep {
  import opened Matrices
  import opened Board

  /** `row.every(v => v > 0)`. */
  predicate Full(row: seq<int>) {
    forall k :: 0 <= k < |row| ==> row[k] > 0
  }

  predicate NoFullRow(rows: Matrix) {
    forall r :: 0 <= r < |rows| ==> !Full(rows[r])
  }

  /** The rows that are not full, in their original order. */
  function Keep(rows: Matrix): Matrix {
    if rows == [] then []
    else (if Full(rows[0]) then [] else [rows[0]]) + Keep(rows[1..])
  }

  /** The number of full rows. */
  function FullCount(rows: Matrix): nat {
    if rows == [] then 0
    else (if Full(rows[0]) then 1 else 0) + FullCount(rows[1..])
  }

  /**
   * The indices `arenaSweep` pushes onto `clearedRows`. The scan runs from
   * the bottom; `shift` rows have already been removed below, so a full row
   * at original index r is recorded as r plus the number of full rows under it.
   */
  function Trace(rows: Matrix, shift: int): seq<int> {
    if rows == [] then []
    else
      var last := |rows| - 1;
      if Full(rows[last]) then [last + shift] + Trace(rows[..last], shift + 1)
      else Trace(rows[..last], shift)
  }

  lemma ZeroRowsAppend(a: nat, b: nat)
    ensures ZeroRows(a) + ZeroRows(b) == ZeroRows(a + b)
  {
  }

  /** The arena after the row loop: one empty row on top for each full row removed. */
  function Swept(rows: Matrix): Matrix {
    ZeroRows(FullCount(rows)) + Keep(rows)
  }

  lemma {:induction false} KeepAndCount(rows: Matrix)
    ensures |Keep(rows)| + FullCount(rows) == |rows|
    ensures forall i :: 0 <= i < |Keep(rows)| ==> Keep(rows)[i] in rows && !Full(Keep(rows)[i])
    ensures forall i :: 0 <= i < |rows| && !Full(rows[i]) ==> rows[i] in Keep(rows)
  {
    if rows != [] {
      KeepAndCount(rows[1..]);
      forall i | 0 <= i < |rows| && !Full(rows[i]) ensures rows[i] in Keep(rows) {
        if i > 0 {
          assert rows[1..][i - 1] == rows[i];
        }
      }
    }
  }

  lemma {:induction false} FullCountSnoc(rows: Matrix, row: seq<int>)
    ensures FullCount(rows + [row]) == FullCount(rows) + (if Full(row) then 1 else 0)
  {
    if rows != [] {
      assert (rows + [row])[1..] == rows[1..] + [row];
      FullCountSnoc(rows[1..], row);
    } else {
      assert [row][1..] == [];
    }
  }

  /** Every row scanned is recorded once per full row. */
  lemma {:induction false} TraceLength(rows: Matrix, shift: int)
    ensures |Trace(rows, shift)| == FullCount(rows)
  {
    if rows != [] {
      var last := |rows| - 1;
      TraceLength(rows[..last], if Full(rows[last]) then shift + 1 else shift);
      assert rows == rows[..last] + [rows[last]];
      FullCountSnoc(rows[..last], rows[last]);
    }
  }

  /** The recorded indices are row indices, in non-increasing order. */
  lemma {:induction false} TraceBounds(rows: Matrix, shift: int)
    ensures forall k :: 0 <= k < |Trace(rows, shift)| ==> shift <= Trace(rows, shift)[k] < shift + |rows|
    ensures forall k, l :: 0 <= k < l < |Trace(rows, shift)| ==> Trace(rows, shift)[k] >= Trace(rows, shift)[l]
  {
    if rows != [] {
      var last := |rows| - 1;
      TraceBounds(rows[..last], if Full(rows[last]) then shift + 1 else shift);
    }
  }

  /**
   * The arena after the sweep keeps its 20 x 10 shape and its cell range, has
   * no full row, and clears exactly the full rows: `rowCount` of them.
   */
  lemma SweptProperties(rows: Matrix)
    requires IsArena(rows)
    ensures IsArena(Swept(rows)) && NoFullRow(Swept(rows))
    ensures |Trace(rows, 0)| == FullCount(rows)
    ensures forall k :: 0 <= k < |Trace(rows, 0)| ==> 0 <= Trace(rows, 0)[k] < Height
  {
    KeepAndCount(rows);
    TraceLength(rows, 0);
    TraceBounds(rows, 0);
    var s := Swept(rows);
    var z := ZeroRows(FullCount(rows));
    var k := Keep(rows);
    assert |s| == Height;
    forall r | 0 <= r < Height
      ensures |s[r]| == Width && !Full(s[r])
      ensures forall c :: 0 <= c < Width ==> 0 <= s[r][c] <= 7
    {
      if r < |z| {
        assert s[r] == ZeroRow(Width);
        assert s[r][0] == 0;
      } else {
        assert s[r] == k[r - |z|];
        var j :| 0 <= j < |rows| && rows[j] == s[r];
      }
    }
  }

  /** A sweep of an arena without full rows changes nothing and records nothing. */
  lemma {:induction false} SweepWithoutFullRows(rows: Matrix)
    requires NoFullRow(rows)
    ensures Keep(rows) == rows && FullCount(rows) == 0 && Trace(rows, 0) == []
  {
    KeepAndCount(rows);
    if rows != [] {
      SweepWithoutFullRows(rows[1..]);
      TraceLength(rows, 0);
    }
  }

  /** Empty rows are never full. */
  lemma ZeroRowsNotFull(k: nat)
    ensures NoFullRow(ZeroRows(k))
  {
    forall r | 0 <= r < k ensures !Full(ZeroRows(k)[r]) {
      assert ZeroRows(k)[r][0] == 0;
    }
  }

  /**
   * Two full rows under rows that are not full: the scan records both at
   * the index of the lower one, because removing the lower row shifts the
   * upper one down into its place; the other rows move down by two.
   */
  lemma TwoFullRowsAtBottom(upper: Matrix, full: seq<int>)
    requires NoFullRow(upper) && Full(full)
    ensures var rows := upper + [full, full];
      Trace(rows, 0) == [|upper| + 1, |upper| + 1] && FullCount(rows) == 2 &&
      Swept(rows) == ZeroRows(2) + upper
  {
    SweepWithoutFullRows(upper);
    TraceLength(upper, 2);
    TwoFullRowsTrace(upper, full);
    TwoFullRowsSwept(upper, full);
  }

  /** The recorded indices of two full rows under rows the scan records nothing for. */
  lemma TwoFullRowsTrace(upper: Matrix, full: seq<int>)
    requires Trace(upper, 2) == [] && Full(full)
    ensures Trace(upper + [full, full], 0) == [|upper| + 1, |upper| + 1]
  {
    var n := |upper|;
    var rows := upper + [full, full];
    var mid := upper + [full];
    assert rows[..n + 1] == mid;
    assert mid[..n] == upper;
    assert Trace(mid, 1) == [n + 1];
  }

  /** The count and the swept arena of two full rows under rows that stay. */
  lemma TwoFullRowsSwept(upper: Matrix, full: seq<int>)
    requires Keep(upper) == upper && FullCount(upper) == 0 && Full(full)
    ensures FullCount(upper + [full, full]) == 2 && Swept(upper + [full, full]) == ZeroRows(2) + upper
  {
    var rows := upper + [full, full];
    var mid := upper + [full];
    assert rows == mid + [full];
    FullCountSnoc(upper, full);
    FullCountSnoc(mid, full);
    KeepSnocFull(upper, full);
    KeepSnocFull(mid, full);
  }

  /**
   * With rows 18 and 19 full and the rest empty, `clearedRows` is [19, 19]
   * and the arena ends up empty.
   */
  lemma BottomTwoRowsExample(full: seq<int>)
    requires full == seq(Width, _ => 1)
    ensures var rows := ZeroRows(18) + [full, full];
      Trace(rows, 0) == [19, 19] && FullCount(rows) == 2 && Swept(rows) == ZeroRows(20)
  {
    assert Full(full);
    ZeroRowsNotFull(18);
    TwoFullRowsAtBottom(ZeroRows(18), full);
    ZeroRowsAppend(2, 18);
  }

  lemma {:induction false} KeepSnocFull(rows: Matrix, row: seq<int>)
    requires Full(row)
    ensures Keep(rows + [row]) == Keep(rows)
  {
    if rows != [] {
      assert (rows + [row])[1..] == rows[1..] + [row];
      KeepSnocFull(rows[1..], row);
    } else {
      assert [row][1..] == [];
    }
  }

  /**
   * At most n rows are full when only rows lo..hi-1 may be: the rows a merged
   * piece of side n spans.
   */
  lemma {:induction false} FullCountWindow(rows: Matrix, lo: int, hi: int)
    requires 0 <= lo
    requires forall r :: 0 <= r < |rows| && !(lo <= r < hi) ==> !Full(rows[r])
    ensures FullCount(rows) <= if hi - lo > 0 then hi - lo else 0
  {
    if rows != [] {
      var lo' := if lo > 0 then lo - 1 else 0;
      forall r | 0 <= r < |rows[1..]| && !(lo' <= r < hi - 1)
        ensures !Full(rows[1..][r])
      {
        assert rows[1..][r] == rows[r + 1];
      }
      FullCountWindow(rows[1..], lo', hi - 1);
    }
  }

  /** One step of the scan from the bottom, seen from row u - 1. */
  lemma ScanStep(rows: Matrix, u: int, shift: int)
    requires 0 < u <= |rows|
    ensures Keep(rows[u - 1..]) == (if Full(rows[u - 1]) then [] else [rows[u - 1]]) + Keep(rows[u..])
    ensures FullCount(rows[u - 1..]) == (if Full(rows[u - 1]) then 1 else 0) + FullCount(rows[u..])
    ensures Trace(rows[..u], shift) ==
      if Full(rows[u - 1]) then [u - 1 + shift] + Trace(rows[..u - 1], shift + 1)
      else Trace(rows[..u - 1], shift)
  {
    assert rows[u - 1..][1..] == rows[u..];
    assert rows[..u][..u - 1] == rows[..u - 1];
  }

  /**
   * The arena part-way through the scan: `rc` empty rows on top, the rows
   * above the scan point untouched, the rows below it with full rows removed.
   */
  function Layout(arena: Matrix, u: int, rc: nat): Matrix
    requires 0 <= u <= |arena|
  {
    ZeroRows(rc) + arena[..u] + Keep(arena[u..])
  }

  /** Where row `y` of the layout comes from, and how wide every row is. */
  lemma LayoutRows(arena: Matrix, u: int, rc: nat)
    requires IsArena(arena) && 0 <= u <= |arena| && rc == FullCount(arena[u..])
    ensures |Layout(arena, u, rc)| == |arena|
    ensures forall r :: 0 <= r < |arena| ==> |Layout(arena, u, rc)[r]| == Width
    ensures forall r :: 0 <= r < rc ==> Layout(arena, u, rc)[r] == ZeroRow(Width)
    ensures forall r :: rc <= r < rc + u ==> Layout(arena, u, rc)[r] == arena[r - rc]
  {
    var l := Layout(arena, u, rc);
    KeepAndCount(arena[u..]);
    forall r | 0 <= r < |arena| ensures |l[r]| == Width {
      if r >= rc + u {
        var k := Keep(arena[u..]);
        assert l[r] == k[r - rc - u];
        var j :| 0 <= j < |arena[u..]| && arena[u..][j] == l[r];
        assert arena[u..][j] == arena[u + j];
      }
    }
  }

  /** Removing the last element of the middle part of a three-part sequence. */
  lemma SpliceMiddleLast<T>(a: seq<T>, b: seq<T>, c: seq<T>)
    requires |b| > 0
    ensures var l := a + b + c;
      l[..|a| + |b| - 1] + l[|a| + |b|..] == a + b[..|b| - 1] + c
  {
    var l := a + b + c;
    assert l[..|a| + |b| - 1] == a + b[..|b| - 1];
    assert l[|a| + |b|..] == c;
  }

  /** Splicing out the full row u - 1 and unshifting an empty row. */
  lemma LayoutSplice(arena: Matrix, u: int, rc: nat)
    requires 0 < u <= |arena| && Full(arena[u - 1])
    ensures var l := Layout(arena, u, rc);
      [ZeroRow(Width)] + (l[..rc + u - 1] + l[rc + u..]) == Layout(arena, u - 1, rc + 1)
  {
    var z, a, k := ZeroRows(rc), arena[..u], Keep(arena[u..]);
    var b := arena[..u - 1];
    var l := Layout(arena, u, rc);
    assert l == z + a + k;
    SpliceMiddleLast(z, a, k);
    assert a[..u - 1] == b && |z| == rc && |a| == u;
    assert l[..rc + u - 1] + l[rc + u..] == z + b + k;
    assert arena[u - 1..][1..] == arena[u..];
    assert k == Keep(arena[u - 1..]);
    ZeroRowsAppend(1, rc);
    assert [ZeroRow(Width)] == ZeroRows(1);
    calc {
      [ZeroRow(Width)] + (z + b + k);
      ([ZeroRow(Width)] + z) + b + k;
      ZeroRows(rc + 1) + b + k;
      Layout(arena, u - 1, rc + 1);
    }
  }

  /** Passing over the row u - 1 that is not full. */
  lemma LayoutSkip(arena: Matrix, u: int, rc: nat)
    requires 0 < u <= |arena| && !Full(arena[u - 1])
    ensures Layout(arena, u, rc) == Layout(arena, u - 1, rc)
  {
    ScanStep(arena, u, 0);
    assert arena[..u] == arena[..u - 1] + [arena[u - 1]];
  }

  /** The state of the scan at row `y`, `u` rows of the original arena still unscanned. */
  ghost predicate Scanning(arena: Matrix, y: int, u: int, rc: nat, swept: Matrix, cleared: seq<int>) {
    IsArena(arena) && -1 <= y < |arena| && 0 <= u <= |arena| &&
    (u > 0 ==> y + 1 == u + rc) && (u == 0 ==> y + 1 <= rc) &&
    rc == FullCount(arena[u..]) && swept == Layout(arena, u, rc) && |swept| == |arena| &&
    cleared + Trace(arena[..u], rc) == Trace(arena, 0)
  }

  /** Once every original row is scanned, only the empty rows on top remain, and none is full. */
  lemma ScanOnlyOriginalFull(arena: Matrix, y: int, u: int, rc: nat, swept: Matrix, cleared: seq<int>)
    requires Scanning(arena, y, u, rc, swept, cleared) && y >= 0
    ensures Full(swept[y]) ==> u > 0
  {
    LayoutRows(arena, u, rc);
    if u == 0 {
      assert swept[y][0] == 0;
    }
  }

  /** The recorded indices after the full original row u - 1 is found at row u - 1 + rc. */
  lemma ScanFullTrace(arena: Matrix, u: int, rc: nat, cleared: seq<int>)
    requires 0 < u <= |arena| && Full(arena[u - 1])
    requires cleared + Trace(arena[..u], rc) == Trace(arena, 0)
    ensures (cleared + [u - 1 + rc]) + Trace(arena[..u - 1], rc + 1) == Trace(arena, 0)
  {
    ScanStep(arena, u, rc);
    var t := Trace(arena[..u - 1], rc + 1);
    assert (cleared + [u - 1 + rc]) + t == cleared + ([u - 1 + rc] + t);
  }

  /** A full row at y: it is the original row u - 1, and removing it keeps the scan state. */
  lemma ScanFull(arena: Matrix, y: int, u: int, rc: nat, swept: Matrix, cleared: seq<int>)
    requires Scanning(arena, y, u, rc, swept, cleared) && y >= 0 && Full(swept[y])
    ensures var rest := swept[..y] + swept[y + 1..];
      |rest| > 0 && |rest[0]| == Width &&
      Scanning(arena, y, u - 1, rc + 1, [ZeroRow(|rest[0]|)] + rest, cleared + [y])
  {
    assert u > 0 && y == rc + u - 1 && Full(arena[u - 1]) && |swept[0]| == Width && |swept[1]| == Width by {
      ScanOnlyOriginalFull(arena, y, u, rc, swept, cleared);
      LayoutRows(arena, u, rc);
      assert swept[y] == arena[u - 1];
    }
    assert (cleared + [y]) + Trace(arena[..u - 1], rc + 1) == Trace(arena, 0) by {
      ScanFullTrace(arena, u, rc, cleared);
    }
    assert rc + 1 == FullCount(arena[u - 1..]) by {
      ScanStep(arena, u, rc);
    }
    var rest := swept[..y] + swept[y + 1..];
    assert [ZeroRow(Width)] + rest == Layout(arena, u - 1, rc + 1) by {
      LayoutSplice(arena, u, rc);
    }
    assert rest[0] == swept[if y > 0 then 0 else 1];
  }


  /** A row at y that is not full: moving up keeps the scan state. */
  lemma ScanPass(arena: Matrix, y: int, u: int, rc: nat, swept: Matrix, cleared: seq<int>)
    requires Scanning(arena, y, u, rc, swept, cleared) && y >= 0 && !Full(swept[y])
    ensures Scanning(arena, y - 1, if u > 0 then u - 1 else 0, rc, swept, cleared)
  {
    LayoutRows(arena, u, rc);
    if u > 0 {
      ScanStep(arena, u, rc);
      LayoutSkip(arena, u, rc);
    }
  }

  /** The scan starts at the bottom row with nothing removed. */
  lemma ScanStart(arena: Matrix)
    requires IsArena(arena)
    ensures Scanning(arena, |arena| - 1, |arena|, 0, arena, [])
  {
    assert arena[..|arena|] == arena && arena[|arena|..] == [];
    LayoutRows(arena, |arena|, 0);
  }

  /** When the scan passes the top, the arena is swept and every full row recorded. */
  lemma ScanDone(arena: Matrix, u: int, rc: nat, swept: Matrix, cleared: seq<int>)
    requires Scanning(arena, -1, u, rc, swept, cleared)
    ensures swept == Swept(arena) && rc == FullCount(arena) && cleared == Trace(arena, 0)
  {
    assert u == 0;
    assert arena[..u] == [] && arena[u..] == arena;
  }

  /**
   * The row loop of `arenaSweep`: scan from the bottom; on a full row, record
   * its index, splice it out, unshift an empty row and examine the same index
   * again (the `y++`); otherwise move up one row.
   */
  method SweepRows(arena: Matrix) returns (swept: Matrix, rowCount: nat, cleared: seq<int>)
    requires IsArena(arena)
    ensures swept == Swept(arena) && rowCount == FullCount(arena) && cleared == Trace(arena, 0)
  {
    swept := arena;
    rowCount := 0;
    cleared := [];
    var y := |arena| - 1;
    ghost var u := |arena|;
    ScanStart(arena);
    while y >= 0
      invariant Scanning(arena, y, u, rowCount, swept, cleared)
      decreases y + 1 + u
    {
      ScanOnlyOriginalFull(arena, y, u, rowCount, swept, cleared);
      if Full(swept[y]) {
        ScanFull(arena, y, u, rowCount, swept, cleared);
        cleared := cleared + [y];
        var rest := swept[..y] + swept[y + 1..];
        swept := [ZeroRow(|rest[0]|)] + rest;
        rowCount := rowCount + 1;
        u := u - 1;
      } else {
        ScanPass(arena, y, u, rowCount, swept, cleared);
        if u > 0 {
          u := u - 1;
        }
        y := y - 1;
      }
    }
    ScanDone(arena, u, rowCount, swept, cleared);
  }
}
