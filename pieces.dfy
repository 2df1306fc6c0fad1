/** The piece catalogue of tetris.js `createPiece` and the random draw that feeds it. */
module Pieces {
  import opened Matrices

  /** The string the random draw indexes: `pieces[Math.random() * 7 | 0]`. */
  const DrawOrder: string := "TJLOSZI"

  /** Colour index c (1..7) belongs to the c-th letter of this string. */
  const ColourOrder: string := "TOLJISZ"

  /** The integer the random draw produces; the model takes it as a parameter. */
  type PieceKind = k: int | 0 <= k < 7

  function IndexOf(s: string, c: char): (k: nat)
    requires c in s
    ensures k < |s| && s[k] == c && c !in s[..k]
  {
    if s[0] == c then 0 else 1 + IndexOf(s[1..], c)
  }

  /** The colour index of a piece letter. */
  function Colour(c: char): (v: int)
    requires c in ColourOrder
    ensures 1 <= v <= 7 && ColourOrder[v - 1] == c
  {
    IndexOf(ColourOrder, c) + 1
  }

  /** A square of side 2..4 whose cells are colour indices 0..7. */
  predicate IsShape(m: Matrix) {
    Square(m) && 2 <= |m| <= 4 &&
    forall i, j :: 0 <= i < |m| && 0 <= j < |m| ==> 0 <= m[i][j] <= 7
  }

  /** tetris.js `createPiece`: a fresh matrix for each of the seven letters, `[[0]]` otherwise. */
  function CreatePiece(c: char): (m: Matrix)
    ensures Square(m)
    ensures c in ColourOrder ==> IsShape(m)
    ensures c !in ColourOrder ==> m == [[0]]
  {
    if c == 'T' then [[0, 1, 0], [1, 1, 1], [0, 0, 0]]
    else if c == 'O' then [[2, 2], [2, 2]]
    else if c == 'L' then [[0, 0, 3], [3, 3, 3], [0, 0, 0]]
    else if c == 'J' then [[4, 0, 0], [4, 4, 4], [0, 0, 0]]
    else if c == 'I' then [[0, 0, 0, 0], [5, 5, 5, 5], [0, 0, 0, 0], [0, 0, 0, 0]]
    else if c == 'S' then [[0, 6, 6], [6, 6, 0], [0, 0, 0]]
    else if c == 'Z' then [[7, 7, 0], [0, 7, 7], [0, 0, 0]]
    else [[0]]
  }

  /** The shape a draw of `kind` yields. */
  function DrawnShape(kind: PieceKind): (m: Matrix)
    ensures IsShape(m)
  {
    assert DrawOrder[kind] in ColourOrder;
    CreatePiece(DrawOrder[kind])
  }

  /** Every cell of `m` is empty or holds colour `v`. */
  predicate OneColour(m: Matrix, v: int) {
    forall i, j :: 0 <= i < |m| && 0 <= j < |m[i]| ==> m[i][j] == 0 || m[i][j] == v
  }

  /**
   * Each catalogue piece has one colour, its letter's colour index
   * (T,O,L,J,I,S,Z = 1..7), and at least one cell of it.
   */
  lemma CatalogueColours(c: char)
    requires c in ColourOrder
    ensures var m := CreatePiece(c);
      OneColour(m, Colour(c)) && m[1][1] == Colour(c)
  {
    ColourTable(c);
    var m := CreatePiece(c);
    var v := Colour(c);
    forall i, j | 0 <= i < |m| && 0 <= j < |m[i]| ensures m[i][j] == 0 || m[i][j] == v {
    }
  }

  /** The colour index of each letter, by its place in "TOLJISZ". */
  lemma ColourTable(c: char)
    requires c in ColourOrder
    ensures Colour(c) == if c == 'T' then 1 else if c == 'O' then 2 else if c == 'L' then 3
      else if c == 'J' then 4 else if c == 'I' then 5 else if c == 'S' then 6 else 7
  {
    assert ColourOrder == ['T', 'O', 'L', 'J', 'I', 'S', 'Z'];
  }

  /** A fresh two-dimensional array holding the drawn piece. */
  method NewPiece(kind: PieceKind) returns (a: array2<int>)
    ensures fresh(a) && Holds(a, DrawnShape(kind))
  {
    var m := DrawnShape(kind);
    var n := |m|;
    a := new int[n, n]((i, j) => if 0 <= i < n && 0 <= j < n then m[i][j] else 0);
  }
}
