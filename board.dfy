/**
 * The board the agent searches over. The real board class is not part of
 * this model; this module supplies a small concrete one: an N×N grid whose
 * cells hold 0 (empty), 1 or -1 (the two players), row 0 at the bottom, where
 * a dropped piece lands in the lowest empty row of its column.
 */
module Board {

  /** A board snapshot, indexed cells[row][column]. */
  type Grid = seq<seq<int>>

  /** The test "does the top piece of this column complete a line?"; the board supplies it. */
  type WinTest = (Grid, int, int) -> bool

  predicate Square(g: Grid) {
    forall r :: 0 <= r < |g| ==> |g[r]| == |g|
  }

  predicate IsColour(p: int) {
    p == 1 || p == -1
  }

  /** Pieces stack from row 0 upward: every cell above an empty cell is empty. */
  predicate Stacked(g: Grid)
    requires Square(g)
  {
    forall r1, r2, c :: 0 <= r1 < r2 < |g| && 0 <= c < |g| && g[r1][c] == 0 ==> g[r2][c] == 0
  }

  predicate ColumnEmpty(g: Grid, c: int)
    requires Square(g) && 0 <= c < |g|
  {
    forall r :: 0 <= r < |g| ==> g[r][c] == 0
  }

  /** The lowest empty row of column c at or above row k, or -1 when there is none. */
  function LowestEmptyFrom(g: Grid, c: int, k: int): (r: int)
    requires Square(g) && 0 <= c < |g| && 0 <= k <= |g|
    ensures r == -1 || (k <= r < |g| && g[r][c] == 0)
    decreases |g| - k
  {
    if k == |g| then -1
    else if g[k][c] == 0 then k
    else LowestEmptyFrom(g, c, k + 1)
  }

  /** The rows it passes over are all occupied. */
  lemma {:induction false} LowestEmptyFromSpec(g: Grid, c: int, k: int)
    requires Square(g) && 0 <= c < |g| && 0 <= k <= |g|
    ensures var r := LowestEmptyFrom(g, c, k);
      (r == -1 ==> forall i :: k <= i < |g| ==> g[i][c] != 0) &&
      (r != -1 ==> forall i :: k <= i < r ==> g[i][c] != 0)
    decreases |g| - k
  {
    if k < |g| && g[k][c] != 0 {
      LowestEmptyFromSpec(g, c, k + 1);
    }
  }

  function LowestEmptyRow(g: Grid, c: int): int
    requires Square(g) && 0 <= c < |g|
  {
    LowestEmptyFrom(g, c, 0)
  }

  /** The board's movpossible: column c still has an empty cell. */
  predicate CanMove(g: Grid, c: int)
    requires Square(g) && 0 <= c < |g|
  {
    LowestEmptyRow(g, c) != -1
  }

  /** movpossible holds exactly when the column has an empty cell. */
  lemma CanMoveSpec(g: Grid, c: int)
    requires Square(g) && 0 <= c < |g|
    ensures CanMove(g, c) <==> exists r :: 0 <= r < |g| && g[r][c] == 0
  {
    LowestEmptyFromSpec(g, c, 0);
    if !CanMove(g, c) {
      assert forall i :: 0 <= i < |g| ==> g[i][c] != 0;
    }
  }

  /** The board's espotmoure: some column still has an empty cell. */
  predicate AnyMove(g: Grid)
    requires Square(g)
  {
    exists c :: 0 <= c < |g| && CanMove(g, c)
  }

  /** Number of empty cells in one row. */
  function ZerosIn(s: seq<int>): nat {
    if s == [] then 0 else (if s[0] == 0 then 1 else 0) + ZerosIn(s[1..])
  }

  /** Number of empty cells on the board: the measure that every simulated move decreases. */
  function Empties(g: Grid): nat {
    if g == [] then 0 else ZerosIn(g[0]) + Empties(g[1..])
  }

  lemma {:induction false} ZerosInUpdate(s: seq<int>, j: int, p: int)
    requires 0 <= j < |s|
    ensures ZerosIn(s[j := p]) == ZerosIn(s) - (if s[j] == 0 then 1 else 0) + (if p == 0 then 1 else 0)
  {
    if j == 0 {
      assert s[j := p][1..] == s[1..];
    } else {
      assert s[j := p][1..] == s[1..][j - 1 := p];
      ZerosInUpdate(s[1..], j - 1, p);
    }
  }

  lemma {:induction false} EmptiesUpdate(g: Grid, r: int, s: seq<int>)
    requires 0 <= r < |g|
    ensures Empties(g[r := s]) == Empties(g) - ZerosIn(g[r]) + ZerosIn(s)
  {
    if r == 0 {
      assert g[r := s][1..] == g[1..];
    } else {
      assert g[r := s][1..] == g[1..][r - 1 := s];
      EmptiesUpdate(g[1..], r - 1, s);
    }
  }

  /**
   * A copy of the board with piece p dropped into column c (the board's
   * afegeix on a fresh copy): the piece fills the lowest empty cell of the
   * column, nothing else changes, and a real piece leaves one empty cell fewer.
   */
  function Drop(g: Grid, c: int, p: int): (g': Grid)
    requires Square(g) && 0 <= c < |g| && CanMove(g, c)
    ensures Square(g') && |g'| == |g|
    ensures p != 0 ==> Empties(g') == Empties(g) - 1
  {
    var r := LowestEmptyRow(g, c);
    ZerosInUpdate(g[r], c, p);
    EmptiesUpdate(g, r, g[r][c := p]);
    g[r := g[r][c := p]]
  }

  /** The dropped piece fills the lowest empty cell of its column and nothing else changes. */
  lemma DropSpec(g: Grid, c: int, p: int)
    requires Square(g) && 0 <= c < |g| && CanMove(g, c)
    ensures var r := LowestEmptyRow(g, c); var g' := Drop(g, c, p);
      0 <= r < |g| && g[r][c] == 0 && g'[r][c] == p &&
      (forall i :: 0 <= i < r ==> g[i][c] != 0) &&
      (forall i, j :: 0 <= i < |g| && 0 <= j < |g| && (i != r || j != c) ==> g'[i][j] == g[i][j])
  {
    LowestEmptyFromSpec(g, c, 0);
  }

  /** The highest occupied row of column c below row k, or -1 when those rows are empty. */
  function TopRowBelow(g: Grid, c: int, k: int): (i: int)
    requires Square(g) && 0 <= c < |g| && 0 <= k <= |g|
    ensures i == -1 || (0 <= i < k && g[i][c] != 0)
    decreases k
  {
    if k == 0 then -1
    else if g[k - 1][c] != 0 then k - 1
    else TopRowBelow(g, c, k - 1)
  }

  /** The rows it passes over are all empty. */
  lemma {:induction false} TopRowBelowSpec(g: Grid, c: int, k: int)
    requires Square(g) && 0 <= c < |g| && 0 <= k <= |g|
    ensures var i := TopRowBelow(g, c, k);
      (i == -1 ==> forall j :: 0 <= j < k ==> g[j][c] == 0) &&
      (i != -1 ==> forall j :: i < j < k ==> g[j][c] == 0)
    decreases k
  {
    if k > 0 && g[k - 1][c] == 0 {
      TopRowBelowSpec(g, c, k - 1);
    }
  }

  /**
   * The colour of the topmost piece of column c: 0 exactly when the column is
   * empty, else the colour in the highest occupied row.
   */
  function TopPiece(g: Grid, c: int): int
    requires Square(g) && 0 <= c < |g|
  {
    var i := TopRowBelow(g, c, |g|);
    if i == -1 then 0 else g[i][c]
  }

  /**
   * getTopPiece is 0 exactly when the column is empty, and otherwise the colour
   * in the highest occupied row of the column.
   */
  lemma TopPieceSpec(g: Grid, c: int)
    requires Square(g) && 0 <= c < |g|
    ensures TopPiece(g, c) == 0 <==> ColumnEmpty(g, c)
    ensures TopPiece(g, c) != 0 ==>
      exists i :: 0 <= i < |g| && g[i][c] == TopPiece(g, c) && forall j :: i < j < |g| ==> g[j][c] == 0
  {
    TopRowBelowSpec(g, c, |g|);
  }

  /**
   * On a stacked board a drop keeps the board stacked, and the piece just
   * dropped is the top piece of its column: the piece the win test is asked about.
   */
  lemma DropOnStacked(g: Grid, c: int, p: int)
    requires Square(g) && 0 <= c < |g| && CanMove(g, c) && Stacked(g)
    ensures Stacked(Drop(g, c, p))
    ensures p != 0 ==> TopPiece(Drop(g, c, p), c) == p
  {
    var g' := Drop(g, c, p);
    var r := LowestEmptyRow(g, c);
    DropSpec(g, c, p);
    assert forall j :: r < j < |g| ==> g'[j][c] == 0 by {
      forall j | r < j < |g| ensures g'[j][c] == 0 {
        assert g[r][c] == 0;
      }
    }
    if p != 0 {
      TopRowBelowSpec(g', c, |g'|);
      var i := TopRowBelow(g', c, |g'|);
      assert i == r;
    }
  }

  /** The real board object: its cells change in place when a piece is added. */
  class Tauler {
    const size: nat
    var cells: Grid
    /** The board's solucio test; what counts as a completed line is not part of this model. */
    const solucio: WinTest

    ghost predicate Valid()
      reads this
    {
      |cells| == size && Square(cells)
    }

    /** new Tauler(t): an independent copy of t. */
    constructor Copy(t: Tauler)
      requires t.Valid()
      ensures Valid() && size == t.size && cells == t.cells && solucio == t.solucio
    {
      size := t.size;
      cells := t.cells;
      solucio := t.solucio;
    }

    function GetMida(): nat {
      size
    }

    function GetColor(row: int, column: int): int
      reads this
      requires Valid() && 0 <= row < size && 0 <= column < size
    {
      cells[row][column]
    }

    predicate Movpossible(column: int)
      reads this
      requires Valid() && 0 <= column < size
    {
      CanMove(cells, column)
    }

    predicate Espotmoure()
      reads this
      requires Valid()
    {
      AnyMove(cells)
    }

    predicate Solucio(column: int, colour: int)
      reads this
    {
      solucio(cells, column, colour)
    }

    /** afegeix: drop a piece of the given colour into a column that has space. */
    method Afegeix(column: int, colour: int)
      requires Valid() && 0 <= column < size && CanMove(cells, column)
      modifies this`cells
      ensures Valid()
      ensures cells == Drop(old(cells), column, colour)
      ensures Stacked(old(cells)) ==> Stacked(cells) && (colour != 0 ==> TopPiece(cells, column) == colour)
    {
      if Stacked(cells) {
        DropOnStacked(cells, column, colour);
      }
      cells := Drop(cells, column, colour);
    }
  }
}
