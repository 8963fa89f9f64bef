/**
 * The static evaluator, calculateConsecutiveHeuristic, as a specification.
 * Every occupied cell starts a run of up to four cells along the diagonal
 * (row + i, column + i); cells past the board edge are skipped, so runs near
 * the edge are counted truncated. The run's sign is +1 when its start cell
 * holds the perspective colour and -1 otherwise; each cell of the run then adds
 * the sign for a piece of the perspective colour, ten times the sign for an
 * empty cell, and nothing for an opponent piece.
 */
module Evaluation {
  import opened Board

  function Sign(start: int, colour: int): int {
    if start == colour then 1 else -1
  }

  /** What one cell of a run adds. */
  function CellScore(piece: int, sign: int, colour: int): int {
    if piece == colour then sign else if piece == 0 then sign * 10 else 0
  }

  /** The first k steps of the run starting at row f, column c. */
  function RunPrefix(g: Grid, f: int, c: int, colour: int, k: nat): int
    requires Square(g) && 0 <= f < |g| && 0 <= c < |g|
    decreases k
  {
    if k == 0 then 0
    else RunPrefix(g, f, c, colour, k - 1)
         + (if f + k - 1 < |g| && c + k - 1 < |g|
            then CellScore(g[f + k - 1][c + k - 1], Sign(g[f][c], colour), colour)
            else 0)
  }

  /** What the run starting at row f, column c adds: nothing when that cell is empty. */
  function StartScore(g: Grid, f: int, c: int, colour: int): int
    requires Square(g) && 0 <= f < |g| && 0 <= c < |g|
  {
    if g[f][c] == 0 then 0 else RunPrefix(g, f, c, colour, 4)
  }

  /** The runs starting in rows 0..k-1 of column c. */
  function ColumnPrefix(g: Grid, c: int, colour: int, k: nat): int
    requires Square(g) && 0 <= c < |g| && k <= |g|
  {
    if k == 0 then 0 else ColumnPrefix(g, c, colour, k - 1) + StartScore(g, k - 1, c, colour)
  }

  /** The runs starting in columns 0..k-1. */
  function BoardPrefix(g: Grid, colour: int, k: nat): int
    requires Square(g) && k <= |g|
  {
    if k == 0 then 0 else BoardPrefix(g, colour, k - 1) + ColumnPrefix(g, k - 1, colour, |g|)
  }

  /** The score of board g from the point of view of colour. */
  function Heuristic(g: Grid, colour: int): int
    requires Square(g)
  {
    BoardPrefix(g, colour, |g|)
  }

  function OwnIn(x: int, colour: int): nat {
    if x != 0 && x == colour then 1 else 0
  }

  function OppIn(x: int, colour: int): nat {
    if x != 0 && x != colour then 1 else 0
  }

  function ColumnOwn(g: Grid, c: int, colour: int, k: nat): nat
    requires Square(g) && 0 <= c < |g| && k <= |g|
  {
    if k == 0 then 0 else ColumnOwn(g, c, colour, k - 1) + OwnIn(g[k - 1][c], colour)
  }

  function ColumnOpp(g: Grid, c: int, colour: int, k: nat): nat
    requires Square(g) && 0 <= c < |g| && k <= |g|
  {
    if k == 0 then 0 else ColumnOpp(g, c, colour, k - 1) + OppIn(g[k - 1][c], colour)
  }

  function BoardOwn(g: Grid, colour: int, k: nat): nat
    requires Square(g) && k <= |g|
  {
    if k == 0 then 0 else BoardOwn(g, colour, k - 1) + ColumnOwn(g, k - 1, colour, |g|)
  }

  function BoardOpp(g: Grid, colour: int, k: nat): nat
    requires Square(g) && k <= |g|
  {
    if k == 0 then 0 else BoardOpp(g, colour, k - 1) + ColumnOpp(g, k - 1, colour, |g|)
  }

  /** Number of pieces of the perspective colour on the board. */
  function Own(g: Grid, colour: int): nat
    requires Square(g)
  {
    BoardOwn(g, colour, |g|)
  }

  /** Number of pieces of any other colour on the board. */
  function Opp(g: Grid, colour: int): nat
    requires Square(g)
  {
    BoardOpp(g, colour, |g|)
  }

  /** Every cell of an own run adds 0, 1 or 10; of an opponent run 0, -1 or -10. */
  lemma {:induction false} RunPrefixBounds(g: Grid, f: int, c: int, colour: int, k: nat)
    requires Square(g) && 0 <= f < |g| && 0 <= c < |g|
    ensures Sign(g[f][c], colour) == 1 ==> 0 <= RunPrefix(g, f, c, colour, k) <= 10 * k
    ensures Sign(g[f][c], colour) == -1 ==> -10 * k <= RunPrefix(g, f, c, colour, k) <= 0
  {
    if k > 0 {
      RunPrefixBounds(g, f, c, colour, k - 1);
    }
  }

  /**
   * A run that starts on the perspective colour adds between 1 and 31; one
   * that starts on another piece adds between -30 and 0; an empty start cell adds 0.
   */
  lemma StartScoreBounds(g: Grid, f: int, c: int, colour: int)
    requires Square(g) && 0 <= f < |g| && 0 <= c < |g|
    ensures g[f][c] == 0 ==> StartScore(g, f, c, colour) == 0
    ensures OwnIn(g[f][c], colour) == 1 ==> 1 <= StartScore(g, f, c, colour) <= 31
    ensures OppIn(g[f][c], colour) == 1 ==> -30 <= StartScore(g, f, c, colour) <= 0
  {
    if g[f][c] != 0 {
      RunPrefixBounds(g, f, c, colour, 3);
      assert RunPrefix(g, f, c, colour, 1) == Sign(g[f][c], colour) * (if g[f][c] == colour then 1 else 0);
      assert RunPrefix(g, f, c, colour, 4) == RunPrefix(g, f, c, colour, 1)
        + (RunPrefix(g, f, c, colour, 4) - RunPrefix(g, f, c, colour, 1));
      RunTail(g, f, c, colour);
    }
  }

  /** Steps 2 to 4 of a run lie in the same range as three steps of any run. */
  lemma RunTail(g: Grid, f: int, c: int, colour: int)
    requires Square(g) && 0 <= f < |g| && 0 <= c < |g|
    ensures Sign(g[f][c], colour) == 1 ==> 0 <= RunPrefix(g, f, c, colour, 4) - RunPrefix(g, f, c, colour, 1) <= 30
    ensures Sign(g[f][c], colour) == -1 ==> -30 <= RunPrefix(g, f, c, colour, 4) - RunPrefix(g, f, c, colour, 1) <= 0
  {
  }

  lemma {:induction false} ColumnBounds(g: Grid, c: int, colour: int, k: nat)
    requires Square(g) && 0 <= c < |g| && k <= |g|
    ensures -30 * ColumnOpp(g, c, colour, k) <= ColumnPrefix(g, c, colour, k) <= 31 * ColumnOwn(g, c, colour, k)
    ensures ColumnOwn(g, c, colour, k) + ColumnOpp(g, c, colour, k) <= k
  {
    if k > 0 {
      ColumnBounds(g, c, colour, k - 1);
      StartScoreBounds(g, k - 1, c, colour);
    }
  }

  lemma {:induction false} BoardBounds(g: Grid, colour: int, k: nat)
    requires Square(g) && k <= |g|
    ensures -30 * BoardOpp(g, colour, k) <= BoardPrefix(g, colour, k) <= 31 * BoardOwn(g, colour, k)
    ensures BoardOwn(g, colour, k) + BoardOpp(g, colour, k) <= k * |g|
  {
    if k > 0 {
      BoardBounds(g, colour, k - 1);
      ColumnBounds(g, k - 1, colour, |g|);
      assert k * |g| == (k - 1) * |g| + |g|;
    }
  }

  /**
   * The score lies between -30 times the number of opponent pieces and 31
   * times the number of own pieces, and the board holds at most N·N pieces.
   */
  lemma HeuristicBounds(g: Grid, colour: int)
    requires Square(g)
    ensures -30 * Opp(g, colour) <= Heuristic(g, colour) <= 31 * Own(g, colour)
    ensures Own(g, colour) + Opp(g, colour) <= |g| * |g|
  {
    BoardBounds(g, colour, |g|);
  }

  /** So the score of an N×N board never exceeds 31·N·N in absolute value. */
  lemma HeuristicMagnitude(g: Grid, colour: int)
    requires Square(g)
    ensures -31 * (|g| * |g|) <= Heuristic(g, colour) <= 31 * (|g| * |g|)
  {
    HeuristicBounds(g, colour);
  }

  lemma {:induction false} EmptyColumnScoresZero(g: Grid, c: int, colour: int, k: nat)
    requires Square(g) && 0 <= c < |g| && k <= |g|
    requires forall r :: 0 <= r < |g| ==> g[r][c] == 0
    ensures ColumnPrefix(g, c, colour, k) == 0
  {
    if k > 0 {
      EmptyColumnScoresZero(g, c, colour, k - 1);
    }
  }

  lemma {:induction false} EmptyPrefixScoresZero(g: Grid, colour: int, k: nat)
    requires Square(g) && k <= |g|
    requires forall r, c :: 0 <= r < |g| && 0 <= c < |g| ==> g[r][c] == 0
    ensures BoardPrefix(g, colour, k) == 0
  {
    if k > 0 {
      EmptyPrefixScoresZero(g, colour, k - 1);
      EmptyColumnScoresZero(g, k - 1, colour, |g|);
    }
  }

  /** An empty board scores 0: empty cells never start a run. */
  lemma EmptyBoardScoresZero(g: Grid, colour: int)
    requires Square(g)
    requires forall r, c :: 0 <= r < |g| && 0 <= c < |g| ==> g[r][c] == 0
    ensures Heuristic(g, colour) == 0
  {
    EmptyPrefixScoresZero(g, colour, |g|);
  }

  /**
   * On the one-cell board holding a piece of colour 1, the run truncated at the
   * edge still counts: the score for colour 1 is 1. The score for colour -1 is
   * 0, not -1: the heuristic is not antisymmetric in the two colours, even on
   * a full board.
   */
  lemma OneCellBoard()
    ensures Heuristic([[1]], 1) == 1
    ensures Heuristic([[1]], -1) == 0
  {
    var g: Grid := [[1]];
    assert RunPrefix(g, 0, 0, 1, 4) == 1;
    assert RunPrefix(g, 0, 0, -1, 4) == 0;
    assert ColumnPrefix(g, 0, 1, 1) == 1;
    assert ColumnPrefix(g, 0, -1, 1) == 0;
  }
}
