/**
 * The root of the search, moviment: every column with space is tried in
 * ascending order, the piece of the agent's colour dropped on a copy, and the
 * min side asked for its value with depth - 1 and the full window
 * (MINUS_INFINITE, INFINITE). A column replaces the best so far only when its
 * value is strictly greater, starting from column -1 with value MINUS_INFINITE.
 */
module Root {
  import opened Board
  import opened Search
  import opened Minimax
  import opened Pruning

  /** The best column so far and its value. */
  datatype Choice = Choice(column: int, value: int)

  /** The search of one root column. */
  function RootEval(win: WinTest, g: Grid, depth: int, colour: int, pruning: bool, c: int): Eval
    requires Square(g) && IsColour(colour) && 0 <= c < |g| && CanMove(g, c)
  {
    MaxColumn(win, g, depth, colour, c, MINUS_INFINITE, INFINITE, pruning)
  }

  function RootValue(win: WinTest, g: Grid, depth: int, colour: int, pruning: bool, c: int): int
    requires Square(g) && IsColour(colour) && 0 <= c < |g| && CanMove(g, c)
  {
    RootEval(win, g, depth, colour, pruning, c).value
  }

  /** moviment's choice after the columns 0..m-1: the first column of strictly greatest value. */
  function RootBest(win: WinTest, g: Grid, depth: int, colour: int, pruning: bool, m: nat): (r: Choice)
    requires Square(g) && IsColour(colour) && m <= |g|
    ensures r.column == -1 || (0 <= r.column < m && CanMove(g, r.column))
  {
    if m == 0 then Choice(-1, MINUS_INFINITE)
    else
      var prev := RootBest(win, g, depth, colour, pruning, m - 1);
      if CanMove(g, m - 1) && RootValue(win, g, depth, colour, pruning, m - 1) > prev.value
      then Choice(m - 1, RootValue(win, g, depth, colour, pruning, m - 1))
      else prev
  }

  /**
   * The choice is -1 or a column with space carrying its own value; that value
   * is the largest of the columns seen and no earlier column reaches it; and the
   * choice is -1 exactly when no column seen scores above MINUS_INFINITE (in
   * particular when none has space), in which case its value is MINUS_INFINITE.
   */
  lemma {:induction false} RootBestSpec(win: WinTest, g: Grid, depth: int, colour: int, pruning: bool, m: nat)
    requires Square(g) && IsColour(colour) && m <= |g|
    ensures var r := RootBest(win, g, depth, colour, pruning, m);
      (r.column == -1 ==> r.value == MINUS_INFINITE) &&
      (r.column != -1 ==> r.value == RootValue(win, g, depth, colour, pruning, r.column)) &&
      (forall c :: 0 <= c < m && CanMove(g, c) ==> RootValue(win, g, depth, colour, pruning, c) <= r.value) &&
      (r.column != -1 ==>
        forall c :: 0 <= c < r.column && CanMove(g, c) ==> RootValue(win, g, depth, colour, pruning, c) < r.value) &&
      (r.column == -1 <==>
        forall c :: 0 <= c < m && CanMove(g, c) ==> RootValue(win, g, depth, colour, pruning, c) <= MINUS_INFINITE)
  {
    if m > 0 {
      RootBestSpec(win, g, depth, colour, pruning, m - 1);
      var prev := RootBest(win, g, depth, colour, pruning, m - 1);
      if CanMove(g, m - 1) {
        var v := RootValue(win, g, depth, colour, pruning, m - 1);
        if v > prev.value {
          assert RootBest(win, g, depth, colour, pruning, m) == Choice(m - 1, v);
        } else {
          assert RootBest(win, g, depth, colour, pruning, m) == prev;
        }
      } else {
        assert RootBest(win, g, depth, colour, pruning, m) == prev;
      }
    }
  }

  /** The min-side calls made for the columns 0..m-1: boardsExplored after them. */
  function RootCalls(win: WinTest, g: Grid, depth: int, colour: int, pruning: bool, m: nat): nat
    requires Square(g) && IsColour(colour) && m <= |g|
  {
    if m == 0 then 0
    else RootCalls(win, g, depth, colour, pruning, m - 1)
         + (if CanMove(g, m - 1) then RootEval(win, g, depth, colour, pruning, m - 1).minCalls else 0)
  }

  /** Without pruning a root column's value is its minimax value, and that lies within the int range. */
  lemma RootValueIsMinimax(win: WinTest, g: Grid, depth: int, colour: int, c: int)
    requires Square(g) && IsColour(colour) && 0 <= c < |g| && CanMove(g, c) && HeuristicFits(|g|)
    ensures RootValue(win, g, depth, colour, true, c) == RootValue(win, g, depth, colour, false, c)
            == MinValue(win, Drop(g, c, colour), depth - 1, c, colour)
    ensures MINUS_INFINITE <= RootValue(win, g, depth, colour, false, c) <= INFINITE
  {
    FullWindowPruningInvisible(win, Drop(g, c, colour), depth - 1, c, colour);
    MinValueInRange(win, Drop(g, c, colour), depth - 1, c, colour);
  }

  /** moviment picks the same column, with the same value, with and without pruning. */
  lemma {:induction false} PruningKeepsChoice(win: WinTest, g: Grid, depth: int, colour: int, m: nat)
    requires Square(g) && IsColour(colour) && m <= |g| && HeuristicFits(|g|)
    ensures RootBest(win, g, depth, colour, true, m) == RootBest(win, g, depth, colour, false, m)
  {
    if m > 0 {
      PruningKeepsChoice(win, g, depth, colour, m - 1);
      if CanMove(g, m - 1) {
        RootValueIsMinimax(win, g, depth, colour, m - 1);
        assert RootValue(win, g, depth, colour, true, m - 1) == RootValue(win, g, depth, colour, false, m - 1);
      }
    }
  }

  /** With pruning moviment explores no more boards than without. */
  lemma {:induction false} PruningExploresNoMore(win: WinTest, g: Grid, depth: int, colour: int, m: nat)
    requires Square(g) && IsColour(colour) && m <= |g|
    ensures RootCalls(win, g, depth, colour, true, m) <= RootCalls(win, g, depth, colour, false, m)
  {
    if m > 0 {
      PruningExploresNoMore(win, g, depth, colour, m - 1);
      if CanMove(g, m - 1) {
        MinSearchCallsNoMore(win, Drop(g, m - 1, colour), depth - 1, m - 1, colour,
                             MINUS_INFINITE, INFINITE, MINUS_INFINITE, INFINITE);
      }
    }
  }

  /**
   * Once the scores fit in an int, moviment returns -1 exactly when no column
   * has space or every column with space has the value MINUS_INFINITE.
   */
  lemma NoColumnChosen(win: WinTest, g: Grid, depth: int, colour: int, pruning: bool)
    requires Square(g) && IsColour(colour) && HeuristicFits(|g|)
    ensures RootBest(win, g, depth, colour, pruning, |g|).column == -1 <==>
      forall c :: 0 <= c < |g| && CanMove(g, c) ==> RootValue(win, g, depth, colour, pruning, c) == MINUS_INFINITE
  {
    RootBestSpec(win, g, depth, colour, pruning, |g|);
    forall c | 0 <= c < |g| && CanMove(g, c)
      ensures RootValue(win, g, depth, colour, pruning, c) >= MINUS_INFINITE
    {
      RootValueIsMinimax(win, g, depth, colour, c);
    }
  }

  /**
   * A column whose drop completes a line (for the win test, asked about the
   * dropped piece) makes the min side answer INFINITE at once, at any depth;
   * so moviment returns a column of value INFINITE: that one or an earlier one.
   */
  lemma ImmediateWinChosen(win: WinTest, g: Grid, depth: int, colour: int, pruning: bool, c: int)
    requires Square(g) && Stacked(g) && IsColour(colour) && HeuristicFits(|g|)
    requires 0 <= c < |g| && CanMove(g, c) && win(Drop(g, c, colour), c, colour)
    ensures RootValue(win, g, depth, colour, pruning, c) == INFINITE
    ensures var r := RootBest(win, g, depth, colour, pruning, |g|);
      0 <= r.column <= c && r.value == INFINITE
  {
    DropOnStacked(g, c, colour);
    TerminalBeforeDepth(win, Drop(g, c, colour), depth - 1, c, colour, MINUS_INFINITE, INFINITE, pruning);
    RootBestSpec(win, g, depth, colour, pruning, |g|);
    var r := RootBest(win, g, depth, colour, pruning, |g|);
    if r.column != -1 {
      RootValueIsMinimax(win, g, depth, colour, r.column);
    }
  }

  /**
   * A configured depth of 0 reaches the min side as -1, which never meets the
   * depth test: such a root column scores as a search to the end of the game,
   * here written as the depth Empties(g).
   */
  lemma ZeroDepthColumnIsFullDepth(win: WinTest, g: Grid, colour: int, pruning: bool, c: int)
    requires Square(g) && IsColour(colour) && 0 <= c < |g| && CanMove(g, c) && HeuristicFits(|g|)
    ensures RootValue(win, g, 0, colour, pruning, c) == RootValue(win, g, Empties(g), colour, pruning, c)
  {
    RootValueIsMinimax(win, g, 0, colour, c);
    RootValueIsMinimax(win, g, Empties(g), colour, c);
    MinValueExhaustive(win, Drop(g, c, colour), -1, Empties(g) - 1, c, colour);
  }

  /** So with depth 0 moviment picks the same column as a search to the end of the game. */
  lemma {:induction false} ZeroDepthIsFullDepth(win: WinTest, g: Grid, colour: int, pruning: bool, m: nat)
    requires Square(g) && IsColour(colour) && m <= |g| && HeuristicFits(|g|)
    ensures RootBest(win, g, 0, colour, pruning, m) == RootBest(win, g, Empties(g), colour, pruning, m)
  {
    if m > 0 {
      ZeroDepthIsFullDepth(win, g, colour, pruning, m - 1);
      if CanMove(g, m - 1) {
        ZeroDepthColumnIsFullDepth(win, g, colour, pruning, m - 1);
      }
    }
  }

  /** The min loop is at most the value of any column d from m on that has space. */
  lemma {:induction false} MinValueLoopAtMostColumn(win: WinTest, g: Grid, depth: int, colour: int,
                                                    m: int, best: int, d: int)
    requires Square(g) && IsColour(colour) && 0 <= m <= d < |g| && CanMove(g, d)
    ensures MinValueLoop(win, g, depth, colour, m, best) <= MaxValue(win, Drop(g, d, -colour), depth - 1, d, colour)
    decreases d - m
  {
    var v := MaxValue(win, Drop(g, d, -colour), depth - 1, d, colour);
    if m == d {
      MinValueLoopShift(win, g, depth, colour, d + 1, v, best);
    } else if !CanMove(g, m) {
      MinValueLoopAtMostColumn(win, g, depth, colour, m + 1, best, d);
    } else {
      MinValueLoopAtMostColumn(win, g, depth, colour, m + 1,
                               Min(best, MaxValue(win, Drop(g, m, -colour), depth - 1, m, colour)), d);
    }
  }

  /**
   * A drop that does not win, after which the opponent can complete a line in
   * some column d, leaves the min side the value MINUS_INFINITE, at any depth
   * other than 0.
   */
  lemma LosingColumnValue(win: WinTest, g: Grid, depth: int, c: int, colour: int, d: int)
    requires Square(g) && Stacked(g) && IsColour(colour) && HeuristicFits(|g|) && depth != 0
    requires 0 <= c < |g| && !win(g, c, colour) && TopPiece(g, c) == colour
    requires 0 <= d < |g| && CanMove(g, d) && win(Drop(g, d, -colour), d, -colour)
    ensures MinValue(win, g, depth, c, colour) == MINUS_INFINITE
  {
    DropOnStacked(g, d, -colour);
    assert MaxValue(win, Drop(g, d, -colour), depth - 1, d, colour) == MINUS_INFINITE;
    assert AnyMove(g);
    MinValueLoopAtMostColumn(win, g, depth, colour, 0, INFINITE, d);
    MinValueInRange(win, g, depth, c, colour);
  }

  /**
   * Immediate-loss avoidance. Take a column c whose drop does not win, but
   * after which the opponent can complete a line in some column d. Then c has
   * the value MINUS_INFINITE and moviment never chooses it. This needs a depth
   * whose depth - 1 is not 0: any depth other than 1, a configured depth of 0
   * included.
   */
  lemma ImmediateLossAvoided(win: WinTest, g: Grid, depth: int, colour: int, pruning: bool, c: int, d: int)
    requires Square(g) && Stacked(g) && IsColour(colour) && HeuristicFits(|g|) && depth != 1
    requires 0 <= c < |g| && CanMove(g, c) && !win(Drop(g, c, colour), c, colour)
    requires 0 <= d < |g| && CanMove(Drop(g, c, colour), d)
    requires win(Drop(Drop(g, c, colour), d, -colour), d, -colour)
    ensures RootValue(win, g, depth, colour, pruning, c) == MINUS_INFINITE
    ensures RootBest(win, g, depth, colour, pruning, |g|).column != c
  {
    DropOnStacked(g, c, colour);
    LosingColumnValue(win, Drop(g, c, colour), depth - 1, c, colour, d);
    RootValueIsMinimax(win, g, depth, colour, c);
    RootBestSpec(win, g, depth, colour, pruning, |g|);
  }
}
