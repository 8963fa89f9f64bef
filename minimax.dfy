/**
 * Plain minimax over the same game tree, with no alpha, beta or cutoff: the
 * reference the pruned search is compared with. The max side takes the
 * largest child value (starting from MINUS_INFINITE), the min side the
 * smallest (starting from INFINITE).
 */
module Minimax {
  import opened Board
  import opened Evaluation
  import opened Search

  function MaxValue(win: WinTest, g: Grid, depth: int, column: int, colour: int): int
    requires Square(g) && 0 <= column < |g| && IsColour(colour)
    decreases Empties(g), 1, 0
  {
    if win(g, column, TopPiece(g, column)) then MINUS_INFINITE
    else if depth == 0 || !AnyMove(g) then Heuristic(g, colour)
    else MaxValueLoop(win, g, depth, colour, 0, MINUS_INFINITE)
  }

  /** best combined with the values of the columns m.. with space. */
  function MaxValueLoop(win: WinTest, g: Grid, depth: int, colour: int, m: int, best: int): int
    requires Square(g) && 0 <= m <= |g| && IsColour(colour)
    decreases Empties(g), 0, |g| - m
  {
    if m == |g| then best
    else if !CanMove(g, m) then MaxValueLoop(win, g, depth, colour, m + 1, best)
    else MaxValueLoop(win, g, depth, colour, m + 1,
                      Max(best, MinValue(win, Drop(g, m, colour), depth - 1, m, colour)))
  }

  function MinValue(win: WinTest, g: Grid, depth: int, column: int, colour: int): int
    requires Square(g) && 0 <= column < |g| && IsColour(colour)
    decreases Empties(g), 1, 0
  {
    if win(g, column, TopPiece(g, column)) then INFINITE
    else if depth == 0 || !AnyMove(g) then Heuristic(g, colour)
    else MinValueLoop(win, g, depth, colour, 0, INFINITE)
  }

  function MinValueLoop(win: WinTest, g: Grid, depth: int, colour: int, m: int, best: int): int
    requires Square(g) && 0 <= m <= |g| && IsColour(colour)
    decreases Empties(g), 0, |g| - m
  {
    if m == |g| then best
    else if !CanMove(g, m) then MinValueLoop(win, g, depth, colour, m + 1, best)
    else MinValueLoop(win, g, depth, colour, m + 1,
                      Min(best, MaxValue(win, Drop(g, m, -colour), depth - 1, m, colour)))
  }

  /** The loop is a maximum: folding in a value a first is the same as taking a at the end. */
  lemma {:induction false} MaxValueLoopShift(win: WinTest, g: Grid, depth: int, colour: int, m: int, a: int, b: int)
    requires Square(g) && 0 <= m <= |g| && IsColour(colour)
    ensures MaxValueLoop(win, g, depth, colour, m, Max(b, a)) == Max(a, MaxValueLoop(win, g, depth, colour, m, b))
    decreases |g| - m
  {
    if m < |g| {
      if !CanMove(g, m) {
        MaxValueLoopShift(win, g, depth, colour, m + 1, a, b);
      } else {
        var v := MinValue(win, Drop(g, m, colour), depth - 1, m, colour);
        assert Max(Max(b, a), v) == Max(Max(b, v), a);
        MaxValueLoopShift(win, g, depth, colour, m + 1, a, Max(b, v));
      }
    }
  }

  /** Dually, the min loop is a minimum. */
  lemma {:induction false} MinValueLoopShift(win: WinTest, g: Grid, depth: int, colour: int, m: int, a: int, b: int)
    requires Square(g) && 0 <= m <= |g| && IsColour(colour)
    ensures MinValueLoop(win, g, depth, colour, m, Min(b, a)) == Min(a, MinValueLoop(win, g, depth, colour, m, b))
    decreases |g| - m
  {
    if m < |g| {
      if !CanMove(g, m) {
        MinValueLoopShift(win, g, depth, colour, m + 1, a, b);
      } else {
        var v := MaxValue(win, Drop(g, m, -colour), depth - 1, m, colour);
        assert Min(Min(b, a), v) == Min(Min(b, v), a);
        MinValueLoopShift(win, g, depth, colour, m + 1, a, Min(b, v));
      }
    }
  }

  /** Boards whose scores fit in a 32-bit int: 31·N·N <= Integer.MAX_VALUE (N <= 8323). */
  predicate HeuristicFits(n: nat) {
    31 * (n * n) <= INFINITE
  }

  lemma HeuristicInRange(g: Grid, colour: int)
    requires Square(g) && HeuristicFits(|g|)
    ensures MINUS_INFINITE < Heuristic(g, colour) < INFINITE
  {
    HeuristicMagnitude(g, colour);
    HeuristicBounds(g, colour);
  }

  /** Every minimax value lies within [MINUS_INFINITE, INFINITE]. */
  lemma {:induction false} MaxValueInRange(win: WinTest, g: Grid, depth: int, column: int, colour: int)
    requires Square(g) && 0 <= column < |g| && IsColour(colour) && HeuristicFits(|g|)
    ensures MINUS_INFINITE <= MaxValue(win, g, depth, column, colour) <= INFINITE
    decreases Empties(g), 1, 0
  {
    if win(g, column, TopPiece(g, column)) {
    } else if depth == 0 || !AnyMove(g) {
      HeuristicInRange(g, colour);
    } else {
      MaxValueLoopInRange(win, g, depth, colour, 0, MINUS_INFINITE);
    }
  }

  lemma {:induction false} MaxValueLoopInRange(win: WinTest, g: Grid, depth: int, colour: int, m: int, best: int)
    requires Square(g) && 0 <= m <= |g| && IsColour(colour) && HeuristicFits(|g|)
    requires MINUS_INFINITE <= best <= INFINITE
    ensures MINUS_INFINITE <= MaxValueLoop(win, g, depth, colour, m, best) <= INFINITE
    decreases Empties(g), 0, |g| - m
  {
    if m < |g| {
      if !CanMove(g, m) {
        MaxValueLoopInRange(win, g, depth, colour, m + 1, best);
      } else {
        MinValueInRange(win, Drop(g, m, colour), depth - 1, m, colour);
        MaxValueLoopInRange(win, g, depth, colour, m + 1,
                            Max(best, MinValue(win, Drop(g, m, colour), depth - 1, m, colour)));
      }
    }
  }

  lemma {:induction false} MinValueInRange(win: WinTest, g: Grid, depth: int, column: int, colour: int)
    requires Square(g) && 0 <= column < |g| && IsColour(colour) && HeuristicFits(|g|)
    ensures MINUS_INFINITE <= MinValue(win, g, depth, column, colour) <= INFINITE
    decreases Empties(g), 1, 0
  {
    if win(g, column, TopPiece(g, column)) {
    } else if depth == 0 || !AnyMove(g) {
      HeuristicInRange(g, colour);
    } else {
      MinValueLoopInRange(win, g, depth, colour, 0, INFINITE);
    }
  }

  lemma {:induction false} MinValueLoopInRange(win: WinTest, g: Grid, depth: int, colour: int, m: int, best: int)
    requires Square(g) && 0 <= m <= |g| && IsColour(colour) && HeuristicFits(|g|)
    requires MINUS_INFINITE <= best <= INFINITE
    ensures MINUS_INFINITE <= MinValueLoop(win, g, depth, colour, m, best) <= INFINITE
    decreases Empties(g), 0, |g| - m
  {
    if m < |g| {
      if !CanMove(g, m) {
        MinValueLoopInRange(win, g, depth, colour, m + 1, best);
      } else {
        MaxValueInRange(win, Drop(g, m, -colour), depth - 1, m, colour);
        MinValueLoopInRange(win, g, depth, colour, m + 1,
                            Min(best, MaxValue(win, Drop(g, m, -colour), depth - 1, m, colour)));
      }
    }
  }

  /** A depth that never reaches 0 before the board is full: negative, or at least the number of empty cells. */
  predicate Exhaustive(g: Grid, depth: int) {
    depth < 0 || depth >= Empties(g)
  }

  /** A column with space leaves at least one empty cell on the board. */
  lemma MovableHasEmpties(g: Grid, c: int)
    requires Square(g) && 0 <= c < |g| && CanMove(g, c)
    ensures Empties(g) >= 1
  {
    assert Empties(Drop(g, c, 1)) == Empties(g) - 1;
  }

  /**
   * Any two exhaustive depths give the same minimax value: the depth test
   * never fires, so the search runs to a completed line or a full board.
   */
  lemma {:induction false} MaxValueExhaustive(win: WinTest, g: Grid, d1: int, d2: int, column: int, colour: int)
    requires Square(g) && 0 <= column < |g| && IsColour(colour) && Exhaustive(g, d1) && Exhaustive(g, d2)
    ensures MaxValue(win, g, d1, column, colour) == MaxValue(win, g, d2, column, colour)
    decreases Empties(g), 1, 0
  {
    if !win(g, column, TopPiece(g, column)) && AnyMove(g) {
      var c :| 0 <= c < |g| && CanMove(g, c);
      MovableHasEmpties(g, c);
      MaxValueLoopExhaustive(win, g, d1, d2, colour, 0, MINUS_INFINITE);
    }
  }

  lemma {:induction false} MaxValueLoopExhaustive(win: WinTest, g: Grid, d1: int, d2: int, colour: int, m: int, best: int)
    requires Square(g) && 0 <= m <= |g| && IsColour(colour) && Exhaustive(g, d1) && Exhaustive(g, d2)
    ensures MaxValueLoop(win, g, d1, colour, m, best) == MaxValueLoop(win, g, d2, colour, m, best)
    decreases Empties(g), 0, |g| - m
  {
    if m < |g| {
      if CanMove(g, m) {
        MinValueExhaustive(win, Drop(g, m, colour), d1 - 1, d2 - 1, m, colour);
        var v := MinValue(win, Drop(g, m, colour), d1 - 1, m, colour);
        MaxValueLoopExhaustive(win, g, d1, d2, colour, m + 1, Max(best, v));
      } else {
        MaxValueLoopExhaustive(win, g, d1, d2, colour, m + 1, best);
      }
    }
  }

  lemma {:induction false} MinValueExhaustive(win: WinTest, g: Grid, d1: int, d2: int, column: int, colour: int)
    requires Square(g) && 0 <= column < |g| && IsColour(colour) && Exhaustive(g, d1) && Exhaustive(g, d2)
    ensures MinValue(win, g, d1, column, colour) == MinValue(win, g, d2, column, colour)
    decreases Empties(g), 1, 0
  {
    if !win(g, column, TopPiece(g, column)) && AnyMove(g) {
      var c :| 0 <= c < |g| && CanMove(g, c);
      MovableHasEmpties(g, c);
      MinValueLoopExhaustive(win, g, d1, d2, colour, 0, INFINITE);
    }
  }

  lemma {:induction false} MinValueLoopExhaustive(win: WinTest, g: Grid, d1: int, d2: int, colour: int, m: int, best: int)
    requires Square(g) && 0 <= m <= |g| && IsColour(colour) && Exhaustive(g, d1) && Exhaustive(g, d2)
    ensures MinValueLoop(win, g, d1, colour, m, best) == MinValueLoop(win, g, d2, colour, m, best)
    decreases Empties(g), 0, |g| - m
  {
    if m < |g| {
      if CanMove(g, m) {
        MaxValueExhaustive(win, Drop(g, m, -colour), d1 - 1, d2 - 1, m, colour);
        var v := MaxValue(win, Drop(g, m, -colour), d1 - 1, m, colour);
        MinValueLoopExhaustive(win, g, d1, d2, colour, m + 1, Min(best, v));
      } else {
        MinValueLoopExhaustive(win, g, d1, d2, colour, m + 1, best);
      }
    }
  }
}
