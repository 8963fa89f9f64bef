/**
 * What pruning does to the search. Without pruning the search computes the
 * plain minimax value whatever the window. With pruning it is a fail-soft
 * alpha-beta search: inside the window it returns the minimax value, and
 * outside it a bound on the same side of the window as that value. Pruning
 * also never makes more min-side calls than the search without it.
 */
module Pruning {
  import opened Board
  import opened Search
  import opened Minimax

  /** The fail-soft relation between a pruned result p and the true value v for window (alpha, beta). */
  predicate FailSoft(p: int, v: int, alpha: int, beta: int) {
    (v <= alpha ==> v <= p <= alpha) &&
    (alpha < v < beta ==> p == v) &&
    (beta <= v ==> beta <= p <= v)
  }

  // ----- Without pruning the window is irrelevant -----

  lemma {:induction false} MaxSearchNoPruning(win: WinTest, g: Grid, depth: int, column: int, colour: int,
                                              alpha: int, beta: int)
    requires Square(g) && 0 <= column < |g| && IsColour(colour)
    ensures MaxSearch(win, g, depth, column, colour, alpha, beta, false).value == MaxValue(win, g, depth, column, colour)
    decreases Empties(g), 1, 0
  {
    if !win(g, column, TopPiece(g, column)) && depth != 0 && AnyMove(g) {
      MaxLoopNoPruning(win, g, depth, colour, 0, MINUS_INFINITE, alpha, beta);
    }
  }

  lemma {:induction false} MaxLoopNoPruning(win: WinTest, g: Grid, depth: int, colour: int, m: int,
                                            best: int, alpha: int, beta: int)
    requires Square(g) && 0 <= m <= |g| && IsColour(colour)
    ensures MaxLoop(win, g, depth, colour, m, best, alpha, beta, false).value == MaxValueLoop(win, g, depth, colour, m, best)
    decreases Empties(g), 0, |g| - m
  {
    if m < |g| {
      if !CanMove(g, m) {
        MaxLoopNoPruning(win, g, depth, colour, m + 1, best, alpha, beta);
      } else {
        var child := Drop(g, m, colour);
        MinSearchNoPruning(win, child, depth - 1, m, colour, alpha, beta);
        var best' := Max(best, MinSearch(win, child, depth - 1, m, colour, alpha, beta, false).value);
        MaxLoopNoPruning(win, g, depth, colour, m + 1, best', Max(best', alpha), beta);
      }
    }
  }

  lemma {:induction false} MinSearchNoPruning(win: WinTest, g: Grid, depth: int, column: int, colour: int,
                                              alpha: int, beta: int)
    requires Square(g) && 0 <= column < |g| && IsColour(colour)
    ensures MinSearch(win, g, depth, column, colour, alpha, beta, false).value == MinValue(win, g, depth, column, colour)
    decreases Empties(g), 1, 0
  {
    if !win(g, column, TopPiece(g, column)) && depth != 0 && AnyMove(g) {
      MinLoopNoPruning(win, g, depth, colour, 0, INFINITE, alpha, beta);
    }
  }

  lemma {:induction false} MinLoopNoPruning(win: WinTest, g: Grid, depth: int, colour: int, m: int,
                                            best: int, alpha: int, beta: int)
    requires Square(g) && 0 <= m <= |g| && IsColour(colour)
    ensures MinLoop(win, g, depth, colour, m, best, alpha, beta, false).value == MinValueLoop(win, g, depth, colour, m, best)
    decreases Empties(g), 0, |g| - m
  {
    if m < |g| {
      if !CanMove(g, m) {
        MinLoopNoPruning(win, g, depth, colour, m + 1, best, alpha, beta);
      } else {
        var child := Drop(g, m, -colour);
        MaxSearchNoPruning(win, child, depth - 1, m, colour, alpha, beta);
        var best' := Min(best, MaxSearch(win, child, depth - 1, m, colour, alpha, beta, false).value);
        MinLoopNoPruning(win, g, depth, colour, m + 1, best', alpha, Min(best', beta));
      }
    }
  }

  // ----- With pruning the search is fail-soft alpha-beta -----

  lemma {:induction false} MaxSearchFailSoft(win: WinTest, g: Grid, depth: int, column: int, colour: int,
                                             alpha: int, beta: int)
    requires Square(g) && 0 <= column < |g| && IsColour(colour) && alpha < beta
    ensures FailSoft(MaxSearch(win, g, depth, column, colour, alpha, beta, true).value,
                     MaxValue(win, g, depth, column, colour), alpha, beta)
    decreases Empties(g), 1, 0
  {
    if !win(g, column, TopPiece(g, column)) && depth != 0 && AnyMove(g) {
      MaxLoopFailSoft(win, g, depth, colour, 0, MINUS_INFINITE, alpha, beta);
    }
  }

  /**
   * The max loop, entered with any running best and a current alpha below
   * beta, is fail-soft for the window (alpha, beta). It rests on the best
   * being updated before it is tested against beta, so that a cut returns a
   * best that already includes the column that caused it. Raising alpha after
   * the test rather than before it changes only what alpha holds after a cut.
   */
  lemma {:induction false} MaxLoopFailSoft(win: WinTest, g: Grid, depth: int, colour: int, m: int,
                                           best: int, alpha: int, beta: int)
    requires Square(g) && 0 <= m <= |g| && IsColour(colour) && alpha < beta
    ensures FailSoft(MaxLoop(win, g, depth, colour, m, best, alpha, beta, true).value,
                     MaxValueLoop(win, g, depth, colour, m, best), alpha, beta)
    decreases Empties(g), 0, |g| - m
  {
    if m < |g| {
      if !CanMove(g, m) {
        MaxLoopFailSoft(win, g, depth, colour, m + 1, best, alpha, beta);
      } else {
        MinSearchFailSoft(win, Drop(g, m, colour), depth - 1, m, colour, alpha, beta);
        var best' := Max(best, MinSearch(win, Drop(g, m, colour), depth - 1, m, colour, alpha, beta, true).value);
        if best' < beta {
          MaxLoopFailSoft(win, g, depth, colour, m + 1, best', Max(best', alpha), beta);
        }
        MaxColumnFailSoft(win, g, depth, colour, m, best, alpha, beta);
      }
    }
  }

  /** One column of the max loop: fail-soft for the child and for the rest give fail-soft for the loop. */
  lemma MaxColumnFailSoft(win: WinTest, g: Grid, depth: int, colour: int, m: int,
                          best: int, alpha: int, beta: int)
    requires Square(g) && 0 <= m < |g| && IsColour(colour) && alpha < beta && CanMove(g, m)
    requires FailSoft(MinSearch(win, Drop(g, m, colour), depth - 1, m, colour, alpha, beta, true).value,
                      MinValue(win, Drop(g, m, colour), depth - 1, m, colour), alpha, beta)
    requires var best' := Max(best, MinSearch(win, Drop(g, m, colour), depth - 1, m, colour, alpha, beta, true).value);
      best' < beta ==>
        FailSoft(MaxLoop(win, g, depth, colour, m + 1, best', Max(best', alpha), beta, true).value,
                 MaxValueLoop(win, g, depth, colour, m + 1, best'), Max(best', alpha), beta)
    ensures FailSoft(MaxLoop(win, g, depth, colour, m, best, alpha, beta, true).value,
                     MaxValueLoop(win, g, depth, colour, m, best), alpha, beta)
  {
    var child := Drop(g, m, colour);
    var p := MinSearch(win, child, depth - 1, m, colour, alpha, beta, true).value;
    var v := MinValue(win, child, depth - 1, m, colour);
    var best' := Max(best, p);
    var alpha' := Max(best', alpha);
    // the rest of the columns is folded into a maximum
    var rest := MaxValueLoop(win, g, depth, colour, m + 1, best);
    MaxValueLoopShift(win, g, depth, colour, m + 1, v, best);
    MaxValueLoopShift(win, g, depth, colour, m + 1, p, best);
    MaxValueLoopShift(win, g, depth, colour, m + 1, best, best);
    assert Max(best, best) == best;
    var after := MaxLoop(win, g, depth, colour, m + 1, best', alpha', beta, true).value;
    assert MaxValueLoop(win, g, depth, colour, m, best) == Max(v, rest);
    assert MaxLoop(win, g, depth, colour, m, best, alpha, beta, true).value
           == if best' >= beta then best' else after;
    MaxStepFailSoft(best, p, v, rest, after, alpha, beta);
  }

  /** One step of the max loop, on the values alone. */
  lemma MaxStepFailSoft(best: int, p: int, v: int, rest: int, after: int, alpha: int, beta: int)
    requires alpha < beta && FailSoft(p, v, alpha, beta) && best <= rest
    requires Max(best, p) < beta ==> FailSoft(after, Max(p, rest), Max(Max(best, p), alpha), beta)
    ensures FailSoft(if Max(best, p) >= beta then Max(best, p) else after, Max(v, rest), alpha, beta)
  {
  }

  lemma {:induction false} MinSearchFailSoft(win: WinTest, g: Grid, depth: int, column: int, colour: int,
                                             alpha: int, beta: int)
    requires Square(g) && 0 <= column < |g| && IsColour(colour) && alpha < beta
    ensures FailSoft(MinSearch(win, g, depth, column, colour, alpha, beta, true).value,
                     MinValue(win, g, depth, column, colour), alpha, beta)
    decreases Empties(g), 1, 0
  {
    if !win(g, column, TopPiece(g, column)) && depth != 0 && AnyMove(g) {
      MinLoopFailSoft(win, g, depth, colour, 0, INFINITE, alpha, beta);
    }
  }

  /** The min loop, dually: best updated, tested against alpha, then beta lowered. */
  lemma {:induction false} MinLoopFailSoft(win: WinTest, g: Grid, depth: int, colour: int, m: int,
                                           best: int, alpha: int, beta: int)
    requires Square(g) && 0 <= m <= |g| && IsColour(colour) && alpha < beta
    ensures FailSoft(MinLoop(win, g, depth, colour, m, best, alpha, beta, true).value,
                     MinValueLoop(win, g, depth, colour, m, best), alpha, beta)
    decreases Empties(g), 0, |g| - m
  {
    if m < |g| {
      if !CanMove(g, m) {
        MinLoopFailSoft(win, g, depth, colour, m + 1, best, alpha, beta);
      } else {
        MaxSearchFailSoft(win, Drop(g, m, -colour), depth - 1, m, colour, alpha, beta);
        var best' := Min(best, MaxSearch(win, Drop(g, m, -colour), depth - 1, m, colour, alpha, beta, true).value);
        if best' > alpha {
          MinLoopFailSoft(win, g, depth, colour, m + 1, best', alpha, Min(best', beta));
        }
        MinColumnFailSoft(win, g, depth, colour, m, best, alpha, beta);
      }
    }
  }

  /** One column of the min loop, dually. */
  lemma MinColumnFailSoft(win: WinTest, g: Grid, depth: int, colour: int, m: int,
                          best: int, alpha: int, beta: int)
    requires Square(g) && 0 <= m < |g| && IsColour(colour) && alpha < beta && CanMove(g, m)
    requires FailSoft(MaxSearch(win, Drop(g, m, -colour), depth - 1, m, colour, alpha, beta, true).value,
                      MaxValue(win, Drop(g, m, -colour), depth - 1, m, colour), alpha, beta)
    requires var best' := Min(best, MaxSearch(win, Drop(g, m, -colour), depth - 1, m, colour, alpha, beta, true).value);
      best' > alpha ==>
        FailSoft(MinLoop(win, g, depth, colour, m + 1, best', alpha, Min(best', beta), true).value,
                 MinValueLoop(win, g, depth, colour, m + 1, best'), alpha, Min(best', beta))
    ensures FailSoft(MinLoop(win, g, depth, colour, m, best, alpha, beta, true).value,
                     MinValueLoop(win, g, depth, colour, m, best), alpha, beta)
  {
    var child := Drop(g, m, -colour);
    var p := MaxSearch(win, child, depth - 1, m, colour, alpha, beta, true).value;
    var v := MaxValue(win, child, depth - 1, m, colour);
    var best' := Min(best, p);
    var beta' := Min(best', beta);
    var rest := MinValueLoop(win, g, depth, colour, m + 1, best);
    MinValueLoopShift(win, g, depth, colour, m + 1, v, best);
    MinValueLoopShift(win, g, depth, colour, m + 1, p, best);
    MinValueLoopShift(win, g, depth, colour, m + 1, best, best);
    assert Min(best, best) == best;
    var after := MinLoop(win, g, depth, colour, m + 1, best', alpha, beta', true).value;
    assert MinValueLoop(win, g, depth, colour, m, best) == Min(v, rest);
    assert MinLoop(win, g, depth, colour, m, best, alpha, beta, true).value
           == if best' <= alpha then best' else after;
    MinStepFailSoft(best, p, v, rest, after, alpha, beta);
  }

  /** One step of the min loop, on the values alone. */
  lemma MinStepFailSoft(best: int, p: int, v: int, rest: int, after: int, alpha: int, beta: int)
    requires alpha < beta && FailSoft(p, v, alpha, beta) && rest <= best
    requires Min(best, p) > alpha ==> FailSoft(after, Min(p, rest), alpha, Min(Min(best, p), beta))
    ensures FailSoft(if Min(best, p) <= alpha then Min(best, p) else after, Min(v, rest), alpha, beta)
  {
  }

  // ----- Pruning never explores more boards -----

  lemma {:induction false} MaxSearchCallsNoMore(win: WinTest, g: Grid, depth: int, column: int, colour: int,
                                                alpha: int, beta: int, alpha': int, beta': int)
    requires Square(g) && 0 <= column < |g| && IsColour(colour)
    ensures MaxSearch(win, g, depth, column, colour, alpha, beta, true).minCalls
            <= MaxSearch(win, g, depth, column, colour, alpha', beta', false).minCalls
    decreases Empties(g), 1, 0
  {
    if !win(g, column, TopPiece(g, column)) && depth != 0 && AnyMove(g) {
      MaxLoopCallsNoMore(win, g, depth, colour, 0, MINUS_INFINITE, alpha, beta, MINUS_INFINITE, alpha', beta');
    }
  }

  lemma {:induction false} MaxLoopCallsNoMore(win: WinTest, g: Grid, depth: int, colour: int, m: int,
                                              best: int, alpha: int, beta: int,
                                              best': int, alpha': int, beta': int)
    requires Square(g) && 0 <= m <= |g| && IsColour(colour)
    ensures MaxLoop(win, g, depth, colour, m, best, alpha, beta, true).minCalls
            <= MaxLoop(win, g, depth, colour, m, best', alpha', beta', false).minCalls
    decreases Empties(g), 0, |g| - m
  {
    if m < |g| {
      if !CanMove(g, m) {
        MaxLoopCallsNoMore(win, g, depth, colour, m + 1, best, alpha, beta, best', alpha', beta');
      } else {
        var child := Drop(g, m, colour);
        MinSearchCallsNoMore(win, child, depth - 1, m, colour, alpha, beta, alpha', beta');
        var b1 := Max(best, MinSearch(win, child, depth - 1, m, colour, alpha, beta, true).value);
        var b2 := Max(best', MinSearch(win, child, depth - 1, m, colour, alpha', beta', false).value);
        if b1 < beta {
          MaxLoopCallsNoMore(win, g, depth, colour, m + 1, b1, Max(b1, alpha), beta, b2, Max(b2, alpha'), beta');
        }
      }
    }
  }

  lemma {:induction false} MinSearchCallsNoMore(win: WinTest, g: Grid, depth: int, column: int, colour: int,
                                                alpha: int, beta: int, alpha': int, beta': int)
    requires Square(g) && 0 <= column < |g| && IsColour(colour)
    ensures MinSearch(win, g, depth, column, colour, alpha, beta, true).minCalls
            <= MinSearch(win, g, depth, column, colour, alpha', beta', false).minCalls
    decreases Empties(g), 1, 0
  {
    if !win(g, column, TopPiece(g, column)) && depth != 0 && AnyMove(g) {
      MinLoopCallsNoMore(win, g, depth, colour, 0, INFINITE, alpha, beta, INFINITE, alpha', beta');
    }
  }

  lemma {:induction false} MinLoopCallsNoMore(win: WinTest, g: Grid, depth: int, colour: int, m: int,
                                              best: int, alpha: int, beta: int,
                                              best': int, alpha': int, beta': int)
    requires Square(g) && 0 <= m <= |g| && IsColour(colour)
    ensures MinLoop(win, g, depth, colour, m, best, alpha, beta, true).minCalls
            <= MinLoop(win, g, depth, colour, m, best', alpha', beta', false).minCalls
    decreases Empties(g), 0, |g| - m
  {
    if m < |g| {
      if !CanMove(g, m) {
        MinLoopCallsNoMore(win, g, depth, colour, m + 1, best, alpha, beta, best', alpha', beta');
      } else {
        var child := Drop(g, m, -colour);
        MaxSearchCallsNoMore(win, child, depth - 1, m, colour, alpha, beta, alpha', beta');
        var b1 := Min(best, MaxSearch(win, child, depth - 1, m, colour, alpha, beta, true).value);
        var b2 := Min(best', MaxSearch(win, child, depth - 1, m, colour, alpha', beta', false).value);
        if b1 > alpha {
          MinLoopCallsNoMore(win, g, depth, colour, m + 1, b1, alpha, Min(b1, beta), b2, alpha', Min(b2, beta'));
        }
      }
    }
  }

  // ----- The window a context keeps -----

  /**
   * The max side's alpha only rises, from the alpha it was given; with pruning
   * it stays below beta; and when no cut happened it ends as the larger of the
   * alpha given and the value found. The running best never falls.
   */
  lemma {:induction false} MaxLoopWindow(win: WinTest, g: Grid, depth: int, colour: int, m: int,
                                         best: int, alpha: int, beta: int, pruning: bool)
    requires Square(g) && 0 <= m <= |g| && IsColour(colour) && best <= alpha
    ensures var r := MaxLoop(win, g, depth, colour, m, best, alpha, beta, pruning);
      best <= r.value && alpha <= r.bound &&
      (pruning && alpha < beta ==> r.bound < beta) &&
      (!pruning || r.value < beta ==> r.bound == Max(alpha, r.value))
    decreases |g| - m
  {
    if m < |g| {
      if !CanMove(g, m) {
        MaxLoopWindow(win, g, depth, colour, m + 1, best, alpha, beta, pruning);
      } else {
        var best' := Max(best, MaxColumn(win, g, depth, colour, m, alpha, beta, pruning).value);
        if !(pruning && best' >= beta) {
          MaxLoopWindow(win, g, depth, colour, m + 1, best', Max(best', alpha), beta, pruning);
        }
      }
    }
  }

  /** Dually, the min side's beta only falls, and with pruning stays above alpha. */
  lemma {:induction false} MinLoopWindow(win: WinTest, g: Grid, depth: int, colour: int, m: int,
                                         best: int, alpha: int, beta: int, pruning: bool)
    requires Square(g) && 0 <= m <= |g| && IsColour(colour) && beta <= best
    ensures var r := MinLoop(win, g, depth, colour, m, best, alpha, beta, pruning);
      r.value <= best && r.bound <= beta &&
      (pruning && alpha < beta ==> alpha < r.bound) &&
      (!pruning || r.value > alpha ==> r.bound == Min(beta, r.value))
    decreases |g| - m
  {
    if m < |g| {
      if !CanMove(g, m) {
        MinLoopWindow(win, g, depth, colour, m + 1, best, alpha, beta, pruning);
      } else {
        var best' := Min(best, MinColumn(win, g, depth, colour, m, alpha, beta, pruning).value);
        if !(pruning && best' <= alpha) {
          MinLoopWindow(win, g, depth, colour, m + 1, best', alpha, Min(best', beta), pruning);
        }
      }
    }
  }

  /** A whole search call: alpha (max side) or beta (min side) moves only inward, and the window stays open. */
  lemma SearchWindow(win: WinTest, g: Grid, depth: int, column: int, colour: int,
                     alpha: int, beta: int, pruning: bool)
    requires Square(g) && 0 <= column < |g| && IsColour(colour)
    requires MINUS_INFINITE <= alpha && beta <= INFINITE
    ensures var r := MaxSearch(win, g, depth, column, colour, alpha, beta, pruning);
      alpha <= r.bound && (pruning && alpha < beta ==> r.bound < beta)
    ensures var r := MinSearch(win, g, depth, column, colour, alpha, beta, pruning);
      r.bound <= beta && (pruning && alpha < beta ==> alpha < r.bound)
  {
    MaxLoopWindow(win, g, depth, colour, 0, MINUS_INFINITE, alpha, beta, pruning);
    MinLoopWindow(win, g, depth, colour, 0, INFINITE, alpha, beta, pruning);
  }

  /**
   * With the full window (MINUS_INFINITE, INFINITE) the root hands to the
   * min side, pruning does not change the value, on any board whose scores fit
   * in an int.
   */
  lemma FullWindowPruningInvisible(win: WinTest, g: Grid, depth: int, column: int, colour: int)
    requires Square(g) && 0 <= column < |g| && IsColour(colour) && HeuristicFits(|g|)
    ensures MinSearch(win, g, depth, column, colour, MINUS_INFINITE, INFINITE, true).value
            == MinSearch(win, g, depth, column, colour, MINUS_INFINITE, INFINITE, false).value
            == MinValue(win, g, depth, column, colour)
  {
    MinSearchFailSoft(win, g, depth, column, colour, MINUS_INFINITE, INFINITE);
    MinSearchNoPruning(win, g, depth, column, colour, MINUS_INFINITE, INFINITE);
    MinValueInRange(win, g, depth, column, colour);
  }
}
