/**
 * The search of minimaxMaxMovement / minimaxMinMovement as functions of the
 * board snapshot. Each call first asks the win test about the top piece of
 * the column just played, then cuts off at depth 0 or on a full board with the
 * heuristic for the fixed perspective colour, and otherwise tries the columns
 * with space in ascending order on copies of the board. The max side drops the
 * perspective colour, the min side the opposite colour. With pruning on, a
 * side stops once its running best reaches beta (max) or alpha (min); the
 * running best is updated before the test and the bound after it.
 */
module Search {
  import opened Board
  import opened Evaluation

  /** Integer.MAX_VALUE and Integer.MIN_VALUE. */
  const INFINITE: int := 0x7fff_ffff
  const MINUS_INFINITE: int := -0x8000_0000

  /**
   * A search result: its value, the number of min-side calls it made
   * (boardsExplored), and the context's own bound when it returns: alpha on
   * the max side, beta on the min side.
   */
  datatype Eval = Eval(value: int, minCalls: nat, bound: int)

  function Max(a: int, b: int): int {
    if a >= b then a else b
  }

  function Min(a: int, b: int): int {
    if a <= b then a else b
  }

  function MaxSearch(win: WinTest, g: Grid, depth: int, column: int, colour: int,
                     alpha: int, beta: int, pruning: bool): Eval
    requires Square(g) && 0 <= column < |g| && IsColour(colour)
    decreases Empties(g), 1, 0
  {
    if win(g, column, TopPiece(g, column)) then Eval(MINUS_INFINITE, 0, alpha)
    else if depth == 0 || !AnyMove(g) then Eval(Heuristic(g, colour), 0, alpha)
    else MaxLoop(win, g, depth, colour, 0, MINUS_INFINITE, alpha, beta, pruning)
  }

  /** The max side's column loop from column m on, with running best and alpha. */
  function MaxLoop(win: WinTest, g: Grid, depth: int, colour: int, m: int,
                   best: int, alpha: int, beta: int, pruning: bool): Eval
    requires Square(g) && 0 <= m <= |g| && IsColour(colour)
    decreases Empties(g), 0, |g| - m
  {
    if m == |g| then Eval(best, 0, alpha)
    else if !CanMove(g, m) then MaxLoop(win, g, depth, colour, m + 1, best, alpha, beta, pruning)
    else
      var child := MaxColumn(win, g, depth, colour, m, alpha, beta, pruning);
      var best' := Max(best, child.value);
      if pruning && best' >= beta then Eval(best', child.minCalls, alpha)
      else
        var rest := MaxLoop(win, g, depth, colour, m + 1, best', Max(best', alpha), beta, pruning);
        Eval(rest.value, child.minCalls + rest.minCalls, rest.bound)
  }

  /** Column m of the max side: the perspective colour dropped there, and the min side asked one level deeper. */
  function MaxColumn(win: WinTest, g: Grid, depth: int, colour: int, m: int,
                     alpha: int, beta: int, pruning: bool): Eval
    requires Square(g) && 0 <= m < |g| && IsColour(colour) && CanMove(g, m)
    decreases Empties(g), 0, 0
  {
    MinSearch(win, Drop(g, m, colour), depth - 1, m, colour, alpha, beta, pruning)
  }

  function MinSearch(win: WinTest, g: Grid, depth: int, column: int, colour: int,
                     alpha: int, beta: int, pruning: bool): Eval
    requires Square(g) && 0 <= column < |g| && IsColour(colour)
    decreases Empties(g), 1, 0
  {
    if win(g, column, TopPiece(g, column)) then Eval(INFINITE, 1, beta)
    else if depth == 0 || !AnyMove(g) then Eval(Heuristic(g, colour), 1, beta)
    else
      var r := MinLoop(win, g, depth, colour, 0, INFINITE, alpha, beta, pruning);
      Eval(r.value, r.minCalls + 1, r.bound)
  }

  /** The min side's column loop from column m on, with running best and beta. */
  function MinLoop(win: WinTest, g: Grid, depth: int, colour: int, m: int,
                   best: int, alpha: int, beta: int, pruning: bool): Eval
    requires Square(g) && 0 <= m <= |g| && IsColour(colour)
    decreases Empties(g), 0, |g| - m
  {
    if m == |g| then Eval(best, 0, beta)
    else if !CanMove(g, m) then MinLoop(win, g, depth, colour, m + 1, best, alpha, beta, pruning)
    else
      var child := MinColumn(win, g, depth, colour, m, alpha, beta, pruning);
      var best' := Min(best, child.value);
      if pruning && best' <= alpha then Eval(best', child.minCalls, beta)
      else
        var rest := MinLoop(win, g, depth, colour, m + 1, best', alpha, Min(best', beta), pruning);
        Eval(rest.value, child.minCalls + rest.minCalls, rest.bound)
  }

  /** Column m of the min side: the opposite colour dropped there, and the max side asked one level deeper. */
  function MinColumn(win: WinTest, g: Grid, depth: int, colour: int, m: int,
                     alpha: int, beta: int, pruning: bool): Eval
    requires Square(g) && 0 <= m < |g| && IsColour(colour) && CanMove(g, m)
    decreases Empties(g), 0, 0
  {
    MaxSearch(win, Drop(g, m, -colour), depth - 1, m, colour, alpha, beta, pruning)
  }

  /** One column of the max loop. */
  lemma MaxLoopStep(win: WinTest, g: Grid, depth: int, colour: int, m: int,
                    best: int, alpha: int, beta: int, pruning: bool)
    requires Square(g) && 0 <= m < |g| && IsColour(colour) && CanMove(g, m)
    ensures var child := MaxColumn(win, g, depth, colour, m, alpha, beta, pruning);
      var best' := Max(best, child.value);
      MaxLoop(win, g, depth, colour, m, best, alpha, beta, pruning) ==
        if pruning && best' >= beta then Eval(best', child.minCalls, alpha)
        else
          var rest := MaxLoop(win, g, depth, colour, m + 1, best', Max(best', alpha), beta, pruning);
          Eval(rest.value, child.minCalls + rest.minCalls, rest.bound)
  {
  }

  /** One column of the min loop. */
  lemma MinLoopStep(win: WinTest, g: Grid, depth: int, colour: int, m: int,
                    best: int, alpha: int, beta: int, pruning: bool)
    requires Square(g) && 0 <= m < |g| && IsColour(colour) && CanMove(g, m)
    ensures var child := MinColumn(win, g, depth, colour, m, alpha, beta, pruning);
      var best' := Min(best, child.value);
      MinLoop(win, g, depth, colour, m, best, alpha, beta, pruning) ==
        if pruning && best' <= alpha then Eval(best', child.minCalls, beta)
        else
          var rest := MinLoop(win, g, depth, colour, m + 1, best', alpha, Min(best', beta), pruning);
          Eval(rest.value, child.minCalls + rest.minCalls, rest.bound)
  {
  }

  /**
   * The win test comes before the depth test: a line just completed scores
   * MINUS_INFINITE on the max side and INFINITE on the min side at every depth,
   * zero included, and with any window.
   */
  lemma TerminalBeforeDepth(win: WinTest, g: Grid, depth: int, column: int, colour: int,
                            alpha: int, beta: int, pruning: bool)
    requires Square(g) && 0 <= column < |g| && IsColour(colour)
    requires win(g, column, TopPiece(g, column))
    ensures MaxSearch(win, g, depth, column, colour, alpha, beta, pruning) == Eval(MINUS_INFINITE, 0, alpha)
    ensures MinSearch(win, g, depth, column, colour, alpha, beta, pruning) == Eval(INFINITE, 1, beta)
  {
  }

  /**
   * Otherwise depth 0 or a full board gives the heuristic for the perspective
   * colour on both sides; only the min side counts the call.
   */
  lemma LeafPolicy(win: WinTest, g: Grid, depth: int, column: int, colour: int,
                   alpha: int, beta: int, pruning: bool)
    requires Square(g) && 0 <= column < |g| && IsColour(colour)
    requires !win(g, column, TopPiece(g, column)) && (depth == 0 || !AnyMove(g))
    ensures MaxSearch(win, g, depth, column, colour, alpha, beta, pruning) == Eval(Heuristic(g, colour), 0, alpha)
    ensures MinSearch(win, g, depth, column, colour, alpha, beta, pruning) == Eval(Heuristic(g, colour), 1, beta)
  {
  }
}
