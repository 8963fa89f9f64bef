/**
 * The player itself: C4_Killer with its counters and its list of chosen
 * columns, and MinimaxContext, the bundle of arguments that minimaxMaxMovement
 * and minimaxMinMovement pass down. Each method here is proved against
 * the specification functions of the Search, Evaluation and Root modules.
 */
module Killer {
  import opened Board
  import opened Evaluation
  import opened Search
  import opened Root

  /** The arguments of one search call; the call raises its alpha (max side) or lowers its beta (min side). */
  class MinimaxContext {
    const t: Tauler
    const depth: int
    const column: int
    /** The colour of the agent, whose point of view the heuristic takes. */
    const actualColumn: int
    var alpha: int
    var beta: int

    constructor (t: Tauler, depth: int, column: int, actualColumn: int, alpha: int, beta: int)
      ensures this.t == t && this.depth == depth && this.column == column
      ensures this.actualColumn == actualColumn && this.alpha == alpha && this.beta == beta
    {
      this.t := t;
      this.depth := depth;
      this.column := column;
      this.actualColumn := actualColumn;
      this.alpha := alpha;
      this.beta := beta;
    }
  }

  class C4Killer {
    /** The column returned by each call of Moviment, in order. */
    var selectedMoves: seq<int>
    /** Min-side calls of the latest Moviment. */
    var boardsExplored: int
    /** Min-side calls over all calls of Moviment. */
    var gameBoards: int
    const isPruning: bool
    const depth: int

    constructor (depth: int, isPruning: bool)
      ensures this.depth == depth && this.isPruning == isPruning
      ensures boardsExplored == 0 && gameBoards == 0 && selectedMoves == []
    {
      this.depth := depth;
      this.isPruning := isPruning;
      boardsExplored := 0;
      gameBoards := 0;
      selectedMoves := [];
    }

    /**
     * The column of the best move for colour on board t, or -1 when no column
     * scores above MINUS_INFINITE; the column is appended to the history and
     * boardsExplored holds the min-side calls made for it.
     */
    method Moviment(t: Tauler, color: int) returns (bestColumn: int)
      requires t.Valid() && IsColour(color)
      modifies this`boardsExplored, this`gameBoards, this`selectedMoves
      ensures bestColumn == RootBest(t.solucio, t.cells, depth, color, isPruning, t.size).column
      ensures boardsExplored == RootCalls(t.solucio, t.cells, depth, color, isPruning, t.size)
      ensures gameBoards == old(gameBoards) + RootCalls(t.solucio, t.cells, depth, color, isPruning, t.size)
      ensures selectedMoves == old(selectedMoves) + [bestColumn]
      ensures unchanged(t)
    {
      boardsExplored := 0;
      bestColumn := -1;
      var bestValue := MINUS_INFINITE;
      for movement := 0 to t.GetMida()
        invariant t.Valid()
        invariant Choice(bestColumn, bestValue) == RootBest(t.solucio, t.cells, depth, color, isPruning, movement)
        invariant boardsExplored == RootCalls(t.solucio, t.cells, depth, color, isPruning, movement)
        invariant gameBoards == old(gameBoards) + boardsExplored
        invariant selectedMoves == old(selectedMoves)
      {
        if t.Movpossible(movement) {
          var value := MinChild(t, depth, movement, color, MINUS_INFINITE, INFINITE);
          if value > bestValue {
            bestValue := value;
            bestColumn := movement;
          }
        }
      }
      selectedMoves := selectedMoves + [bestColumn];
    }

    /** getTopPiece: scans the column from the top row down for the first piece. */
    method GetTopPiece(t: Tauler, column: int) returns (r: int)
      requires t.Valid() && 0 <= column < t.size
      ensures r == TopPiece(t.cells, column)
    {
      var i := t.GetMida() - 1;
      while i >= 0
        invariant -1 <= i < t.size
        invariant forall j :: i < j < t.size ==> t.cells[j][column] == 0
      {
        if t.GetColor(i, column) != 0 {
          TopRowBelowSpec(t.cells, column, t.size);
          return t.GetColor(i, column);
        }
        i := i - 1;
      }
      TopRowBelowSpec(t.cells, column, t.size);
      return 0;
    }

    /** The max side: the agent's colour moves next. */
    method MinimaxMaxMovement(context: MinimaxContext) returns (value: int)
      requires context.t.Valid() && 0 <= context.column < context.t.size && IsColour(context.actualColumn)
      modifies this`boardsExplored, this`gameBoards, context`alpha
      ensures var e := MaxSearch(context.t.solucio, context.t.cells, context.depth, context.column,
                                 context.actualColumn, old(context.alpha), context.beta, isPruning);
        value == e.value && context.alpha == e.bound &&
        boardsExplored == old(boardsExplored) + e.minCalls && gameBoards == old(gameBoards) + e.minCalls
      decreases Empties(context.t.cells), 1
    {
      var bestValue := MINUS_INFINITE;
      var c := GetTopPiece(context.t, context.column);
      if context.t.Solucio(context.column, c) || context.depth == 0 || !context.t.Espotmoure() {
        if context.t.Solucio(context.column, c) {
          return bestValue;
        }
        value := CalculateConsecutiveHeuristic(context.t, context.actualColumn);
        return;
      }
      ghost var win, g, d, colour := context.t.solucio, context.t.cells, context.depth, context.actualColumn;
      ghost var total := MaxLoop(win, g, d, colour, 0, MINUS_INFINITE, context.alpha, context.beta, isPruning);
      ghost var calls0 := old(boardsExplored);
      var movement := 0;
      while movement < context.t.GetMida()
        invariant 0 <= movement <= |g| && context.t.Valid() && context.t.cells == g
        invariant gameBoards - old(gameBoards) == boardsExplored - calls0
        invariant var rest := MaxLoop(win, g, d, colour, movement, bestValue, context.alpha, context.beta, isPruning);
          rest.value == total.value && rest.bound == total.bound && boardsExplored + rest.minCalls == calls0 + total.minCalls
        decreases |g| - movement
      {
        if context.t.Movpossible(movement) {
          var v := MinChild(context.t, context.depth, movement, context.actualColumn, context.alpha, context.beta);
          MaxLoopStep(win, g, d, colour, movement, bestValue, context.alpha, context.beta, isPruning);
          bestValue := Max(bestValue, v);
          if isPruning && bestValue >= context.beta {
            break;
          }
          context.alpha := Max(bestValue, context.alpha);
        }
        movement := movement + 1;
      }
      return bestValue;
    }

    /** The min side: the opponent moves next; every call counts as one explored board. */
    method MinimaxMinMovement(context: MinimaxContext) returns (value: int)
      requires context.t.Valid() && 0 <= context.column < context.t.size && IsColour(context.actualColumn)
      modifies this`boardsExplored, this`gameBoards, context`beta
      ensures var e := MinSearch(context.t.solucio, context.t.cells, context.depth, context.column,
                                 context.actualColumn, context.alpha, old(context.beta), isPruning);
        value == e.value && context.beta == e.bound &&
        boardsExplored == old(boardsExplored) + e.minCalls && gameBoards == old(gameBoards) + e.minCalls
      decreases Empties(context.t.cells), 1
    {
      var c := GetTopPiece(context.t, context.column);
      boardsExplored := boardsExplored + 1;
      gameBoards := gameBoards + 1;
      var bestValue := INFINITE;
      if context.t.Solucio(context.column, c) || context.depth == 0 || !context.t.Espotmoure() {
        if context.t.Solucio(context.column, c) {
          return bestValue;
        }
        value := CalculateConsecutiveHeuristic(context.t, context.actualColumn);
        return;
      }
      ghost var win, g, d, colour := context.t.solucio, context.t.cells, context.depth, context.actualColumn;
      ghost var total := MinLoop(win, g, d, colour, 0, INFINITE, context.alpha, context.beta, isPruning);
      ghost var calls0 := old(boardsExplored) + 1;
      var movement := 0;
      while movement < context.t.GetMida()
        invariant 0 <= movement <= |g| && context.t.Valid() && context.t.cells == g
        invariant gameBoards - old(gameBoards) == boardsExplored - old(boardsExplored)
        invariant var rest := MinLoop(win, g, d, colour, movement, bestValue, context.alpha, context.beta, isPruning);
          rest.value == total.value && rest.bound == total.bound && boardsExplored + rest.minCalls == calls0 + total.minCalls
        decreases |g| - movement
      {
        if context.t.Movpossible(movement) {
          var v := MaxChild(context.t, context.depth, movement, context.actualColumn, context.alpha, context.beta);
          MinLoopStep(win, g, d, colour, movement, bestValue, context.alpha, context.beta, isPruning);
          bestValue := Min(bestValue, v);
          if isPruning && bestValue <= context.alpha {
            break;
          }
          context.beta := Min(bestValue, context.beta);
        }
        movement := movement + 1;
      }
      return bestValue;
    }

    /**
     * One column of the max side (or of moviment): the agent's piece dropped on
     * a copy of t, and the min side asked about the copy with a fresh context.
     */
    method MinChild(t: Tauler, depth: int, movement: int, colour: int, alpha: int, beta: int) returns (v: int)
      requires t.Valid() && 0 <= movement < t.size && CanMove(t.cells, movement) && IsColour(colour)
      modifies this`boardsExplored, this`gameBoards
      ensures var e := MaxColumn(t.solucio, t.cells, depth, colour, movement, alpha, beta, isPruning);
        v == e.value && boardsExplored == old(boardsExplored) + e.minCalls && gameBoards == old(gameBoards) + e.minCalls
      decreases Empties(t.cells), 0
    {
      var auxiliarBoard := new Tauler.Copy(t);
      auxiliarBoard.Afegeix(movement, colour);
      var child := new MinimaxContext(auxiliarBoard, depth - 1, movement, colour, alpha, beta);
      v := MinimaxMinMovement(child);
    }

    /** One column of the min side: the opponent's piece dropped on a copy of t, and the max side asked. */
    method MaxChild(t: Tauler, depth: int, movement: int, colour: int, alpha: int, beta: int) returns (v: int)
      requires t.Valid() && 0 <= movement < t.size && CanMove(t.cells, movement) && IsColour(colour)
      modifies this`boardsExplored, this`gameBoards
      ensures var e := MinColumn(t.solucio, t.cells, depth, colour, movement, alpha, beta, isPruning);
        v == e.value && boardsExplored == old(boardsExplored) + e.minCalls && gameBoards == old(gameBoards) + e.minCalls
      decreases Empties(t.cells), 0
    {
      var auxiliarBoard := new Tauler.Copy(t);
      auxiliarBoard.Afegeix(movement, -colour);
      var child := new MinimaxContext(auxiliarBoard, depth - 1, movement, colour, alpha, beta);
      v := MinimaxMaxMovement(child);
    }

    /** calculateConsecutiveHeuristic: the score of board t for colour, column by column and row by row. */
    method CalculateConsecutiveHeuristic(t: Tauler, color: int) returns (h: int)
      requires t.Valid()
      ensures h == Heuristic(t.cells, color)
    {
      h := 0;
      var size := t.GetMida();
      ghost var g := t.cells;
      for c := 0 to size
        invariant h == BoardPrefix(g, color, c)
      {
        for f := 0 to size
          invariant h == BoardPrefix(g, color, c) + ColumnPrefix(g, c, color, f)
        {
          var col := t.GetColor(f, c);
          if col == 0 {
            continue;
          }
          var signe := if col == color then 1 else -1;
          for i := 0 to 4
            invariant h == BoardPrefix(g, color, c) + ColumnPrefix(g, c, color, f) + RunPrefix(g, f, c, color, i)
          {
            if f + i < size && c + i < size {
              var piece := t.GetColor(f + i, c + i);
              h := h + (if piece == color then signe else if piece == 0 then signe * 10 else 0);
            }
          }
        }
      }
    }
  }
}
