/**
 * The hard-mode search of codsoft_ai_2/Tic-tac-toe/main.py: minimax with
 * alpha-beta pruning over the shared board, and the root chooser.
 *
 * O is the computer and maximises; X is the human and minimises. A
 * finished game scores 1 if O won, -1 if X won and 0 for a draw. The
 * unpruned minimax value of a board is the function `GameValue`; the
 * pruned search is the method `Minimax`, which places a mark, recurses
 * and clears the cell again, exactly as the game does.
 */
module Search {
  import opened Wrappers
  import opened TicTacToe

  /** Stand-ins for -float('inf') and float('inf'): below and above every score. */
  const NegInf: int := -2
  const PosInf: int := 2

  function Max(a: int, b: int): int { if a >= b then a else b }
  function Min(a: int, b: int): int { if a <= b then a else b }

  /** The mark the side to move places. */
  function MarkOf(maximizing: bool): Cell { if maximizing then O else X }

  /** The starting best score of a node, before any child is tried. */
  function Start(maximizing: bool): int { if maximizing then NegInf else PosInf }

  /** The score of a finished game, from O's side. */
  function Score(v: Verdict): int
    requires !v.Undecided?
  {
    if v == Win(X) then -1 else if v == Win(O) then 1 else 0
  }

  /** Every cell before (r, c) in row-major order is occupied. */
  predicate NoEmptyBefore(g: Grid, r: int, c: int) {
    forall i, j :: 0 <= i < 3 && 0 <= j < 3 && (i < r || (i == r && j < c)) ==> g[i][j] != Empty
  }

  // ---------------------------------------------------------------------
  // Plain minimax, the specification of the search

  /**
   * The minimax value of `g` with `maximizing` to move: the score of a
   * finished game, or else the best child value over every empty cell.
   */
  function GameValue(g: Grid, maximizing: bool): (v: int)
    ensures -1 <= v <= 1
    decreases Empties(g), 1
  {
    var verdict := CheckWinner(g);
    if !verdict.Undecided? then Score(verdict)
    else RowsValue(g, maximizing, 3)
  }

  /** The best child value over the empty cells of rows 0 .. r-1. */
  function RowsValue(g: Grid, maximizing: bool, r: int): (v: int)
    requires 0 <= r <= 3
    ensures v == Start(maximizing) || -1 <= v <= 1
    ensures v == Start(maximizing) <==> NoEmptyBefore(g, r, 0)
    decreases Empties(g), 0, r, 0
  {
    if r == 0 then Start(maximizing) else CellsValue(g, maximizing, r - 1, 3)
  }

  /** The best child value over the empty cells before (r, c). */
  function CellsValue(g: Grid, maximizing: bool, r: int, c: int): (v: int)
    requires 0 <= r < 3 && 0 <= c <= 3
    ensures v == Start(maximizing) || -1 <= v <= 1
    ensures v == Start(maximizing) <==> NoEmptyBefore(g, r, c)
    decreases Empties(g), 0, r, c + 1
  {
    if c == 0 then RowsValue(g, maximizing, r)
    else
      var acc := CellsValue(g, maximizing, r, c - 1);
      if g[r][c - 1] == Empty then
        PlaceFills(g, r, c - 1, MarkOf(maximizing));
        var s := GameValue(Place(g, r, c - 1, MarkOf(maximizing)), !maximizing);
        if maximizing then Max(s, acc) else Min(s, acc)
      else acc
  }

  /** The value best_move gives to O playing at `p`. */
  function MoveScore(g: Grid, p: Pos): int {
    GameValue(Place(g, p.row, p.col, O), false)
  }

  // ---------------------------------------------------------------------
  // What alpha-beta promises

  /**
   * A search with window (alpha, beta) that returns `r` for a node of
   * true value `v`: a result at or below alpha only says v is at most
   * alpha, one at or above beta only says v is at least beta, and one
   * strictly inside the window is exact.
   */
  predicate Bounds(alpha: int, beta: int, r: int, v: int) {
    (r <= alpha ==> v <= alpha) && (r >= beta ==> v >= beta) && (alpha < r < beta ==> v == r)
  }

  /** One child of a maximising node, searched with the current alpha. */
  lemma MaxStep(alpha: int, beta: int, best: int, acc: int, s: int, vs: int)
    requires alpha < beta && Bounds(alpha, beta, best, acc)
    requires Max(alpha, best) < beta ==> Bounds(Max(alpha, best), beta, s, vs)
    ensures Bounds(alpha, beta, Max(s, best), Max(vs, acc))
  {
  }

  /** One child of a minimising node, searched with the current beta. */
  lemma MinStep(alpha: int, beta: int, best: int, acc: int, s: int, vs: int)
    requires alpha < beta && Bounds(alpha, beta, best, acc)
    requires alpha < Min(beta, best) ==> Bounds(alpha, Min(beta, best), s, vs)
    ensures Bounds(alpha, beta, Min(s, best), Min(vs, acc))
  {
  }

  /** Along a row, a maximising fold only rises and a minimising one only falls. */
  lemma {:induction false} RowRest(g: Grid, maximizing: bool, r: int, c: int)
    requires 0 <= r < 3 && 0 <= c <= 3
    ensures maximizing ==> CellsValue(g, maximizing, r, c) <= CellsValue(g, maximizing, r, 3)
    ensures !maximizing ==> CellsValue(g, maximizing, r, c) >= CellsValue(g, maximizing, r, 3)
    decreases 3 - c
  {
    if c < 3 {
      RowRest(g, maximizing, r, c + 1);
    }
  }

  /** O tries the empty cell (r, c): the fold over the row grows by that child. */
  lemma MaxCell(g: Grid, r: Coord, c: Coord, alpha: int, beta: int, best: int, score: int)
    requires g[r][c] == Empty
    requires alpha < beta && Bounds(alpha, beta, best, CellsValue(g, true, r, c))
    requires Max(alpha, best) < beta ==> Bounds(Max(alpha, best), beta, score, GameValue(Place(g, r, c, O), false))
    ensures Bounds(alpha, beta, Max(score, best), CellsValue(g, true, r, c + 1))
  {
    MaxStep(alpha, beta, best, CellsValue(g, true, r, c), score, GameValue(Place(g, r, c, O), false));
  }

  /** X tries the empty cell (r, c): the fold over the row shrinks by that child. */
  lemma MinCell(g: Grid, r: Coord, c: Coord, alpha: int, beta: int, best: int, score: int)
    requires g[r][c] == Empty
    requires alpha < beta && Bounds(alpha, beta, best, CellsValue(g, false, r, c))
    requires alpha < Min(beta, best) ==> Bounds(alpha, Min(beta, best), score, GameValue(Place(g, r, c, X), true))
    ensures Bounds(alpha, beta, Min(score, best), CellsValue(g, false, r, c + 1))
  {
    MinStep(alpha, beta, best, CellsValue(g, false, r, c), score, GameValue(Place(g, r, c, X), true));
  }

  /**
   * The break: once the best score so far has reached beta (for O) or
   * fallen to alpha (for X), skipping the rest of row r keeps the bound
   * for the whole row.
   */
  lemma Cutoff(g: Grid, maximizing: bool, r: int, c: int, alpha: int, beta: int, best: int)
    requires 0 <= r < 3 && 0 <= c <= 3 && alpha < beta
    requires Bounds(alpha, beta, best, CellsValue(g, maximizing, r, c))
    requires maximizing ==> beta <= best
    requires !maximizing ==> best <= alpha
    ensures Bounds(alpha, beta, best, RowsValue(g, maximizing, r + 1))
  {
    RowRest(g, maximizing, r, c);
  }

  // ---------------------------------------------------------------------
  // The search

  /**
   * minimax: the pruned search. It leaves the board as it found it,
   * scores finished games directly, always returns -1, 0 or 1, and for a
   * window alpha < beta keeps the promise of `Bounds` about the plain
   * minimax value; with the full window it returns that value exactly.
   * `depth` is passed down and never read, as in the game. The two
   * branches of the source, for O and for X to move, are the two methods
   * below.
   */
  method Minimax(board: array2<Cell>, depth: int, isMaximizing: bool, alpha: int, beta: int) returns (score: int)
    requires IsBoard(board)
    requires NegInf <= alpha && beta <= PosInf
    modifies board
    ensures Snapshot(board) == old(Snapshot(board))
    ensures -1 <= score <= 1
    ensures CheckWinner(Snapshot(board)) == Win(X) ==> score == -1
    ensures CheckWinner(Snapshot(board)) == Win(O) ==> score == 1
    ensures CheckWinner(Snapshot(board)) == Draw ==> score == 0
    ensures alpha < beta ==> Bounds(alpha, beta, score, GameValue(Snapshot(board), isMaximizing))
    ensures alpha == NegInf && beta == PosInf ==> score == GameValue(Snapshot(board), isMaximizing)
    decreases Empties(Snapshot(board)), 2
  {
    var winner := CheckWinner(Snapshot(board));
    if winner == Win(X) {
      return -1;
    } else if winner == Win(O) {
      return 1;
    } else if winner == Draw {
      return 0;
    }
    if isMaximizing {
      score := MaximizingSearch(board, depth, alpha, beta);
    } else {
      score := MinimizingSearch(board, depth, alpha, beta);
    }
  }

  /**
   * The `is_maximizing` branch of minimax on an unfinished board: O tries
   * every empty cell row by row; once beta <= alpha the rest of the row is
   * skipped, but the following rows are still entered.
   */
  method MaximizingSearch(board: array2<Cell>, depth: int, alpha: int, beta: int) returns (bestScore: int)
    requires IsBoard(board) && !Full(Snapshot(board))
    requires NegInf <= alpha && beta <= PosInf
    modifies board
    ensures Snapshot(board) == old(Snapshot(board))
    ensures -1 <= bestScore <= 1
    ensures alpha < beta ==> Bounds(alpha, beta, bestScore, RowsValue(Snapshot(board), true, 3))
    decreases Empties(Snapshot(board)), 1
  {
    ghost var g := Snapshot(board);
    bestScore := NegInf;
    var a := alpha;
    for r := 0 to 3
      invariant Snapshot(board) == g
      invariant bestScore == NegInf || -1 <= bestScore <= 1
      invariant bestScore == NegInf ==> NoEmptyBefore(g, r, 0)
      invariant a == Max(alpha, bestScore)
      invariant alpha < beta ==> Bounds(alpha, beta, bestScore, RowsValue(g, true, r))
    {
      for c := 0 to 3
        invariant Snapshot(board) == g
        invariant bestScore == NegInf || -1 <= bestScore <= 1
        invariant bestScore == NegInf ==> NoEmptyBefore(g, r, c)
        invariant a == Max(alpha, bestScore)
        invariant alpha < beta ==> Bounds(alpha, beta, bestScore, CellsValue(g, true, r, c))
      {
        if board[r, c] == Empty {
          var score := PlayAndUndo(board, depth + 1, r, c, true, a, beta);
          if alpha < beta {
            MaxCell(g, r, c, alpha, beta, bestScore, score);
          }
          bestScore := Max(score, bestScore);
          a := Max(a, score);
          if beta <= a {
            if alpha < beta {
              Cutoff(g, true, r, c + 1, alpha, beta, bestScore);
            }
            break;
          }
        }
      }
    }
  }

  /** The other branch of minimax: X to move, with the roles of alpha and beta swapped. */
  method MinimizingSearch(board: array2<Cell>, depth: int, alpha: int, beta: int) returns (bestScore: int)
    requires IsBoard(board) && !Full(Snapshot(board))
    requires NegInf <= alpha && beta <= PosInf
    modifies board
    ensures Snapshot(board) == old(Snapshot(board))
    ensures -1 <= bestScore <= 1
    ensures alpha < beta ==> Bounds(alpha, beta, bestScore, RowsValue(Snapshot(board), false, 3))
    decreases Empties(Snapshot(board)), 1
  {
    ghost var g := Snapshot(board);
    bestScore := PosInf;
    var b := beta;
    for r := 0 to 3
      invariant Snapshot(board) == g
      invariant bestScore == PosInf || -1 <= bestScore <= 1
      invariant bestScore == PosInf ==> NoEmptyBefore(g, r, 0)
      invariant b == Min(beta, bestScore)
      invariant alpha < beta ==> Bounds(alpha, beta, bestScore, RowsValue(g, false, r))
    {
      for c := 0 to 3
        invariant Snapshot(board) == g
        invariant bestScore == PosInf || -1 <= bestScore <= 1
        invariant bestScore == PosInf ==> NoEmptyBefore(g, r, c)
        invariant b == Min(beta, bestScore)
        invariant alpha < beta ==> Bounds(alpha, beta, bestScore, CellsValue(g, false, r, c))
      {
        if board[r, c] == Empty {
          var score := PlayAndUndo(board, depth + 1, r, c, false, alpha, b);
          if alpha < beta {
            MinCell(g, r, c, alpha, beta, bestScore, score);
          }
          bestScore := Min(score, bestScore);
          b := Min(b, score);
          if b <= alpha {
            if alpha < beta {
              Cutoff(g, false, r, c + 1, alpha, beta, bestScore);
            }
            break;
          }
        }
      }
    }
  }

  /**
   * The three steps both minimax and best_move take for an empty cell:
   * write the mover's mark, search the resulting position for the other
   * side, and write EMPTY back. `childDepth` is the depth argument of
   * that search.
   */
  method PlayAndUndo(board: array2<Cell>, childDepth: int, r: Coord, c: Coord, maximizing: bool, alpha: int, beta: int)
    returns (score: int)
    requires IsBoard(board) && board[r, c] == Empty
    requires NegInf <= alpha && beta <= PosInf
    modifies board
    ensures Snapshot(board) == old(Snapshot(board))
    ensures -1 <= score <= 1
    ensures alpha < beta ==> Bounds(alpha, beta, score, GameValue(Place(Snapshot(board), r, c, MarkOf(maximizing)), !maximizing))
    ensures alpha == NegInf && beta == PosInf ==> score == GameValue(Place(Snapshot(board), r, c, MarkOf(maximizing)), !maximizing)
    decreases Empties(Snapshot(board)), 0
  {
    ghost var g := Snapshot(board);
    CellsOf(board);
    board[r, c] := MarkOf(maximizing);
    SnapshotOf(board, Place(g, r, c, MarkOf(maximizing)));
    PlaceFills(g, r, c, MarkOf(maximizing));
    score := Minimax(board, childDepth, !maximizing, alpha, beta);
    CellsOf(board);
    board[r, c] := Empty;
    SnapshotOf(board, g);
  }

  // ---------------------------------------------------------------------
  // The root chooser

  /** `q` is a cell before (r, c) in row-major order. */
  predicate Before(q: Pos, r: int, c: int) {
    RowMajorBefore(q.row, q.col, r, c)
  }

  /**
   * `p` is the move best_move must pick: an empty cell whose score is the
   * largest over all empty cells, and the first such cell in row-major
   * order.
   */
  ghost predicate FirstBestMove(g: Grid, p: Pos) {
    && At(g, p) == Empty
    && (forall q :: At(g, q) == Empty ==> MoveScore(g, q) <= MoveScore(g, p))
    && (forall q :: At(g, q) == Empty && Precedes(q, p) ==> MoveScore(g, q) < MoveScore(g, p))
  }

  /**
   * best_move: O's move in hard mode. Every empty cell is scored by the
   * full-window search, and a new cell replaces the current choice only
   * on a strictly larger score. The board is left as it was; the result is
   * None exactly when the board is full.
   */
  method BestMove(board: array2<Cell>) returns (move: Option<Pos>)
    requires IsBoard(board)
    modifies board
    ensures Snapshot(board) == old(Snapshot(board))
    ensures move.None? <==> Full(Snapshot(board))
    ensures move.Some? ==> FirstBestMove(Snapshot(board), move.value)
  {
    ghost var g := Snapshot(board);
    var bestScore := NegInf;
    move := None;
    for r := 0 to 3
      invariant Snapshot(board) == g
      invariant move.None? <==> bestScore == NegInf
      invariant move.None? ==> NoEmptyBefore(g, r, 0)
      invariant move.Some? ==> Before(move.value, r, 0) && At(g, move.value) == Empty && bestScore == MoveScore(g, move.value)
      invariant move.Some? ==> forall q :: Before(q, r, 0) && At(g, q) == Empty ==> MoveScore(g, q) <= bestScore
      invariant move.Some? ==> forall q :: Precedes(q, move.value) && At(g, q) == Empty ==> MoveScore(g, q) < bestScore
    {
      for c := 0 to 3
        invariant Snapshot(board) == g
        invariant move.None? <==> bestScore == NegInf
        invariant move.None? ==> NoEmptyBefore(g, r, c)
        invariant move.Some? ==> Before(move.value, r, c) && At(g, move.value) == Empty && bestScore == MoveScore(g, move.value)
        invariant move.Some? ==> forall q :: Before(q, r, c) && At(g, q) == Empty ==> MoveScore(g, q) <= bestScore
        invariant move.Some? ==> forall q :: Precedes(q, move.value) && At(g, q) == Empty ==> MoveScore(g, q) < bestScore
      {
        if board[r, c] == Empty {
          var score := PlayAndUndo(board, 0, r, c, true, NegInf, PosInf);
          assert score == MoveScore(g, Pos(r, c));
          if score > bestScore {
            bestScore := score;
            move := Some(Pos(r, c));
          }
        }
      }
    }
    assert forall q :: Before(q, 3, 0);
  }

  /**
   * With O to move, the fold of plain minimax over the cells before (r, c)
   * is the largest score best_move sees among those cells.
   */
  lemma {:induction false} CellsValueIsBestScore(g: Grid, r: int, c: int)
    requires 0 <= r < 3 && 0 <= c <= 3
    ensures forall q :: Before(q, r, c) && At(g, q) == Empty ==> MoveScore(g, q) <= CellsValue(g, true, r, c)
    ensures CellsValue(g, true, r, c) != NegInf ==>
      exists q :: Before(q, r, c) && At(g, q) == Empty && MoveScore(g, q) == CellsValue(g, true, r, c)
    decreases r, c
  {
    if c == 0 {
      if r > 0 {
        CellsValueIsBestScore(g, r - 1, 3);
        assert forall q :: Before(q, r, 0) <==> Before(q, r - 1, 3);
      }
    } else {
      CellsValueIsBestScore(g, r, c - 1);
      assert forall q :: Before(q, r, c) <==> Before(q, r, c - 1) || q == Pos(r, c - 1);
      if g[r][c - 1] == Empty {
        assert MoveScore(g, Pos(r, c - 1)) == GameValue(Place(g, r, c - 1, MarkOf(true)), false);
      }
    }
  }

  /** On an unfinished board, the move best_move picks scores the minimax value of the board. */
  lemma BestMoveAchievesGameValue(g: Grid, p: Pos)
    requires CheckWinner(g).Undecided? && FirstBestMove(g, p)
    ensures MoveScore(g, p) == GameValue(g, true)
  {
    CellsValueIsBestScore(g, 2, 3);
    assert GameValue(g, true) == CellsValue(g, true, 2, 3);
    assert At(g, p) == Empty && Before(p, 2, 3);
  }
}
