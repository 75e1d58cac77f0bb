/**
 * The tic-tac-toe board of codsoft_ai_2/Tic-tac-toe/main.py: its cells,
 * the terminal-state evaluator, the player's guarded move and the
 * easy-mode random move.
 *
 * The game keeps one mutable 3x3 board; here it is an `array2<Cell>`, and
 * the functions that only read it work on a `Grid` value taken from it by
 * `Snapshot`.
 */
module TicTacToe {
  import opened Wrappers

  /** The three cell values: PLAYER_X 'X', PLAYER_O 'O' and EMPTY ' '. */
  datatype Cell = X | O | Empty

  /** A row or column index of the board, which is GRID_SIZE = 3 cells wide and high. */
  type Coord = i: int | 0 <= i < 3

  /** A move, the pair (row, column) the game passes around. */
  datatype Pos = Pos(row: Coord, col: Coord)

  /** A board value: three rows of three cells. */
  type Grid = g: seq<seq<Cell>> | |g| == 3 && forall r :: 0 <= r < 3 ==> |g[r]| == 3
    witness [[Empty, Empty, Empty], [Empty, Empty, Empty], [Empty, Empty, Empty]]

  const EmptyGrid: Grid := [[Empty, Empty, Empty], [Empty, Empty, Empty], [Empty, Empty, Empty]]

  /** The shape every board of the game has. */
  predicate IsBoard(board: array2<Cell>) {
    board.Length0 == 3 && board.Length1 == 3
  }

  /** The contents of a board, row by row. */
  function Snapshot(board: array2<Cell>): Grid
    requires IsBoard(board)
    reads board
  {
    [[board[0, 0], board[0, 1], board[0, 2]],
     [board[1, 0], board[1, 1], board[1, 2]],
     [board[2, 0], board[2, 1], board[2, 2]]]
  }

  function At(g: Grid, p: Pos): Cell {
    g[p.row][p.col]
  }

  /** The board `g` with `m` written into cell (r, c). */
  function Place(g: Grid, r: Coord, c: Coord, m: Cell): Grid {
    g[r := g[r][c := m]]
  }

  /** No cell is empty. */
  predicate Full(g: Grid) {
    forall r, c :: 0 <= r < 3 && 0 <= c < 3 ==> g[r][c] != Empty
  }

  /**
   * Row-major order, the order in which the game's nested `for r` / `for c`
   * loops visit the cells: cell (i, j) comes strictly before (r, c).
   * Position (r, 3) stands for the start of row r + 1.
   */
  predicate RowMajorBefore(i: int, j: int, r: int, c: int) {
    i < r || (i == r && j < c)
  }

  /** `p` comes strictly before `q` in row-major order. */
  predicate Precedes(p: Pos, q: Pos) {
    RowMajorBefore(p.row, p.col, q.row, q.col)
  }

  /** The number of empty cells, which every placed mark lowers. */
  function Empties(g: Grid): nat {
    EmptyCount(g[0]) + EmptyCount(g[1]) + EmptyCount(g[2])
  }

  function EmptyCount(row: seq<Cell>): nat
    requires |row| == 3
  {
    (if row[0] == Empty then 1 else 0) + (if row[1] == Empty then 1 else 0) + (if row[2] == Empty then 1 else 0)
  }

  lemma PlaceFills(g: Grid, r: Coord, c: Coord, m: Cell)
    requires g[r][c] == Empty && m != Empty
    ensures Empties(Place(g, r, c, m)) == Empties(g) - 1
  {
  }

  /** Clearing a cell that was just filled gives back the board it was filled on. */
  lemma PlaceUndo(g: Grid, r: Coord, c: Coord, m: Cell)
    requires g[r][c] == Empty
    ensures Place(Place(g, r, c, m), r, c, Empty) == g
  {
    var h := Place(Place(g, r, c, m), r, c, Empty);
    assert h[r] == g[r];
    assert h[0] == g[0] && h[1] == g[1] && h[2] == g[2];
  }

  /** initialize_board: a fresh 3x3 board whose every cell is EMPTY. */
  method InitializeBoard() returns (board: array2<Cell>)
    ensures fresh(board) && IsBoard(board)
    ensures Snapshot(board) == EmptyGrid
  {
    board := new Cell[3, 3]((_, _) => Empty);
  }

  // ---------------------------------------------------------------------
  // check_winner

  /** What check_winner reports: a winning mark, 'Draw', or None. */
  datatype Verdict = Win(mark: Cell) | Draw | Undecided

  /** Three equal cells that are not empty: `a == b == c != EMPTY`. */
  predicate Three(a: Cell, b: Cell, c: Cell) {
    a == b && b == c && c != Empty
  }

  /**
   * check_winner: rows 0..2, then columns 0..2, then the main diagonal,
   * then the anti-diagonal; the first complete line gives its mark, and
   * only when none is complete does a full board count as a draw.
   */
  function CheckWinner(g: Grid): (v: Verdict)
    ensures v.Win? ==> v.mark != Empty
    ensures v.Draw? ==> Full(g)
    ensures v.Undecided? ==> !Full(g)
  {
    if Three(g[0][0], g[0][1], g[0][2]) then Win(g[0][0])
    else if Three(g[1][0], g[1][1], g[1][2]) then Win(g[1][0])
    else if Three(g[2][0], g[2][1], g[2][2]) then Win(g[2][0])
    else if Three(g[0][0], g[1][0], g[2][0]) then Win(g[0][0])
    else if Three(g[0][1], g[1][1], g[2][1]) then Win(g[0][1])
    else if Three(g[0][2], g[1][2], g[2][2]) then Win(g[0][2])
    else if Three(g[0][0], g[1][1], g[2][2]) then Win(g[0][0])
    else if Three(g[0][2], g[1][1], g[2][0]) then Win(g[0][2])
    else if Full(g) then Draw
    else Undecided
  }

  /** A line of three cells, named by its first, middle and last cell. */
  datatype Line = Line(a: Pos, b: Pos, c: Pos)

  /** The eight lines of the board, in the order the game scans them. */
  const ScanOrder: seq<Line> := [
    Line(Pos(0, 0), Pos(0, 1), Pos(0, 2)),
    Line(Pos(1, 0), Pos(1, 1), Pos(1, 2)),
    Line(Pos(2, 0), Pos(2, 1), Pos(2, 2)),
    Line(Pos(0, 0), Pos(1, 0), Pos(2, 0)),
    Line(Pos(0, 1), Pos(1, 1), Pos(2, 1)),
    Line(Pos(0, 2), Pos(1, 2), Pos(2, 2)),
    Line(Pos(0, 0), Pos(1, 1), Pos(2, 2)),
    Line(Pos(0, 2), Pos(1, 1), Pos(2, 0))
  ]

  predicate Completed(g: Grid, l: Line) {
    Three(At(g, l.a), At(g, l.b), At(g, l.c))
  }

  /** The verdict is the mark of the first completed line in scan order. */
  lemma WinnerIsFirstCompletedLine(g: Grid, i: int)
    requires 0 <= i < |ScanOrder| && Completed(g, ScanOrder[i])
    requires forall j :: 0 <= j < i ==> !Completed(g, ScanOrder[j])
    ensures CheckWinner(g) == Win(At(g, ScanOrder[i].a))
  {
    if i > 0 { assert !Completed(g, ScanOrder[0]); }
    if i > 1 { assert !Completed(g, ScanOrder[1]); }
    if i > 2 { assert !Completed(g, ScanOrder[2]); }
    if i > 3 { assert !Completed(g, ScanOrder[3]); }
    if i > 4 { assert !Completed(g, ScanOrder[4]); }
    if i > 5 { assert !Completed(g, ScanOrder[5]); }
    if i > 6 { assert !Completed(g, ScanOrder[6]); }
  }

  /** With no completed line, a full board is a draw and any other is undecided. */
  lemma NoLineNoWinner(g: Grid)
    requires forall i :: 0 <= i < |ScanOrder| ==> !Completed(g, ScanOrder[i])
    ensures CheckWinner(g) == if Full(g) then Draw else Undecided
  {
    assert !Completed(g, ScanOrder[0]) && !Completed(g, ScanOrder[1]);
    assert !Completed(g, ScanOrder[2]) && !Completed(g, ScanOrder[3]);
    assert !Completed(g, ScanOrder[4]) && !Completed(g, ScanOrder[5]);
    assert !Completed(g, ScanOrder[6]) && !Completed(g, ScanOrder[7]);
  }

  /** A win is reported only when some line is complete, and then with that line's mark. */
  lemma WinHasCompletedLine(g: Grid)
    requires CheckWinner(g).Win?
    ensures exists i :: 0 <= i < |ScanOrder| && Completed(g, ScanOrder[i]) && CheckWinner(g).mark == At(g, ScanOrder[i].a)
  {
    var i :| 0 <= i < |ScanOrder| && Completed(g, ScanOrder[i]) && forall j :: 0 <= j < i ==> !Completed(g, ScanOrder[j]) by {
      if forall i :: 0 <= i < |ScanOrder| ==> !Completed(g, ScanOrder[i]) {
        NoLineNoWinner(g);
        assert false;
      }
      FirstCompleted(g, 0);
    }
    WinnerIsFirstCompletedLine(g, i);
  }

  /** Some completed line at or after `k` gives a first completed line. */
  lemma {:induction false} FirstCompleted(g: Grid, k: nat)
    requires k <= |ScanOrder|
    requires forall j :: 0 <= j < k ==> !Completed(g, ScanOrder[j])
    requires exists i :: k <= i < |ScanOrder| && Completed(g, ScanOrder[i])
    ensures exists i :: 0 <= i < |ScanOrder| && Completed(g, ScanOrder[i]) && forall j :: 0 <= j < i ==> !Completed(g, ScanOrder[j])
    decreases |ScanOrder| - k
  {
    if !Completed(g, ScanOrder[k]) {
      FirstCompleted(g, k + 1);
    }
  }

  // ---------------------------------------------------------------------
  // handle_move

  /** The cells of a board are the entries of its contents ... */
  lemma CellsOf(board: array2<Cell>)
    requires IsBoard(board)
    ensures forall i, j :: 0 <= i < 3 && 0 <= j < 3 ==> board[i, j] == Snapshot(board)[i][j]
  {
  }

  /** ... and a board whose cells are the entries of `h` has contents `h`. */
  lemma SnapshotOf(board: array2<Cell>, h: Grid)
    requires IsBoard(board)
    requires forall i, j :: 0 <= i < 3 && 0 <= j < 3 ==> board[i, j] == h[i][j]
    ensures Snapshot(board) == h
  {
    var s := Snapshot(board);
    assert s[0] == h[0] && s[1] == h[1] && s[2] == h[2];
  }

  /**
   * handle_move: on an empty cell, write the current player's mark and
   * report success; on an occupied cell change nothing and report failure.
   */
  method HandleMove(row: int, col: int, board: array2<Cell>, currentPlayer: Cell) returns (placed: bool)
    requires IsBoard(board)
    requires 0 <= row < 3 && 0 <= col < 3
    modifies board
    ensures placed == (old(board[row, col]) == Empty)
    ensures Snapshot(board) == if placed then Place(old(Snapshot(board)), row, col, currentPlayer) else old(Snapshot(board))
  {
    if board[row, col] == Empty {
      ghost var g := Snapshot(board);
      CellsOf(board);
      board[row, col] := currentPlayer;
      SnapshotOf(board, Place(g, row, col, currentPlayer));
      return true;
    }
    return false;
  }

  // ---------------------------------------------------------------------
  // random_move

  /** `p` is cell (r, c) or comes after it in row-major order. */
  predicate FromOn(p: Pos, r: int, c: int) {
    !RowMajorBefore(p.row, p.col, r, c)
  }

  /** The empty cells from (r, c) on, in row-major order (`c == 3` starts the next row). */
  function MovesFrom(g: Grid, r: int, c: int): (ms: seq<Pos>)
    requires 0 <= r <= 3 && 0 <= c <= 3
    ensures forall p :: p in ms <==> FromOn(p, r, c) && At(g, p) == Empty
    ensures forall i, j :: 0 <= i < j < |ms| ==> Precedes(ms[i], ms[j])
    decreases 3 - r, 3 - c
  {
    if r == 3 then []
    else if c == 3 then MovesFrom(g, r + 1, 0)
    else
      var rest := MovesFrom(g, r, c + 1);
      if g[r][c] == Empty then
        assert forall q :: q in rest ==> Precedes(Pos(r, c), q);
        [Pos(r, c)] + rest
      else rest
  }

  /** The `available_moves` list of random_move: every empty cell, row-major. */
  function AvailableMoves(g: Grid): (ms: seq<Pos>)
    ensures forall p :: p in ms <==> At(g, p) == Empty
    ensures forall i, j :: 0 <= i < j < |ms| ==> Precedes(ms[i], ms[j])
  {
    MovesFrom(g, 0, 0)
  }

  /**
   * random_move: None when no cell is empty, otherwise one of the empty
   * cells; `choice` is the number random.choice draws.
   */
  function RandomMove(g: Grid, choice: nat): (m: Option<Pos>)
    ensures m.None? <==> Full(g)
    ensures m.Some? ==> At(g, m.value) == Empty
  {
    var moves := AvailableMoves(g);
    if |moves| == 0 then
      assert forall r: Coord, c: Coord :: Pos(r, c) !in moves;
      None
    else
      assert moves[0] in moves;
      Some(moves[choice % |moves|])
  }

  /** Every empty cell is a possible outcome of random_move. */
  lemma RandomMoveReachesEveryEmptyCell(g: Grid, p: Pos)
    requires At(g, p) == Empty
    ensures exists choice: nat :: RandomMove(g, choice) == Some(p)
  {
    var moves := AvailableMoves(g);
    assert p in moves;
    var i :| 0 <= i < |moves| && moves[i] == p;
    SmallRemainder(i, |moves|);
    assert RandomMove(g, i) == Some(p);
  }

  lemma SmallRemainder(i: nat, n: nat)
    requires i < n
    ensures i % n == i
  {
  }

  /** With exactly one empty cell, random_move always returns it. */
  lemma RandomMoveSingleChoice(g: Grid, p: Pos, choice: nat)
    requires At(g, p) == Empty
    requires forall q :: At(g, q) == Empty ==> q == p
    ensures RandomMove(g, choice) == Some(p)
  {
    var moves := AvailableMoves(g);
    assert p in moves;
    forall i | 0 <= i < |moves| ensures moves[i] == p {
      assert moves[i] in moves;
    }
    assert |moves| >= 2 ==> Precedes(moves[0], moves[1]);
  }
}
