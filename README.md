# Tic-tac-toe and college chatbot, modelled in Dafny

This project models the logic of two small Python programs and proves properties of it.

**Tic-tac-toe** (`codsoft_ai_2/Tic-tac-toe/main.py`). A human plays X against the computer, which plays O. The game keeps one mutable 3×3 board and passes it to free functions:

- `initialize_board` creates the board;
- `check_winner` judges it, giving a winning mark, `'Draw'` or `None`;
- `handle_move` places the player's mark on an empty cell;
- `random_move` is the easy-mode opponent;
- `minimax` is the hard-mode search, with alpha-beta pruning. It places a mark, recurses, and clears the cell again;
- `best_move` is the root chooser, which keeps the first move with a strictly better score.

**How the model represents it:**

- The board is an `array2<Cell>`, and the functions that change it are methods with `modifies board`. The source has no class, so there is none here.
- Functions that only read the board work on a `Grid` value, a 3×3 `seq<seq<Cell>>`, taken from the array by `TicTacToe.Snapshot`.
- The specification of the search is plain minimax without pruning, `Search.GameValue`. Its helpers `RowsValue` and `CellsValue` fold over the cells in the same nested row and column order as the loops.
- For every window with alpha < beta, the pruned search is proved to keep the alpha-beta promise `Search.Bounds`. A result at or below alpha means the true value is at most alpha. A result at or above beta means it is at least beta. A result strictly inside the window is the true value. With the full window, which is how `best_move` calls it, the search returns exactly the `GameValue`.
- `depth` goes up by one at each level and is never read, as in the source.
- Row-major order, the order of the nested `for r` / `for c` loops, is defined once as `TicTacToe.RowMajorBefore`. `Precedes`, `FromOn`, `Search.NoEmptyBefore` and `Search.Before` are all stated through it.
- Helpers without a row in the table:
  - `TicTacToe.Three` is the test `a == b == c != EMPTY` of `check_winner`.
  - `Search.Score` maps a finished game to 1, -1 or 0, as `minimax` does at main.py:76-81.
  - `ChatBot.Lower` and `ChatBot.LowerChar` model `str.lower()` (chat_bot.py:14) on ASCII.
  - `ChatBot.Contains` and `ChatBot.OccursAt` model Python's substring test `keyword in text` (chat_bot.py:15-23).
- The `break` in `minimax` leaves only the column loop, exactly as in the source. The outer loop still enters the later rows after a cutoff.

**College chatbot** (`codsoft_ai_1/chat_bot/chat_bot.py`):

- `chatbot_response` greets a user by name with a remark chosen by age band.
- `college_queries` lower-cases a question and answers for the first of five keywords it contains, or apologises.

Both are pure functions here.

Files:

- `wrappers.dfy`: `Option`.
- `tictactoe.dfy`: board, `check_winner`, `handle_move`, `random_move`.
- `search.dfy`: `minimax`, `best_move`.
- `chatbot.dfy`: the chatbot.

## Model

| member | source | states |
|---|---|---|
| TicTacToe.InitializeBoard | codsoft_ai_2/Tic-tac-toe/main.py:29-30 | a new GRID_SIZE × GRID_SIZE board whose every cell is EMPTY |
| TicTacToe.CheckWinner | codsoft_ai_2/Tic-tac-toe/main.py:34-47 | a reported winner is never EMPTY; 'Draw' only on a full board; None only on a board with an empty cell |
| TicTacToe.WinnerIsFirstCompletedLine | codsoft_ai_2/Tic-tac-toe/main.py:34-44 | when line i is the first completed one in the scan order (rows, columns, main diagonal, anti-diagonal), the verdict is that line's mark, even on a full board |
| TicTacToe.NoLineNoWinner | codsoft_ai_2/Tic-tac-toe/main.py:45-47 | with no completed line, a full board is a draw and any other board is undecided |
| TicTacToe.WinHasCompletedLine | codsoft_ai_2/Tic-tac-toe/main.py:34-44 | a win is reported only if some line is completed, and the reported mark is that line's |
| TicTacToe.FirstCompleted | codsoft_ai_2/Tic-tac-toe/main.py:35-44 | if any line is completed, there is a first completed line in the scan order |
| TicTacToe.HandleMove | codsoft_ai_2/Tic-tac-toe/main.py:128-132 | returns True exactly when the cell was EMPTY; then the board is the old board with that one cell set to the player's mark, otherwise the board is unchanged |
| TicTacToe.PlaceUndo | codsoft_ai_2/Tic-tac-toe/main.py:88-90 | writing a mark on an empty cell and then writing EMPTY back restores the board |
| TicTacToe.PlaceFills | codsoft_ai_2/Tic-tac-toe/main.py:87-88 | placing a mark on an empty cell removes exactly one empty cell |
| TicTacToe.MovesFrom | codsoft_ai_2/Tic-tac-toe/main.py:69 | lists exactly the empty cells at or after (r, c) in row-major order, in that order |
| TicTacToe.AvailableMoves | codsoft_ai_2/Tic-tac-toe/main.py:69 | lists exactly the empty cells of the board, in row-major order |
| TicTacToe.RandomMove | codsoft_ai_2/Tic-tac-toe/main.py:68-70 | None exactly when the board is full; otherwise an empty cell |
| TicTacToe.RandomMoveReachesEveryEmptyCell | codsoft_ai_2/Tic-tac-toe/main.py:69-70 | every empty cell is the result of some choice |
| TicTacToe.RandomMoveSingleChoice | codsoft_ai_2/Tic-tac-toe/main.py:69-70 | with one empty cell left, every choice returns that cell |
| Search.GameValue | codsoft_ai_2/Tic-tac-toe/main.py:74-108 | the unpruned minimax value of a board is -1, 0 or 1 |
| Search.RowsValue | codsoft_ai_2/Tic-tac-toe/main.py:85-95 | the fold over rows 0..r-1 is a score, or the starting sentinel exactly when those rows have no empty cell |
| Search.CellsValue | codsoft_ai_2/Tic-tac-toe/main.py:86-91 | the fold over the cells before (r, c) is a score, or the starting sentinel exactly when those cells are all occupied |
| Search.MaxStep | codsoft_ai_2/Tic-tac-toe/main.py:89-94 | one child searched with alpha raised to the best score so far keeps the alpha-beta promise for the maximiser |
| Search.MinStep | codsoft_ai_2/Tic-tac-toe/main.py:102-107 | one child searched with beta lowered to the best score so far keeps the alpha-beta promise for the minimiser |
| Search.MaxCell | codsoft_ai_2/Tic-tac-toe/main.py:87-92 | O trying one more empty cell extends the row's fold, and the alpha-beta bounds for that longer fold still hold |
| Search.MinCell | codsoft_ai_2/Tic-tac-toe/main.py:100-105 | X trying one more empty cell extends the row's fold, and the alpha-beta bounds for that longer fold still hold |
| Search.Cutoff | codsoft_ai_2/Tic-tac-toe/main.py:93-94 | once the best score has reached beta (for O) or alpha (for X), breaking out of the row keeps the bounds for the whole row |
| Search.RowRest | codsoft_ai_2/Tic-tac-toe/main.py:93-94 | cells skipped by the break can only raise the maximiser's value (lower the minimiser's), so a cutoff bound stays valid |
| Search.Minimax | codsoft_ai_2/Tic-tac-toe/main.py:74-108 | board unchanged; result in {-1, 0, 1}; -1, 1, 0 when X has won, O has won, or it is a draw; for alpha < beta the alpha-beta bounds `Bounds` against plain minimax; with the full window exactly the plain minimax value |
| Search.MaximizingSearch | codsoft_ai_2/Tic-tac-toe/main.py:83-95 | board unchanged; result in {-1, 0, 1}; alpha-beta bounds against O's best child value |
| Search.MinimizingSearch | codsoft_ai_2/Tic-tac-toe/main.py:96-108 | board unchanged; result in {-1, 0, 1}; alpha-beta bounds against X's best child value |
| Search.PlayAndUndo | codsoft_ai_2/Tic-tac-toe/main.py:88-90 | board unchanged after placing, searching and clearing; the score keeps the alpha-beta bounds against the child position's minimax value |
| Search.BestMove | codsoft_ai_2/Tic-tac-toe/main.py:112-124 | board unchanged; None exactly when the board is full; otherwise an empty cell whose score is maximal over all empty cells, and strictly above that of every earlier empty cell |
| Search.CellsValueIsBestScore | codsoft_ai_2/Tic-tac-toe/main.py:115-123 | the maximiser's fold over the cells before (r, c) bounds every move score there, and is attained by one of those moves |
| Search.BestMoveAchievesGameValue | codsoft_ai_2/Tic-tac-toe/main.py:112-124 | on an unfinished board the chosen move scores the minimax value of the board |
| ChatBot.ChatbotResponse | codsoft_ai_1/chat_bot/chat_bot.py:4-10 | a reply always exists and begins "Hello, " + name + "!" |
| ChatBot.ResponseNamesBand | codsoft_ai_1/chat_bot/chat_bot.py:5-10 | the reply ends with the under-18 remark iff age < 18, the prime-age remark iff 18 <= age <= 25, the experience remark iff age > 25 |
| ChatBot.CollegeQueries | codsoft_ai_1/chat_bot/chat_bot.py:13-26 | the reply is one of the five answers or the fallback |
| ChatBot.QueryPriority | codsoft_ai_1/chat_bot/chat_bot.py:15-24 | the earliest keyword (admission, course, fees, campus, location) the lower-cased input contains decides the answer |
| ChatBot.QueryFallback | codsoft_ai_1/chat_bot/chat_bot.py:25-26 | an input with none of the keywords gets the fallback |
| ChatBot.LowerIdempotent | codsoft_ai_1/chat_bot/chat_bot.py:14 | lower-casing twice equals lower-casing once |
| ChatBot.QueryIgnoresCase | codsoft_ai_1/chat_bot/chat_bot.py:14 | an input and its lower-cased form get the same reply |
| ChatBot.CoursesQuestion | codsoft_ai_1/chat_bot/chat_bot.py:17 | "Courses?" gets the course answer, since matching is by substring |

## Left out

- Rendering, window setup and event handling in pygame are not modelled. This covers `draw_grid`, `draw_move`, the difficulty and end screens, and `game_loop`, which turns clicks into cells and restarts itself. These are user interface.
- The Streamlit page of the chatbot is not modelled. It is user interface.
- `random.choice` becomes a caller-supplied `choice: nat` that indexes the available moves modulo their number. How likely each move is cannot be expressed here.
- `float('inf')` and `-float('inf')` become the integers 2 and -2. They serve only as sentinels next to scores in {-1, 0, 1}, so every comparison comes out the same.
- TicTacToe.HandleMove: requires the row and column to be in 0..2. Python's negative indices and `IndexError` are not modelled.
- Search.Minimax: requires the window to lie within [-2, 2]. Every call in the game does. The bounds are claimed only for alpha < beta. A call with alpha >= beta happens only after a cutoff, in a later row. Its score is still folded into `best_score` and into `alpha` (or `beta`), and so can change what the node returns. It can only push the result further past the bound already reached, so `Bounds` still holds for the node.
- Search.Minimax: its two branches are the methods MaximizingSearch and MinimizingSearch. The steps they share with best_move, placing a mark, recursing and clearing the cell, are the method PlayAndUndo. The reads and writes of the board are the same as in the source.
- No other game-theoretic facts are proved, such as O never losing from the empty board or the value of the empty board.
- Lower-casing covers ASCII letters only. Unicode case mapping is not modelled.
- `chatbot_response` has an implicit `None` for an age in no band. It is modelled as `Option`, and the model shows that no integer age reaches that case.
