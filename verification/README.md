# Tic-tac-toe minimax and alpha-beta engine, modelled in Dafny

This project models the game engine of a 3x3 tic-tac-toe AI
(`Tic-tac-toe-CR-034.py`). The engine has three parts:

- **Board** (the `Game` class). It has nine cells, each empty, `X` (the AI) or
  `O` (the human). It offers a win test over eight fixed index triples, a draw
  test, ascending legal-move generation, a guarded `make_move`, an
  unconditional `undo_move`, and `game_over`.
- **Search**. `minimax` scores terminal boards by depth: an AI win scores
  `10 - depth`, a human win `depth - 10`, and a draw `0`. `alphabeta` is the
  same search with fail-soft pruning and a hard `beta <= alpha` cutoff.
- **Move selection** (`get_best_move`). It runs one ply of search for the AI
  over the legal moves in ascending order. A move replaces the best so far
  only when its score is strictly greater.

The project has five modules:

- `Board` (`board.dfy`) models the board as an immutable nine-cell sequence.
  A move is the functional update `b[m := p]`.
- `Search` (`search.dfy`) holds pure recursive `Minimax` and `AlphaBeta`. The
  `for` loops of `minimax` and the `for ... break` loops of `alphabeta` become
  scan functions that walk the remaining move list and carry the accumulator
  and the alpha/beta window. Recursion
  terminates because the number of empty cells drops by one per ply.
- `MoveSelect` (`select.dfy`) models `get_best_move`.
- `InPlace` (`inplace.dfy`) models the engine as `minimax`, `alphabeta` and
  `get_best_move` run it: one array-backed board, mutated by make/undo around
  every recursive call. Its `Game` constructor, like `Game.__init__`, starts
  with all nine cells empty (`Cells() == EmptyBoard`). Each search method
  (`MinimaxInPlace`, `AlphaBetaInPlace`, their four loops,
  `ScoreMoveInPlace`, `GetBestMoveInPlace`) is proved to return the pure
  model's value and to leave the cells as it found them, including after
  alpha-beta's early `break`; `Game.MakeMove` and `Game.UndoMove` are proved
  to agree with the pure `make_move` and `undo_move`.
- `Wrappers` (`wrappers.dfy`) holds `Option`, used for the "no move" result.

The central theorem is `Search.AlphaBetaEqualsMinimax`: alpha-beta started
from the open window returns the minimax value. It follows from the fail-soft
window lemma. As a consequence, `MoveSelect.GetBestMoveSameEitherWay` shows
that both values of `use_alpha_beta` choose the same move.

## Model

| member | source | states |
|---|---|---|
| Board.IsWinnerIffThreeInARow | Tic-tac-toe-CR-034.py:22-28 | `is_winner(p)` holds exactly when `p` fills a whole row, column or diagonal of the 3x3 grid, so the eight listed index triples are exactly the grid's lines |
| Board.GameOverIff | Tic-tac-toe-CR-034.py:30-46 | `game_over` holds iff a side has won or no legal move is left; a board that is not over always has a legal move |
| Board.GetMoves | Tic-tac-toe-CR-034.py:33-34 | the moves are strictly ascending (so duplicate-free), contain exactly the empty cells, and number as many as the empty cells |
| Board.MovesBelow | Tic-tac-toe-CR-034.py:33-34 | after scanning the first `k` cells, the list is ascending and holds exactly the empty cells below `k`, as many as there are |
| Board.MakeMove | Tic-tac-toe-CR-034.py:36-40 | accepted iff the cell is empty; when accepted only that cell changes, to the player; when refused the board is unchanged; an accepted move by a player uses up one empty cell |
| Board.UndoMove | Tic-tac-toe-CR-034.py:42-43 | the cell becomes empty and every other cell is kept |
| Board.UndoAfterMake | Tic-tac-toe-CR-034.py:36-43 | undoing an accepted move restores the original board |
| Board.LegalMoveRoundTrip | Tic-tac-toe-CR-034.py:59-62 | every move drawn from `get_moves` is accepted by `make_move`, and `undo_move` then restores the board |
| Search.TerminalScoring | Tic-tac-toe-CR-034.py:49-55 | a board has a terminal score iff `game_over` holds; an AI win gives `10 - depth` and is checked first, then a human win gives `depth - 10`, then a draw gives 0 |
| Search.MaxScan | Tic-tac-toe-CR-034.py:57-64 | the maximising loop returns at least its start value and at least every child's score |
| Search.MaxScanAttained | Tic-tac-toe-CR-034.py:57-64 | the maximising loop returns either its start value or the score of one of the moves it tried |
| Search.MinScan | Tic-tac-toe-CR-034.py:65-72 | the minimising loop returns at most its start value and at most every child's score |
| Search.MinScanAttained | Tic-tac-toe-CR-034.py:65-72 | the minimising loop returns either its start value or the score of one of the moves it tried |
| Search.ScoreBounds | Tic-tac-toe-CR-034.py:49-72 | with at most `10 - depth` plies left, every minimax score lies in `[depth - 10, 10 - depth]`; from depth 0 it lies in [-10, 10], so the infinite initialisers are never returned |
| Search.NonTerminalBounds | Tic-tac-toe-CR-034.py:57-72 | a board that is not over scores within `[depth - 9, 9 - depth]`, so a score of 10 or -10 only comes from a finished board at depth 0 |
| Search.MinimaxIsBestChild | Tic-tac-toe-CR-034.py:57-72 | at a node that is not over, minimax is the maximum (maximising) or minimum (minimising) of its children's scores at `depth + 1`, and some legal move attains it |
| Search.ChildFailSoft | Tic-tac-toe-CR-034.py:86-87 | the score alpha-beta gives a child, searched with the current window, keeps the fail-soft relation with that child's minimax score |
| Search.AlphaBetaFailSoft | Tic-tac-toe-CR-034.py:75-104 | for any window inside the sentinels, a result inside the window equals the minimax value; a result at or below alpha bounds it from above; a result at or above beta bounds it from below |
| Search.AbMaxScanFailSoft | Tic-tac-toe-CR-034.py:83-93 | the maximising alpha-beta loop, with its early break, keeps the fail-soft relation with the maximising minimax loop |
| Search.AbMinScanFailSoft | Tic-tac-toe-CR-034.py:94-104 | the minimising alpha-beta loop, with its early break, keeps the fail-soft relation with the minimising minimax loop |
| Search.AlphaBetaWindow | Tic-tac-toe-CR-034.py:75-104 | a minimax value strictly inside (alpha, beta) is returned exactly; otherwise the result lies on the same side of the window as the value |
| Search.AlphaBetaEqualsMinimax | Tic-tac-toe-CR-034.py:75-104 | from alpha = -inf and beta = +inf, alpha-beta returns the same score as minimax for the same board, depth and side |
| MoveSelect.BestScan | Tic-tac-toe-CR-034.py:111-121 | the selection loop's score bounds every move tried; unless nothing beat the start, its move is the first listed move reaching that score, with every earlier move scoring strictly less |
| MoveSelect.ScanPicksFirstMaximum | Tic-tac-toe-CR-034.py:108-123 | scanning an ascending, non-empty move list from -inf picks a listed move of maximal score that beats every smaller index |
| MoveSelect.MoveValueBounds | Tic-tac-toe-CR-034.py:112-117 | every legal move scores within [-10, 10], and both searches give it the same score |
| MoveSelect.GetBestMove | Tic-tac-toe-CR-034.py:107-123 | returns None iff there is no legal move; otherwise an empty cell whose score is maximal over all empty cells, and the lowest such index, because only a strictly greater score replaces the best |
| MoveSelect.GetBestMoveSameEitherWay | Tic-tac-toe-CR-034.py:113-116 | `get_best_move` returns the same move for either value of `use_alpha_beta` |
| MoveSelect.MoveValueOfWin | Tic-tac-toe-CR-034.py:49-51 | a legal move scores 10 iff after the move the AI holds a line; any other legal move scores at most 9 |
| MoveSelect.ImmediateWinChosen | Tic-tac-toe-CR-034.py:107-123 | when some legal move leaves the AI holding a line, the selector returns the lowest such cell, with score 10 |
| MoveSelect.DrawHasNoMove | Tic-tac-toe-CR-034.py:30-34 | a drawn board has no legal move, so the selector returns None |
| InPlace.Game.GetMoves | Tic-tac-toe-CR-034.py:33-34 | the scan of the mutable cells returns exactly the pure model's move list |
| InPlace.Game.MakeMove | Tic-tac-toe-CR-034.py:36-40 | the in-place write agrees with the pure `make_move`, both in its result and in the cells afterwards |
| InPlace.Game.UndoMove | Tic-tac-toe-CR-034.py:42-43 | the in-place write agrees with the pure `undo_move` |
| InPlace.MinimaxInPlace | Tic-tac-toe-CR-034.py:49-72 | the in-place search returns the pure minimax score and leaves the cells as it found them |
| InPlace.MaxLoopInPlace | Tic-tac-toe-CR-034.py:57-64 | the in-place maximising loop applies, searches and undoes each move, returning the pure loop's value with the cells restored |
| InPlace.MinLoopInPlace | Tic-tac-toe-CR-034.py:65-72 | the in-place minimising loop applies, searches and undoes each move, returning the pure loop's value with the cells restored |
| InPlace.AlphaBetaInPlace | Tic-tac-toe-CR-034.py:75-104 | the in-place alpha-beta returns the pure alpha-beta score and leaves the cells as it found them |
| InPlace.AbMaxLoopInPlace | Tic-tac-toe-CR-034.py:83-93 | the in-place maximising loop returns the pure loop's value and restores the cells, including after the early `break` |
| InPlace.AbMinLoopInPlace | Tic-tac-toe-CR-034.py:94-104 | the in-place minimising loop returns the pure loop's value and restores the cells, including after the early `break` |
| InPlace.ScoreMoveInPlace | Tic-tac-toe-CR-034.py:112-117 | playing a move for the AI, searching the reply from depth 0 and undoing it yields the pure model's score for that move and leaves the cells as they were |
| InPlace.GetBestMoveInPlace | Tic-tac-toe-CR-034.py:107-123 | the in-place selector returns the pure model's move for either flag and leaves the cells as it found them |

## Left out

- `Game.display` (Tic-tac-toe-CR-034.py:16-20) is left out because it only prints.
- `compare` (Tic-tac-toe-CR-034.py:126-145) is left out. It only times calls with the wall clock, and "alpha-beta is faster" is a performance claim, not a functional one.
- The `__main__` block (Tic-tac-toe-CR-034.py:148-156) is left out. It prints, and its `deepcopy` is subsumed by boards being immutable values.
- The Python code uses float `math.inf` as a sentinel. The model uses the integers -1000 and +1000 (`NegInf`, `PosInf`). These stay faithful while every score lies strictly between them, which the bounds lemmas prove for every call `get_best_move` makes.
- Search.ScoreBounds: stated for `0 <= depth` and `depth + empty cells <= 10`. This covers every call reached from `get_best_move`, but not arbitrary depths passed directly.
- Search.MinimaxIsBestChild: stated under the same depth bound. With a depth above 1000 the integer sentinel could exceed every child's score, which a float infinity never does.
- Search.AlphaBetaEqualsMinimax: stated under the same depth bound, for the same reason.
- MoveSelect.MoveValue: defined only for empty cells (its selection-loop wrapper gives an occupied cell the -inf sentinel). `get_best_move` only ever scores moves taken from `get_moves`, so an occupied cell never reaches it.
- Cell indices are `Pos` (0 to 8). Python's negative indexing and the `IndexError` raised for other indices are not modelled; the engine only passes indices from `get_moves`.
- The value of the empty board (a forced draw) is not proved. The code does not claim it, and proving it would mean evaluating the whole game tree in the verifier.
- Nothing in the code enforces that at most one side has won; the model, like the code, accepts any nine-cell board.
- `alphabeta` is fail-soft: when the window excludes the minimax value it returns a bound on the same side, not the value (`Search.AlphaBetaWindow`); equality is proved for the open window `get_best_move` uses (`Search.AlphaBetaEqualsMinimax`).
