# Tic-tac-toe engine: board, alpha-beta search and move choice

This project models the engine of a console tic-tac-toe game in which a human
(`'X'`) plays an automated opponent (`'O'`) on nine cells, indexed 0–8 in row-major
order. An empty cell holds `' '`. It proves properties of that model.

- **Board** (`board.dfy`) holds the pure queries on the cell contents (a
  `seq<char>` of length 9):
  - `CheckWin` is the source's table of 8 index triples with "any line whose
    three cells all hold this mark".
  - `CheckDraw` is "no cell is empty".
  - `IsLegal` is the human move test.
  - `EmptyCount` counts the empty cells. It is the termination measure of the search.
- **Search** (`search.dfy`) is the specification that the imperative search is
  proved against:
  - `Score` is plain exhaustive minimax with no cutoff, with the terminal tests in
    the order of the code: `'O'` has a line (+1), then `'X'` has a line (−1),
    then the board is full (0).
  - `BestUpTo` folds max (or min) over the candidate cells in ascending order,
    from the start value −∞ (or +∞), as the source's loops do.
  - `FirstBestUpTo` and `BestMove` give the automated player's rule: the first
    empty cell with the greatest score. Scanning upwards, a later cell replaces
    the choice only when its score is strictly greater.
- **Engine** (`engine.dfy`) is a class `Game` whose `board` field is an
  `array<char>` updated in place, as in the source's global list:
  - `Minimax` first runs the terminal tests. On a board that is not terminal it
    hands over to its two loop branches, `MaximizeOverMoves` and
    `MinimizeOverMoves`.
  - Each branch writes a hypothetical mark, recurses, clears the cell, updates
    the best score and alpha (or beta), and breaks once `beta <= alpha`.
  - `AiMove` scores every empty cell with a full-window search and writes `'O'`
    into the chosen one.
  - `PlayerPlace` is the legality check and the write of `'X'` from the human's move.
- **Scenarios** (`scenarios.dfy`) covers two positions whose answer is known:
  taking a winning cell, and blocking the human's row.

The source's `-math.inf` and `math.inf` become the integers `NEG_INF = -2` and
`POS_INF = 2`. Every real score is in {−1, 0, 1}, so all comparisons come out as
they do with the floats. `Minimax` takes windows `NEG_INF <= alpha < beta <= POS_INF`.
The root call uses (−∞, +∞). A recursive call is only made while `beta > alpha`,
because otherwise the loop has already broken. So every call the source makes
meets this requirement.

What `Minimax` guarantees is the fail-soft alpha-beta contract (`Search.FailSoft`)
against the exhaustive `Score`:
- a result strictly inside the window is exact;
- a result at or below alpha bounds the true value from above;
- a result at or above beta bounds it from below.

With the root window the result is therefore exactly `Score`: pruning never changes
the value. The board is identical after the call.

Suppose both marks hold a line, which cannot happen in alternating play. The
code then reports `'O'`'s win, because minimax tests `'O'` first
(ticTAC.py:44-49). `Score` and `Minimax` do the same.

## Model

| member | source | states |
|---|---|---|
| Board.CheckWinIsThreeInARow | ticTAC.py:15-22 | the 8-triple table test holds exactly when the player owns a full row, a full column or one of the two diagonals of the 3x3 grid |
| Board.CheckDraw | ticTAC.py:24-26 | the board counts as drawn (full) exactly when no cell is empty, equivalently when the number of empty cells is zero |
| Board.EmptyCountZero | ticTAC.py:24-26 | the number of empty cells is zero exactly when `' '` does not occur on the board |
| Board.EmptyCountFill | ticTAC.py:53-57 | writing a mark into an empty cell removes exactly one empty cell, so each level of the search has one move fewer to explore and the recursion terminates |
| Search.Score | ticTAC.py:42-74 | the exhaustive game value is always -1, 0 or 1, whatever the board |
| Search.BestUpTo | ticTAC.py:51-74 | the folded best over the candidate cells is a real score (-1..1) when some candidate is empty and stays at the start value -inf/+inf when none is |
| Search.BestUpToBound | ticTAC.py:58-59 | no candidate move is better for the maximizer (worse for the minimizer) than the folded best |
| Search.BestUpToAttained | ticTAC.py:58-59 | the folded best over a nonempty set of candidates is the value of one of them |
| Search.ScoreIsBestChild | ticTAC.py:51-74 | on a non-terminal board the value is the maximum (automated player to move) or minimum (human to move) over all one-move successors, and some successor attains it |
| Search.MaxLoopStep | ticTAC.py:53-61 | one candidate of the maximizing loop, searched with window (max(alpha, best), beta), preserves the loop's relation to the exhaustive fold; a result reaching beta is a lower bound of that move's value |
| Search.MinLoopStep | ticTAC.py:65-73 | one candidate of the minimizing loop, searched with window (alpha, min(beta, best)), preserves the loop's relation to the exhaustive fold; a result at or below alpha is an upper bound of that move's value |
| Search.FirstBestUpTo | ticTAC.py:80-87 | the chosen cell is -1 exactly when no candidate cell is empty, and otherwise an empty cell among the candidates |
| Search.FirstBestIsFirstMaximum | ticTAC.py:85-87 | the chosen cell's score is maximal among the empty candidates and strictly greater than every earlier empty candidate's (strict `>`: ties go to the lowest index) |
| Search.BestMove | ticTAC.py:76-88 | on a board with an empty cell the automated player's cell is empty, has the maximal minimax score, and is the lowest-indexed cell with that score |
| Search.BestMoveUnique | ticTAC.py:80-87 | any empty cell that is maximal and strictly beats every earlier empty cell is the chosen one |
| Engine.Game.constructor | ticTAC.py:3 | a new game has nine empty cells |
| Engine.Game.Minimax | ticTAC.py:42-74 | the board afterwards equals the board before; the result is in -1..1; it is fail-soft against the exhaustive value (exact inside the window, an upper bound at or below alpha, a lower bound at or above beta) and equals the exhaustive value for the root window (-inf, +inf); on a terminal board it returns +1 ('O' has a line, tested first), else -1 ('X' has a line), else 0 (full board), whatever the window |
| Engine.Game.MaximizeOverMoves | ticTAC.py:51-62 | on a non-terminal board the maximizing loop with its beta <= alpha cutoff restores the board and returns a fail-soft bound of the exhaustive value, in -1..1 |
| Engine.Game.MinimizeOverMoves | ticTAC.py:63-74 | on a non-terminal board the minimizing loop with its beta <= alpha cutoff restores the board and returns a fail-soft bound of the exhaustive value, in -1..1 |
| Engine.Game.AiMove | ticTAC.py:76-88 | on a board with an empty cell, 'O' is written into exactly one previously empty cell and every other cell is unchanged; that cell is the first one with the maximal minimax score |
| Engine.Game.PlayerPlace | ticTAC.py:33-37 | 'X' is written exactly when 0 <= move < 9 and that cell is empty, and only into that cell; otherwise the board is unchanged |
| Scenarios.WinningMoveChosen | ticTAC.py:76-88 | with 'O' on cells 0,1 and 'X' on cells 3,4 the automated player takes cell 2, completing the top row |
| Scenarios.UnblockedLoses | ticTAC.py:42-74 | with 'X' on cells 0,1, any 'O' move into cells 3..8 is worth -1, because the human then completes the top row |
| Scenarios.BlockingMoveChosen | ticTAC.py:76-88 | with 'X' on cells 0,1 the automated player takes cell 2, blocking the human's row |

## Left out

- `print_board` and every `print` call (ticTAC.py:5-13, 89, 94-117): console output. `AiMove` returns the chosen index instead of printing it.
- Reading the human's move, the conversion from 1–9 to an index, and the `ValueError` retry loop in `player_move` (ticTAC.py:30-32, 38-39): console input and exception-driven parsing. `PlayerPlace` takes the 0-based index and reports whether it was placed. The caller's retry loop is not modelled.
- `play_game` and the exit prompt (ticTAC.py:93-119): this is interactive orchestration around the engine, so the end-of-game outcome messages are not modelled.
- Floating-point infinities (ticTAC.py:52, 64, 78, 83): modelled as the integers -2 and +2, which order the same way against every real score.
- `ai_move` on a full board, where `best_move` stays `None` and `board[None]` raises (ticTAC.py:79, 88): `AiMove` and `BestMove` require an empty cell instead.
- The claim that the empty board has value 0 (a forced draw) is not proved. It needs the whole game tree to be evaluated, which is beyond what the verifier can unfold.
