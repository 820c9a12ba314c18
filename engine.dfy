/** The game engine over one mutable board: the alpha-beta search that writes
    hypothetical marks into the board and clears them again, the automated
    player's move, and the human's placement. */
module Engine {
  import opened Board
  import opened Search

  class Game {
    /** The nine cells, updated in place. */
    var board: array<char>

    ghost predicate Valid()
      reads this
    {
      board.Length == 9
    }

    /** A fresh game: every cell empty. */
    constructor ()
      ensures Valid() && fresh(board)
      ensures board[..] == EMPTY_BOARD
    {
      board := new char[9](_ => EMPTY);
    }

    /** Minimax with alpha-beta pruning. Every mark it writes is cleared again
        before the next candidate or the return, so the board comes back as
        it was. The result is fail-soft with respect to the exhaustive value
        `Score` (see `FailSoft`), and so equals it for the full window. On a
        terminal board the fixed value is returned whatever the window. */
    method Minimax(isMaximizing: bool, alpha: int, beta: int) returns (score: int)
      requires Valid()
      requires NEG_INF <= alpha < beta <= POS_INF
      modifies board
      decreases EmptyCount(board[..]), 1
      ensures board[..] == old(board[..])
      ensures -1 <= score <= 1
      ensures FailSoft(Score(old(board[..]), isMaximizing), alpha, beta, score)
      ensures alpha == NEG_INF && beta == POS_INF ==> score == Score(old(board[..]), isMaximizing)
      ensures CheckWin(old(board[..]), AI) ==> score == 1
      ensures !CheckWin(old(board[..]), AI) && CheckWin(old(board[..]), HUMAN) ==> score == -1
      ensures (!CheckWin(old(board[..]), AI) && !CheckWin(old(board[..]), HUMAN) &&
               CheckDraw(old(board[..]))) ==> score == 0
    {
      if CheckWin(board[..], AI) {
        return 1;
      }
      if CheckWin(board[..], HUMAN) {
        return -1;
      }
      if CheckDraw(board[..]) {
        return 0;
      }
      if isMaximizing {
        score := MaximizeOverMoves(alpha, beta);
      } else {
        score := MinimizeOverMoves(alpha, beta);
      }
    }

    /** The maximizing branch of `Minimax` on a board that is not terminal:
        try 'O' in each empty cell in ascending order, keep the greatest
        score, raise alpha to it, and stop once beta <= alpha. */
    method MaximizeOverMoves(alpha: int, beta: int) returns (bestScore: int)
      requires Valid()
      requires NEG_INF <= alpha < beta <= POS_INF
      requires !CheckWin(board[..], AI) && !CheckWin(board[..], HUMAN) && !CheckDraw(board[..])
      modifies board
      decreases EmptyCount(board[..]), 0
      ensures board[..] == old(board[..])
      ensures -1 <= bestScore <= 1
      ensures FailSoft(Score(old(board[..]), true), alpha, beta, bestScore)
    {
      ghost var b := board[..];
      assert Score(b, true) == BestUpTo(b, true, 9);
      bestScore := NEG_INF;
      var a := alpha;
      for i := 0 to 9
        invariant board[..] == b
        invariant a == Max(alpha, bestScore) && a < beta
        invariant bestScore == NEG_INF || -1 <= bestScore <= 1
        invariant MaxLoopInv(b, alpha, bestScore, i)
      {
        if board[i] == EMPTY {
          board[i] := AI;
          EmptyCountFill(b, i, AI);
          var s := Minimax(false, a, beta);
          board[i] := EMPTY;
          assert board[..] == b;
          MaxLoopStep(b, alpha, beta, bestScore, i, s);
          bestScore := Max(bestScore, s);
          a := Max(a, s);
          if beta <= a {
            BestUpToBound(b, true, 9, i);
            break;
          }
        }
      }
    }

    /** The minimizing branch of `Minimax` on a board that is not terminal:
        try 'X' in each empty cell in ascending order, keep the least score,
        lower beta to it, and stop once beta <= alpha. */
    method MinimizeOverMoves(alpha: int, beta: int) returns (bestScore: int)
      requires Valid()
      requires NEG_INF <= alpha < beta <= POS_INF
      requires !CheckWin(board[..], AI) && !CheckWin(board[..], HUMAN) && !CheckDraw(board[..])
      modifies board
      decreases EmptyCount(board[..]), 0
      ensures board[..] == old(board[..])
      ensures -1 <= bestScore <= 1
      ensures FailSoft(Score(old(board[..]), false), alpha, beta, bestScore)
    {
      ghost var b := board[..];
      assert Score(b, false) == BestUpTo(b, false, 9);
      bestScore := POS_INF;
      var bt := beta;
      for i := 0 to 9
        invariant board[..] == b
        invariant bt == Min(beta, bestScore) && alpha < bt
        invariant bestScore == POS_INF || -1 <= bestScore <= 1
        invariant MinLoopInv(b, beta, bestScore, i)
      {
        if board[i] == EMPTY {
          board[i] := HUMAN;
          EmptyCountFill(b, i, HUMAN);
          var s := Minimax(true, alpha, bt);
          board[i] := EMPTY;
          assert board[..] == b;
          MinLoopStep(b, alpha, beta, bestScore, i, s);
          bestScore := Min(bestScore, s);
          bt := Min(bt, s);
          if bt <= alpha {
            BestUpToBound(b, false, 9, i);
            break;
          }
        }
      }
    }

    /** The automated player's move: score every empty cell by a full-window
        search and put 'O' into the first cell with the greatest score.
        Only that one previously empty cell changes. */
    method AiMove() returns (move: int)
      requires Valid()
      requires EMPTY in board[..]
      modifies board
      ensures move == BestMove(old(board[..]))
      ensures 0 <= move < 9 && old(board[move]) == EMPTY
      ensures board[..] == old(board[..])[move := AI]
      ensures forall j :: 0 <= j < 9 && old(board[j]) == EMPTY ==>
                AiScore(old(board[..]), j) <= AiScore(old(board[..]), move)
      ensures forall j :: 0 <= j < move && old(board[j]) == EMPTY ==>
                AiScore(old(board[..]), j) < AiScore(old(board[..]), move)
    {
      ghost var b := board[..];
      var bestScore := NEG_INF;
      var bestMove := -1;
      for i := 0 to 9
        invariant board[..] == b
        invariant bestMove == FirstBestUpTo(b, AiScores(b), i)
        invariant bestScore == if bestMove == -1 then NEG_INF else AiScore(b, bestMove)
      {
        if board[i] == EMPTY {
          board[i] := AI;
          var s := Minimax(false, NEG_INF, POS_INF);
          board[i] := EMPTY;
          assert board[..] == b;
          if s > bestScore {
            bestScore := s;
            bestMove := i;
          }
        }
      }
      board[bestMove] := AI;
      move := bestMove;
    }

    /** The legality check and placement of a human move, given as a 0-based
        index: 'X' is written only into an empty cell on the board; otherwise
        nothing changes. */
    method PlayerPlace(move: int) returns (placed: bool)
      requires Valid()
      modifies board
      ensures placed == IsLegal(old(board[..]), move)
      ensures board[..] == if placed then old(board[..])[move := HUMAN] else old(board[..])
    {
      if 0 <= move < 9 && board[move] == EMPTY {
        board[move] := HUMAN;
        placed := true;
      } else {
        placed := false;
      }
    }
  }
}
