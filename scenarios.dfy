/** Two positions whose correct answer is known, stated over the move-choice
    specification that `Game.AiMove` is proved to implement. */
module Scenarios {
  import opened Board
  import opened Search

  /** 'O' on cells 0 and 1, 'X' on cells 3 and 4, automated player to move. */
  const CAN_WIN := ['O', 'O', ' ', 'X', 'X', ' ', ' ', ' ', ' ']

  /** 'X' on cells 0 and 1, automated player to move. */
  const MUST_BLOCK := ['X', 'X', ' ', ' ', ' ', ' ', ' ', ' ', ' ']

  /** Completing the top row wins at once, and no move scores more than a
      win, so cell 2 is chosen. */
  lemma WinningMoveChosen()
    ensures BestMove(CAN_WIN) == 2
  {
    var b := CAN_WIN;
    assert LineHeld(b[2 := AI], AI, LINES[0]);
    assert AiScore(b, 2) == 1;
    assert b[2] == EMPTY;
  }

  /** After 'O' goes anywhere except cell 2, the human completes the top row:
      such a move is worth -1. */
  lemma {:induction false} UnblockedLoses(j: int)
    requires 3 <= j < 9
    ensures AiScore(MUST_BLOCK, j) == -1
  {
    var c := MUST_BLOCK[j := AI];
    CheckWinIsThreeInARow(c, AI);
    CheckWinIsThreeInARow(c, HUMAN);
    assert c[2] == EMPTY;
    assert !CheckDraw(c);
    var reply := c[2 := Mark(false)];
    CheckWinIsThreeInARow(reply, AI);
    assert LineHeld(reply, HUMAN, LINES[0]);
    assert Score(reply, true) == -1;
    BestUpToBound(c, false, 9, 2);
  }

  /** Every other move loses and cell 2 is the first empty cell, so the
      choice blocks the human's row at cell 2. */
  lemma BlockingMoveChosen()
    ensures BestMove(MUST_BLOCK) == 2
  {
    var b := MUST_BLOCK;
    var m := BestMove(b);
    assert b[2] == EMPTY;
    if m > 2 {
      UnblockedLoses(m);
    }
  }
}
