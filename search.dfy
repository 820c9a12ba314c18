/** The game-theoretic value of a position, computed by exhaustive minimax with
    no cutoff, and the move the automated player is meant to choose. These pure
    definitions are the specification the pruned, in-place search is proved
    against. Scores are from the automated player's side: +1 win, -1 loss, 0 draw. */
module Search {
  import opened Board

  /** Integer stand-ins for the source's -infinity and +infinity: every real
      score lies strictly between them. */
  const NEG_INF := -2
  const POS_INF := 2

  function Max(x: int, y: int): int { if x >= y then x else y }
  function Min(x: int, y: int): int { if x <= y then x else y }

  /** The mark placed by the side to move. */
  function Mark(maximizing: bool): char { if maximizing then AI else HUMAN }

  /** Value of the board with `maximizing` telling whose turn it is. The
      terminal tests come in the order of the source: the automated player's
      line first, then the human's, then a full board. */
  function Score(b: seq<char>, maximizing: bool): (r: int)
    requires |b| == 9
    ensures -1 <= r <= 1
    decreases EmptyCount(b), 1
  {
    if CheckWin(b, AI) then 1
    else if CheckWin(b, HUMAN) then -1
    else if CheckDraw(b) then 0
    else BestUpTo(b, maximizing, 9)
  }

  /** Best value, for the side to move, over the moves into the empty cells
      below `n`; the start value NEG_INF (maximizing) or POS_INF (minimizing)
      when there are none. */
  function BestUpTo(b: seq<char>, maximizing: bool, n: int): (r: int)
    requires |b| == 9 && 0 <= n <= 9
    ensures (exists j :: 0 <= j < n && b[j] == EMPTY) ==> -1 <= r <= 1
    ensures (forall j :: 0 <= j < n ==> b[j] != EMPTY) ==>
              r == if maximizing then NEG_INF else POS_INF
    decreases EmptyCount(b), 0, n
  {
    if n == 0 then (if maximizing then NEG_INF else POS_INF)
    else
      var rest := BestUpTo(b, maximizing, n - 1);
      if b[n - 1] == EMPTY then
        EmptyCountFill(b, n - 1, Mark(maximizing));
        var s := Score(b[n - 1 := Mark(maximizing)], !maximizing);
        if maximizing then Max(rest, s) else Min(rest, s)
      else rest
  }

  /** Every move below `n` is bounded by the best value: no better for the
      maximizer, no worse for the minimizer. */
  lemma {:induction false} BestUpToBound(b: seq<char>, maximizing: bool, n: int, j: int)
    requires |b| == 9 && 0 <= j < n <= 9 && b[j] == EMPTY
    ensures maximizing ==> Score(b[j := Mark(maximizing)], !maximizing) <= BestUpTo(b, maximizing, n)
    ensures !maximizing ==> Score(b[j := Mark(maximizing)], !maximizing) >= BestUpTo(b, maximizing, n)
  {
    if j < n - 1 {
      BestUpToBound(b, maximizing, n - 1, j);
    }
  }

  /** The best value over a nonempty set of moves is attained by one of them. */
  lemma {:induction false} BestUpToAttained(b: seq<char>, maximizing: bool, n: int)
    requires |b| == 9 && 0 <= n <= 9
    requires exists j :: 0 <= j < n && b[j] == EMPTY
    ensures exists j :: 0 <= j < n && b[j] == EMPTY &&
              BestUpTo(b, maximizing, n) == Score(b[j := Mark(maximizing)], !maximizing)
  {
    var rest := BestUpTo(b, maximizing, n - 1);
    if b[n - 1] == EMPTY {
      var s := Score(b[n - 1 := Mark(maximizing)], !maximizing);
      if BestUpTo(b, maximizing, n) != s {
        assert BestUpTo(b, maximizing, n) == rest;
        assert exists j :: 0 <= j < n - 1 && b[j] == EMPTY;
        BestUpToAttained(b, maximizing, n - 1);
      }
    } else {
      BestUpToAttained(b, maximizing, n - 1);
    }
  }

  /** On a board that is not terminal, the value is the maximum (for the
      automated player) or the minimum (for the human) of the values of the
      positions reachable in one move. */
  lemma ScoreIsBestChild(b: seq<char>, maximizing: bool)
    requires |b| == 9
    requires !CheckWin(b, AI) && !CheckWin(b, HUMAN) && !CheckDraw(b)
    ensures forall j :: 0 <= j < 9 && b[j] == EMPTY ==>
              if maximizing then Score(b[j := Mark(maximizing)], !maximizing) <= Score(b, maximizing)
              else Score(b[j := Mark(maximizing)], !maximizing) >= Score(b, maximizing)
    ensures exists j :: 0 <= j < 9 && b[j] == EMPTY &&
              Score(b, maximizing) == Score(b[j := Mark(maximizing)], !maximizing)
  {
    forall j | 0 <= j < 9 && b[j] == EMPTY
      ensures if maximizing then Score(b[j := Mark(maximizing)], !maximizing) <= Score(b, maximizing)
              else Score(b[j := Mark(maximizing)], !maximizing) >= Score(b, maximizing)
    {
      BestUpToBound(b, maximizing, 9, j);
    }
    BestUpToAttained(b, maximizing, 9);
  }

  /** The alpha-beta contract against the exact value `v`: a result strictly
      inside the window (alpha, beta) is exact, one at or below alpha bounds
      `v` from above, one at or above beta bounds `v` from below. */
  predicate FailSoft(v: int, alpha: int, beta: int, r: int) {
    (alpha < r < beta ==> r == v) &&
    (r <= alpha ==> v <= r) &&
    (beta <= r ==> r <= v)
  }

  /** What the maximizing loop knows about its running best `best` after
      the moves below `n`, given the caller's lower bound `alpha`. */
  predicate MaxLoopInv(b: seq<char>, alpha: int, best: int, n: int)
    requires |b| == 9 && 0 <= n <= 9
  {
    (best <= alpha ==> BestUpTo(b, true, n) <= best) &&
    (alpha < best ==> best == BestUpTo(b, true, n))
  }

  /** What the minimizing loop knows about its running best `best` after
      the moves below `n`, given the caller's upper bound `beta`. */
  predicate MinLoopInv(b: seq<char>, beta: int, best: int, n: int)
    requires |b| == 9 && 0 <= n <= 9
  {
    (beta <= best ==> best <= BestUpTo(b, false, n)) &&
    (best < beta ==> best == BestUpTo(b, false, n))
  }

  /** One candidate of the maximizing loop: searching the move into cell `i`
      with the window (max(alpha, best), beta) keeps the loop invariant, and
      a result at or above beta is a lower bound of that move's value. */
  lemma MaxLoopStep(b: seq<char>, alpha: int, beta: int, best: int, i: int, s: int)
    requires |b| == 9 && 0 <= i < 9 && b[i] == EMPTY
    requires MaxLoopInv(b, alpha, best, i) && Max(alpha, best) < beta
    requires FailSoft(Score(b[i := AI], false), Max(alpha, best), beta, s)
    ensures s < beta ==> MaxLoopInv(b, alpha, Max(best, s), i + 1)
    ensures beta <= s ==> Max(best, s) == s <= Score(b[i := AI], false)
  {
  }

  /** One candidate of the minimizing loop: searching the move into cell `i`
      with the window (alpha, min(beta, best)) keeps the loop invariant, and
      a result at or below alpha is an upper bound of that move's value. */
  lemma MinLoopStep(b: seq<char>, alpha: int, beta: int, best: int, i: int, s: int)
    requires |b| == 9 && 0 <= i < 9 && b[i] == EMPTY
    requires MinLoopInv(b, beta, best, i) && alpha < Min(beta, best)
    requires FailSoft(Score(b[i := HUMAN], true), alpha, Min(beta, best), s)
    ensures alpha < s ==> MinLoopInv(b, beta, Min(best, s), i + 1)
    ensures s <= alpha ==> Score(b[i := HUMAN], true) <= s == Min(best, s)
  {
  }

  /** Value, to the automated player, of placing 'O' in cell `j` and letting
      the human reply: what the move choice compares. */
  function AiScore(b: seq<char>, j: int): int
    requires |b| == 9 && 0 <= j < 9
  {
    Score(b[j := AI], false)
  }

  /** The scores of the nine candidate cells. */
  function AiScores(b: seq<char>): (s: seq<int>)
    requires |b| == 9
    ensures |s| == 9 && forall j :: 0 <= j < 9 ==> s[j] == AiScore(b, j)
  {
    seq(9, j requires 0 <= j < 9 => AiScore(b, j))
  }

  /** The cell chosen among the empty cells below `n`: scanning upwards, a
      cell replaces the current choice only when its score is strictly
      greater; -1 when no cell below `n` is empty. */
  function FirstBestUpTo(b: seq<char>, scores: seq<int>, n: int): (m: int)
    requires |b| == 9 && |scores| == 9 && 0 <= n <= 9
    ensures m == -1 <==> forall j :: 0 <= j < n ==> b[j] != EMPTY
    ensures m != -1 ==> 0 <= m < n && b[m] == EMPTY
    decreases n
  {
    if n == 0 then -1
    else
      var m := FirstBestUpTo(b, scores, n - 1);
      if b[n - 1] == EMPTY && (m == -1 || scores[n - 1] > scores[m]) then n - 1 else m
  }

  /** The chosen cell has the greatest score among the empty cells below `n`,
      and strictly beats every empty cell before it: ties go to the lowest index. */
  lemma {:induction false} FirstBestIsFirstMaximum(b: seq<char>, scores: seq<int>, n: int)
    requires |b| == 9 && |scores| == 9 && 0 <= n <= 9
    requires exists j :: 0 <= j < n && b[j] == EMPTY
    ensures var m := FirstBestUpTo(b, scores, n);
      forall j :: 0 <= j < n && b[j] == EMPTY ==> scores[j] <= scores[m]
    ensures var m := FirstBestUpTo(b, scores, n);
      forall j :: 0 <= j < m && b[j] == EMPTY ==> scores[j] < scores[m]
  {
    if FirstBestUpTo(b, scores, n - 1) != -1 {
      FirstBestIsFirstMaximum(b, scores, n - 1);
    }
  }

  /** The cell the automated player picks on a board with an empty cell. */
  function BestMove(b: seq<char>): (m: int)
    requires |b| == 9 && EMPTY in b
    ensures 0 <= m < 9 && b[m] == EMPTY
    ensures forall j :: 0 <= j < 9 && b[j] == EMPTY ==> AiScore(b, j) <= AiScore(b, m)
    ensures forall j :: 0 <= j < m && b[j] == EMPTY ==> AiScore(b, j) < AiScore(b, m)
  {
    FirstBestIsFirstMaximum(b, AiScores(b), 9);
    FirstBestUpTo(b, AiScores(b), 9)
  }

  /** The two order properties pin the chosen cell down: an empty cell that
      is maximal and strictly beats all empty cells before it is the choice. */
  lemma BestMoveUnique(b: seq<char>, k: int)
    requires |b| == 9 && 0 <= k < 9 && b[k] == EMPTY
    requires forall j :: 0 <= j < 9 && b[j] == EMPTY ==> AiScore(b, j) <= AiScore(b, k)
    requires forall j :: 0 <= j < k && b[j] == EMPTY ==> AiScore(b, j) < AiScore(b, k)
    ensures BestMove(b) == k
  {
  }
}
