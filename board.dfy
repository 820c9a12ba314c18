/** Board state of the 3x3 game: nine cells in row-major order, each holding
    ' ' (empty), 'X' (the human) or 'O' (the automated player).
    The queries here are pure functions of the cell contents. */
module Board {

  const EMPTY := ' '
  const HUMAN := 'X'
  const AI := 'O'

  /** The nine empty cells a game starts from. */
  const EMPTY_BOARD := [' ', ' ', ' ', ' ', ' ', ' ', ' ', ' ', ' ']

  /** The 8 winning index triples, in the order of the source table:
      three rows, three columns, two diagonals. */
  const LINES: seq<(int, int, int)> :=
    [(0, 1, 2), (3, 4, 5), (6, 7, 8),
     (0, 3, 6), (1, 4, 7), (2, 5, 8),
     (0, 4, 8), (2, 4, 6)]

  /** All three cells of `line` hold `p`. */
  predicate LineHeld(b: seq<char>, p: char, line: (int, int, int))
    requires |b| == 9
    requires 0 <= line.0 < 9 && 0 <= line.1 < 9 && 0 <= line.2 < 9
  {
    b[line.0] == p && b[line.1] == p && b[line.2] == p
  }

  /** Some line of the table is held entirely by `p`. */
  predicate CheckWin(b: seq<char>, p: char)
    requires |b| == 9
  {
    exists k :: 0 <= k < |LINES| && LineHeld(b, p, LINES[k])
  }

  /** Row `r` of the grid (cells 3r, 3r+1, 3r+2) is held by `p`. */
  predicate RowHeld(b: seq<char>, p: char, r: int)
    requires |b| == 9 && 0 <= r < 3
  {
    b[3 * r] == p && b[3 * r + 1] == p && b[3 * r + 2] == p
  }

  /** Column `c` of the grid (cells c, c+3, c+6) is held by `p`. */
  predicate ColumnHeld(b: seq<char>, p: char, c: int)
    requires |b| == 9 && 0 <= c < 3
  {
    b[c] == p && b[c + 3] == p && b[c + 6] == p
  }

  /** The geometric meaning of a win, independent of the table: a full row,
      a full column, or one of the two diagonals. */
  predicate ThreeInARow(b: seq<char>, p: char)
    requires |b| == 9
  {
    (exists r :: 0 <= r < 3 && RowHeld(b, p, r)) ||
    (exists c :: 0 <= c < 3 && ColumnHeld(b, p, c)) ||
    (b[0] == p && b[4] == p && b[8] == p) ||
    (b[2] == p && b[4] == p && b[6] == p)
  }

  /** The table of lines is exactly the rows, columns and diagonals. */
  lemma CheckWinIsThreeInARow(b: seq<char>, p: char)
    requires |b| == 9
    ensures CheckWin(b, p) <==> ThreeInARow(b, p)
  {
    if CheckWin(b, p) {
      var k :| 0 <= k < |LINES| && LineHeld(b, p, LINES[k]);
      if k < 3 {
        assert RowHeld(b, p, k);
      } else if k < 6 {
        assert ColumnHeld(b, p, k - 3);
      }
    }
    if ThreeInARow(b, p) {
      if r :| 0 <= r < 3 && RowHeld(b, p, r) {
        assert LineHeld(b, p, LINES[r]);
      } else if c :| 0 <= c < 3 && ColumnHeld(b, p, c) {
        assert LineHeld(b, p, LINES[c + 3]);
      } else if b[0] == p && b[4] == p && b[8] == p {
        assert LineHeld(b, p, LINES[6]);
      } else {
        assert LineHeld(b, p, LINES[7]);
      }
    }
  }

  /** Number of empty cells; the measure that every hypothetical move of
      the search decreases. */
  function EmptyCount(b: seq<char>): (n: nat)
    ensures n <= |b|
  {
    if b == [] then 0 else (if b[0] == EMPTY then 1 else 0) + EmptyCount(b[1..])
  }

  /** Filling one empty cell with a mark removes exactly one empty cell. */
  lemma {:induction false} EmptyCountFill(b: seq<char>, i: int, c: char)
    requires 0 <= i < |b| && b[i] == EMPTY && c != EMPTY
    ensures EmptyCount(b[i := c]) == EmptyCount(b) - 1
  {
    if i > 0 {
      assert b[i := c][1..] == b[1..][i - 1 := c];
      EmptyCountFill(b[1..], i - 1, c);
    }
  }

  /** No empty cell is left exactly when the count of empty cells is zero. */
  lemma {:induction false} EmptyCountZero(b: seq<char>)
    ensures EmptyCount(b) == 0 <==> EMPTY !in b
  {
    if b != [] {
      assert b == [b[0]] + b[1..];
      EmptyCountZero(b[1..]);
    }
  }

  /** The board is full: no cell is empty. */
  predicate CheckDraw(b: seq<char>)
    ensures CheckDraw(b) <==> EmptyCount(b) == 0
    ensures CheckDraw(b) <==> forall i :: 0 <= i < |b| ==> b[i] != EMPTY
  {
    EmptyCountZero(b);
    EMPTY !in b
  }

  /** The legality test of a human move: an index on the board whose cell is empty. */
  predicate IsLegal(b: seq<char>, move: int)
    requires |b| == 9
  {
    0 <= move < 9 && b[move] == EMPTY
  }
}
