/**
 * Pure view of the noughts-and-crosses board: a 3×3 grid of integers where
 * 0 is an empty cell, 1 the mark of the player who moves on turn 0 and -1
 * the mark of the player who moves on turn 1.
 *
 * The win test is written the way the environment computes it (column sums,
 * row sums, the sum of the diagonal and the sum of the diagonal of the
 * left-right flipped grid, then a search for 3 or -3), and is proved equal to
 * an explicit list of the eight lines.  The end test is the length of the
 * zero mask, proved equal to "no cell is 0".
 */
module Grid {

  /** A board snapshot: b[r][c] is the cell in row r, column c. */
  type Board = seq<seq<int>>

  /** A cell coordinate (row, column). */
  type Cell = (int, int)

  /** Side length of the grid. */
  const Size: int := 3

  /** Number of actions, one per cell. */
  const Actions: int := 9

  predicate IsBoard(b: Board) {
    |b| == Size && forall r :: 0 <= r < |b| ==> |b[r]| == Size
  }

  /** The observation-space bound: every cell is -1, 0 or 1. */
  predicate CellsInRange(b: Board)
    requires IsBoard(b)
  {
    forall r, c :: 0 <= r < Size && 0 <= c < Size ==> -1 <= b[r][c] <= 1
  }

  /** Two boards agreeing on every cell are the same board. */
  lemma SameCells(b: Board, b': Board)
    requires IsBoard(b) && IsBoard(b')
    requires forall r, c :: 0 <= r < Size && 0 <= c < Size ==> b[r][c] == b'[r][c]
    ensures b == b'
  {
    forall r | 0 <= r < Size
      ensures b[r] == b'[r]
    {
      assert forall c :: 0 <= c < Size ==> b[r][c] == b'[r][c];
    }
  }

  /** The grid a reset creates. */
  function Empty(): (b: Board)
    ensures IsBoard(b) && CellsInRange(b)
    ensures forall r, c :: 0 <= r < Size && 0 <= c < Size ==> b[r][c] == 0
  {
    [[0, 0, 0], [0, 0, 0], [0, 0, 0]]
  }

  // ---------------------------------------------------------------------
  // Actions and marks
  // ---------------------------------------------------------------------

  /**
   * The cell an action writes.  The mapping is column-major: the row is
   * action % 3 and the column is action / 3.  The ensures pin the pair down
   * uniquely, so every cell is addressed by exactly one action.
   */
  function CellOf(action: int): (rc: Cell)
    requires 0 <= action < Actions
    ensures 0 <= rc.0 < Size && 0 <= rc.1 < Size
    ensures action == rc.0 + Size * rc.1
  {
    (action % 3, action / 3)
  }

  /** Distinct actions address distinct cells. */
  lemma CellOfInjective(a: int, a': int)
    requires 0 <= a < Actions && 0 <= a' < Actions
    ensures CellOf(a) == CellOf(a') <==> a == a'
  {
    var rc, rc' := CellOf(a), CellOf(a');
  }

  /** The mark written by the player to move: turn 0 writes 1, any other turn writes -1. */
  function Mark(turn: int): (m: int)
    ensures m == 1 || m == -1
    ensures m == 1 <==> turn == 0
  {
    if turn != 0 then -1 else 1
  }

  /** The board with one cell overwritten, whatever it held before. */
  function Place(b: Board, r: int, c: int, v: int): (b': Board)
    requires IsBoard(b) && 0 <= r < Size && 0 <= c < Size
    ensures IsBoard(b')
    ensures b'[r][c] == v
    ensures forall i, j :: 0 <= i < Size && 0 <= j < Size && (i != r || j != c) ==> b'[i][j] == b[i][j]
  {
    b[r := b[r][c := v]]
  }

  predicate ValidActions(actions: seq<int>) {
    forall k :: 0 <= k < |actions| ==> 0 <= actions[k] < Actions
  }

  predicate Distinct(actions: seq<int>) {
    forall i, j :: 0 <= i < j < |actions| ==> actions[i] != actions[j]
  }

  /**
   * The board after a reset followed by `actions`, the k-th action (from 0)
   * being played on turn k % 2.  Every board it yields stays inside the
   * observation range.
   */
  function Replay(actions: seq<int>): (b: Board)
    requires ValidActions(actions)
    ensures IsBoard(b) && CellsInRange(b)
    decreases |actions|
  {
    if actions == [] then Empty()
    else
      var n := |actions| - 1;
      var rc := CellOf(actions[n]);
      Place(Replay(actions[..n]), rc.0, rc.1, Mark(n % 2))
  }

  /** One more action writes its mark over the board the earlier actions produced. */
  lemma ReplayAppend(actions: seq<int>, a: int)
    requires ValidActions(actions) && 0 <= a < Actions
    ensures ValidActions(actions + [a])
    ensures Replay(actions + [a]) == Place(Replay(actions), CellOf(a).0, CellOf(a).1, Mark(|actions| % 2))
  {
    assert (actions + [a])[..|actions|] == actions;
  }

  /** A cell of a replayed board is marked exactly when some action addressed it. */
  lemma {:induction false} ReplayCell(actions: seq<int>, r: int, c: int)
    requires ValidActions(actions) && 0 <= r < Size && 0 <= c < Size
    ensures Replay(actions)[r][c] != 0 <==> r + Size * c in actions
  {
    if actions != [] {
      var n := |actions| - 1;
      var prev := actions[..n];
      assert actions == prev + [actions[n]];
      ReplayCell(prev, r, c);
      var rc := CellOf(actions[n]);
      if rc != (r, c) {
        assert actions[n] != r + Size * c;
      }
    }
  }

  /**
   * A cell holds the mark of the last action that addressed it: if the k-th
   * action is the last one on its cell, the cell holds the mark of turn k % 2.
   */
  lemma {:induction false} ReplayMarksAreLastWriter(actions: seq<int>, k: nat)
    requires ValidActions(actions) && k < |actions|
    requires forall j :: k < j < |actions| ==> actions[j] != actions[k]
    ensures Replay(actions)[CellOf(actions[k]).0][CellOf(actions[k]).1] == Mark(k % 2)
  {
    var n := |actions| - 1;
    var prev := actions[..n];
    var last, cell := CellOf(actions[n]), CellOf(actions[k]);
    var before := Replay(prev);
    assert Replay(actions) == Place(before, last.0, last.1, Mark(n % 2));
    if k < n {
      assert prev[k] == actions[k];
      ReplayMarksAreLastWriter(prev, k);
      CellOfInjective(actions[k], actions[n]);
      assert before[cell.0][cell.1] == Mark(k % 2);
      assert cell != last;
    }
  }

  // ---------------------------------------------------------------------
  // The end test: the zero mask of the flattened grid is empty
  // ---------------------------------------------------------------------

  /** The grid read in row-major order, as a boolean mask reads it. */
  function Flatten(b: Board): (s: seq<int>)
    requires IsBoard(b)
    ensures |s| == Size * Size
    ensures forall r, c :: 0 <= r < Size && 0 <= c < Size ==> s[Size * r + c] == b[r][c]
  {
    b[0] + b[1] + b[2]
  }

  /** The elements of s equal to 0, in order (the selection s[s == 0]). */
  function Zeros(s: seq<int>): (z: seq<int>)
    ensures |z| <= |s|
    ensures forall k :: 0 <= k < |z| ==> z[k] == 0
  {
    if s == [] then []
    else if s[0] == 0 then [0] + Zeros(s[1..]) else Zeros(s[1..])
  }

  /** The zero mask holds as many elements as s holds zeros. */
  lemma {:induction false} ZerosCount(s: seq<int>)
    ensures |Zeros(s)| == multiset(s)[0]
  {
    if s != [] {
      assert s == [s[0]] + s[1..];
      ZerosCount(s[1..]);
    }
  }

  /** The zero mask is empty exactly when no element of s is 0. */
  lemma {:induction false} NoZerosIffNoneZero(s: seq<int>)
    ensures |Zeros(s)| == 0 <==> forall k :: 0 <= k < |s| ==> s[k] != 0
  {
    if s != [] {
      NoZerosIffNoneZero(s[1..]);
      assert forall k :: 1 <= k < |s| ==> s[k] == s[1..][k - 1];
    }
  }

  /** _check_end: the board has no zero cell left. */
  predicate IsFull(b: Board)
    requires IsBoard(b)
  {
    |Zeros(Flatten(b))| == 0
  }

  /** The end test holds exactly when every one of the nine cells is marked. */
  lemma FullIffNoEmptyCell(b: Board)
    requires IsBoard(b)
    ensures IsFull(b) <==> forall r, c :: 0 <= r < Size && 0 <= c < Size ==> b[r][c] != 0
  {
    var s := Flatten(b);
    NoZerosIffNoneZero(s);
    if !IsFull(b) {
      var k :| 0 <= k < |s| && s[k] == 0;
      var r, c := k / Size, k % Size;
      assert s[Size * r + c] == b[r][c];
    }
  }

  /** Number of marked (non-zero) cells. */
  function Marked(b: Board): (n: nat)
    requires IsBoard(b)
    ensures n <= Size * Size
    ensures n == Size * Size - multiset(Flatten(b))[0]
  {
    ZerosCount(Flatten(b));
    Size * Size - |Zeros(Flatten(b))|
  }

  /** Overwriting one cell of the grid overwrites one element of its row-major reading. */
  lemma FlattenPlace(b: Board, r: int, c: int, v: int)
    requires IsBoard(b) && 0 <= r < Size && 0 <= c < Size
    ensures Flatten(Place(b, r, c, v)) == Flatten(b)[Size * r + c := v]
  {
    var s, s' := Flatten(b), Flatten(Place(b, r, c, v));
    forall i | 0 <= i < |s|
      ensures s'[i] == s[Size * r + c := v][i]
    {
      var ri, ci := i / Size, i % Size;
      assert i == Size * ri + ci;
    }
  }

  /** Replacing a 0 by a non-zero value removes one element from the zero mask. */
  lemma ZerosUpdate(s: seq<int>, k: int, v: int)
    requires 0 <= k < |s| && s[k] == 0 && v != 0
    ensures |Zeros(s[k := v])| == |Zeros(s)| - 1
  {
    ZerosCount(s);
    ZerosCount(s[k := v]);
    assert s == s[..k] + [0] + s[k + 1..];
    assert s[k := v] == s[..k] + [v] + s[k + 1..];
  }

  /** Writing a mark into an empty cell marks exactly one more cell. */
  lemma PlaceOnEmptyCell(b: Board, r: int, c: int, v: int)
    requires IsBoard(b) && 0 <= r < Size && 0 <= c < Size
    requires b[r][c] == 0 && v != 0
    ensures Marked(Place(b, r, c, v)) == Marked(b) + 1
  {
    FlattenPlace(b, r, c, v);
    ZerosUpdate(Flatten(b), Size * r + c, v);
  }

  /** Starting from a cleared board, n actions on distinct cells leave exactly n marked cells. */
  lemma {:induction false} DistinctActionsMarkCells(actions: seq<int>)
    requires ValidActions(actions) && Distinct(actions)
    ensures Marked(Replay(actions)) == |actions|
  {
    if actions == [] {
      EmptyIsUnmarked();
    } else {
      var n := |actions| - 1;
      var prev, a := actions[..n], actions[n];
      DistinctSplit(actions);
      DistinctActionsMarkCells(prev);
      ReplayAppend(prev, a);
      FreshActionHitsEmptyCell(prev, a);
      var rc := CellOf(a);
      PlaceOnEmptyCell(Replay(prev), rc.0, rc.1, Mark(n % 2));
      assert Replay(actions) == Place(Replay(prev), rc.0, rc.1, Mark(n % 2));
    }
  }

  /** The cleared board has no marked cell. */
  lemma EmptyIsUnmarked()
    ensures Marked(Empty()) == 0
  {
    AllZerosSelected(Flatten(Empty()));
  }

  /** When every element of s is 0, the zero mask keeps all of them. */
  lemma {:induction false} AllZerosSelected(s: seq<int>)
    requires forall k :: 0 <= k < |s| ==> s[k] == 0
    ensures |Zeros(s)| == |s|
  {
    if s != [] {
      assert forall k :: 0 <= k < |s[1..]| ==> s[1..][k] == s[k + 1];
      AllZerosSelected(s[1..]);
    }
  }

  /** A non-empty distinct sequence is a distinct prefix followed by an action not in it. */
  lemma DistinctSplit(actions: seq<int>)
    requires ValidActions(actions) && Distinct(actions) && actions != []
    ensures var n := |actions| - 1;
      && actions == actions[..n] + [actions[n]]
      && ValidActions(actions[..n]) && Distinct(actions[..n])
      && 0 <= actions[n] < Actions && actions[n] !in actions[..n]
  {
    var n := |actions| - 1;
    assert actions == actions[..n] + [actions[n]];
  }

  /** An action that no earlier action repeats lands on an empty cell. */
  lemma FreshActionHitsEmptyCell(actions: seq<int>, a: int)
    requires ValidActions(actions) && 0 <= a < Actions && a !in actions
    ensures Replay(actions)[CellOf(a).0][CellOf(a).1] == 0
  {
    ReplayCell(actions, CellOf(a).0, CellOf(a).1);
  }

  /** Nine actions on distinct cells fill the board, so the end test holds. */
  lemma NineDistinctActionsFillBoard(actions: seq<int>)
    requires ValidActions(actions) && Distinct(actions) && |actions| == Actions
    ensures IsFull(Replay(actions))
    ensures forall r, c :: 0 <= r < Size && 0 <= c < Size ==> Replay(actions)[r][c] != 0
  {
    DistinctActionsMarkCells(actions);
    FullIffNoEmptyCell(Replay(actions));
  }

  // ---------------------------------------------------------------------
  // The win test, as the environment computes it
  // ---------------------------------------------------------------------

  function Sum(s: seq<int>): (total: int) {
    if s == [] then 0 else s[0] + Sum(s[1..])
  }

  lemma SumOfThree(s: seq<int>)
    requires |s| == 3
    ensures Sum(s) == s[0] + s[1] + s[2]
  {
    var t := s[1..];
    var u := t[1..];
    assert u[1..] == [];
    assert Sum(u) == s[2];
    assert Sum(t) == s[1] + s[2];
  }

  function Column(b: Board, j: int): (col: seq<int>)
    requires IsBoard(b) && 0 <= j < Size
  {
    [b[0][j], b[1][j], b[2][j]]
  }

  /** Sums along axis 0: one per column. */
  function ColumnSums(b: Board): (sums: seq<int>)
    requires IsBoard(b)
  {
    [Sum(Column(b, 0)), Sum(Column(b, 1)), Sum(Column(b, 2))]
  }

  /** Sums along axis 1: one per row. */
  function RowSums(b: Board): (sums: seq<int>)
    requires IsBoard(b)
  {
    [Sum(b[0]), Sum(b[1]), Sum(b[2])]
  }

  /** The main diagonal, cells (0,0), (1,1), (2,2). */
  function Diagonal(b: Board): (diag: seq<int>)
    requires IsBoard(b)
  {
    [b[0][0], b[1][1], b[2][2]]
  }

  /** The grid mirrored left to right. */
  function FlipLR(b: Board): (f: Board)
    requires IsBoard(b)
    ensures IsBoard(f)
    ensures forall r, c :: 0 <= r < Size && 0 <= c < Size ==> f[r][c] == b[r][Size - 1 - c]
  {
    [[b[0][2], b[0][1], b[0][0]], [b[1][2], b[1][1], b[1][0]], [b[2][2], b[2][1], b[2][0]]]
  }

  /** The eight sums the win test searches: columns, rows, diagonal, anti-diagonal. */
  function LineSums(b: Board): (sums: seq<int>)
    requires IsBoard(b)
  {
    ColumnSums(b) + RowSums(b) + [Sum(Diagonal(b))] + [Sum(Diagonal(FlipLR(b)))]
  }

  /** _check_win_condition: 3 or -3 occurs among the line sums. */
  predicate HasWin(b: Board)
    requires IsBoard(b)
  {
    3 in LineSums(b) || -3 in LineSums(b)
  }

  // ---------------------------------------------------------------------
  // The reference definition: eight explicit lines of three cells
  // ---------------------------------------------------------------------

  /** The three columns, the three rows, the main diagonal and the anti-diagonal. */
  const Lines: seq<seq<Cell>> := [
    [(0, 0), (1, 0), (2, 0)], [(0, 1), (1, 1), (2, 1)], [(0, 2), (1, 2), (2, 2)],
    [(0, 0), (0, 1), (0, 2)], [(1, 0), (1, 1), (1, 2)], [(2, 0), (2, 1), (2, 2)],
    [(0, 0), (1, 1), (2, 2)], [(0, 2), (1, 1), (2, 0)]
  ]

  predicate IsLine(line: seq<Cell>) {
    |line| == Size && forall t :: 0 <= t < |line| ==> 0 <= line[t].0 < Size && 0 <= line[t].1 < Size
  }

  function At(b: Board, rc: Cell): (v: int)
    requires IsBoard(b) && 0 <= rc.0 < Size && 0 <= rc.1 < Size
  {
    b[rc.0][rc.1]
  }

  function LineSum(b: Board, line: seq<Cell>): (total: int)
    requires IsBoard(b) && IsLine(line)
  {
    At(b, line[0]) + At(b, line[1]) + At(b, line[2])
  }

  /** Player mark p holds all three cells of the line. */
  predicate Owns(b: Board, line: seq<Cell>, p: int)
    requires IsBoard(b) && IsLine(line)
  {
    forall t :: 0 <= t < |line| ==> At(b, line[t]) == p
  }

  /** Mark p holds some complete line. */
  predicate ThreeInARow(b: Board, p: int)
    requires IsBoard(b)
  {
    exists k :: 0 <= k < |Lines| && Owns(b, Lines[k], p)
  }

  lemma LinesAreLines()
    ensures |Lines| == 8
    ensures forall k :: 0 <= k < |Lines| ==> IsLine(Lines[k])
  {
  }

  /** The computed sums are, in order, the sums of the eight explicit lines. */
  lemma LineSumsAreTheEightLines(b: Board)
    requires IsBoard(b)
    ensures |LineSums(b)| == |Lines|
    ensures forall k :: 0 <= k < |Lines| ==> IsLine(Lines[k]) && LineSums(b)[k] == LineSum(b, Lines[k])
  {
    LinesAreLines();
    SumOfThree(Column(b, 0));
    SumOfThree(Column(b, 1));
    SumOfThree(Column(b, 2));
    SumOfThree(b[0]);
    SumOfThree(b[1]);
    SumOfThree(b[2]);
    SumOfThree(Diagonal(b));
    SumOfThree(Diagonal(FlipLR(b)));
    assert Sum(Column(b, 0)) == LineSum(b, Lines[0]);
    assert Sum(Column(b, 1)) == LineSum(b, Lines[1]);
    assert Sum(Column(b, 2)) == LineSum(b, Lines[2]);
    assert Sum(b[0]) == LineSum(b, Lines[3]);
    assert Sum(b[1]) == LineSum(b, Lines[4]);
    assert Sum(b[2]) == LineSum(b, Lines[5]);
    assert Sum(Diagonal(b)) == LineSum(b, Lines[6]);
    assert Sum(Diagonal(FlipLR(b))) == LineSum(b, Lines[7]);
  }

  /** The win test fires exactly when one of the eight line sums is 3 or -3. */
  lemma WinIffSomeLineSum(b: Board)
    requires IsBoard(b)
    ensures HasWin(b) <==>
      exists k :: 0 <= k < |Lines| && IsLine(Lines[k]) && (LineSum(b, Lines[k]) == 3 || LineSum(b, Lines[k]) == -3)
  {
    LineSumsAreTheEightLines(b);
    var s := LineSums(b);
    if HasWin(b) {
      var k :| 0 <= k < |s| && (s[k] == 3 || s[k] == -3);
      assert IsLine(Lines[k]) && (LineSum(b, Lines[k]) == 3 || LineSum(b, Lines[k]) == -3);
    }
    if exists k :: 0 <= k < |Lines| && IsLine(Lines[k]) && (LineSum(b, Lines[k]) == 3 || LineSum(b, Lines[k]) == -3) {
      var k :| 0 <= k < |Lines| && IsLine(Lines[k]) && (LineSum(b, Lines[k]) == 3 || LineSum(b, Lines[k]) == -3);
      assert s[k] in s;
    }
  }

  /** On cells in {-1, 0, 1} a line sums to 3 (or -3) exactly when all three cells are 1 (or -1). */
  lemma LineSumExtremes(b: Board, line: seq<Cell>)
    requires IsBoard(b) && CellsInRange(b) && IsLine(line)
    ensures LineSum(b, line) == 3 <==> Owns(b, line, 1)
    ensures LineSum(b, line) == -3 <==> Owns(b, line, -1)
  {
    var x, y, z := At(b, line[0]), At(b, line[1]), At(b, line[2]);
    assert -1 <= x <= 1 && -1 <= y <= 1 && -1 <= z <= 1;
  }

  /**
   * On a board inside the observation range, the win test fires exactly when
   * one player holds a whole row, column or diagonal.
   */
  lemma WinIffThreeInARow(b: Board)
    requires IsBoard(b) && CellsInRange(b)
    ensures HasWin(b) <==> ThreeInARow(b, 1) || ThreeInARow(b, -1)
  {
    WinIffSomeLineSum(b);
    LinesAreLines();
    forall k | 0 <= k < |Lines|
      ensures (LineSum(b, Lines[k]) == 3 <==> Owns(b, Lines[k], 1))
      ensures (LineSum(b, Lines[k]) == -3 <==> Owns(b, Lines[k], -1))
    {
      LineSumExtremes(b, Lines[k]);
    }
  }

  // ---------------------------------------------------------------------
  // Worked boards
  // ---------------------------------------------------------------------

  /** A full board with no complete line: the end test holds and the win test does not. */
  lemma DrawnBoard()
    ensures IsFull([[1, -1, 1], [1, -1, -1], [-1, 1, 1]])
    ensures !HasWin([[1, -1, 1], [1, -1, -1], [-1, 1, 1]])
  {
    FullIffNoEmptyCell([[1, -1, 1], [1, -1, -1], [-1, 1, 1]]);
  }

  /** A full board can also hold a complete line: both tests then hold. */
  lemma FullAndWonBoard()
    ensures IsFull([[1, -1, 1], [1, -1, -1], [1, 1, -1]])
    ensures HasWin([[1, -1, 1], [1, -1, -1], [1, 1, -1]])
  {
    FullIffNoEmptyCell([[1, -1, 1], [1, -1, -1], [1, 1, -1]]);
  }
}
