/**
 * The noughts-and-crosses environment: a 3×3 integer grid and a turn bit.
 * A reset allocates a cleared grid and gives the move to turn 0; a step
 * writes the mover's mark into the addressed cell (overwriting whatever was
 * there), flips the turn and reports a win, a full board and the reward.
 * There is no occupancy check and no frozen terminal state: a step after
 * the game has ended keeps writing.
 */
module XsAndOsEnv {
  import Grid

  class XsAndOs {
    /** The side of the square grid. */
    const size: int := Grid.Size

    /** The board; it does not exist until the first reset. */
    var grid: array2?<int>

    /** 0 when the player writing 1 is to move, 1 when the player writing -1 is. */
    var turn: int

    /** The actions played since the last reset. */
    ghost var moves: seq<int>

    /**
     * The object invariant: the grid is 3×3, it is the board the actions
     * since the last reset produce from a cleared grid, and the turn is the
     * parity of the number of those actions.
     */
    ghost predicate Valid()
      reads this, grid
    {
      && HasBoard()
      && Grid.ValidActions(moves)
      && (forall r, c :: 0 <= r < size && 0 <= c < size ==> grid[r, c] == Grid.Replay(moves)[r][c])
      && turn == |moves| % 2
    }

    /** A reset has created the 3×3 grid. */
    predicate HasBoard()
      reads this
    {
      grid != null && grid.Length0 == size && grid.Length1 == size
    }

    /** The grid as a value, row by row. */
    function Snapshot(): (b: Grid.Board)
      reads this, grid
      requires HasBoard()
      ensures Grid.IsBoard(b)
    {
      [[grid[0, 0], grid[0, 1], grid[0, 2]],
       [grid[1, 0], grid[1, 1], grid[1, 2]],
       [grid[2, 0], grid[2, 1], grid[2, 2]]]
    }

    /** The snapshot holds, cell for cell, what the grid holds. */
    lemma SnapshotCells()
      requires HasBoard()
      ensures forall r, c :: 0 <= r < size && 0 <= c < size ==> Snapshot()[r][c] == grid[r, c]
    {
    }

    /**
     * Every cell lies in the observation range {-1, 0, 1}, as long as only
     * Reset and Step have written the grid.
     */
    lemma ObservationInRange()
      requires Valid()
      ensures forall r, c :: 0 <= r < size && 0 <= c < size ==> -1 <= grid[r, c] <= 1
    {
      assert Grid.CellsInRange(Grid.Replay(moves));
    }

    /** Creating the environment builds no board yet. */
    constructor ()
      ensures grid == null && moves == []
    {
      grid := null;
      moves := [];
    }

    /** _get_obs: the observation is the live grid object itself, not a copy. */
    function GetObs(): (observation: array2?<int>)
      reads this
      ensures observation == grid
    {
      grid
    }

    /** _get_info: the auxiliary information is always an empty record. */
    function GetInfo(): (info: map<string, string>)
      ensures |info| == 0
    {
      map[]
    }

    /** Clears the board into a freshly allocated grid and gives the move to turn 0. */
    method Reset() returns (observation: array2<int>, info: map<string, string>)
      modifies this
      ensures Valid() && fresh(grid)
      ensures moves == [] && turn == 0
      ensures forall r, c :: 0 <= r < size && 0 <= c < size ==> grid[r, c] == 0
      ensures observation == grid && info == map[]
    {
      grid := new int[size, size]((r, c) => 0);
      turn := 0;
      moves := [];
      assert Grid.Replay(moves) == Grid.Empty();
      observation := GetObs();
      info := GetInfo();
    }

    /** _check_end: the zero mask of the grid is empty. */
    function CheckEnd(): (end: bool)
      reads this, grid
      requires HasBoard()
    {
      Grid.IsFull(Snapshot())
    }

    /** The end test holds exactly when no cell is 0. */
    lemma CheckEndMeansNoEmptyCell()
      requires HasBoard()
      ensures CheckEnd() <==> forall r, c :: 0 <= r < size && 0 <= c < size ==> grid[r, c] != 0
    {
      SnapshotCells();
      Grid.FullIffNoEmptyCell(Snapshot());
    }

    /**
     * _check_win_condition: 3 or -3 occurs among the three column sums, the
     * three row sums, the sum of the diagonal and the sum of the diagonal of
     * the left-right mirrored grid.
     */
    function CheckWinCondition(): (win: bool)
      reads this, grid
      requires HasBoard()
    {
      Grid.HasWin(Snapshot())
    }

    /**
     * The win test holds exactly when one of the eight explicit lines sums to
     * 3 or -3; on cells in {-1, 0, 1}, exactly when one mark fills a line.
     */
    lemma CheckWinConditionMeansFullLine()
      requires HasBoard()
      ensures CheckWinCondition() <==>
        exists k :: 0 <= k < |Grid.Lines| && Grid.IsLine(Grid.Lines[k]) &&
          (Grid.LineSum(Snapshot(), Grid.Lines[k]) == 3 || Grid.LineSum(Snapshot(), Grid.Lines[k]) == -3)
      ensures Grid.CellsInRange(Snapshot()) ==>
        (CheckWinCondition() <==> Grid.ThreeInARow(Snapshot(), 1) || Grid.ThreeInARow(Snapshot(), -1))
    {
      Grid.WinIffSomeLineSum(Snapshot());
      if Grid.CellsInRange(Snapshot()) {
        Grid.WinIffThreeInARow(Snapshot());
      }
    }

    /**
     * The write and the turn flip of a step restore the object invariant:
     * the grid is the replay of one more action and the turn its parity.
     */
    twostate lemma StepKeepsValid(action: int)
      requires old(Valid()) && 0 <= action < Grid.Actions
      requires grid == old(grid) && HasBoard()
      requires grid[action % 3, action / 3] == Grid.Mark(old(turn))
      requires forall r, c :: 0 <= r < size && 0 <= c < size && (r, c) != (action % 3, action / 3) ==>
        grid[r, c] == old(grid[r, c])
      requires turn == (old(turn) + 1) % 2
      requires moves == old(moves) + [action]
      ensures Valid()
    {
      Grid.ReplayAppend(old(moves), action);
      assert (action % 3, action / 3) == Grid.CellOf(action);
    }

    /**
     * Writes the mover's mark into cell (action % 3, action / 3), whatever it
     * held, flips the turn, and reports the outcome of the new board.  The
     * step needs only the grid a reset creates: it also runs on a grid a
     * caller has written through a returned observation, and then the
     * invariant, which such a write breaks, is simply not promised.
     */
    method Step(action: int) returns (observation: array2<int>, reward: int, terminated: bool,
                                      truncated: bool, info: map<string, string>)
      requires HasBoard()
      requires 0 <= action < Grid.Actions
      modifies this, grid
      ensures HasBoard() && grid == old(grid)
      ensures grid[action % 3, action / 3] == Grid.Mark(old(turn))
      ensures forall r, c :: 0 <= r < size && 0 <= c < size && (r, c) != (action % 3, action / 3) ==>
        grid[r, c] == old(grid[r, c])
      ensures forall r, c :: 0 <= r < size && 0 <= c < size && old(grid[r, c]) != 0 ==> grid[r, c] != 0
      ensures turn == (old(turn) + 1) % 2
      ensures (old(turn) == 0 || old(turn) == 1) ==> turn != old(turn)
      ensures moves == old(moves) + [action]
      ensures old(Valid()) ==> Valid()
      ensures reward == if CheckWinCondition() then 1 else 0
      ensures terminated == (CheckWinCondition() || CheckEnd())
      ensures !truncated
      ensures observation == grid && info == map[]
    {
      grid[action % 3, action / 3] := if turn != 0 then -1 else 1;
      turn := (turn + 1) % 2;
      moves := moves + [action];
      if old(Valid()) {
        StepKeepsValid(action);
      }

      var winGame := CheckWinCondition();
      terminated := winGame || CheckEnd();
      reward := if winGame then 1 else 0;
      observation := GetObs();
      info := GetInfo();
      truncated := false;
    }

    /**
     * After a reset and nine steps on distinct cells the board is full, so
     * the ninth step reports termination; in general n distinct steps leave
     * exactly n marked cells.
     */
    lemma DistinctMovesFillBoard()
      requires Valid() && Grid.Distinct(moves)
      ensures Grid.Marked(Snapshot()) == |moves|
      ensures |moves| == Grid.Actions ==> CheckEnd()
    {
      Grid.SameCells(Snapshot(), Grid.Replay(moves));
      Grid.DistinctActionsMarkCells(moves);
      if |moves| == Grid.Actions {
        Grid.NineDistinctActionsFillBoard(moves);
      }
    }
  }
}
