# Noughts and crosses as a reinforcement-learning environment

This project models the `XsAndOs` environment: a 3×3 integer grid and a turn bit.

- **Reset** clears the board into a newly allocated grid and gives the move to turn 0.
- **Step** takes an action 0..8. It writes the mover's mark into cell `(action % 3, action // 3)`: 1 for turn 0, -1 for turn 1. It then flips the turn and reports:
  - whether some line sums to ±3 (a win);
  - whether the board has no empty cell (the end);
  - the reward: 1 on a win, 0 otherwise.

The model has two modules:

- `Grid` (`grid.dfy`) describes boards as values:
  - `Replay` gives the board that a sequence of actions produces from a cleared grid;
  - the zero mask behind the end test;
  - the column, row, diagonal and mirrored-diagonal sums behind the win test;
  - an independent reference definition of the win, through the eight explicit lines and "one mark fills a line".
- `XsAndOsEnv` (`xs_and_os.dfy`) holds the class `XsAndOs`. Its `grid` is a mutable 2-D array. It is `null` until the first reset, as the attribute does not exist before then.
  - A ghost history `moves` records the actions since the last reset.
  - The invariant `Valid()` ties every grid cell to `Grid.Replay(moves)` and the turn to `|moves| % 2`.
  - `Reset` establishes that invariant and `Step` keeps it. A caller's write through a returned observation breaks it.

The model follows what the code does:

- **Action mapping.** The action addresses row `action % 3` and column `action // 3`, so actions run down the columns (column-major).
- **No occupancy check.** A step overwrites a cell that already holds a mark. The turn flips all the same.
- **No frozen terminal state.** A step after a win or a full board keeps writing and reporting.
- **Reward.** A win is rewarded with 1, whoever made it. Every other step gets 0, including the last move of a drawn game.
- **Turn order.** Turn 0 moves first and writes 1.
- **Observation.** The observation is the live grid object itself, not a copy. A later step changes an observation already handed out, and a caller's write into an observation changes the board the next step works on. `Step` needs only the 3×3 grid a reset creates, so it runs on such an altered board too. The invariant `Valid()` and the facts drawn from it, such as cells in {-1, 0, 1}, hold as long as only `Reset` and `Step` write the grid. Reset allocates a new array and leaves earlier arrays untouched.
- **Truncation.** `truncated` is always false.
- **Info.** The info record is always empty.

## Model

| member | source | states |
|---|---|---|
| Grid.Empty | gym_xs_and_os/envs/xs_and_os.py:40 | the cleared grid is a 3×3 board of zeros |
| Grid.CellOf | gym_xs_and_os/envs/xs_and_os.py:66 | an action 0..8 addresses an in-range cell (action % 3, action // 3), and the action is recovered as row + 3·column |
| Grid.CellOfInjective | gym_xs_and_os/envs/xs_and_os.py:66 | two actions address the same cell exactly when they are equal |
| Grid.Mark | gym_xs_and_os/envs/xs_and_os.py:66 | the mover writes 1 or -1, and 1 exactly when the turn is 0 |
| Grid.Place | gym_xs_and_os/envs/xs_and_os.py:66 | a write sets the addressed cell and leaves every other cell as it was |
| Grid.Replay | gym_xs_and_os/envs/xs_and_os.py:40-67 | the board reached from a reset by a sequence of actions is 3×3 with every cell in {-1, 0, 1} (the observation range) |
| Grid.ReplayAppend | gym_xs_and_os/envs/xs_and_os.py:66-67 | one more step writes the mark of turn \|actions\| % 2 into the new action's cell of the replayed board |
| Grid.ReplayCell | gym_xs_and_os/envs/xs_and_os.py:66 | a cell is non-empty exactly when some action since the reset addressed it |
| Grid.ReplayMarksAreLastWriter | gym_xs_and_os/envs/xs_and_os.py:66-67 | a cell holds the mark of the last action that addressed it (overwriting, with no occupancy check) |
| Grid.Flatten | gym_xs_and_os/envs/xs_and_os.py:52 | the grid read row-major as nine values, cell (r, c) at position 3r + c |
| Grid.Zeros | gym_xs_and_os/envs/xs_and_os.py:52 | boolean-mask selection of the zeros: no longer than its input and made of zeros only |
| Grid.ZerosCount | gym_xs_and_os/envs/xs_and_os.py:52 | the selection has as many elements as the input has zeros |
| Grid.NoZerosIffNoneZero | gym_xs_and_os/envs/xs_and_os.py:52 | the selection of zeros is empty exactly when no element is 0 |
| Grid.FullIffNoEmptyCell | gym_xs_and_os/envs/xs_and_os.py:51-53 | the end test (empty zero selection) holds exactly when no cell is 0 |
| Grid.IsFull | gym_xs_and_os/envs/xs_and_os.py:51-53 | _check_end on a board value: the zero mask of the row-major reading is empty; FullIffNoEmptyCell gives its meaning, no cell is 0 |
| Grid.Marked | gym_xs_and_os/envs/xs_and_os.py:52 | nine minus the number of zeros among the cells, that is, the number of marked cells, at most 9 |
| Grid.EmptyIsUnmarked | gym_xs_and_os/envs/xs_and_os.py:40 | the cleared board has no marked cell |
| Grid.PlaceOnEmptyCell | gym_xs_and_os/envs/xs_and_os.py:66 | writing a mark into an empty cell raises the count of marked cells by exactly one |
| Grid.FreshActionHitsEmptyCell | gym_xs_and_os/envs/xs_and_os.py:66 | an action no earlier action since the reset repeats lands on an empty cell |
| Grid.DistinctActionsMarkCells | gym_xs_and_os/envs/xs_and_os.py:65-70 | after a reset, steps on pairwise distinct cells leave exactly as many marked cells as steps |
| Grid.NineDistinctActionsFillBoard | gym_xs_and_os/envs/xs_and_os.py:65-70 | after a reset, nine steps on distinct cells fill the board, so the end test holds |
| Grid.SumOfThree | gym_xs_and_os/envs/xs_and_os.py:56-59 | the sum of a three-element sequence is the sum of its three elements |
| Grid.Sum | gym_xs_and_os/envs/xs_and_os.py:56-59 | np.sum of a vector; SumOfThree gives it on three elements |
| Grid.ColumnSums | gym_xs_and_os/envs/xs_and_os.py:56 | the sums along axis 0, one per column, in column order |
| Grid.RowSums | gym_xs_and_os/envs/xs_and_os.py:57 | the sums along axis 1, one per row, in row order |
| Grid.Diagonal | gym_xs_and_os/envs/xs_and_os.py:58 | the main diagonal, cells (0,0), (1,1), (2,2) |
| Grid.FlipLR | gym_xs_and_os/envs/xs_and_os.py:59 | the left-right mirror puts column 2 - c of the grid at column c |
| Grid.LineSums | gym_xs_and_os/envs/xs_and_os.py:56-61 | the eight values concatenated in the code's order: column sums, row sums, diagonal sum, diagonal sum of the mirrored grid; LineSumsAreTheEightLines gives them as the explicit line sums |
| Grid.HasWin | gym_xs_and_os/envs/xs_and_os.py:55-63 | _check_win_condition on a board value: 3 or -3 occurs among the eight line sums; WinIffSomeLineSum and WinIffThreeInARow give its meaning |
| Grid.LinesAreLines | gym_xs_and_os/envs/xs_and_os.py:56-61 | each of the eight reference lines is three in-range cells |
| Grid.LineSumsAreTheEightLines | gym_xs_and_os/envs/xs_and_os.py:56-61 | the concatenated column, row, diagonal and mirrored-diagonal sums are, in order, the sums of the three columns, the three rows, the main diagonal and the anti-diagonal |
| Grid.WinIffSomeLineSum | gym_xs_and_os/envs/xs_and_os.py:55-63 | the win test holds exactly when one of the eight lines sums to 3 or -3 |
| Grid.LineSumExtremes | gym_xs_and_os/envs/xs_and_os.py:63 | on cells in {-1, 0, 1}, a line sums to 3 (or -3) exactly when all three cells are 1 (or -1) |
| Grid.WinIffThreeInARow | gym_xs_and_os/envs/xs_and_os.py:55-63 | on cells in {-1, 0, 1}, the win test holds exactly when one mark fills a whole column, row or diagonal |
| Grid.DrawnBoard | gym_xs_and_os/envs/xs_and_os.py:69-71 | a full board with no line: the end test holds and the win test does not (terminated, reward 0) |
| Grid.FullAndWonBoard | gym_xs_and_os/envs/xs_and_os.py:69-71 | a full board with a filled line: both tests hold |
| XsAndOsEnv.XsAndOs.constructor | gym_xs_and_os/envs/xs_and_os.py:9-29 | a new environment has no board yet |
| XsAndOsEnv.XsAndOs.Snapshot | gym_xs_and_os/envs/xs_and_os.py:31-32 | the grid read as a 3×3 board value |
| XsAndOsEnv.XsAndOs.SnapshotCells | gym_xs_and_os/envs/xs_and_os.py:31-32 | the value holds, cell for cell, what the grid holds |
| XsAndOsEnv.XsAndOs.ObservationInRange | gym_xs_and_os/envs/xs_and_os.py:13 | under the invariant (only Reset and Step have written the grid) every cell lies in the observation range {-1, 0, 1} |
| XsAndOsEnv.XsAndOs.GetObs | gym_xs_and_os/envs/xs_and_os.py:31-32 | the observation is the grid object itself (aliasing, no copy) |
| XsAndOsEnv.XsAndOs.GetInfo | gym_xs_and_os/envs/xs_and_os.py:34-35 | the info record is empty |
| XsAndOsEnv.XsAndOs.Reset | gym_xs_and_os/envs/xs_and_os.py:37-49 | allocates a new all-zero 3×3 grid, sets the turn to 0 and empties the history, establishing the invariant; returns the grid itself and an empty info |
| XsAndOsEnv.XsAndOs.CheckEnd | gym_xs_and_os/envs/xs_and_os.py:51-53 | _check_end: the zero mask of the live grid is empty; CheckEndMeansNoEmptyCell gives its meaning, no grid cell is 0 |
| XsAndOsEnv.XsAndOs.CheckEndMeansNoEmptyCell | gym_xs_and_os/envs/xs_and_os.py:51-53 | the end test holds exactly when no grid cell is 0 |
| XsAndOsEnv.XsAndOs.CheckWinCondition | gym_xs_and_os/envs/xs_and_os.py:55-63 | _check_win_condition: 3 or -3 occurs among the eight line sums of the live grid; CheckWinConditionMeansFullLine gives its meaning |
| XsAndOsEnv.XsAndOs.CheckWinConditionMeansFullLine | gym_xs_and_os/envs/xs_and_os.py:55-63 | the win test holds exactly when one of the eight lines sums to ±3; on cells in {-1, 0, 1}, exactly when one mark fills a line |
| XsAndOsEnv.XsAndOs.StepKeepsValid | gym_xs_and_os/envs/xs_and_os.py:66-67 | the write and the turn flip of a step restore the invariant for the history extended by the action |
| XsAndOsEnv.XsAndOs.Step | gym_xs_and_os/envs/xs_and_os.py:65-78 | on any 3×3 grid, including one a caller altered through an observation: writes the mover's mark into cell (action % 3, action // 3) even when occupied, changes no other cell, keeps marked cells marked, sets the turn to (turn + 1) % 2 (a flip for turn 0 or 1), appends the action to the history, and keeps the invariant when it held before; reward is 1 exactly on a win, terminated is win-or-full, truncated is false, and the observation is the live grid |
| XsAndOsEnv.XsAndOs.DistinctMovesFillBoard | gym_xs_and_os/envs/xs_and_os.py:65-78 | after a reset, n steps on distinct cells leave n marked cells, and after nine of them the end test holds, so that step reports termination |

## Left out

- `render`, `_render_frame` and `close` are not modelled. The window, the clock and `window_size` go with them. They are pygame drawing and timing, with floating point.
- The `seed` and `options` arguments of reset, and the base-class reset they feed, are not modelled. The random generator they seed is never used by this environment.
- The `observation_space` and `action_space` objects are not modelled. Their bounds remain: the action range 0..8 is `Step`'s precondition, and the observation range {-1, 0, 1} is proved by `ObservationInRange` for grids that only `Reset` and `Step` have written. A caller can write any value into a returned observation, and the model does not bound it.
- The `render_mode` check in the initialiser and the class `metadata` are not modelled. They concern rendering only.
- Step: actions outside 0..8 are excluded by its precondition. In the code, numpy would raise an index error on such an action, or wrap a negative index around.
- Step: calling it before the first reset is excluded by `HasBoard()`. The code fails with a missing-attribute error there.
- Step: the int32 element type is not modelled, so cells are unbounded integers. While only `Reset` and `Step` write the grid, cells stay within -1..1 and line sums within -3..3, so no width matters. If a caller writes values near the int32 bounds into an observation, numpy's sums could wrap around; the model does not capture that.
- Step: the reward is an integer, as the code returns it.
- The history `moves` is ghost. It records the actions since the last reset, so that the grid can be specified as `Grid.Replay(moves)`. It has no counterpart in the code. After a caller writes into an observation, the grid is no longer the replay of `moves`. `Step` still promises its write, frame, turn, reward and termination then, but not `Valid()`.
