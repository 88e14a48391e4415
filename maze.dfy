/** Grid geometry of the maze game: the cell codes, the four actions and the
    boundary rule of a single move, the code-to-reward mapping and the
    program's reward constants. */
module Maze {

  /** Cell codes of the maze grid. */
  const WALL_CODE: int := 0
  const PATH_CODE: int := 1
  const GOAL_CODE: int := 2

  /** The reward constants the program runs with. */
  const WALL_REWARD_VALUE: int := -500
  const FLOOR_REWARD_VALUE: int := -10
  const GOAL_REWARD_VALUE: int := 500

  /** An action is an index into the action list {UP, DOWN, LEFT, RIGHT}; the
      same index selects one of the four Q-values of a cell. */
  type Action = a: int | 0 <= a < 4
  const UP: Action := 0
  const DOWN: Action := 1
  const LEFT: Action := 2
  const RIGHT: Action := 3

  /** A cell as a (row, column) pair. */
  type Cell = (int, int)

  /** A rectangular grid of integers, row by row (the maze or its rewards). */
  type Grid = seq<seq<int>>

  predicate IsRect(g: Grid, rows: nat, cols: nat) {
    |g| == rows && forall i :: 0 <= i < rows ==> |g[i]| == cols
  }

  predicate InBounds(rows: int, cols: int, row: int, col: int) {
    0 <= row < rows && 0 <= col < cols
  }

  /** Displacement of an action on an unbounded plane: UP decreases the row,
      LEFT decreases the column. */
  function RowDelta(a: Action): (d: int) {
    if a == UP then -1 else if a == DOWN then 1 else 0
  }

  function ColDelta(a: Action): (d: int) {
    if a == LEFT then -1 else if a == RIGHT then 1 else 0
  }

  /** moveOneSpace: one step in the action's direction, unless that step would
      leave the grid, in which case the cell is returned unchanged. Only the
      grid's dimensions are read. From a cell on the grid, the result is the
      neighbour in the action's direction when that neighbour is on the grid,
      and the cell itself otherwise. */
  function Step(rows: int, cols: int, row: int, col: int, a: Action): (next: Cell)
    ensures InBounds(rows, cols, row, col) ==> InBounds(rows, cols, next.0, next.1)
    ensures InBounds(rows, cols, row, col) ==>
      next == if InBounds(rows, cols, row + RowDelta(a), col + ColDelta(a))
              then (row + RowDelta(a), col + ColDelta(a))
              else (row, col)
  {
    if a == UP && row > 0 then (row - 1, col)
    else if a == DOWN && row < rows - 1 then (row + 1, col)
    else if a == LEFT && col > 0 then (row, col - 1)
    else if a == RIGHT && col < cols - 1 then (row, col + 1)
    else (row, col)
  }

  /** The reward setupRewards stores for a cell code; a code outside
      {WALL_CODE, PATH_CODE, GOAL_CODE} keeps the array's default 0. The
      result is one of the three rewards or 0, and when the floor reward
      differs from the other three, it marks exactly the PATH cells. */
  function RewardOf(code: int, wallValue: int, floorValue: int, goalValue: int): (r: int)
    ensures r == wallValue || r == floorValue || r == goalValue || r == 0
    ensures floorValue != wallValue && floorValue != goalValue && floorValue != 0 ==>
              (r == floorValue <==> code == PATH_CODE)
  {
    if code == WALL_CODE then wallValue
    else if code == PATH_CODE then floorValue
    else if code == GOAL_CODE then goalValue
    else 0
  }

  /** With the program's reward constants, the floor reward marks exactly
      the PATH cells. */
  lemma ProgramRewardsMarkPaths(code: int)
    ensures RewardOf(code, WALL_REWARD_VALUE, FLOOR_REWARD_VALUE, GOAL_REWARD_VALUE) == FLOOR_REWARD_VALUE
            <==> code == PATH_CODE
  {
  }

  /** The boundary no-ops: UP on the top row, DOWN on the bottom row, LEFT on
      the first column and RIGHT on the last column leave the cell unchanged,
      and every other action from a cell on the grid changes it. */
  lemma StepStaysExactlyAtBoundary(rows: int, cols: int, row: int, col: int, a: Action)
    requires InBounds(rows, cols, row, col)
    ensures Step(rows, cols, row, col, a) == (row, col) <==>
      (a == UP && row == 0) || (a == DOWN && row == rows - 1) ||
      (a == LEFT && col == 0) || (a == RIGHT && col == cols - 1)
  {
  }

  /** A step moves by at most one cell, along one axis only. */
  lemma StepIsUnitMove(rows: int, cols: int, row: int, col: int, a: Action)
    ensures var next := Step(rows, cols, row, col, a);
      (next.0 == row && (next.1 == col || next.1 == col - 1 || next.1 == col + 1)) ||
      (next.1 == col && (next.0 == row - 1 || next.0 == row + 1))
  {
  }
}
