/** The program's mutable state and its imperative operations: the reward
    grid and the Q-value tensor as arrays assigned and updated in place, the
    nested set-up loops, the training loops and the navigation loop, each
    proved against the functions of Learning and Navigation. */
module Engine {
  import opened Maze
  import opened QTable
  import opened Learning
  import opened Navigation

  class MazeEngine {
    /** The reward of each maze cell (the global `rewards`). */
    var rewards: array2<int>
    /** rows x columns x 4 action-values (the global `qValues` tensor). */
    var qValues: array3<real>

    /** The table and the rewards cover the same grid, four values a cell. */
    ghost predicate Valid()
      reads this
    {
      qValues.Length0 == rewards.Length0 && qValues.Length1 == rewards.Length1 && qValues.Length2 == 4
    }

    constructor ()
      ensures Valid() && rewards.Length0 == 0 && rewards.Length1 == 0
    {
      rewards := new int[0, 0];
      qValues := new real[0, 0, 4];
    }

    /** The rewards as a grid value. */
    function Rewards(): (g: Grid)
      reads this, rewards
      ensures IsRect(g, rewards.Length0, rewards.Length1)
      ensures forall i, j :: InBounds(rewards.Length0, rewards.Length1, i, j) ==> g[i][j] == rewards[i, j]
    {
      var a := rewards;
      seq(a.Length0, i requires 0 <= i < a.Length0 reads a =>
        seq(a.Length1, j requires 0 <= j < a.Length1 reads a => a[i, j]))
    }

    /** The Q-values as a table value. */
    function Table(): (q: Table)
      reads this, qValues
      requires qValues.Length2 == 4
      ensures Shaped(q, qValues.Length0, qValues.Length1)
      ensures forall i, j, k :: 0 <= i < qValues.Length0 && 0 <= j < qValues.Length1 && 0 <= k < 4 ==>
                q[i][j][k] == qValues[i, j, k]
    {
      var a := qValues;
      seq(a.Length0, i requires 0 <= i < a.Length0 reads a =>
        seq(a.Length1, j requires 0 <= j < a.Length1 reads a =>
          seq(4, k requires 0 <= k < 4 reads a => a[i, j, k])))
    }

    function EnvFor(floorValue: int): (e: Env)
      reads this, rewards
      ensures e.Valid() && e.rows == rewards.Length0 && e.cols == rewards.Length1
      ensures e.rewards == Rewards() && e.floorValue == floorValue
    {
      Env(rewards.Length0, rewards.Length1, Rewards(), floorValue)
    }

    /** The four values of a cell (qValues[row, col]). */
    function CellValues(row: int, col: int): (v: seq<real>)
      reads this, qValues
      requires qValues.Length2 == 4 && InBounds(qValues.Length0, qValues.Length1, row, col)
      ensures |v| == 4 && forall k :: 0 <= k < 4 ==> v[k] == qValues[row, col, k]
    {
      [qValues[row, col, 0], qValues[row, col, 1], qValues[row, col, 2], qValues[row, col, 3]]
    }

    /** hasHitWallOrEndOfMaze: the terminal test on the world the reward
        array holds. */
    function HasHitWallOrEndOfMaze(row: int, col: int, floorValue: int): (b: bool)
      reads this, rewards
      requires InBounds(rewards.Length0, rewards.Length1, row, col)
      ensures b == EnvFor(floorValue).Terminal(row, col)
    {
      rewards[row, col] != floorValue
    }

    /** The arrays hold the world e and the table q: same dimensions, the
        same reward in every cell and the same value in every entry. */
    ghost predicate Abstracts(e: Env, q: Table)
      reads this, rewards, qValues
    {
      e.Valid() && e.rows == rewards.Length0 && e.cols == rewards.Length1 &&
      qValues.Length0 == e.rows && qValues.Length1 == e.cols && qValues.Length2 == 4 &&
      Shaped(q, e.rows, e.cols) &&
      (forall i, j {:trigger rewards[i, j]} :: InBounds(e.rows, e.cols, i, j) ==> e.rewards[i][j] == rewards[i, j]) &&
      forall i, j, k {:trigger qValues[i, j, k]} :: InBounds(e.rows, e.cols, i, j) && 0 <= k < 4 ==> q[i][j][k] == qValues[i, j, k]
    }

    /** The arrays hold the world and the table their abstraction functions
        read, and no other. */
    lemma AbstractsExactly(e: Env, q: Table)
      requires Valid()
      ensures Abstracts(EnvFor(e.floorValue), Table())
      ensures Abstracts(e, q) ==> e == EnvFor(e.floorValue) && q == Table()
    {
      if Abstracts(e, q) {
        TableExt(q, Table(), e.rows, e.cols);
        var g := Rewards();
        forall i | 0 <= i < e.rows
          ensures e.rewards[i] == g[i]
        {
          assert forall j :: 0 <= j < e.cols ==> e.rewards[i][j] == g[i][j];
        }
      }
    }

    /** hasHitWallOrEndOfMaze tests the cell of the world the arrays hold. */
    lemma HasHitIsTerminal(e: Env, q: Table, row: int, col: int)
      requires Abstracts(e, q) && InBounds(e.rows, e.cols, row, col)
      ensures HasHitWallOrEndOfMaze(row, col, e.floorValue) == e.Terminal(row, col)
    {
    }

    /** setupRewards: a fresh reward grid of the maze's dimensions, filled row
        by row from the cell codes. */
    method SetupRewards(maze: array2<int>, wallValue: int, floorValue: int, goalValue: int)
      modifies this
      ensures fresh(rewards) && qValues == old(qValues)
      ensures rewards.Length0 == maze.Length0 && rewards.Length1 == maze.Length1
      ensures forall i, j :: InBounds(maze.Length0, maze.Length1, i, j) ==>
                rewards[i, j] == RewardOf(maze[i, j], wallValue, floorValue, goalValue)
    {
      var mazeRows, mazeColumns := maze.Length0, maze.Length1;
      var r := new int[mazeRows, mazeColumns]((i, j) => 0);
      for i := 0 to mazeRows
        invariant forall i', j' :: 0 <= i' < i && 0 <= j' < mazeColumns ==>
                    r[i', j'] == RewardOf(maze[i', j'], wallValue, floorValue, goalValue)
        invariant forall i', j' :: i <= i' < mazeRows && 0 <= j' < mazeColumns ==> r[i', j'] == 0
        invariant qValues == old(qValues)
      {
        for j := 0 to mazeColumns
          invariant forall i', j' :: 0 <= i' < i && 0 <= j' < mazeColumns ==>
                      r[i', j'] == RewardOf(maze[i', j'], wallValue, floorValue, goalValue)
          invariant forall j' :: 0 <= j' < j ==> r[i, j'] == RewardOf(maze[i, j'], wallValue, floorValue, goalValue)
          invariant forall i', j' :: i <= i' < mazeRows && 0 <= j' < mazeColumns && (i' > i || j' >= j) ==>
                      r[i', j'] == 0
          invariant qValues == old(qValues)
        {
          if maze[i, j] == WALL_CODE {
            r[i, j] := wallValue;
          } else if maze[i, j] == PATH_CODE {
            r[i, j] := floorValue;
          } else if maze[i, j] == GOAL_CODE {
            r[i, j] := goalValue;
          }
        }
      }
      rewards := r;
    }

    /** setupQValues: a fresh zeroed table of the maze's dimensions. */
    method SetupQValues(maze: array2<int>)
      modifies this
      ensures fresh(qValues) && rewards == old(rewards)
      ensures qValues.Length0 == maze.Length0 && qValues.Length1 == maze.Length1 && qValues.Length2 == 4
      ensures Table() == Zeros(maze.Length0, maze.Length1)
    {
      qValues := new real[maze.Length0, maze.Length1, 4]((i, j, k) => 0.0);
      TableExt(Table(), Zeros(maze.Length0, maze.Length1), maze.Length0, maze.Length1);
    }

    /** One pass of the training loop's body at (row, col) with the draw
        determineNextAction takes: choose, step, and write the single entry
        (row, col, action), so that the arrays hold the table TdStep yields. */
    method TrainingStep(maze: array2<int>, row: int, col: int, epsilon: real, discountFactor: real,
                        learningRate: real, d: Draw, ghost e: Env, ghost q: Table)
      returns (nextRow: int, nextColumn: int, action: Action)
      requires Abstracts(e, q) && maze.Length0 == e.rows && maze.Length1 == e.cols
      requires InBounds(e.rows, e.cols, row, col)
      modifies qValues
      ensures action == NextAction(q[row][col], epsilon, d)
      ensures (nextRow, nextColumn) == Step(e.rows, e.cols, row, col, action)
      ensures Abstracts(e, TdStep(e, Hyper(epsilon, discountFactor, learningRate), q, row, col, action))
    {
      assert CellValues(row, col) == q[row][col];
      action := NextAction(CellValues(row, col), epsilon, d);
      var previousRow, previousColumn := row, col;
      var nextMove := Step(maze.Length0, maze.Length1, row, col, action);
      nextRow, nextColumn := nextMove.0, nextMove.1;
      var reward := rewards[nextRow, nextColumn] as real;
      var previousQValue := qValues[previousRow, previousColumn, action];
      assert CellValues(nextRow, nextColumn) == q[nextRow][nextColumn];
      var nextBest := BestValue(CellValues(nextRow, nextColumn));
      var nextQValue := TdValue(previousQValue, reward, nextBest, discountFactor, learningRate);
      qValues[previousRow, previousColumn, action] := nextQValue;
    }

    /** One episode of trainTheModel's outer loop: from (START_ROW,
        START_COLUMN), while the current cell is not terminal and draws are
        left, take draws[k] and make one training step. The arrays end up
        holding the table the episode yields, k indexes the first draw it
        left, and `done` says whether it stopped on a terminal cell. */
    method RunEpisode(maze: array2<int>, floorValue: int, epsilon: real, discountFactor: real,
                      learningRate: real, draws: seq<Draw>, k0: nat, ghost env: Env, ghost q0: Table)
      returns (k: nat, done: bool, ghost q: Table)
      requires Abstracts(env, q0) && env.floorValue == floorValue
      requires maze.Length0 == env.rows && maze.Length1 == env.cols
      requires InBounds(env.rows, env.cols, START_ROW, START_COLUMN) && k0 <= |draws|
      modifies qValues
      ensures k <= |draws| && Abstracts(env, q)
      ensures var end := Episode(env, Hyper(epsilon, discountFactor, learningRate), q0, START_ROW, START_COLUMN, draws, k0);
              end.table == q && end.next == k && done == env.Terminal(end.row, end.col)
    {
      ghost var h := Hyper(epsilon, discountFactor, learningRate);
      ghost var end := Episode(env, h, q0, START_ROW, START_COLUMN, draws, k0);
      var currentRow, currentColumn := START_ROW, START_COLUMN;
      k, q := k0, q0;
      while !HasHitWallOrEndOfMaze(currentRow, currentColumn, floorValue) && k < |draws|
        invariant k <= |draws|
        invariant InBounds(env.rows, env.cols, currentRow, currentColumn)
        invariant Abstracts(env, q)
        invariant Episode(env, h, q, currentRow, currentColumn, draws, k) == end
        decreases |draws| - k
      {
        HasHitIsTerminal(env, q, currentRow, currentColumn);
        var nextRow, nextColumn, action :=
          TrainingStep(maze, currentRow, currentColumn, epsilon, discountFactor, learningRate, draws[k], env, q);
        ghost var q' := TdStep(env, h, q, currentRow, currentColumn, action);
        EpisodeStep(env, h, q, currentRow, currentColumn, draws, k, action, nextRow, nextColumn, q');
        q := q';
        currentRow, currentColumn := nextRow, nextColumn;
        k := k + 1;
      }
      HasHitIsTerminal(env, q, currentRow, currentColumn);
      done := HasHitWallOrEndOfMaze(currentRow, currentColumn, floorValue);
      EpisodeStop(env, h, q, currentRow, currentColumn, draws, k);
    }

    /** trainTheModel: `episodes` episodes from (START_ROW, START_COLUMN), each
        looping while the current cell is not terminal. Each loop pass takes
        one draw; the loop also stops when the draws run out, and `finished`
        says whether every episode ended on a terminal cell. */
    method TrainTheModel(maze: array2<int>, floorValue: int, epsilon: real, discountFactor: real,
                         learningRate: real, episodes: nat, draws: seq<Draw>)
      returns (finished: bool)
      requires Valid() && maze.Length0 == rewards.Length0 && maze.Length1 == rewards.Length1
      requires episodes > 0 ==> InBounds(rewards.Length0, rewards.Length1, START_ROW, START_COLUMN)
      modifies qValues
      ensures var r := Train(EnvFor(floorValue), Hyper(epsilon, discountFactor, learningRate), old(Table()), episodes, draws, 0);
              Table() == r.table && finished == r.finished
    {
      ghost var env := EnvFor(floorValue);
      ghost var q := Table();
      AbstractsExactly(env, q);
      ghost var q';
      finished, q' := TrainEpisodes(maze, floorValue, epsilon, discountFactor, learningRate, episodes, draws, env, q);
      AbstractsExactly(env, q');
    }

    /** The episode loop of trainTheModel, on the world and the table the
        arrays hold. */
    method TrainEpisodes(maze: array2<int>, floorValue: int, epsilon: real, discountFactor: real,
                         learningRate: real, episodes: nat, draws: seq<Draw>, ghost env: Env, ghost q0: Table)
      returns (finished: bool, ghost q: Table)
      requires Abstracts(env, q0) && env.floorValue == floorValue
      requires maze.Length0 == env.rows && maze.Length1 == env.cols
      requires episodes > 0 ==> InBounds(env.rows, env.cols, START_ROW, START_COLUMN)
      modifies qValues
      ensures Abstracts(env, q)
      ensures var r := Train(env, Hyper(epsilon, discountFactor, learningRate), q0, episodes, draws, 0);
              q == r.table && finished == r.finished
    {
      ghost var h := Hyper(epsilon, discountFactor, learningRate);
      ghost var goal := Train(env, h, q0, episodes, draws, 0);
      q := q0;
      finished := true;
      var k := 0;
      for episode := 0 to episodes
        invariant 0 <= k <= |draws|
        invariant Abstracts(env, q)
        invariant var rest := Train(env, h, q, episodes - episode, draws, k);
                  goal == TrainEnd(rest.table, rest.next, finished && rest.finished)
      {
        ghost var q1, k1 := q, k;
        var done;
        k, done, q := RunEpisode(maze, floorValue, epsilon, discountFactor, learningRate, draws, k, env, q);
        TrainStep(env, h, q1, episodes - episode, draws, k1, q, k, done);
        finished := finished && done;
      }
    }

    /** navigateMaze: the empty path when the start is terminal; otherwise the
        start cell, then each cell the greedy step reaches that is not a wall,
        while the current cell is not terminal. determineNextAction is called
        with epsilon 1.0, so it takes a draw and always exploits. Each loop
        pass takes one draw; the loop also stops when the draws run out, and
        `finished` says whether it reached a terminal cell. */
    method NavigateMaze(maze: array2<int>, startRow: int, startColumn: int, floorValue: int, wallValue: int,
                        draws: seq<Draw>)
      returns (path: seq<Cell>, finished: bool)
      requires Valid() && maze.Length0 == rewards.Length0 && maze.Length1 == rewards.Length1
      requires InBounds(rewards.Length0, rewards.Length1, startRow, startColumn)
      requires forall n :: 0 <= n < |draws| ==> ValidDraw(draws[n])
      ensures Rollout(path, finished) == Navigate(EnvFor(floorValue), Table(), wallValue, startRow, startColumn, |draws|)
    {
      ghost var env := EnvFor(floorValue);
      ghost var q := Table();
      AbstractsExactly(env, q);
      path, finished := FollowGreedyPath(maze, startRow, startColumn, floorValue, wallValue, draws, env, q);
    }

    /** The body of navigateMaze on the world and the table the arrays hold. */
    method FollowGreedyPath(maze: array2<int>, startRow: int, startColumn: int, floorValue: int, wallValue: int,
                            draws: seq<Draw>, ghost env: Env, ghost q: Table)
      returns (path: seq<Cell>, finished: bool)
      requires Abstracts(env, q) && env.floorValue == floorValue
      requires maze.Length0 == env.rows && maze.Length1 == env.cols
      requires InBounds(env.rows, env.cols, startRow, startColumn)
      requires forall n :: 0 <= n < |draws| ==> ValidDraw(draws[n])
      ensures Rollout(path, finished) == Navigate(env, q, wallValue, startRow, startColumn, |draws|)
    {
      ghost var goal := Navigate(env, q, wallValue, startRow, startColumn, |draws|);
      HasHitIsTerminal(env, q, startRow, startColumn);
      if HasHitWallOrEndOfMaze(startRow, startColumn, floorValue) {
        return [], true;
      }
      var currentRow, currentColumn := startRow, startColumn;
      path := [(currentRow, currentColumn)];
      var k := 0;
      while !HasHitWallOrEndOfMaze(currentRow, currentColumn, floorValue) && k < |draws|
        invariant 0 <= k <= |draws|
        invariant InBounds(env.rows, env.cols, currentRow, currentColumn)
        invariant var rest := RolloutFrom(env, q, wallValue, currentRow, currentColumn, |draws| - k);
                  Rollout(path + rest.path, rest.finished) == goal
        decreases |draws| - k
      {
        HasHitIsTerminal(env, q, currentRow, currentColumn);
        assert CellValues(currentRow, currentColumn) == q[currentRow][currentColumn];
        var nextAction := NextAction(CellValues(currentRow, currentColumn), 1.0, draws[k]);
        ExploitsAtEpsilonOne(CellValues(currentRow, currentColumn), draws[k]);
        RolloutStep(env, q, wallValue, path, currentRow, currentColumn, |draws| - k);
        var nextMove := Step(maze.Length0, maze.Length1, currentRow, currentColumn, nextAction);
        currentRow, currentColumn := nextMove.0, nextMove.1;
        if rewards[currentRow, currentColumn] != wallValue {
          path := path + [(currentRow, currentColumn)];
        }
        k := k + 1;
      }
      HasHitIsTerminal(env, q, currentRow, currentColumn);
      finished := HasHitWallOrEndOfMaze(currentRow, currentColumn, floorValue);
      assert path + [] == path;
    }
  }
}
