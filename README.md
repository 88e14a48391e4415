# Q-learning maze engine in Dafny

This project models the Q-learning maze game in `1.Maze-Game/Program.cs`. The maze is a grid of cell codes: 0 is a wall, 1 is a path and 2 is the goal. `setupRewards` turns the codes into a reward grid. `setupQValues` creates a zeroed rows x columns x 4 table of action-values, with the actions UP, DOWN, LEFT and RIGHT. A cell is terminal when its reward is not the floor reward (`hasHitWallOrEndOfMaze`). `moveOneSpace` takes one step and stays put at the grid's edge. `determineNextAction` takes the first-maximum action when its random draw is below epsilon and a random action otherwise, so the program's epsilon 0.95 means mostly greedy. `trainTheModel` runs episodes from (11, 5), writing one temporal-difference update per step. `navigateMaze` follows the greedy action from a start cell and records the cells it reaches that are not walls.

The model has five modules:

- `Maze` (maze.dfy): cell codes, reward constants, actions, `Step` (moveOneSpace) and the code-to-reward map.
- `QTable` (qtable.dfy): the Q-table as a value, the zeroed table, the single-entry update, and max and argmax over a cell's four values.
- `Learning` (learning.dfy): the world (`Env`) with its terminal test, the action choice with its random draw as input, and the temporal-difference value and update step. Also one episode (`Episode`) and the episode loop (`Train`), as functions of the table and of the sequence of draws.
- `Navigation` (navigation.dfy): the greedy rollout (`Navigate`) and the properties of the path it builds.
- `Engine` (engine.dfy): the program's mutable state as the class `MazeEngine`. Its fields are `rewards: array2<int>` and `qValues: array3<real>`. The class holds the imperative operations: the nested set-up loops, the training loops that write `qValues` in place, and the navigation loop that appends to the path. `SetupRewards` is proved against `Maze.RewardOf` and `SetupQValues` against `QTable.Zeros`. The training and navigation methods are proved against the functions of `Learning` and `Navigation`, through the abstraction functions `Rewards()` and `Table()`.

Randomness is an input. Each call of `determineNextAction` consumes one `Draw`: a uniform `u` in [0, 1) (`NextDouble`) and a `fallback` action (`Next(4)`). Training and navigation take a sequence of draws and consume one per loop pass. The source's `while` loops have no bound and need not end. For example, a floor cell whose chosen action is a boundary no-op keeps the agent in place. In the model those loops also stop when the draws run out. `Episode` and `Train` report the index of the first draw they left. `Train` and `Navigate` also report `finished`, which is false when the draws ran out before a terminal cell.

Two behaviours of the code are kept as written:

- `setupRewards` raises no error for a cell code outside {0, 1, 2}. It leaves that cell's reward at the array's default 0 (`Maze.RewardOf`).
- When a greedy step in `navigateMaze` lands on a wall, the agent is not put back on the cell it came from. The current cell becomes the wall cell, even though the comment at line 54 calls a wall a cell the agent cannot pass through. A wall is terminal, so the loop ends without recording it (`Navigation.NavigateEndsAtGoalOrBeforeWall`).

## Model

| member | source | states |
|---|---|---|
| Maze.Step | 1.Maze-Game/Program.cs:102-127 | From a cell on the grid, the result is on the grid. It is the neighbour in the action's direction when that neighbour is on the grid, and the cell itself otherwise. |
| Maze.StepStaysExactlyAtBoundary | 1.Maze-Game/Program.cs:110-125 | A step leaves the cell unchanged exactly for UP on row 0, DOWN on the last row, LEFT on column 0 and RIGHT on the last column. |
| Maze.StepIsUnitMove | 1.Maze-Game/Program.cs:102-127 | A step changes at most one coordinate, by at most 1. |
| Maze.RewardOf | 1.Maze-Game/Program.cs:68-73 | The reward is the wall, floor or goal reward, or 0 for an unknown code. When the floor reward differs from the other three values, a cell gets the floor reward iff its code is PATH. |
| Maze.ProgramRewardsMarkPaths | 1.Maze-Game/Program.cs:54-56 | With the program's rewards -500, -10 and 500, a cell gets the floor reward iff its code is PATH. |
| Learning.TerminalIffNotPath | 1.Maze-Game/Program.cs:88-91 | Take rewards derived from the maze, with a floor reward distinct from the wall reward, the goal reward and 0. Then a cell is terminal iff its code is not PATH, so walls, the goal and unknown codes all end an episode. |
| Learning.Env.Terminal | 1.Maze-Game/Program.cs:88-91 | Definition: a cell is terminal iff its reward is not the floor reward. Its meaning in terms of cell codes is stated by `Learning.TerminalIffNotPath`. |
| QTable.Zeros | 1.Maze-Game/Program.cs:85 | The table has rows x columns x 4 entries, all 0. |
| QTable.SetEntry | 1.Maze-Game/Program.cs:149 | The given entry holds the new value. Every other entry is unchanged, and so is the shape. |
| QTable.ArgMax | 1.Maze-Game/Program.cs:97 | The chosen action holds a maximal value, and every earlier action holds a strictly smaller one: it is the first maximum. |
| QTable.BestValue | 1.Maze-Game/Program.cs:147 | The result is at least every value of the cell and equals one of them. |
| QTable.BestValueAtArgMax | 1.Maze-Game/Program.cs:97 | The maximum is the value at the argmax action. |
| QTable.ArgMaxOfTiesIsUp | 1.Maze-Game/Program.cs:97 | When all four values are equal, as on a fresh table, argmax picks UP. |
| Learning.NextAction | 1.Maze-Game/Program.cs:93-99 | The result is an action in 0..3. When the draw is below epsilon, it is the first index of the cell's maximal value. Otherwise it is the random fallback. |
| Learning.ExploitsAtEpsilonOne | 1.Maze-Game/Program.cs:172 | With epsilon 1.0 and a draw in [0, 1), the choice is always the argmax. |
| Learning.ExploresAtEpsilonZero | 1.Maze-Game/Program.cs:97 | With epsilon 0.0, the choice is always the random fallback. |
| Learning.TdValue | 1.Maze-Game/Program.cs:147-148 | The value the update writes, Q + lr * (reward + discountFactor * max Q' - Q). A learning rate of 0 keeps the old value, and a learning rate of 1 jumps to the target reward + discountFactor * max Q'. |
| Learning.TdValueTowardTarget | 1.Maze-Game/Program.cs:145-149 | For a learning rate in [0, 1], the new value lies between the old value and the target reward + discountFactor * max Q'. Its distance to the target is (1 - learningRate) times the old distance. |
| Learning.TdValueContracts | 1.Maze-Game/Program.cs:145-149 | For a learning rate in (0, 1], an update strictly reduces the distance to the target unless the value is already on it. |
| Learning.ProgramUpdatesContract | 1.Maze-Game/Program.cs:145-149 | With the program's discount factor 0.8 and learning rate 0.9 (lines 203-204), every update moves the value strictly closer to its target unless it is already on it. |
| Learning.TdStep | 1.Maze-Game/Program.cs:139-149 | One training step writes entry (row, col, action) alone. The new value is Q + lr * (reward of the cell reached + discountFactor * max Q of that cell - Q). The max is read before the write. |
| Learning.Episode | 1.Maze-Game/Program.cs:137-150 | Definition of one episode: while the current cell is not terminal and draws are left, take one draw, choose, step and update. The table keeps its shape and the cell stays on the grid. Its stopping behaviour is stated by `Learning.EpisodeStopsOnTerminal`. |
| Learning.EpisodeStopsOnTerminal | 1.Maze-Game/Program.cs:137-150 | An episode uses draws from its start index on. When it stops before the draws run out, it stops on a terminal cell. |
| Learning.EpisodeStep | 1.Maze-Game/Program.cs:137-150 | Loop-proof helper, the unfolding of `Episode` used by `RunEpisode`: on a non-terminal cell, one loop pass (choose, step, update) leaves an episode equal to the episode from the next cell, on the updated table, with the next draw. |
| Learning.EpisodeStop | 1.Maze-Game/Program.cs:137 | Loop-proof helper, the unfolding of `Episode` used by `RunEpisode`: an episode from a terminal cell, or with no draw left, makes no update and takes no draw. |
| Learning.EpisodeKeepsTerminalEntries | 1.Maze-Game/Program.cs:137-149 | An episode never changes an entry of a wall or goal cell. |
| Learning.EpisodeStallsOnBlockedFallback | 1.Maze-Game/Program.cs:137-150 | The no-termination hazard. Suppose every draw explores and falls back on a boundary no-op at a floor cell. Then the episode never leaves that cell and stops only because the draws ran out. |
| Learning.Train | 1.Maze-Game/Program.cs:131-153 | Definition of the episode loop: each episode starts at (11, 5) with the table and the draws the previous one left. `finished` holds iff every episode ended on a terminal cell. The table keeps its shape. |
| Learning.TrainStopsOnTerminal | 1.Maze-Game/Program.cs:131-153 | Training uses draws from its start index on. When it stops before the draws run out, every episode ended on a terminal cell, so training is cut short only by running out of draws. |
| Learning.TrainStep | 1.Maze-Game/Program.cs:131-153 | Loop-proof helper, the unfolding of `Train` used by `TrainEpisodes`: training equals the remaining episodes, started from the table and the draw index the first episode left. It has finished iff the first episode ended on a terminal cell and the rest finished. |
| Learning.TrainKeepsTerminalEntries | 1.Maze-Game/Program.cs:129-156 | Training never changes an entry of a wall or goal cell. |
| Learning.TerminalValuesStayZero | 1.Maze-Game/Program.cs:129-156 | Starting from the zeroed table, every wall and goal entry is still 0 after any number of episodes. |
| Navigation.RolloutFrom | 1.Maze-Game/Program.cs:170-184 | The loop appends at most one cell per pass. Every appended cell is on the grid and is not a wall. From a terminal cell it appends nothing and has finished. |
| Navigation.RolloutStep | 1.Maze-Game/Program.cs:170-184 | Loop-proof helper, the unfolding of `RolloutFrom` used by `FollowGreedyPath`: the path so far, followed by what the loop still appends, is unchanged by one pass. |
| Navigation.Navigate | 1.Maze-Game/Program.cs:158-185 | The empty path when the start is terminal. Otherwise the path starts with the start cell and has at most one cell per pass plus one. Every cell is on the grid, and no cell after the first is a wall. |
| Navigation.NavigateIsGreedyWalk | 1.Maze-Game/Program.cs:170-184 | Each path cell except the last is a floor cell. The next cell is where the first-maximum action leads from it, which repeats the cell after a boundary no-op. |
| Navigation.NavigateAvoidsWalls | 1.Maze-Game/Program.cs:161-179 | When the wall reward differs from the floor reward, no path cell is a wall. |
| Navigation.NavigateEndsAtGoalOrBeforeWall | 1.Maze-Game/Program.cs:170-184 | When the loop reaches a terminal cell, the last recorded cell is either that terminal cell (the goal) or the cell from which the greedy step lands on a wall. |
| Navigation.NavigateStallsOnBoundaryNoOp | 1.Maze-Game/Program.cs:170-184 | The no-termination hazard. When the greedy action at a non-terminal start is a boundary no-op, the path repeats the start cell until the draws run out, and the loop never finishes. |
| Engine.MazeEngine.HasHitWallOrEndOfMaze | 1.Maze-Game/Program.cs:88-91 | The test on the reward array equals the terminal test of the world `EnvFor` reads from the array. |
| Engine.MazeEngine.HasHitIsTerminal | 1.Maze-Game/Program.cs:88-91 | hasHitWallOrEndOfMaze on the arrays is true iff the cell's reward is not the floor reward. |
| Engine.MazeEngine.SetupRewards | 1.Maze-Game/Program.cs:58-76 | The new reward array has the maze's dimensions. Each cell holds the wall, floor or goal reward for codes 0, 1 and 2, and 0 for any other code. The table is untouched. |
| Engine.MazeEngine.SetupQValues | 1.Maze-Game/Program.cs:80-86 | The new table has the maze's rows x columns x 4 shape, and every entry is 0. |
| Engine.MazeEngine.TrainingStep | 1.Maze-Game/Program.cs:139-149 | The chosen action and the cell reached are those of `NextAction` and `Step`. The array then holds the table `TdStep` yields, with one entry changed. |
| Engine.MazeEngine.RunEpisode | 1.Maze-Game/Program.cs:134-150 | The inner while loop leaves in the array the table `Episode` yields from (11, 5). It returns the index of the first draw it left and whether it stopped on a terminal cell. |
| Engine.MazeEngine.TrainEpisodes | 1.Maze-Game/Program.cs:131-153 | The episode loop leaves the table `Train` yields and returns its `finished` flag. |
| Engine.MazeEngine.TrainTheModel | 1.Maze-Game/Program.cs:129-156 | After training, the table equals `Train` applied to the table before it. The result says whether every episode ended on a terminal cell rather than being cut short by the draws. |
| Engine.MazeEngine.FollowGreedyPath | 1.Maze-Game/Program.cs:160-184 | The navigation loop returns the path and the finished flag of `Navigate` on the world and the table the arrays hold. |
| Engine.MazeEngine.NavigateMaze | 1.Maze-Game/Program.cs:158-185 | The path returned is `Navigate` on the current rewards and table, with one draw per loop pass. |

## Left out

- Console output is not modelled: the episode banners and the path printing loop (`1.Maze-Game/Program.cs:133`, 152, 155, 187-198) are I/O.
- The TorchSharp tensor (`torch.zeros`, `torch.max`, `torch.argmax`, `.item<float>()`) is a foreign library. It is modelled as an `array3<real>`, with max and first-maximum argmax over a cell's four values.
- 32-bit floating-point rounding of Q-values and of the hyperparameters is not modelled: values are `real`. In particular, epsilon 0.95f widened to double is slightly below 0.95.
- The fresh `new Random()` on every call of `determineNextAction` is ambient randomness. It is replaced by supplied draws, one per loop pass.
- Engine.MazeEngine.TrainTheModel: the source's inner loop can run forever. The model also stops it when the supplied draws run out, and then returns `finished == false` (`Learning.TrainStopsOnTerminal`). The source returns nothing. The hazard itself is stated by `Learning.EpisodeStallsOnBlockedFallback`.
- Engine.MazeEngine.NavigateMaze: the same holds for the navigation loop. `finished` is false when the draws ran out before a terminal cell. The hazard is stated by `Navigation.NavigateStallsOnBoundaryNoOp`.
- Engine.MazeEngine.NavigateMaze requires the start on the grid. The source throws at line 90 otherwise, via the call at line 161; the model has no error path for it.
- Engine.MazeEngine.TrainTheModel requires (11, 5) to be on the grid when at least one episode runs. The source indexes the arrays there and would throw otherwise.
- The `episodes` parameter is a `float` in the source. It is modelled as a `nat`.
- The concrete `maze1` literal, the constants EPSILON and EPISODES, and the top-level calls (`1.Maze-Game/Program.cs:4-18`, 202-211) are not modelled. The training and navigation methods take these values as parameters. The learned outcome, for example whether the path reaches the goal at (0, 5), depends on random exploration and float dynamics, so it is not a contract.
- `navigateMaze` returns a `List<int[]>`; the model returns a sequence of (row, column) pairs.
- The loop bodies of trainTheModel and navigateMaze are split into the helper methods `TrainEpisodes`, `RunEpisode`, `TrainingStep` and `FollowGreedyPath`, which work on the values the arrays hold. The behaviour is unchanged.
- The other programs of the repository (`2.Neural-Network`, `3.ML.NET-House-Pricing`, `4.ML.NET-Feature-Engineering`) are not part of this model.
