/** Q-learning over the maze: the action choice (first maximum when the
    draw is below epsilon, a random action otherwise), the
    temporal-difference update of one table entry, one training episode and
    the episode loop, all as functions of the table and of the random draws
    the program would take. */
module Learning {
  import opened Maze
  import opened QTable

  /** Every training episode starts here. */
  const START_ROW: int := 11
  const START_COLUMN: int := 5

  /** The discount factor and the learning rate the program runs with. */
  const DISCOUNT_FACTOR: real := 0.8
  const LEARNING_RATE: real := 0.9

  /** The randomness one call of determineNextAction consumes: the uniform
      draw `u` (NextDouble) and the action `fallback` (Next(4)) it returns
      when it explores. */
  datatype Draw = Draw(u: real, fallback: Action)

  /** NextDouble draws from [0, 1). */
  predicate ValidDraw(d: Draw) {
    0.0 <= d.u < 1.0
  }

  datatype Hyper = Hyper(epsilon: real, discountFactor: real, learningRate: real)

  /** The world an agent moves in: the grid's dimensions, the reward of each
      cell and the floor reward that marks non-terminal cells. */
  datatype Env = Env(rows: nat, cols: nat, rewards: Grid, floorValue: int) {
    predicate Valid() {
      IsRect(rewards, rows, cols)
    }

    /** hasHitWallOrEndOfMaze: a cell is terminal when its reward is not the
        floor reward. */
    predicate Terminal(row: int, col: int)
      requires Valid() && InBounds(rows, cols, row, col)
    {
      rewards[row][col] != floorValue
    }
  }

  /** With rewards derived from the maze and the floor reward distinct from
      the other three possible values, a cell is terminal exactly when it is
      not a PATH cell: walls, the goal and unknown codes all end an episode. */
  lemma TerminalIffNotPath(e: Env, maze: Grid, wallValue: int, goalValue: int, row: int, col: int)
    requires e.Valid() && IsRect(maze, e.rows, e.cols)
    requires forall i, j :: InBounds(e.rows, e.cols, i, j) ==>
               e.rewards[i][j] == RewardOf(maze[i][j], wallValue, e.floorValue, goalValue)
    requires e.floorValue != wallValue && e.floorValue != goalValue && e.floorValue != 0
    requires InBounds(e.rows, e.cols, row, col)
    ensures e.Terminal(row, col) <==> maze[row][col] != PATH_CODE
  {
  }

  /** determineNextAction, with its randomness supplied: the first-maximum
      action of the cell's values when the draw is below epsilon, the random
      fallback otherwise. */
  function NextAction(v: seq<real>, epsilon: real, d: Draw): (a: Action)
    requires |v| == 4
    ensures d.u < epsilon ==>
              (forall i :: 0 <= i < 4 ==> v[i] <= v[a]) && (forall i :: 0 <= i < a ==> v[i] < v[a])
    ensures d.u >= epsilon ==> a == d.fallback
  {
    if d.u < epsilon then ArgMax(v) else d.fallback
  }

  /** With epsilon 1.0, as navigation calls it, every draw exploits. */
  lemma ExploitsAtEpsilonOne(v: seq<real>, d: Draw)
    requires |v| == 4 && ValidDraw(d)
    ensures NextAction(v, 1.0, d) == ArgMax(v)
  {
  }

  /** With epsilon 0.0 no draw exploits. */
  lemma ExploresAtEpsilonZero(v: seq<real>, d: Draw)
    requires |v| == 4 && ValidDraw(d)
    ensures NextAction(v, 0.0, d) == d.fallback
  {
  }

  /** The value the temporal-difference rule writes:
      Q + learningRate * (reward + discountFactor * max Q' - Q). A learning
      rate of 0 keeps the old value and a learning rate of 1 jumps to the
      target reward + discountFactor * max Q'. */
  function TdValue(previous: real, reward: real, nextBest: real, discountFactor: real, learningRate: real): (v: real)
    ensures learningRate == 0.0 ==> v == previous
    ensures learningRate == 1.0 ==> v == reward + discountFactor * nextBest
  {
    previous + learningRate * (reward + discountFactor * nextBest - previous)
  }

  /** For a learning rate in [0, 1] the new value lies between the old value
      and the target, and its distance to the target shrinks by the factor
      1 - learningRate. */
  lemma TdValueTowardTarget(previous: real, reward: real, nextBest: real, discountFactor: real, learningRate: real)
    requires 0.0 <= learningRate <= 1.0
    ensures var target := reward + discountFactor * nextBest;
            var v := TdValue(previous, reward, nextBest, discountFactor, learningRate);
            v - target == (1.0 - learningRate) * (previous - target) &&
            (previous <= target ==> previous <= v <= target) &&
            (target <= previous ==> target <= v <= previous)
  {
    var target := reward + discountFactor * nextBest;
    var d := target - previous;
    assert TdValue(previous, reward, nextBest, discountFactor, learningRate) == previous + learningRate * d;
    if d >= 0.0 {
      assert 0.0 <= learningRate * d <= d;
    } else {
      assert d <= learningRate * d <= 0.0;
    }
  }

  /** For a positive learning rate of at most 1 an update strictly reduces the
      distance to the target unless the value is already on it. */
  lemma TdValueContracts(previous: real, reward: real, nextBest: real, discountFactor: real, learningRate: real)
    requires 0.0 < learningRate <= 1.0
    requires previous != reward + discountFactor * nextBest
    ensures var target := reward + discountFactor * nextBest;
            var v := TdValue(previous, reward, nextBest, discountFactor, learningRate);
            Abs(v - target) < Abs(previous - target)
  {
    var target := reward + discountFactor * nextBest;
    TdValueTowardTarget(previous, reward, nextBest, discountFactor, learningRate);
    var d := previous - target;
    var v := TdValue(previous, reward, nextBest, discountFactor, learningRate);
    assert v - target == d - learningRate * d;
    if d > 0.0 {
      assert 0.0 < learningRate * d <= d;
    } else {
      assert d <= learningRate * d < 0.0;
    }
  }

  /** With the program's discount factor and learning rate, every update
      moves the value strictly closer to its target. */
  lemma ProgramUpdatesContract(previous: real, reward: real, nextBest: real)
    requires previous != reward + DISCOUNT_FACTOR * nextBest
    ensures var target := reward + DISCOUNT_FACTOR * nextBest;
            Abs(TdValue(previous, reward, nextBest, DISCOUNT_FACTOR, LEARNING_RATE) - target) < Abs(previous - target)
  {
    TdValueContracts(previous, reward, nextBest, DISCOUNT_FACTOR, LEARNING_RATE);
  }

  function Abs(x: real): (r: real) {
    if x < 0.0 then -x else x
  }

  /** One pass of the training loop's body from (row, col) with action a:
      step, read the reward and the best value of the cell reached, and write
      entry (row, col, a) alone. The best value is read from the table before
      the write, which matters when a boundary no-op reaches (row, col)
      again. */
  function TdStep(e: Env, h: Hyper, q: Table, row: int, col: int, a: Action): (r: Table)
    requires e.Valid() && Shaped(q, e.rows, e.cols) && InBounds(e.rows, e.cols, row, col)
    ensures Shaped(r, e.rows, e.cols)
    ensures var next := Step(e.rows, e.cols, row, col, a);
            r[row][col][a] ==
              TdValue(q[row][col][a], e.rewards[next.0][next.1] as real, BestValue(q[next.0][next.1]),
                      h.discountFactor, h.learningRate)
    ensures forall i, j, k :: InBounds(e.rows, e.cols, i, j) && 0 <= k < 4 && !(i == row && j == col && k == a) ==>
              r[i][j][k] == q[i][j][k]
  {
    var next := Step(e.rows, e.cols, row, col, a);
    var v := TdValue(q[row][col][a], e.rewards[next.0][next.1] as real, BestValue(q[next.0][next.1]),
                     h.discountFactor, h.learningRate);
    SetEntry(q, e.rows, e.cols, row, col, a, v)
  }

  /** Where an episode stops: the table, the cell and the index of the first
      draw it did not use. */
  datatype EpisodeEnd = EpisodeEnd(table: Table, row: int, col: int, next: nat)

  /** The inner training loop from (row, col), with draws[n..] still to come:
      while the cell is not terminal take one draw, choose, step and update.
      The source loops without bound; here the loop also stops when the draws
      run out. */
  function Episode(e: Env, h: Hyper, q: Table, row: int, col: int, draws: seq<Draw>, n: nat): (r: EpisodeEnd)
    requires e.Valid() && Shaped(q, e.rows, e.cols) && InBounds(e.rows, e.cols, row, col) && n <= |draws|
    ensures Shaped(r.table, e.rows, e.cols) && InBounds(e.rows, e.cols, r.row, r.col)
    decreases |draws| - n
  {
    if e.Terminal(row, col) || n == |draws| then EpisodeEnd(q, row, col, n)
    else
      var a := NextAction(q[row][col], h.epsilon, draws[n]);
      var next := Step(e.rows, e.cols, row, col, a);
      Episode(e, h, TdStep(e, h, q, row, col, a), next.0, next.1, draws, n + 1)
  }

  /** An episode uses the draws from n on, in order, and when it stops before
      the last draw, the cell it stopped on is terminal. */
  lemma {:induction false} EpisodeStopsOnTerminal(e: Env, h: Hyper, q: Table, row: int, col: int, draws: seq<Draw>, n: nat)
    requires e.Valid() && Shaped(q, e.rows, e.cols) && InBounds(e.rows, e.cols, row, col) && n <= |draws|
    ensures var r := Episode(e, h, q, row, col, draws, n);
            n <= r.next <= |draws| && (r.next < |draws| ==> e.Terminal(r.row, r.col))
    decreases |draws| - n
  {
    if !e.Terminal(row, col) && n < |draws| {
      var a := NextAction(q[row][col], h.epsilon, draws[n]);
      var next := Step(e.rows, e.cols, row, col, a);
      EpisodeStopsOnTerminal(e, h, TdStep(e, h, q, row, col, a), next.0, next.1, draws, n + 1);
    }
  }

  /** One pass of the inner loop: from a floor cell with draw n left, when
      a is the action chosen with that draw, (row', col') the cell it leads
      to and q' the updated table, the episode is the episode from (row',
      col') on q' from draw n + 1. */
  lemma EpisodeStep(e: Env, h: Hyper, q: Table, row: int, col: int, draws: seq<Draw>, n: nat,
                    a: Action, row': int, col': int, q': Table)
    requires e.Valid() && Shaped(q, e.rows, e.cols) && InBounds(e.rows, e.cols, row, col)
    requires !e.Terminal(row, col) && n < |draws|
    requires a == NextAction(q[row][col], h.epsilon, draws[n])
    requires (row', col') == Step(e.rows, e.cols, row, col, a)
    requires q' == TdStep(e, h, q, row, col, a)
    ensures InBounds(e.rows, e.cols, row', col') && Shaped(q', e.rows, e.cols)
    ensures Episode(e, h, q, row, col, draws, n) == Episode(e, h, q', row', col', draws, n + 1)
  {
  }

  /** An episode that starts on a terminal cell or with no draw left makes
      no update and takes no draw. */
  lemma EpisodeStop(e: Env, h: Hyper, q: Table, row: int, col: int, draws: seq<Draw>, n: nat)
    requires e.Valid() && Shaped(q, e.rows, e.cols) && InBounds(e.rows, e.cols, row, col) && n <= |draws|
    requires e.Terminal(row, col) || n == |draws|
    ensures Episode(e, h, q, row, col, draws, n) == EpisodeEnd(q, row, col, n)
  {
  }

  /** An episode only writes entries of non-terminal cells. */
  lemma {:induction false} EpisodeKeepsTerminalEntries(e: Env, h: Hyper, q: Table, row: int, col: int,
                                                       draws: seq<Draw>, n: nat, i: int, j: int, k: int)
    requires e.Valid() && Shaped(q, e.rows, e.cols) && InBounds(e.rows, e.cols, row, col) && n <= |draws|
    requires InBounds(e.rows, e.cols, i, j) && e.Terminal(i, j) && 0 <= k < 4
    ensures Episode(e, h, q, row, col, draws, n).table[i][j][k] == q[i][j][k]
    decreases |draws| - n
  {
    if !e.Terminal(row, col) && n < |draws| {
      var a := NextAction(q[row][col], h.epsilon, draws[n]);
      var next := Step(e.rows, e.cols, row, col, a);
      EpisodeKeepsTerminalEntries(e, h, TdStep(e, h, q, row, col, a), next.0, next.1, draws, n + 1, i, j, k);
    }
  }

  /** The no-termination hazard: when every remaining draw explores and
      falls back on an action that is a boundary no-op at a floor cell, the
      episode never leaves that cell and stops only because the draws run
      out. */
  lemma {:induction false} EpisodeStallsOnBlockedFallback(e: Env, h: Hyper, q: Table, row: int, col: int,
                                                          draws: seq<Draw>, n: nat)
    requires e.Valid() && Shaped(q, e.rows, e.cols) && InBounds(e.rows, e.cols, row, col) && n <= |draws|
    requires !e.Terminal(row, col)
    requires forall m :: n <= m < |draws| ==>
               draws[m].u >= h.epsilon && Step(e.rows, e.cols, row, col, draws[m].fallback) == (row, col)
    ensures var r := Episode(e, h, q, row, col, draws, n);
            r.row == row && r.col == col && r.next == |draws| && !e.Terminal(r.row, r.col)
    decreases |draws| - n
  {
    if n < |draws| {
      var a := NextAction(q[row][col], h.epsilon, draws[n]);
      assert a == draws[n].fallback;
      EpisodeStallsOnBlockedFallback(e, h, TdStep(e, h, q, row, col, a), row, col, draws, n + 1);
    }
  }

  /** Where training stops: the table, the index of the first draw not used,
      and whether every episode ended on a terminal cell (false when the
      draws ran out inside an episode). */
  datatype TrainEnd = TrainEnd(table: Table, next: nat, finished: bool)

  /** trainTheModel: `episodes` episodes, each from (START_ROW, START_COLUMN),
      each continuing with the table and the draws the previous one left. */
  function Train(e: Env, h: Hyper, q: Table, episodes: nat, draws: seq<Draw>, n: nat): (r: TrainEnd)
    requires e.Valid() && Shaped(q, e.rows, e.cols) && n <= |draws|
    requires episodes > 0 ==> InBounds(e.rows, e.cols, START_ROW, START_COLUMN)
    ensures Shaped(r.table, e.rows, e.cols)
    decreases episodes
  {
    if episodes == 0 then TrainEnd(q, n, true)
    else
      var end := Episode(e, h, q, START_ROW, START_COLUMN, draws, n);
      EpisodeStopsOnTerminal(e, h, q, START_ROW, START_COLUMN, draws, n);
      var rest := Train(e, h, end.table, episodes - 1, draws, end.next);
      TrainEnd(rest.table, rest.next, e.Terminal(end.row, end.col) && rest.finished)
  }

  /** Training uses the draws from n on, in order, and when it stops before
      the last draw, every episode ended on a terminal cell: training is cut
      short only by running out of draws. */
  lemma {:induction false} TrainStopsOnTerminal(e: Env, h: Hyper, q: Table, episodes: nat, draws: seq<Draw>, n: nat)
    requires e.Valid() && Shaped(q, e.rows, e.cols) && n <= |draws|
    requires episodes > 0 ==> InBounds(e.rows, e.cols, START_ROW, START_COLUMN)
    ensures var r := Train(e, h, q, episodes, draws, n);
            n <= r.next <= |draws| && (r.next < |draws| ==> r.finished)
    decreases episodes
  {
    if episodes > 0 {
      var end := Episode(e, h, q, START_ROW, START_COLUMN, draws, n);
      EpisodeStopsOnTerminal(e, h, q, START_ROW, START_COLUMN, draws, n);
      TrainStopsOnTerminal(e, h, end.table, episodes - 1, draws, end.next);
    }
  }

  /** One pass of the episode loop: when the first episode ends with table
      q' at draw n', on a terminal cell exactly when `done`, training is the
      remaining episodes from q' and n', finished when they are and `done`
      holds. */
  lemma TrainStep(e: Env, h: Hyper, q: Table, episodes: nat, draws: seq<Draw>, n: nat, q': Table, n': nat, done: bool)
    requires e.Valid() && Shaped(q, e.rows, e.cols) && n <= |draws|
    requires episodes > 0 && InBounds(e.rows, e.cols, START_ROW, START_COLUMN)
    requires Episode(e, h, q, START_ROW, START_COLUMN, draws, n).table == q'
    requires Episode(e, h, q, START_ROW, START_COLUMN, draws, n).next == n'
    requires var end := Episode(e, h, q, START_ROW, START_COLUMN, draws, n); done == e.Terminal(end.row, end.col)
    ensures Shaped(q', e.rows, e.cols) && n' <= |draws|
    ensures var r := Train(e, h, q, episodes, draws, n);
            var rest := Train(e, h, q', episodes - 1, draws, n');
            r == TrainEnd(rest.table, rest.next, done && rest.finished)
  {
    EpisodeStopsOnTerminal(e, h, q, START_ROW, START_COLUMN, draws, n);
  }

  /** Training never changes the entries of a wall or goal cell. */
  lemma {:induction false} TrainKeepsTerminalEntries(e: Env, h: Hyper, q: Table, episodes: nat, draws: seq<Draw>, n: nat,
                                                     i: int, j: int, k: int)
    requires e.Valid() && Shaped(q, e.rows, e.cols) && n <= |draws|
    requires episodes > 0 ==> InBounds(e.rows, e.cols, START_ROW, START_COLUMN)
    requires InBounds(e.rows, e.cols, i, j) && e.Terminal(i, j) && 0 <= k < 4
    ensures Train(e, h, q, episodes, draws, n).table[i][j][k] == q[i][j][k]
    decreases episodes
  {
    if episodes > 0 {
      var end := Episode(e, h, q, START_ROW, START_COLUMN, draws, n);
      EpisodeStopsOnTerminal(e, h, q, START_ROW, START_COLUMN, draws, n);
      EpisodeKeepsTerminalEntries(e, h, q, START_ROW, START_COLUMN, draws, n, i, j, k);
      TrainKeepsTerminalEntries(e, h, end.table, episodes - 1, draws, end.next, i, j, k);
    }
  }

  /** Starting from the zeroed table, the values of every wall and goal cell
      are still 0 after training, so the update that enters such a cell
      targets its reward alone. */
  lemma TerminalValuesStayZero(e: Env, h: Hyper, episodes: nat, draws: seq<Draw>, i: int, j: int, k: int)
    requires e.Valid()
    requires episodes > 0 ==> InBounds(e.rows, e.cols, START_ROW, START_COLUMN)
    requires InBounds(e.rows, e.cols, i, j) && e.Terminal(i, j) && 0 <= k < 4
    ensures Train(e, h, Zeros(e.rows, e.cols), episodes, draws, 0).table[i][j][k] == 0.0
  {
    TrainKeepsTerminalEntries(e, h, Zeros(e.rows, e.cols), episodes, draws, 0, i, j, k);
  }
}
