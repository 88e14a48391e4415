/** The greedy rollout that turns a trained table into a path: from the
    start cell, repeatedly take the first-maximum action, step, and record
    the cell reached unless it is a wall, until a terminal cell is reached. */
module Navigation {
  import opened Maze
  import opened QTable
  import opened Learning

  /** The cells a rollout recorded, and whether it reached a terminal cell
      (false when its step budget ran out first). */
  datatype Rollout = Rollout(path: seq<Cell>, finished: bool)

  predicate OnGrid(e: Env, c: Cell) {
    InBounds(e.rows, e.cols, c.0, c.1)
  }

  /** The navigation loop from the current cell (row, col) with `fuel` steps
      left: the cells it appends to the path. */
  function RolloutFrom(e: Env, q: Table, wallValue: int, row: int, col: int, fuel: nat): (r: Rollout)
    requires e.Valid() && Shaped(q, e.rows, e.cols) && InBounds(e.rows, e.cols, row, col)
    ensures |r.path| <= fuel
    ensures forall n :: 0 <= n < |r.path| ==>
              OnGrid(e, r.path[n]) && e.rewards[r.path[n].0][r.path[n].1] != wallValue
    ensures e.Terminal(row, col) ==> r == Rollout([], true)
    decreases fuel
  {
    if e.Terminal(row, col) then Rollout([], true)
    else if fuel == 0 then Rollout([], false)
    else
      var next := Step(e.rows, e.cols, row, col, ArgMax(q[row][col]));
      var rest := RolloutFrom(e, q, wallValue, next.0, next.1, fuel - 1);
      if e.rewards[next.0][next.1] != wallValue then Rollout([next] + rest.path, rest.finished)
      else rest
  }

  /** One pass of the navigation loop from a floor cell with steps left:
      the path recorded so far followed by what the loop still appends does
      not change when the pass is taken. */
  lemma RolloutStep(e: Env, q: Table, wallValue: int, path: seq<Cell>, row: int, col: int, fuel: nat)
    requires e.Valid() && Shaped(q, e.rows, e.cols) && InBounds(e.rows, e.cols, row, col)
    requires !e.Terminal(row, col) && fuel > 0
    ensures var next := Step(e.rows, e.cols, row, col, ArgMax(q[row][col]));
            var here := RolloutFrom(e, q, wallValue, row, col, fuel);
            var rest := RolloutFrom(e, q, wallValue, next.0, next.1, fuel - 1);
            var path' := if e.rewards[next.0][next.1] != wallValue then path + [(next.0, next.1)] else path;
            Rollout(path + here.path, here.finished) == Rollout(path' + rest.path, rest.finished)
  {
  }

  /** navigateMaze: the empty path when the start is terminal, otherwise the
      start cell followed by what the loop appends. */
  function Navigate(e: Env, q: Table, wallValue: int, startRow: int, startColumn: int, fuel: nat): (r: Rollout)
    requires e.Valid() && Shaped(q, e.rows, e.cols) && InBounds(e.rows, e.cols, startRow, startColumn)
    ensures e.Terminal(startRow, startColumn) ==> r == Rollout([], true)
    ensures !e.Terminal(startRow, startColumn) ==>
              1 <= |r.path| <= fuel + 1 && r.path[0] == (startRow, startColumn)
    ensures forall n :: 0 <= n < |r.path| ==>
              OnGrid(e, r.path[n]) && (n > 0 ==> e.rewards[r.path[n].0][r.path[n].1] != wallValue)
  {
    if e.Terminal(startRow, startColumn) then Rollout([], true)
    else
      var rest := RolloutFrom(e, q, wallValue, startRow, startColumn, fuel);
      Rollout([(startRow, startColumn)] + rest.path, rest.finished)
  }

  /** Each cell but the last is a floor cell, and the next one is where the
      greedy action leads from it. */
  predicate GreedyWalk(e: Env, q: Table, p: seq<Cell>)
    requires e.Valid() && Shaped(q, e.rows, e.cols)
  {
    (forall n :: 0 <= n < |p| ==> OnGrid(e, p[n])) &&
    forall n :: 0 <= n < |p| - 1 ==>
      !e.Terminal(p[n].0, p[n].1) &&
      p[n + 1] == Step(e.rows, e.cols, p[n].0, p[n].1, ArgMax(q[p[n].0][p[n].1]))
  }

  lemma {:induction false} RolloutIsGreedyWalk(e: Env, q: Table, wallValue: int, row: int, col: int, fuel: nat)
    requires e.Valid() && Shaped(q, e.rows, e.cols) && InBounds(e.rows, e.cols, row, col)
    requires wallValue != e.floorValue && !e.Terminal(row, col)
    ensures GreedyWalk(e, q, [(row, col)] + RolloutFrom(e, q, wallValue, row, col, fuel).path)
    decreases fuel
  {
    var p := [(row, col)] + RolloutFrom(e, q, wallValue, row, col, fuel).path;
    if fuel > 0 {
      var next := Step(e.rows, e.cols, row, col, ArgMax(q[row][col]));
      var rest := RolloutFrom(e, q, wallValue, next.0, next.1, fuel - 1);
      if e.rewards[next.0][next.1] != wallValue {
        var tail := [next] + rest.path;
        assert p == [(row, col)] + tail;
        if !e.Terminal(next.0, next.1) {
          RolloutIsGreedyWalk(e, q, wallValue, next.0, next.1, fuel - 1);
        } else {
          assert tail == [next];
        }
        assert GreedyWalk(e, q, tail);
        forall n | 0 <= n < |p| - 1
          ensures !e.Terminal(p[n].0, p[n].1) &&
                  p[n + 1] == Step(e.rows, e.cols, p[n].0, p[n].1, ArgMax(q[p[n].0][p[n].1]))
        {
          if n > 0 {
            assert p[n] == tail[n - 1] && p[n + 1] == tail[n];
          }
        }
      } else {
        assert e.Terminal(next.0, next.1);
        assert p == [(row, col)];
      }
    }
  }

  /** With the wall reward distinct from the floor reward, the path is a
      greedy walk: each cell but the last is a floor cell, and consecutive
      cells are one greedy step apart (equal after a boundary no-op). */
  lemma NavigateIsGreedyWalk(e: Env, q: Table, wallValue: int, startRow: int, startColumn: int, fuel: nat)
    requires e.Valid() && Shaped(q, e.rows, e.cols) && InBounds(e.rows, e.cols, startRow, startColumn)
    requires wallValue != e.floorValue
    ensures GreedyWalk(e, q, Navigate(e, q, wallValue, startRow, startColumn, fuel).path)
  {
    if !e.Terminal(startRow, startColumn) {
      RolloutIsGreedyWalk(e, q, wallValue, startRow, startColumn, fuel);
    }
  }

  /** With the wall reward distinct from the floor reward, no cell of the
      path is a wall: the start is a floor cell and every appended cell was
      checked. */
  lemma NavigateAvoidsWalls(e: Env, q: Table, wallValue: int, startRow: int, startColumn: int, fuel: nat)
    requires e.Valid() && Shaped(q, e.rows, e.cols) && InBounds(e.rows, e.cols, startRow, startColumn)
    requires wallValue != e.floorValue
    ensures var p := Navigate(e, q, wallValue, startRow, startColumn, fuel).path;
            forall n :: 0 <= n < |p| ==> e.rewards[p[n].0][p[n].1] != wallValue
  {
  }

  lemma {:induction false} RolloutEnd(e: Env, q: Table, wallValue: int, row: int, col: int, fuel: nat)
    requires e.Valid() && Shaped(q, e.rows, e.cols) && InBounds(e.rows, e.cols, row, col)
    requires wallValue != e.floorValue && !e.Terminal(row, col)
    ensures var r := RolloutFrom(e, q, wallValue, row, col, fuel);
            var p := [(row, col)] + r.path;
            var last := p[|p| - 1];
            var next := Step(e.rows, e.cols, last.0, last.1, ArgMax(q[last.0][last.1]));
            r.finished ==> e.Terminal(last.0, last.1) || e.rewards[next.0][next.1] == wallValue
    decreases fuel
  {
    if fuel > 0 {
      var next := Step(e.rows, e.cols, row, col, ArgMax(q[row][col]));
      var rest := RolloutFrom(e, q, wallValue, next.0, next.1, fuel - 1);
      if e.rewards[next.0][next.1] != wallValue && !e.Terminal(next.0, next.1) {
        RolloutEnd(e, q, wallValue, next.0, next.1, fuel - 1);
        var tail := [next] + rest.path;
        assert [(row, col)] + RolloutFrom(e, q, wallValue, row, col, fuel).path == [(row, col)] + tail;
      }
    }
  }

  /** When the rollout reaches a terminal cell, the last recorded cell is
      either that terminal cell (the goal) or the floor cell from which the
      greedy step lands on a wall: a wall ends the loop without being
      recorded. */
  lemma NavigateEndsAtGoalOrBeforeWall(e: Env, q: Table, wallValue: int, startRow: int, startColumn: int, fuel: nat)
    requires e.Valid() && Shaped(q, e.rows, e.cols) && InBounds(e.rows, e.cols, startRow, startColumn)
    requires wallValue != e.floorValue
    ensures var r := Navigate(e, q, wallValue, startRow, startColumn, fuel);
            r.finished && r.path != [] ==>
              var last := r.path[|r.path| - 1];
              var next := Step(e.rows, e.cols, last.0, last.1, ArgMax(q[last.0][last.1]));
              e.Terminal(last.0, last.1) || e.rewards[next.0][next.1] == wallValue
  {
    if !e.Terminal(startRow, startColumn) {
      RolloutEnd(e, q, wallValue, startRow, startColumn, fuel);
    }
  }

  lemma {:induction false} RolloutStalls(e: Env, q: Table, wallValue: int, row: int, col: int, fuel: nat)
    requires e.Valid() && Shaped(q, e.rows, e.cols) && InBounds(e.rows, e.cols, row, col)
    requires wallValue != e.floorValue && !e.Terminal(row, col)
    requires Step(e.rows, e.cols, row, col, ArgMax(q[row][col])) == (row, col)
    ensures RolloutFrom(e, q, wallValue, row, col, fuel) == Rollout(seq(fuel, n => (row, col)), false)
    decreases fuel
  {
    if fuel > 0 {
      RolloutStalls(e, q, wallValue, row, col, fuel - 1);
      assert [(row, col)] + seq(fuel - 1, n => (row, col)) == seq(fuel, n => (row, col));
    }
  }

  /** The no-termination hazard of the rollout: when the greedy action at a
      non-terminal start is a boundary no-op, the loop repeats the start cell
      until its budget runs out and never finishes. */
  lemma NavigateStallsOnBoundaryNoOp(e: Env, q: Table, wallValue: int, startRow: int, startColumn: int, fuel: nat)
    requires e.Valid() && Shaped(q, e.rows, e.cols) && InBounds(e.rows, e.cols, startRow, startColumn)
    requires wallValue != e.floorValue && !e.Terminal(startRow, startColumn)
    requires Step(e.rows, e.cols, startRow, startColumn, ArgMax(q[startRow][startColumn])) == (startRow, startColumn)
    ensures Navigate(e, q, wallValue, startRow, startColumn, fuel) ==
            Rollout(seq(fuel + 1, n => (startRow, startColumn)), false)
  {
    RolloutStalls(e, q, wallValue, startRow, startColumn, fuel);
    assert [(startRow, startColumn)] + seq(fuel, n => (startRow, startColumn)) ==
           seq(fuel + 1, n => (startRow, startColumn));
  }
}
