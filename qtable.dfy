/** The Q-table as a value: rows x columns x 4 action-values, with the
    per-cell maximum and the first-maximum action the program takes from the
    tensor library. */
module QTable {
  import opened Maze

  type Table = seq<seq<seq<real>>>

  predicate Shaped(q: Table, rows: nat, cols: nat) {
    |q| == rows &&
    forall i :: 0 <= i < rows ==> |q[i]| == cols && forall j :: 0 <= j < cols ==> |q[i][j]| == 4
  }

  /** setupQValues: a zeroed rows x columns x 4 table. */
  function Zeros(rows: nat, cols: nat): (q: Table)
    ensures Shaped(q, rows, cols)
    ensures forall i, j, k :: 0 <= i < rows && 0 <= j < cols && 0 <= k < 4 ==> q[i][j][k] == 0.0
  {
    seq(rows, i => seq(cols, j => seq(4, k => 0.0)))
  }

  /** The table with the single entry (row, col, a) replaced by v. */
  function SetEntry(q: Table, rows: nat, cols: nat, row: int, col: int, a: Action, v: real): (r: Table)
    requires Shaped(q, rows, cols) && InBounds(rows, cols, row, col)
    ensures Shaped(r, rows, cols)
    ensures r[row][col][a] == v
    ensures forall i, j, k :: InBounds(rows, cols, i, j) && 0 <= k < 4 && !(i == row && j == col && k == a) ==>
              r[i][j][k] == q[i][j][k]
  {
    q[row := q[row][col := q[row][col][a := v]]]
  }

  /** Two tables of the same shape with the same entries are equal. */
  lemma {:induction false} TableExt(q1: Table, q2: Table, rows: nat, cols: nat)
    requires Shaped(q1, rows, cols) && Shaped(q2, rows, cols)
    requires forall i, j, k :: 0 <= i < rows && 0 <= j < cols && 0 <= k < 4 ==> q1[i][j][k] == q2[i][j][k]
    ensures q1 == q2
  {
    forall i | 0 <= i < rows
      ensures q1[i] == q2[i]
    {
      forall j | 0 <= j < cols
        ensures q1[i][j] == q2[i][j]
      {
        assert forall k :: 0 <= k < 4 ==> q1[i][j][k] == q2[i][j][k];
      }
    }
  }

  /** argmax over the four values of a cell: the first index holding the
      maximum. */
  function ArgMax(v: seq<real>): (k: Action)
    requires |v| == 4
    ensures forall i :: 0 <= i < 4 ==> v[i] <= v[k]
    ensures forall i :: 0 <= i < k ==> v[i] < v[k]
  {
    var k01: Action := if v[1] > v[0] then 1 else 0;
    var k012: Action := if v[2] > v[k01] then 2 else k01;
    if v[3] > v[k012] then 3 else k012
  }

  /** max over the four values of a cell. */
  function BestValue(v: seq<real>): (m: real)
    requires |v| == 4
    ensures forall i :: 0 <= i < 4 ==> v[i] <= m
    ensures exists i :: 0 <= i < 4 && v[i] == m
  {
    var m01 := if v[0] >= v[1] then v[0] else v[1];
    var m23 := if v[2] >= v[3] then v[2] else v[3];
    if m01 >= m23 then m01 else m23
  }

  /** The maximum is the value at the first-maximum action. */
  lemma BestValueAtArgMax(v: seq<real>)
    requires |v| == 4
    ensures BestValue(v) == v[ArgMax(v)]
  {
  }

  /** On a cell whose four values are all equal (a fresh table), argmax picks
      UP, the first action. */
  lemma ArgMaxOfTiesIsUp(v: seq<real>)
    requires |v| == 4 && v[0] == v[1] == v[2] == v[3]
    ensures ArgMax(v) == UP
  {
  }
}
