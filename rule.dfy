/** The per-cell rule of the Game of Life: the general three-parameter rule
    evaluated by cell_lives (life/src/life.c) over a 3x3 submatrix, and the
    fixed B3/S23 next_state helper of life/run_serial.c. */
module LifeRule {

  /** The rule array of the source, in its order:
      rule[0] = most live neighbours a live cell survives with,
      rule[1] = fewest live neighbours a live cell survives with,
      rule[2] = live neighbours that bring a dead cell to life. */
  datatype Rule = Rule(maxSurvive: int, minSurvive: int, birth: int)

  /** Conway's B3/S23, the rule {3, 2, 3} every driver passes. */
  const Standard: Rule := Rule(3, 2, 3)

  /** A 3x3 submatrix: w[1][1] is the cell, the other eight are its neighbours. */
  type Window = w: seq<seq<int>> | |w| == 3 && |w[0]| == 3 && |w[1]| == 3 && |w[2]| == 3
    witness [[0, 0, 0], [0, 0, 0], [0, 0, 0]]

  predicate IsBinary(v: int) { v == 0 || v == 1 }

  /** Every cell of the window holds 0 or 1. */
  predicate BinaryWindow(w: Window) {
    forall i, j :: 0 <= i < 3 && 0 <= j < 3 ==> IsBinary(w[i][j])
  }

  /** The eight cells around the centre, added up; the centre is not one of them. */
  function NeighbourSum(w: Window): (n: int)
    ensures BinaryWindow(w) ==> 0 <= n <= 8
  {
    w[0][0] + w[0][1] + w[0][2] + w[1][0] + w[1][2] + w[2][0] + w[2][1] + w[2][2]
  }

  /** The value of the C expression
        (cell == 1 && min <= live && live <= max) || (cell == 0 && live == birth)
      as an int. */
  function Decide(cell: int, live: int, rule: Rule): (r: int)
    ensures IsBinary(r)
    ensures cell == 1 ==> (r == 1 <==> rule.minSurvive <= live <= rule.maxSurvive)
    ensures cell == 0 ==> (r == 1 <==> live == rule.birth)
    ensures !IsBinary(cell) ==> r == 0
  {
    if cell == 1 then
      (if rule.minSurvive <= live && live <= rule.maxSurvive then 1 else 0)
    else if cell == 0 then
      (if live == rule.birth then 1 else 0)
    else 0
  }

  /** The next value of the centre of w under rule. */
  function CellLives(w: Window, rule: Rule): (r: int)
    ensures IsBinary(r)
    ensures !IsBinary(w[1][1]) ==> r == 0
  {
    Decide(w[1][1], NeighbourSum(w), rule)
  }

  /** The sum of the first k cells of w in row-major order, the centre
      (position 4) left out: the accumulator of cell_lives after k visits. */
  function PartialSum(w: Window, k: nat): int
    requires k <= 9
  {
    if k == 0 then 0
    else PartialSum(w, k - 1) + (if k - 1 == 4 then 0 else w[(k - 1) / 3][(k - 1) % 3])
  }

  /** Visiting position (row, col) adds that cell, or nothing at the centre. */
  lemma PartialSumNext(w: Window, row: int, col: int)
    requires 0 <= row < 3 && 0 <= col < 3
    ensures PartialSum(w, 3 * row + col + 1) == PartialSum(w, 3 * row + col) + (if row == 1 && col == 1 then 0 else w[row][col])
  {
    var k := 3 * row + col;
    assert k / 3 == row && k % 3 == col;
  }

  /** Visiting all nine positions and skipping the centre adds up exactly the
      eight neighbours. */
  lemma {:induction false} PartialSumComplete(w: Window)
    ensures PartialSum(w, 9) == NeighbourSum(w)
  {
    assert PartialSum(w, 1) == w[0][0];
    assert PartialSum(w, 2) == PartialSum(w, 1) + w[0][1];
    assert PartialSum(w, 3) == PartialSum(w, 2) + w[0][2];
    assert PartialSum(w, 4) == PartialSum(w, 3) + w[1][0];
    assert PartialSum(w, 6) == PartialSum(w, 4) + w[1][2];
    assert PartialSum(w, 7) == PartialSum(w, 6) + w[2][0];
    assert PartialSum(w, 8) == PartialSum(w, 7) + w[2][1];
  }

  /** cell_lives: counts the live cells of the submatrix around the centre in
      a nested loop, then applies the rule. */
  method ComputeCellLives(w: Window, rule: Rule) returns (alive: int)
    ensures alive == CellLives(w, rule)
  {
    var cell := w[1][1];
    var live := 0;
    for row := 0 to 3
      invariant live == PartialSum(w, 3 * row)
    {
      for col := 0 to 3
        invariant live == PartialSum(w, 3 * row + col)
      {
        PartialSumNext(w, row, col);
        if row == 1 && col == 1 {
          continue;
        }
        live := live + w[row][col];
      }
    }
    PartialSumComplete(w);
    alive := if (cell == 1 && live >= rule.minSurvive && live <= rule.maxSurvive)
                || (cell == 0 && live == rule.birth) then 1 else 0;
  }

  /** The centre never contributes to the count, whatever it holds. */
  lemma CentreNotCounted(w: Window, v: int)
    ensures NeighbourSum(w[1 := w[1][1 := v]]) == NeighbourSum(w)
  {
  }

  /** next_state of life/run_serial.c: any nonzero cell is live; a live cell
      survives with 2 or 3 neighbours, a dead cell is born with exactly 3. */
  function NextState(cur: int, neighbours: int): (r: int)
    ensures IsBinary(r)
    ensures cur != 0 ==> (r == 1 <==> neighbours == 2 || neighbours == 3)
    ensures cur == 0 ==> (r == 1 <==> neighbours == 3)
  {
    if cur != 0 then
      (if neighbours == 2 || neighbours == 3 then 1 else 0)
    else
      (if neighbours == 3 then 1 else 0)
  }

  /** On a 0/1 cell, next_state is the general rule instantiated with {3, 2, 3}. */
  lemma NextStateIsStandardRule(cur: int, neighbours: int)
    requires IsBinary(cur)
    ensures NextState(cur, neighbours) == Decide(cur, neighbours, Standard)
  {
  }

  /** next_state applied to a window: the centre and its neighbour count. */
  function NextCell(w: Window): (r: int)
    ensures IsBinary(r)
  {
    NextState(w[1][1], NeighbourSum(w))
  }

  /** On a window whose centre is 0 or 1, next_state and cell_lives with
      rule {3, 2, 3} agree. */
  lemma NextCellIsStandard(w: Window)
    requires IsBinary(w[1][1])
    ensures NextCell(w) == CellLives(w, Standard)
  {
    NextStateIsStandardRule(w[1][1], NeighbourSum(w));
  }

  /** The two evaluators part ways on a cell that is neither 0 nor 1:
      next_state treats 2 as live, cell_lives treats it as neither. */
  lemma NextStateDiffersOnNonBinaryCell()
    ensures NextState(2, 2) == 1 && Decide(2, 2, Standard) == 0
  {
  }
}
