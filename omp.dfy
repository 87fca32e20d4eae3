/** update_world_omp and update_world_n_generations_omp of
    life/src/life_omp.c, modelled as sequential loops. The parallel loop
    writes only world_aux and reads only world, so every iteration order
    gives the same result; UpdateWorldScheduled states that for an
    arbitrary order of the interior cells. */
module LifeOmp {
  import opened LifeRule
  import opened Torus
  import opened Grid
  import opened LifeWorld

  /** The wrapped indices and the submatrix of one iteration of the
      collapsed loop: pre_row, pos_row, pre_col, pos_col are found by
      comparing with 0 and n + 1, and the result is cell_lives of the 3x3
      toroidal window of world around (row, col). */
  method ComputeCellOmp(world: array2<int>, rows: nat, cols: nat, rule: Rule, row: int, col: int) returns (v: int)
    requires Fits(world, rows, cols) && InInterior(row, col, rows, cols)
    ensures v == CellLives(Neighbourhood(Toroidal, Interior(world, rows, cols), rows, cols, row, col), rule)
  {
    var preRow := row - 1;
    if preRow == 0 {
      preRow := rows;
    }
    var posRow := row + 1;
    if posRow == rows + 1 {
      posRow := 1;
    }
    var preCol := col - 1;
    if preCol == 0 {
      preCol := cols;
    }
    var posCol := col + 1;
    if posCol == cols + 1 {
      posCol := 1;
    }
    assert preRow == OmpPrev(row, rows) && posRow == OmpNext(row, rows);
    assert preCol == OmpPrev(col, cols) && posCol == OmpNext(col, cols);
    OmpWrapMatchesSerial(row, rows);
    OmpWrapMatchesSerial(col, cols);
    var submatrix: Window :=
      [[world[preRow, preCol], world[preRow, col], world[preRow, posCol]],
       [world[row, preCol],    world[row, col],    world[row, posCol]],
       [world[posRow, preCol], world[posRow, col], world[posRow, posCol]]];
    WindowFromArray(world, rows, cols, row, col);
    v := ComputeCellLives(submatrix, rule);
  }

  /** One iteration of the collapsed loop: world_aux[row][col] receives the
      next value of the cell and no other cell of world_aux changes. */
  method UpdateCellOmp(world: array2<int>, rows: nat, cols: nat, aux: array2<int>, rule: Rule, row: int, col: int)
    requires world != aux
    requires Fits(world, rows, cols) && Fits(aux, rows, cols) && InInterior(row, col, rows, cols)
    modifies aux
    ensures aux[row, col] == CellLives(Neighbourhood(Toroidal, Interior(world, rows, cols), rows, cols, row, col), rule)
    ensures forall i, j :: 0 <= i < aux.Length0 && 0 <= j < aux.Length1 && (i, j) != (row, col) ==>
      aux[i, j] == old(aux[i, j])
  {
    var v := ComputeCellOmp(world, rows, cols, rule, row, col);
    aux[row, col] := v;
  }

  /** The inner (column) loop of update_world_omp for one row. */
  method UpdateRowOmp(world: array2<int>, rows: nat, cols: nat, aux: array2<int>, rule: Rule, row: int)
    requires world != aux
    requires Fits(world, rows, cols) && Fits(aux, rows, cols) && 1 <= row <= rows
    modifies aux
    ensures forall j :: 1 <= j <= cols ==>
      aux[row, j] == CellLives(Neighbourhood(Toroidal, Interior(world, rows, cols), rows, cols, row, j), rule)
    ensures forall i, j :: 0 <= i < aux.Length0 && 0 <= j < aux.Length1 && !(i == row && 1 <= j <= cols) ==>
      aux[i, j] == old(aux[i, j])
  {
    for col := 1 to cols + 1
      invariant forall j :: 1 <= j < col ==>
        aux[row, j] == CellLives(Neighbourhood(Toroidal, Interior(world, rows, cols), rows, cols, row, j), rule)
      invariant forall i, j :: 0 <= i < aux.Length0 && 0 <= j < aux.Length1 && !(i == row && 1 <= j < col) ==>
        aux[i, j] == old(aux[i, j])
    {
      UpdateCellOmp(world, rows, cols, aux, rule, row, col);
    }
  }

  /** update_world_omp run sequentially in the source's row-major order:
      it leaves exactly what update_world leaves, namely Step of the old
      interior in both arrays, margins untouched. */
  method UpdateWorldOmp(world: array2<int>, rows: nat, cols: nat, aux: array2<int>, rule: Rule)
    requires world != aux
    requires Fits(world, rows, cols) && Fits(aux, rows, cols)
    modifies world, aux
    ensures Interior(world, rows, cols) == Step(Toroidal, old(Interior(world, rows, cols)), rows, cols, rule)
    ensures Interior(aux, rows, cols) == Interior(world, rows, cols)
    ensures forall i, j :: 0 <= i < world.Length0 && 0 <= j < world.Length1 && !InInterior(i, j, rows, cols) ==>
      world[i, j] == old(world[i, j])
    ensures forall i, j :: 0 <= i < aux.Length0 && 0 <= j < aux.Length1 && !InInterior(i, j, rows, cols) ==>
      aux[i, j] == old(aux[i, j])
  {
    ghost var next := Step(Toroidal, Interior(world, rows, cols), rows, cols, rule);
    for row := 1 to rows + 1
      invariant unchanged(world)
      invariant forall i, j :: 1 <= i < row && 1 <= j <= cols ==> aux[i, j] == next[i - 1][j - 1]
      invariant forall i, j :: 0 <= i < aux.Length0 && 0 <= j < aux.Length1 && !(1 <= i < row && 1 <= j <= cols) ==>
        aux[i, j] == old(aux[i, j])
    {
      UpdateRowOmp(world, rows, cols, aux, rule, row);
    }
    SameCells(Interior(aux, rows, cols), next, rows, cols);
    CopyWorld(world, rows, cols, aux);
  }

  /** A schedule of the parallel loop: every entry is an interior cell and
      every interior cell is visited at least once. */
  ghost predicate Covers(schedule: seq<(int, int)>, rows: nat, cols: nat) {
    (forall k :: 0 <= k < |schedule| ==> InInterior(schedule[k].0, schedule[k].1, rows, cols)) &&
    (forall i, j :: 1 <= i <= rows && 1 <= j <= cols ==> (i, j) in schedule)
  }

  /** The loop body of update_world_omp executed for the cells of any
      covering schedule, in the schedule's order and repeats allowed: every
      interior cell of world_aux ends up with the next value of that cell of
      world, and nothing outside the interior changes. */
  method RunSchedule(world: array2<int>, rows: nat, cols: nat, aux: array2<int>, rule: Rule,
                     schedule: seq<(int, int)>)
    requires world != aux
    requires Fits(world, rows, cols) && Fits(aux, rows, cols)
    requires Covers(schedule, rows, cols)
    modifies aux
    ensures forall i, j :: 1 <= i <= rows && 1 <= j <= cols ==>
      aux[i, j] == CellLives(Neighbourhood(Toroidal, Interior(world, rows, cols), rows, cols, i, j), rule)
    ensures forall i, j :: 0 <= i < aux.Length0 && 0 <= j < aux.Length1 && !InInterior(i, j, rows, cols) ==>
      aux[i, j] == old(aux[i, j])
  {
    ghost var g := Interior(world, rows, cols);
    ghost var done: set<(int, int)> := {};
    for k := 0 to |schedule|
      invariant g == Interior(world, rows, cols)
      invariant forall p :: p in done ==> InInterior(p.0, p.1, rows, cols)
      invariant forall m :: 0 <= m < k ==> schedule[m] in done
      invariant forall i, j :: 1 <= i <= rows && 1 <= j <= cols && (i, j) in done ==>
        aux[i, j] == CellLives(Neighbourhood(Toroidal, g, rows, cols, i, j), rule)
      invariant forall i, j :: 0 <= i < aux.Length0 && 0 <= j < aux.Length1 && (i, j) !in done ==>
        aux[i, j] == old(aux[i, j])
    {
      UpdateCellOmp(world, rows, cols, aux, rule, schedule[k].0, schedule[k].1);
      done := done + {schedule[k]};
    }
    CoveredCellsDone(schedule, done, rows, cols);
  }

  /** Once every entry of a covering schedule has been visited, so has
      every interior cell. */
  lemma CoveredCellsDone(schedule: seq<(int, int)>, done: set<(int, int)>, rows: nat, cols: nat)
    requires Covers(schedule, rows, cols)
    requires forall m :: 0 <= m < |schedule| ==> schedule[m] in done
    ensures forall i, j :: 1 <= i <= rows && 1 <= j <= cols ==> (i, j) in done
  {
    forall i, j | 1 <= i <= rows && 1 <= j <= cols
      ensures (i, j) in done
    {
      assert (i, j) in schedule;
    }
  }

  /** update_world_omp with its parallel loop run in the order of any
      covering schedule, followed by the copy-back: the outcome is the same
      Step whatever the order, because no iteration reads a cell another
      one writes. */
  method UpdateWorldScheduled(world: array2<int>, rows: nat, cols: nat, aux: array2<int>, rule: Rule,
                              schedule: seq<(int, int)>)
    requires world != aux
    requires Fits(world, rows, cols) && Fits(aux, rows, cols)
    requires Covers(schedule, rows, cols)
    modifies world, aux
    ensures Interior(world, rows, cols) == Step(Toroidal, old(Interior(world, rows, cols)), rows, cols, rule)
    ensures Interior(aux, rows, cols) == Interior(world, rows, cols)
    ensures forall i, j :: 0 <= i < world.Length0 && 0 <= j < world.Length1 && !InInterior(i, j, rows, cols) ==>
      world[i, j] == old(world[i, j])
    ensures forall i, j :: 0 <= i < aux.Length0 && 0 <= j < aux.Length1 && !InInterior(i, j, rows, cols) ==>
      aux[i, j] == old(aux[i, j])
  {
    ghost var next := Step(Toroidal, Interior(world, rows, cols), rows, cols, rule);
    RunSchedule(world, rows, cols, aux, rule, schedule);
    SameCells(Interior(aux, rows, cols), next, rows, cols);
    CopyWorld(world, rows, cols, aux);
  }

  /** update_world_n_generations_omp: nothing at all when n <= 0, otherwise
      exactly n generations, the same StepN as update_world_n_generations. */
  method UpdateWorldNOmp(n: int, world: array2<int>, rows: nat, cols: nat, aux: array2<int>, rule: Rule)
    requires world != aux
    requires Fits(world, rows, cols) && Fits(aux, rows, cols)
    modifies world, aux
    ensures Interior(world, rows, cols) == StepN(Toroidal, old(Interior(world, rows, cols)), rows, cols, n, rule)
    ensures n <= 0 ==> unchanged(world) && unchanged(aux)
    ensures n > 0 ==> Interior(aux, rows, cols) == Interior(world, rows, cols)
    ensures forall i, j :: 0 <= i < world.Length0 && 0 <= j < world.Length1 && !InInterior(i, j, rows, cols) ==>
      world[i, j] == old(world[i, j])
    ensures forall i, j :: 0 <= i < aux.Length0 && 0 <= j < aux.Length1 && !InInterior(i, j, rows, cols) ==>
      aux[i, j] == old(aux[i, j])
  {
    if n <= 0 {
      return;
    }
    ghost var g := Interior(world, rows, cols);
    for i := 0 to n
      invariant Interior(world, rows, cols) == StepN(Toroidal, g, rows, cols, i, rule)
      invariant i > 0 ==> Interior(aux, rows, cols) == Interior(world, rows, cols)
      invariant forall r, c :: 0 <= r < world.Length0 && 0 <= c < world.Length1 && !InInterior(r, c, rows, cols) ==>
        world[r, c] == old(world[r, c])
      invariant forall r, c :: 0 <= r < aux.Length0 && 0 <= c < aux.Length1 && !InInterior(r, c, rows, cols) ==>
        aux[r, c] == old(aux[r, c])
    {
      StepNSucc(Toroidal, g, rows, cols, i, rule);
      UpdateWorldOmp(world, rows, cols, aux, rule);
    }
  }
}
