/** The world operations of life/src/life.c over a ghost-padded 2-D array:
    row 0, column 0, row rows + 1 and column cols + 1 form the margin, and
    the interior is [1, rows] x [1, cols]. update_world writes the next
    generation into world_aux and copies it back; update_world_n_generations
    repeats that n times. */
module LifeWorld {
  import opened LifeRule
  import opened Torus
  import opened Grid

  /** Every interior index [1, rows] x [1, cols] is inside the array. */
  predicate Fits(world: array2<int>, rows: nat, cols: nat) {
    rows < world.Length0 && cols < world.Length1
  }

  predicate InInterior(i: int, j: int, rows: nat, cols: nat) {
    1 <= i <= rows && 1 <= j <= cols
  }

  /** The interior of the array as a grid value. */
  function Interior(world: array2<int>, rows: nat, cols: nat): (g: Cells)
    reads world
    requires Fits(world, rows, cols)
    ensures IsGrid(g, rows, cols)
    ensures forall i, j :: 0 <= i < rows && 0 <= j < cols ==> g[i][j] == world[i + 1, j + 1]
  {
    var g := seq(rows, i requires 0 <= i < rows reads world =>
      seq(cols, j requires 0 <= j < cols reads world => world[i + 1, j + 1]));
    g
  }

  /** get_cell: the value stored at (row, col), margin included. */
  function GetCell(world: array2<int>, row: int, col: int): (v: int)
    reads world
    requires 0 <= row < world.Length0 && 0 <= col < world.Length1
    ensures v == world[row, col]
  {
    world[row, col]
  }

  /** set_cell: stores value at (row, col) and changes nothing else. */
  method SetCell(world: array2<int>, row: int, col: int, value: int)
    requires 0 <= row < world.Length0 && 0 <= col < world.Length1
    modifies world
    ensures world[row, col] == value
    ensures forall i, j :: 0 <= i < world.Length0 && 0 <= j < world.Length1 && (i, j) != (row, col) ==>
      world[i, j] == old(world[i, j])
  {
    world[row, col] := value;
  }

  /** clear_world: zeroes the interior and nothing else, unless the grid is
      wider than virtualMaxCols or has fewer than 2 rows or columns, in
      which case it does nothing at all. */
  method ClearWorld(world: array2<int>, rows: nat, cols: nat, virtualMaxCols: int)
    requires !(cols > virtualMaxCols || rows < 2 || cols < 2) ==> Fits(world, rows, cols)
    modifies world
    ensures cols > virtualMaxCols || rows < 2 || cols < 2 ==> unchanged(world)
    ensures !(cols > virtualMaxCols || rows < 2 || cols < 2) ==>
      forall i, j :: 0 <= i < world.Length0 && 0 <= j < world.Length1 ==>
        world[i, j] == if InInterior(i, j, rows, cols) then 0 else old(world[i, j])
  {
    if cols > virtualMaxCols || rows < 2 || cols < 2 {
      return;
    }
    for row := 1 to rows + 1
      invariant forall i, j :: 0 <= i < world.Length0 && 0 <= j < world.Length1 ==>
        world[i, j] == if 1 <= i < row && 1 <= j <= cols then 0 else old(world[i, j])
    {
      for col := 1 to cols + 1
        invariant forall i, j :: 0 <= i < world.Length0 && 0 <= j < world.Length1 ==>
          world[i, j] == if (1 <= i < row && 1 <= j <= cols) || (i == row && 1 <= j < col) then 0 else old(world[i, j])
      {
        world[row, col] := 0;
      }
    }
  }

  /** copy_world: the interior of world1 takes the interior of world2; the
      margin of world1 is not touched. */
  method CopyWorld(world1: array2<int>, rows: nat, cols: nat, world2: array2<int>)
    requires Fits(world1, rows, cols) && Fits(world2, rows, cols)
    modifies world1
    ensures forall i, j :: 0 <= i < world1.Length0 && 0 <= j < world1.Length1 ==>
      world1[i, j] == if InInterior(i, j, rows, cols) then old(world2[i, j]) else old(world1[i, j])
    ensures Interior(world1, rows, cols) == old(Interior(world2, rows, cols))
  {
    for row := 1 to rows + 1
      invariant forall i, j :: 0 <= i < world1.Length0 && 0 <= j < world1.Length1 ==>
        world1[i, j] == if 1 <= i < row && 1 <= j <= cols then old(world2[i, j]) else old(world1[i, j])
      invariant world1 != world2 ==> unchanged(world2)
    {
      for col := 1 to cols + 1
        invariant forall i, j :: 0 <= i < world1.Length0 && 0 <= j < world1.Length1 ==>
          world1[i, j] == if (1 <= i < row && 1 <= j <= cols) || (i == row && 1 <= j < col)
                          then old(world2[i, j]) else old(world1[i, j])
        invariant world1 != world2 ==> unchanged(world2)
      {
        world1[row, col] := world2[row, col];
      }
    }
    SameCells(Interior(world1, rows, cols), old(Interior(world2, rows, cols)), rows, cols);
  }

  /** The toroidal 3x3 submatrix around (row, col), read from the array as
      update_world reads it, is the neighbourhood of the interior grid. */
  lemma WindowFromArray(world: array2<int>, rows: nat, cols: nat, row: int, col: int)
    requires Fits(world, rows, cols) && InInterior(row, col, rows, cols)
    ensures Neighbourhood(Toroidal, Interior(world, rows, cols), rows, cols, row, col)
         == [[world[Prev(row, rows), Prev(col, cols)], world[Prev(row, rows), col], world[Prev(row, rows), Next(col, cols)]],
             [world[row, Prev(col, cols)], world[row, col], world[row, Next(col, cols)]],
             [world[Next(row, rows), Prev(col, cols)], world[Next(row, rows), col], world[Next(row, rows), Next(col, cols)]]]
  {
  }

  /** The body of update_world's inner loop for one interior cell: the
      wrapped indices pre_row, pos_row, pre_col, pos_col, the 3x3 submatrix
      read through get_cell, and cell_lives of it. */
  method ComputeCell(world: array2<int>, rows: nat, cols: nat, rule: Rule, row: int, col: int) returns (v: int)
    requires Fits(world, rows, cols) && InInterior(row, col, rows, cols)
    ensures v == CellLives(Neighbourhood(Toroidal, Interior(world, rows, cols), rows, cols, row, col), rule)
  {
    var preRow := Prev(row, rows);
    var posRow := Next(row, rows);
    var preCol := Prev(col, cols);
    var posCol := Next(col, cols);
    var submatrix: Window :=
      [[GetCell(world, preRow, preCol), GetCell(world, preRow, col), GetCell(world, preRow, posCol)],
       [GetCell(world, row, preCol),    GetCell(world, row, col),    GetCell(world, row, posCol)],
       [GetCell(world, posRow, preCol), GetCell(world, posRow, col), GetCell(world, posRow, posCol)]];
    WindowFromArray(world, rows, cols, row, col);
    v := ComputeCellLives(submatrix, rule);
  }

  /** One pass of update_world's inner loop: every cell of interior row
      `row` of world_aux receives the next value of that cell of world;
      nothing else in world_aux changes. */
  method UpdateRow(world: array2<int>, rows: nat, cols: nat, aux: array2<int>, rule: Rule, row: int)
    requires world != aux
    requires Fits(world, rows, cols) && Fits(aux, rows, cols) && 1 <= row <= rows
    modifies aux
    ensures forall j :: 1 <= j <= cols ==>
      aux[row, j] == CellLives(Neighbourhood(Toroidal, Interior(world, rows, cols), rows, cols, row, j), rule)
    ensures forall i, j :: 0 <= i < aux.Length0 && 0 <= j < aux.Length1 && !(i == row && 1 <= j <= cols) ==>
      aux[i, j] == old(aux[i, j])
  {
    for col := 1 to cols + 1
      invariant forall j :: 1 <= j < col ==>
        aux[row, j] == CellLives(Neighbourhood(Toroidal, Interior(world, rows, cols), rows, cols, row, j), rule)
      invariant forall i, j :: 0 <= i < aux.Length0 && 0 <= j < aux.Length1 && !(i == row && 1 <= j < col) ==>
        aux[i, j] == old(aux[i, j])
    {
      var v := ComputeCell(world, rows, cols, rule, row, col);
      SetCell(aux, row, col, v);
    }
  }

  /** update_world: one generation. The new interior of world (and of
      world_aux, which holds the same values) is Step of the old interior of
      world; world_aux's old contents play no part. Neither margin changes. */
  method UpdateWorld(world: array2<int>, rows: nat, cols: nat, aux: array2<int>, rule: Rule)
    requires world != aux
    requires Fits(world, rows, cols) && Fits(aux, rows, cols)
    modifies world, aux
    ensures Interior(world, rows, cols) == Step(Toroidal, old(Interior(world, rows, cols)), rows, cols, rule)
    ensures Interior(aux, rows, cols) == Interior(world, rows, cols)
    ensures forall i, j :: 0 <= i < world.Length0 && 0 <= j < world.Length1 && !InInterior(i, j, rows, cols) ==>
      world[i, j] == old(world[i, j])
    ensures forall i, j :: 0 <= i < aux.Length0 && 0 <= j < aux.Length1 && !InInterior(i, j, rows, cols) ==>
      aux[i, j] == old(aux[i, j])
  {
    ghost var next := Step(Toroidal, Interior(world, rows, cols), rows, cols, rule);
    for row := 1 to rows + 1
      invariant unchanged(world)
      invariant forall i, j :: 1 <= i < row && 1 <= j <= cols ==> aux[i, j] == next[i - 1][j - 1]
      invariant forall i, j :: 0 <= i < aux.Length0 && 0 <= j < aux.Length1 && !(1 <= i < row && 1 <= j <= cols) ==>
        aux[i, j] == old(aux[i, j])
    {
      UpdateRow(world, rows, cols, aux, rule, row);
    }
    SameCells(Interior(aux, rows, cols), next, rows, cols);
    CopyWorld(world, rows, cols, aux);
  }

  /** update_world_n_generations: nothing at all when n <= 0, otherwise
      exactly n generations. */
  method UpdateWorldN(n: int, world: array2<int>, rows: nat, cols: nat, aux: array2<int>, rule: Rule)
    requires world != aux
    requires Fits(world, rows, cols) && Fits(aux, rows, cols)
    modifies world, aux
    ensures Interior(world, rows, cols) == StepN(Toroidal, old(Interior(world, rows, cols)), rows, cols, n, rule)
    ensures n <= 0 ==> unchanged(world) && unchanged(aux)
    ensures n > 0 ==> Interior(aux, rows, cols) == Interior(world, rows, cols)
    ensures forall i, j :: 0 <= i < world.Length0 && 0 <= j < world.Length1 && !InInterior(i, j, rows, cols) ==>
      world[i, j] == old(world[i, j])
    ensures forall i, j :: 0 <= i < aux.Length0 && 0 <= j < aux.Length1 && !InInterior(i, j, rows, cols) ==>
      aux[i, j] == old(aux[i, j])
  {
    if n <= 0 {
      return;
    }
    ghost var g := Interior(world, rows, cols);
    for i := 0 to n
      invariant Interior(world, rows, cols) == StepN(Toroidal, g, rows, cols, i, rule)
      invariant i > 0 ==> Interior(aux, rows, cols) == Interior(world, rows, cols)
      invariant forall r, c :: 0 <= r < world.Length0 && 0 <= c < world.Length1 && !InInterior(r, c, rows, cols) ==>
        world[r, c] == old(world[r, c])
      invariant forall r, c :: 0 <= r < aux.Length0 && 0 <= c < aux.Length1 && !InInterior(r, c, rows, cols) ==>
        aux[r, c] == old(aux[r, c])
    {
      StepNSucc(Toroidal, g, rows, cols, i, rule);
      UpdateWorld(world, rows, cols, aux, rule);
    }
  }
}
