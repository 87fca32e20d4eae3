/** The logical grid: the rows x cols interior of a world as a value, the
    3x3 neighbourhood of a cell under the two boundary policies, and one
    generation (Step) and n generations (StepN) of the rule over the whole
    interior. This is the specification the array steppers of life.c and
    life_omp.c are proved against. */
module Grid {
  import opened LifeRule
  import opened Torus

  /** Interior cells: row r, column c (both 1-based, as in the source) is g[r - 1][c - 1]. */
  type Cells = seq<seq<int>>

  predicate IsGrid(g: Cells, rows: nat, cols: nat) {
    |g| == rows && forall i :: 0 <= i < rows ==> |g[i]| == cols
  }

  /** Every interior cell holds 0 or 1. */
  predicate Binary(g: Cells) {
    forall i, j :: 0 <= i < |g| && 0 <= j < |g[i]| ==> IsBinary(g[i][j])
  }

  /** The two boundary policies: wrap around, or treat the outside as dead. */
  datatype Policy = Toroidal | DeadBorder

  /** The interior cell (r, c), 1-based. */
  function At(g: Cells, rows: nat, cols: nat, r: int, c: int): int
    requires IsGrid(g, rows, cols) && 1 <= r <= rows && 1 <= c <= cols
  {
    g[r - 1][c - 1]
  }

  /** A cell as the dead-border policy sees it: 0 outside [1, rows] x [1, cols]. */
  function DeadAt(g: Cells, rows: nat, cols: nat, r: int, c: int): int
    requires IsGrid(g, rows, cols)
  {
    if 1 <= r <= rows && 1 <= c <= cols then g[r - 1][c - 1] else 0
  }

  /** The 3x3 submatrix around (r, c) under the given policy. */
  function Neighbourhood(policy: Policy, g: Cells, rows: nat, cols: nat, r: int, c: int): Window
    requires IsGrid(g, rows, cols) && 1 <= r <= rows && 1 <= c <= cols
  {
    match policy
    case Toroidal =>
      var pr, nr, pc, nc := Prev(r, rows), Next(r, rows), Prev(c, cols), Next(c, cols);
      [[At(g, rows, cols, pr, pc), At(g, rows, cols, pr, c), At(g, rows, cols, pr, nc)],
       [At(g, rows, cols, r, pc),  At(g, rows, cols, r, c),  At(g, rows, cols, r, nc)],
       [At(g, rows, cols, nr, pc), At(g, rows, cols, nr, c), At(g, rows, cols, nr, nc)]]
    case DeadBorder =>
      [[DeadAt(g, rows, cols, r - 1, c - 1), DeadAt(g, rows, cols, r - 1, c), DeadAt(g, rows, cols, r - 1, c + 1)],
       [DeadAt(g, rows, cols, r, c - 1),     DeadAt(g, rows, cols, r, c),     DeadAt(g, rows, cols, r, c + 1)],
       [DeadAt(g, rows, cols, r + 1, c - 1), DeadAt(g, rows, cols, r + 1, c), DeadAt(g, rows, cols, r + 1, c + 1)]]
  }

  /** A 0/1 grid shows only 0/1 cells in every neighbourhood, so at most
      eight live neighbours. */
  lemma BinaryNeighbourhood(policy: Policy, g: Cells, rows: nat, cols: nat, r: int, c: int)
    requires IsGrid(g, rows, cols) && Binary(g) && 1 <= r <= rows && 1 <= c <= cols
    ensures BinaryWindow(Neighbourhood(policy, g, rows, cols, r, c))
    ensures 0 <= NeighbourSum(Neighbourhood(policy, g, rows, cols, r, c)) <= 8
  {
  }

  /** The centre of every neighbourhood is the cell itself. */
  lemma NeighbourhoodCentre(policy: Policy, g: Cells, rows: nat, cols: nat, r: int, c: int)
    requires IsGrid(g, rows, cols) && 1 <= r <= rows && 1 <= c <= cols
    ensures Neighbourhood(policy, g, rows, cols, r, c)[1][1] == g[r - 1][c - 1]
  {
  }

  /** Under the dead-border policy, position (dr + 1, dc + 1) of the
      neighbourhood of (r, c) is the cell (r + dr, c + dc), or 0 outside. */
  lemma DeadNeighbourhoodCell(g: Cells, rows: nat, cols: nat, r: int, c: int, dr: int, dc: int)
    requires IsGrid(g, rows, cols) && 1 <= r <= rows && 1 <= c <= cols
    requires -1 <= dr <= 1 && -1 <= dc <= 1
    ensures Neighbourhood(DeadBorder, g, rows, cols, r, c)[dr + 1][dc + 1] == DeadAt(g, rows, cols, r + dr, c + dc)
  {
  }

  /** One generation: every interior cell becomes the rule applied to its
      neighbourhood in the OLD grid g. */
  function Step(policy: Policy, g: Cells, rows: nat, cols: nat, rule: Rule): (h: Cells)
    requires IsGrid(g, rows, cols)
    ensures IsGrid(h, rows, cols) && Binary(h)
    ensures forall r, c :: 1 <= r <= rows && 1 <= c <= cols ==>
      h[r - 1][c - 1] == CellLives(Neighbourhood(policy, g, rows, cols, r, c), rule)
  {
    var h := seq(rows, i requires 0 <= i < rows =>
      seq(cols, j requires 0 <= j < cols =>
        CellLives(Neighbourhood(policy, g, rows, cols, i + 1, j + 1), rule)));
    assert forall i, j :: 0 <= i < rows && 0 <= j < cols ==>
      h[i][j] == CellLives(Neighbourhood(policy, g, rows, cols, i + 1, j + 1), rule);
    h
  }

  /** n generations; none at all when n <= 0. */
  function StepN(policy: Policy, g: Cells, rows: nat, cols: nat, n: int, rule: Rule): (h: Cells)
    requires IsGrid(g, rows, cols)
    ensures IsGrid(h, rows, cols)
    decreases n
  {
    if n <= 0 then g else StepN(policy, Step(policy, g, rows, cols, rule), rows, cols, n - 1, rule)
  }

  /** Generation n + 1 is one step after generation n. */
  lemma {:induction false} StepNSucc(policy: Policy, g: Cells, rows: nat, cols: nat, n: nat, rule: Rule)
    requires IsGrid(g, rows, cols)
    ensures StepN(policy, g, rows, cols, n + 1, rule)
         == Step(policy, StepN(policy, g, rows, cols, n, rule), rows, cols, rule)
    decreases n
  {
    if n > 0 {
      StepNSucc(policy, Step(policy, g, rows, cols, rule), rows, cols, n - 1, rule);
    }
  }

  /** Splitting a run of a + b generations into a run of a and then b. */
  lemma {:induction false} StepNSplit(policy: Policy, g: Cells, rows: nat, cols: nat, a: nat, b: nat, rule: Rule)
    requires IsGrid(g, rows, cols)
    ensures StepN(policy, g, rows, cols, a + b, rule)
         == StepN(policy, StepN(policy, g, rows, cols, a, rule), rows, cols, b, rule)
    decreases a
  {
    if a > 0 {
      StepNSplit(policy, Step(policy, g, rows, cols, rule), rows, cols, a - 1, b, rule);
    }
  }

  /** A run of zero generations after a run of n is the run of n alone. */
  lemma StepNThenZero(policy: Policy, g: Cells, rows: nat, cols: nat, n: nat, rule: Rule)
    requires IsGrid(g, rows, cols)
    ensures StepN(policy, StepN(policy, g, rows, cols, n, rule), rows, cols, 0, rule)
         == StepN(policy, g, rows, cols, n, rule)
  {
  }

  /** On a torus, cell (1, 1) has (rows, cols) as its upper-left neighbour. */
  lemma ToroidalCornerSeesOppositeCorner(g: Cells, rows: nat, cols: nat)
    requires IsGrid(g, rows, cols) && rows >= 1 && cols >= 1
    ensures Neighbourhood(Toroidal, g, rows, cols, 1, 1)[0][0] == At(g, rows, cols, rows, cols)
  {
  }

  /** With a dead border, cell (1, 1) counts only (1, 2), (2, 1) and (2, 2). */
  lemma DeadCornerCountsThreeCells(g: Cells, rows: nat, cols: nat)
    requires IsGrid(g, rows, cols) && rows >= 2 && cols >= 2
    ensures NeighbourSum(Neighbourhood(DeadBorder, g, rows, cols, 1, 1))
         == At(g, rows, cols, 1, 2) + At(g, rows, cols, 2, 1) + At(g, rows, cols, 2, 2)
  {
  }

  /** Away from the edge (1 < r < rows, 1 < c < cols) the two policies see the
      same neighbourhood, so the two steps agree on such a cell. */
  lemma PoliciesAgreeAwayFromEdge(g: Cells, rows: nat, cols: nat, r: int, c: int, rule: Rule)
    requires IsGrid(g, rows, cols) && 1 < r < rows && 1 < c < cols
    ensures Neighbourhood(Toroidal, g, rows, cols, r, c) == Neighbourhood(DeadBorder, g, rows, cols, r, c)
    ensures Step(Toroidal, g, rows, cols, rule)[r - 1][c - 1] == Step(DeadBorder, g, rows, cols, rule)[r - 1][c - 1]
  {
  }

  /** The grid rotated down by one row on the torus: row r takes row Prev(r). */
  function RotateDown(g: Cells, rows: nat, cols: nat): (h: Cells)
    requires IsGrid(g, rows, cols)
    ensures IsGrid(h, rows, cols)
    ensures forall r, c :: 1 <= r <= rows && 1 <= c <= cols ==>
      At(h, rows, cols, r, c) == At(g, rows, cols, Prev(r, rows), c)
  {
    seq(rows, i requires 0 <= i < rows => g[Prev(i + 1, rows) - 1])
  }

  /** The neighbourhood of (r, c) in the rotated grid is the neighbourhood
      of (Prev(r), c) in the original. */
  lemma RotatedNeighbourhood(g: Cells, rows: nat, cols: nat, r: int, c: int)
    requires IsGrid(g, rows, cols) && 1 <= r <= rows && 1 <= c <= cols
    ensures Neighbourhood(Toroidal, RotateDown(g, rows, cols), rows, cols, r, c)
         == Neighbourhood(Toroidal, g, rows, cols, Prev(r, rows), c)
  {
    PrevNextInverse(r, rows);
  }

  /** One cell of the commuting square below. */
  lemma RotatedCell(g: Cells, rows: nat, cols: nat, rule: Rule, r: int, c: int)
    requires IsGrid(g, rows, cols) && 1 <= r <= rows && 1 <= c <= cols
    ensures At(Step(Toroidal, RotateDown(g, rows, cols), rows, cols, rule), rows, cols, r, c)
         == At(RotateDown(Step(Toroidal, g, rows, cols, rule), rows, cols), rows, cols, r, c)
  {
    RotatedNeighbourhood(g, rows, cols, r, c);
  }

  /** The torus has no distinguished edge: rotating the grid and stepping it
      is the same as stepping it and rotating the result. */
  lemma StepCommutesWithRotation(g: Cells, rows: nat, cols: nat, rule: Rule)
    requires IsGrid(g, rows, cols)
    ensures Step(Toroidal, RotateDown(g, rows, cols), rows, cols, rule)
         == RotateDown(Step(Toroidal, g, rows, cols, rule), rows, cols)
  {
    var lhs := Step(Toroidal, RotateDown(g, rows, cols), rows, cols, rule);
    var rhs := RotateDown(Step(Toroidal, g, rows, cols, rule), rows, cols);
    forall r, c | 1 <= r <= rows && 1 <= c <= cols
      ensures At(lhs, rows, cols, r, c) == At(rhs, rows, cols, r, c)
    {
      RotatedCell(g, rows, cols, rule, r, c);
    }
    SameAt(lhs, rhs, rows, cols);
  }


  lemma Three<T>(s: seq<T>)
    requires |s| == 3
    ensures s == [s[0], s[1], s[2]]
  {
  }

  lemma Five<T>(s: seq<T>)
    requires |s| == 5
    ensures s == [s[0], s[1], s[2], s[3], s[4]]
  {
  }

  /** A lone live cell in the centre of a 3x3 torus dies, leaving all dead. */
  const LoneCell: Cells := [[0, 0, 0], [0, 1, 0], [0, 0, 0]]

  lemma LoneCellDies()
    ensures IsGrid(LoneCell, 3, 3)
    ensures Step(Toroidal, LoneCell, 3, 3, Standard) == [[0, 0, 0], [0, 0, 0], [0, 0, 0]]
  {
    assert IsGrid(LoneCell, 3, 3);
    var h := Step(Toroidal, LoneCell, 3, 3, Standard);
    assert h[0][0] == CellLives(Neighbourhood(Toroidal, LoneCell, 3, 3, 1, 1), Standard) == 0;
    assert h[0][1] == CellLives(Neighbourhood(Toroidal, LoneCell, 3, 3, 1, 2), Standard) == 0;
    assert h[0][2] == CellLives(Neighbourhood(Toroidal, LoneCell, 3, 3, 1, 3), Standard) == 0;
    assert h[1][0] == CellLives(Neighbourhood(Toroidal, LoneCell, 3, 3, 2, 1), Standard) == 0;
    assert h[1][1] == CellLives(Neighbourhood(Toroidal, LoneCell, 3, 3, 2, 2), Standard) == 0;
    assert h[1][2] == CellLives(Neighbourhood(Toroidal, LoneCell, 3, 3, 2, 3), Standard) == 0;
    assert h[2][0] == CellLives(Neighbourhood(Toroidal, LoneCell, 3, 3, 3, 1), Standard) == 0;
    assert h[2][1] == CellLives(Neighbourhood(Toroidal, LoneCell, 3, 3, 3, 2), Standard) == 0;
    assert h[2][2] == CellLives(Neighbourhood(Toroidal, LoneCell, 3, 3, 3, 3), Standard) == 0;
    Three(h); Three(h[0]); Three(h[1]); Three(h[2]);
  }

  /** A horizontal blinker: row 3, columns 2 to 4 of a 5x5 grid. */
  const BlinkerH: Cells := [[0, 0, 0, 0, 0], [0, 0, 0, 0, 0], [0, 1, 1, 1, 0], [0, 0, 0, 0, 0], [0, 0, 0, 0, 0]]

  /** The same blinker standing upright: column 3, rows 2 to 4. */
  const BlinkerV: Cells := [[0, 0, 0, 0, 0], [0, 0, 1, 0, 0], [0, 0, 1, 0, 0], [0, 0, 1, 0, 0], [0, 0, 0, 0, 0]]

  /** Row 1 of the horizontal blinker after one generation. */
  lemma BlinkerUprightRow1()
    ensures IsGrid(BlinkerH, 5, 5)
    ensures Step(Toroidal, BlinkerH, 5, 5, Standard)[0] == BlinkerV[0]
  {
    assert IsGrid(BlinkerH, 5, 5);
    var h := Step(Toroidal, BlinkerH, 5, 5, Standard)[0];
    assert h[0] == CellLives(Neighbourhood(Toroidal, BlinkerH, 5, 5, 1, 1), Standard) == 0;
    assert h[1] == CellLives(Neighbourhood(Toroidal, BlinkerH, 5, 5, 1, 2), Standard) == 0;
    assert h[2] == CellLives(Neighbourhood(Toroidal, BlinkerH, 5, 5, 1, 3), Standard) == 0;
    assert h[3] == CellLives(Neighbourhood(Toroidal, BlinkerH, 5, 5, 1, 4), Standard) == 0;
    assert h[4] == CellLives(Neighbourhood(Toroidal, BlinkerH, 5, 5, 1, 5), Standard) == 0;
    Five(h);
  }

  /** Row 2 of the horizontal blinker after one generation. */
  lemma BlinkerUprightRow2()
    ensures IsGrid(BlinkerH, 5, 5)
    ensures Step(Toroidal, BlinkerH, 5, 5, Standard)[1] == BlinkerV[1]
  {
    assert IsGrid(BlinkerH, 5, 5);
    var h := Step(Toroidal, BlinkerH, 5, 5, Standard)[1];
    assert h[0] == CellLives(Neighbourhood(Toroidal, BlinkerH, 5, 5, 2, 1), Standard) == 0;
    assert h[1] == CellLives(Neighbourhood(Toroidal, BlinkerH, 5, 5, 2, 2), Standard) == 0;
    assert h[2] == CellLives(Neighbourhood(Toroidal, BlinkerH, 5, 5, 2, 3), Standard) == 1;
    assert h[3] == CellLives(Neighbourhood(Toroidal, BlinkerH, 5, 5, 2, 4), Standard) == 0;
    assert h[4] == CellLives(Neighbourhood(Toroidal, BlinkerH, 5, 5, 2, 5), Standard) == 0;
    Five(h);
  }

  /** Row 3 of the horizontal blinker after one generation. */
  lemma BlinkerUprightRow3()
    ensures IsGrid(BlinkerH, 5, 5)
    ensures Step(Toroidal, BlinkerH, 5, 5, Standard)[2] == BlinkerV[2]
  {
    assert IsGrid(BlinkerH, 5, 5);
    var h := Step(Toroidal, BlinkerH, 5, 5, Standard)[2];
    assert h[0] == CellLives(Neighbourhood(Toroidal, BlinkerH, 5, 5, 3, 1), Standard) == 0;
    assert h[1] == CellLives(Neighbourhood(Toroidal, BlinkerH, 5, 5, 3, 2), Standard) == 0;
    assert h[2] == CellLives(Neighbourhood(Toroidal, BlinkerH, 5, 5, 3, 3), Standard) == 1;
    assert h[3] == CellLives(Neighbourhood(Toroidal, BlinkerH, 5, 5, 3, 4), Standard) == 0;
    assert h[4] == CellLives(Neighbourhood(Toroidal, BlinkerH, 5, 5, 3, 5), Standard) == 0;
    Five(h);
  }

  /** Row 4 of the horizontal blinker after one generation. */
  lemma BlinkerUprightRow4()
    ensures IsGrid(BlinkerH, 5, 5)
    ensures Step(Toroidal, BlinkerH, 5, 5, Standard)[3] == BlinkerV[3]
  {
    assert IsGrid(BlinkerH, 5, 5);
    var h := Step(Toroidal, BlinkerH, 5, 5, Standard)[3];
    assert h[0] == CellLives(Neighbourhood(Toroidal, BlinkerH, 5, 5, 4, 1), Standard) == 0;
    assert h[1] == CellLives(Neighbourhood(Toroidal, BlinkerH, 5, 5, 4, 2), Standard) == 0;
    assert h[2] == CellLives(Neighbourhood(Toroidal, BlinkerH, 5, 5, 4, 3), Standard) == 1;
    assert h[3] == CellLives(Neighbourhood(Toroidal, BlinkerH, 5, 5, 4, 4), Standard) == 0;
    assert h[4] == CellLives(Neighbourhood(Toroidal, BlinkerH, 5, 5, 4, 5), Standard) == 0;
    Five(h);
  }

  /** Row 5 of the horizontal blinker after one generation. */
  lemma BlinkerUprightRow5()
    ensures IsGrid(BlinkerH, 5, 5)
    ensures Step(Toroidal, BlinkerH, 5, 5, Standard)[4] == BlinkerV[4]
  {
    assert IsGrid(BlinkerH, 5, 5);
    var h := Step(Toroidal, BlinkerH, 5, 5, Standard)[4];
    assert h[0] == CellLives(Neighbourhood(Toroidal, BlinkerH, 5, 5, 5, 1), Standard) == 0;
    assert h[1] == CellLives(Neighbourhood(Toroidal, BlinkerH, 5, 5, 5, 2), Standard) == 0;
    assert h[2] == CellLives(Neighbourhood(Toroidal, BlinkerH, 5, 5, 5, 3), Standard) == 0;
    assert h[3] == CellLives(Neighbourhood(Toroidal, BlinkerH, 5, 5, 5, 4), Standard) == 0;
    assert h[4] == CellLives(Neighbourhood(Toroidal, BlinkerH, 5, 5, 5, 5), Standard) == 0;
    Five(h);
  }

  /** Under B3/S23 on a 5x5 torus the horizontal blinker turns upright. */
  lemma {:induction false} BlinkerTurnsUpright()
    ensures IsGrid(BlinkerH, 5, 5)
    ensures Step(Toroidal, BlinkerH, 5, 5, Standard) == BlinkerV
  {
    BlinkerUprightRow1();
    BlinkerUprightRow2();
    BlinkerUprightRow3();
    BlinkerUprightRow4();
    BlinkerUprightRow5();
    Five(Step(Toroidal, BlinkerH, 5, 5, Standard));
  }

  /** Row 1 of the upright blinker after one generation. */
  lemma BlinkerFlatRow1()
    ensures IsGrid(BlinkerV, 5, 5)
    ensures Step(Toroidal, BlinkerV, 5, 5, Standard)[0] == BlinkerH[0]
  {
    assert IsGrid(BlinkerV, 5, 5);
    var h := Step(Toroidal, BlinkerV, 5, 5, Standard)[0];
    assert h[0] == CellLives(Neighbourhood(Toroidal, BlinkerV, 5, 5, 1, 1), Standard) == 0;
    assert h[1] == CellLives(Neighbourhood(Toroidal, BlinkerV, 5, 5, 1, 2), Standard) == 0;
    assert h[2] == CellLives(Neighbourhood(Toroidal, BlinkerV, 5, 5, 1, 3), Standard) == 0;
    assert h[3] == CellLives(Neighbourhood(Toroidal, BlinkerV, 5, 5, 1, 4), Standard) == 0;
    assert h[4] == CellLives(Neighbourhood(Toroidal, BlinkerV, 5, 5, 1, 5), Standard) == 0;
    Five(h);
  }

  /** Row 2 of the upright blinker after one generation. */
  lemma BlinkerFlatRow2()
    ensures IsGrid(BlinkerV, 5, 5)
    ensures Step(Toroidal, BlinkerV, 5, 5, Standard)[1] == BlinkerH[1]
  {
    assert IsGrid(BlinkerV, 5, 5);
    var h := Step(Toroidal, BlinkerV, 5, 5, Standard)[1];
    assert h[0] == CellLives(Neighbourhood(Toroidal, BlinkerV, 5, 5, 2, 1), Standard) == 0;
    assert h[1] == CellLives(Neighbourhood(Toroidal, BlinkerV, 5, 5, 2, 2), Standard) == 0;
    assert h[2] == CellLives(Neighbourhood(Toroidal, BlinkerV, 5, 5, 2, 3), Standard) == 0;
    assert h[3] == CellLives(Neighbourhood(Toroidal, BlinkerV, 5, 5, 2, 4), Standard) == 0;
    assert h[4] == CellLives(Neighbourhood(Toroidal, BlinkerV, 5, 5, 2, 5), Standard) == 0;
    Five(h);
  }

  /** Row 3 of the upright blinker after one generation. */
  lemma BlinkerFlatRow3()
    ensures IsGrid(BlinkerV, 5, 5)
    ensures Step(Toroidal, BlinkerV, 5, 5, Standard)[2] == BlinkerH[2]
  {
    assert IsGrid(BlinkerV, 5, 5);
    var h := Step(Toroidal, BlinkerV, 5, 5, Standard)[2];
    assert h[0] == CellLives(Neighbourhood(Toroidal, BlinkerV, 5, 5, 3, 1), Standard) == 0;
    assert h[1] == CellLives(Neighbourhood(Toroidal, BlinkerV, 5, 5, 3, 2), Standard) == 1;
    assert h[2] == CellLives(Neighbourhood(Toroidal, BlinkerV, 5, 5, 3, 3), Standard) == 1;
    assert h[3] == CellLives(Neighbourhood(Toroidal, BlinkerV, 5, 5, 3, 4), Standard) == 1;
    assert h[4] == CellLives(Neighbourhood(Toroidal, BlinkerV, 5, 5, 3, 5), Standard) == 0;
    Five(h);
  }

  /** Row 4 of the upright blinker after one generation. */
  lemma BlinkerFlatRow4()
    ensures IsGrid(BlinkerV, 5, 5)
    ensures Step(Toroidal, BlinkerV, 5, 5, Standard)[3] == BlinkerH[3]
  {
    assert IsGrid(BlinkerV, 5, 5);
    var h := Step(Toroidal, BlinkerV, 5, 5, Standard)[3];
    assert h[0] == CellLives(Neighbourhood(Toroidal, BlinkerV, 5, 5, 4, 1), Standard) == 0;
    assert h[1] == CellLives(Neighbourhood(Toroidal, BlinkerV, 5, 5, 4, 2), Standard) == 0;
    assert h[2] == CellLives(Neighbourhood(Toroidal, BlinkerV, 5, 5, 4, 3), Standard) == 0;
    assert h[3] == CellLives(Neighbourhood(Toroidal, BlinkerV, 5, 5, 4, 4), Standard) == 0;
    assert h[4] == CellLives(Neighbourhood(Toroidal, BlinkerV, 5, 5, 4, 5), Standard) == 0;
    Five(h);
  }

  /** Row 5 of the upright blinker after one generation. */
  lemma BlinkerFlatRow5()
    ensures IsGrid(BlinkerV, 5, 5)
    ensures Step(Toroidal, BlinkerV, 5, 5, Standard)[4] == BlinkerH[4]
  {
    assert IsGrid(BlinkerV, 5, 5);
    var h := Step(Toroidal, BlinkerV, 5, 5, Standard)[4];
    assert h[0] == CellLives(Neighbourhood(Toroidal, BlinkerV, 5, 5, 5, 1), Standard) == 0;
    assert h[1] == CellLives(Neighbourhood(Toroidal, BlinkerV, 5, 5, 5, 2), Standard) == 0;
    assert h[2] == CellLives(Neighbourhood(Toroidal, BlinkerV, 5, 5, 5, 3), Standard) == 0;
    assert h[3] == CellLives(Neighbourhood(Toroidal, BlinkerV, 5, 5, 5, 4), Standard) == 0;
    assert h[4] == CellLives(Neighbourhood(Toroidal, BlinkerV, 5, 5, 5, 5), Standard) == 0;
    Five(h);
  }

  /** ... and the upright blinker lies down again. */
  lemma {:induction false} BlinkerLiesDown()
    ensures IsGrid(BlinkerV, 5, 5)
    ensures Step(Toroidal, BlinkerV, 5, 5, Standard) == BlinkerH
  {
    BlinkerFlatRow1();
    BlinkerFlatRow2();
    BlinkerFlatRow3();
    BlinkerFlatRow4();
    BlinkerFlatRow5();
    Five(Step(Toroidal, BlinkerV, 5, 5, Standard));
  }

  /** The blinker has period 2: two generations restore it. */
  lemma {:induction false} BlinkerHasPeriodTwo()
    ensures IsGrid(BlinkerH, 5, 5)
    ensures StepN(Toroidal, BlinkerH, 5, 5, 1, Standard) == BlinkerV
    ensures StepN(Toroidal, BlinkerH, 5, 5, 2, Standard) == BlinkerH
  {
    BlinkerTurnsUpright();
    BlinkerLiesDown();
  }

  /** Two grids of the same shape that agree cell by cell are equal. */
  lemma {:induction false} SameCells(h: Cells, k: Cells, rows: nat, cols: nat)
    requires IsGrid(h, rows, cols) && IsGrid(k, rows, cols)
    requires forall i, j :: 0 <= i < rows && 0 <= j < cols ==> h[i][j] == k[i][j]
    ensures h == k
  {
    forall i | 0 <= i < rows
      ensures h[i] == k[i]
    {
    }
  }

  /** Two grids that agree at every 1-based position are equal. */
  lemma SameAt(h: Cells, k: Cells, rows: nat, cols: nat)
    requires IsGrid(h, rows, cols) && IsGrid(k, rows, cols)
    requires forall r, c :: 1 <= r <= rows && 1 <= c <= cols ==> At(h, rows, cols, r, c) == At(k, rows, cols, r, c)
    ensures h == k
  {
    forall i, j | 0 <= i < rows && 0 <= j < cols
      ensures h[i][j] == k[i][j]
    {
      assert At(h, rows, cols, i + 1, j + 1) == At(k, rows, cols, i + 1, j + 1);
    }
    SameCells(h, k, rows, cols);
  }
}
