/** The test driver of tests/run_tests.c: it sizes a test file, reads it
    into a serial and an OpenMP world, runs both steppers for the number
    of generations its name asks for, and compares the results. */
module TestDriver {
  import opened LifeRule
  import opened Grid
  import opened LifeWorld
  import opened LifeOmp
  import opened LifeText
  import opened IterationCount

  /** worlds_equal: 1 when the interiors agree cell by cell, 0 as soon as
      one cell differs. */
  method WorldsEqual(a: array2<int>, b: array2<int>, rows: nat, cols: nat) returns (eq: int)
    requires Fits(a, rows, cols) && Fits(b, rows, cols)
    ensures eq == 0 || eq == 1
    ensures eq == 1 <==> Interior(a, rows, cols) == Interior(b, rows, cols)
  {
    for r := 1 to rows + 1
      invariant forall i, j :: 1 <= i < r && 1 <= j <= cols ==> a[i, j] == b[i, j]
    {
      for c := 1 to cols + 1
        invariant forall i, j :: 1 <= i < r && 1 <= j <= cols ==> a[i, j] == b[i, j]
        invariant forall j :: 1 <= j < c ==> a[r, j] == b[r, j]
      {
        if a[r, c] != b[r, c] {
          assert Interior(a, rows, cols)[r - 1][c - 1] != Interior(b, rows, cols)[r - 1][c - 1];
          return 0;
        }
      }
    }
    SameCells(Interior(a, rows, cols), Interior(b, rows, cols), rows, cols);
    return 1;
  }

  /** What the driver decides for one file before allocating anything. */
  datatype Plan =
    | InvalidSize
    | TooLarge
    | Run(rows: nat, cols: nat, gens: int, skipSerial: bool)

  /** The size pass of main: read_world_size, parse_iterations, then skip
      an empty file, skip a file beyond FILE_MAX_LINES x VIRTUAL_MAX_COLS,
      and leave out the serial run for grids above 1000 in either
      direction. */
  method PlanTest(s: string, filename: string, defaultGens: int, maxLines: int, maxCols: int) returns (plan: Plan)
    requires FindIt(filename) != 0
    requires FindIt(filename) > 0 ==> FindIt(filename) - RunStart(filename, FindIt(filename)) <= 9
    ensures plan.InvalidSize? <==> SizeRows(s) == 0 || MaxCells(Lines(s)) == 0
    ensures plan.TooLarge? <==>
      SizeRows(s) > 0 && MaxCells(Lines(s)) > 0 && (SizeRows(s) > maxLines || MaxCells(Lines(s)) > maxCols)
    ensures plan.Run? ==>
      && plan.rows == SizeRows(s) && plan.cols == MaxCells(Lines(s))
      && plan.gens == Iterations(filename, defaultGens)
      && (plan.skipSerial <==> plan.rows > 1000 || plan.cols > 1000)
  {
    var rows, cols := ReadWorldSize(s);
    var gens := ParseIterations(filename, defaultGens);
    if rows == 0 || cols == 0 {
      return InvalidSize;
    }
    if rows > maxLines || cols > maxCols {
      return TooLarge;
    }
    var skipSerial := rows > 1000 || cols > 1000;
    plan := Run(rows, cols, gens, skipSerial);
  }

  /** The interior read_world leaves in a world whose memory held before:
      the parsed cells of the text, and whatever was there elsewhere. */
  function Loaded(ls: seq<string>, before: seq<seq<int>>, rows: nat, cols: nat): (g: Cells)
    requires |before| > rows && forall r :: 0 <= r < |before| ==> |before[r]| > cols
    ensures IsGrid(g, rows, cols)
    ensures forall i, j :: 0 <= i < rows && 0 <= j < cols ==>
      g[i][j] == if Parsed(ls, i + 1, j + 1) then CellsOf(ls[i])[j] else before[i + 1][j + 1]
  {
    seq(rows, i requires 0 <= i < rows =>
      seq(cols, j requires 0 <= j < cols =>
        if Parsed(ls, i + 1, j + 1) then CellsOf(ls[i])[j] else before[i + 1][j + 1]))
  }

  /** Every one of the first rows lines holds exactly cols cells. */
  predicate Rectangular(ls: seq<string>, rows: nat, cols: nat) {
    rows <= |ls| && forall i :: 0 <= i < rows ==> |CellsOf(ls[i])| == cols
  }

  /** A rectangular text covers the whole interior, so what memory held
      before does not matter. */
  lemma RectangularLoadIgnoresMemory(ls: seq<string>, b1: seq<seq<int>>, b2: seq<seq<int>>, rows: nat, cols: nat)
    requires Rectangular(ls, rows, cols)
    requires |b1| > rows && forall r :: 0 <= r < |b1| ==> |b1[r]| > cols
    requires |b2| > rows && forall r :: 0 <= r < |b2| ==> |b2[r]| > cols
    ensures Loaded(ls, b1, rows, cols) == Loaded(ls, b2, rows, cols)
  {
    var g1, g2 := Loaded(ls, b1, rows, cols), Loaded(ls, b2, rows, cols);
    forall i, j | 0 <= i < rows && 0 <= j < cols
      ensures g1[i][j] == g2[i][j]
    {
      assert Parsed(ls, i + 1, j + 1);
    }
    SameCells(g1, g2, rows, cols);
  }

  /** A text that passed the size checks never trips read_world's limit
      check, and fits a world of rows + 2 rows and more than cols
      columns. */
  lemma PlannedTextFits(s: string, rows: nat, cols: nat, world: array2<int>, maxLines: int, maxCols: int)
    requires rows == SizeRows(s) && cols == MaxCells(Lines(s))
    requires rows <= maxLines && cols <= maxCols
    requires world.Length0 == rows + 2 && world.Length1 > cols
    ensures ReadFits(s, world, maxLines, maxCols)
    ensures !Exceeds(Lines(s), maxLines, maxCols)
  {
    SizeCoversData(s);
    ExceedsIff(Lines(s), maxLines, maxCols);
  }

  /** read_world into a world that passed the size checks: the interior
      becomes Loaded of the text and the old contents. */
  method Load(s: string, world: array2<int>, rows: nat, cols: nat, maxLines: int, maxCols: int)
    requires rows == SizeRows(s) && cols == MaxCells(Lines(s))
    requires rows <= maxLines && cols <= maxCols
    requires world.Length0 == rows + 2 && world.Length1 > cols
    modifies world
    ensures Fits(world, rows, cols)
    ensures Interior(world, rows, cols) == Loaded(Lines(s), old(Contents(world)), rows, cols)
  {
    ghost var before := Contents(world);
    PlannedTextFits(s, rows, cols, world, maxLines, maxCols);
    var outcome := ReadWorld(s, world, maxLines, maxCols);
    assert outcome.Loaded?;
    ghost var g := Interior(world, rows, cols);
    ghost var h := Loaded(Lines(s), before, rows, cols);
    forall i, j | 0 <= i < rows && 0 <= j < cols
      ensures g[i][j] == h[i][j]
    {
      assert g[i][j] == world[i + 1, j + 1];
    }
    SameCells(g, h, rows, cols);
  }

  /** The two read_world calls of a run; the serial world is left alone
      when its run is skipped. */
  method LoadBoth(s: string, rows: nat, cols: nat, skipSerial: bool,
                  worldSerial: array2<int>, worldOmp: array2<int>, maxLines: int, maxCols: int)
    requires rows == SizeRows(s) && cols == MaxCells(Lines(s))
    requires rows <= maxLines && cols <= maxCols
    requires worldSerial != worldOmp
    requires worldSerial.Length0 == rows + 2 && worldSerial.Length1 > cols
    requires worldOmp.Length0 == rows + 2 && worldOmp.Length1 > cols
    modifies worldSerial, worldOmp
    ensures Interior(worldOmp, rows, cols) == Loaded(Lines(s), old(Contents(worldOmp)), rows, cols)
    ensures !skipSerial ==>
      Interior(worldSerial, rows, cols) == Loaded(Lines(s), old(Contents(worldSerial)), rows, cols)
  {
    if !skipSerial {
      Load(s, worldSerial, rows, cols, maxLines, maxCols);
    }
    ghost var loadedS := Interior(worldSerial, rows, cols);
    Load(s, worldOmp, rows, cols, maxLines, maxCols);
    assert Interior(worldSerial, rows, cols) == loadedS;
  }

  /** The two stepping calls of a run; the serial world is left alone when
      its run is skipped. */
  method StepBoth(rows: nat, cols: nat, gens: int, skipSerial: bool, rule: Rule,
                  worldSerial: array2<int>, auxS: array2<int>, worldOmp: array2<int>, auxO: array2<int>)
    requires worldSerial != auxS && worldSerial != worldOmp && worldSerial != auxO
    requires auxS != worldOmp && auxS != auxO && worldOmp != auxO
    requires Fits(worldSerial, rows, cols) && Fits(worldOmp, rows, cols)
    requires Fits(auxS, rows, cols) && Fits(auxO, rows, cols)
    modifies worldSerial, auxS, worldOmp, auxO
    ensures Interior(worldOmp, rows, cols) == StepN(Toroidal, old(Interior(worldOmp, rows, cols)), rows, cols, gens, rule)
    ensures !skipSerial ==>
      Interior(worldSerial, rows, cols) == StepN(Toroidal, old(Interior(worldSerial, rows, cols)), rows, cols, gens, rule)
  {
    if !skipSerial {
      UpdateWorldN(gens, worldSerial, rows, cols, auxS, rule);
    }
    ghost var finalS := Interior(worldSerial, rows, cols);
    UpdateWorldNOmp(gens, worldOmp, rows, cols, auxO, rule);
    assert Interior(worldSerial, rows, cols) == finalS;
  }

  /** One of the N_RUNS runs of main for a planned file: read the text into
      both worlds, step the serial world (unless skipped) and the OpenMP
      world gens times, and report a mismatch when their interiors differ.
      Both worlds reach the standard evolution of what was loaded, so a
      mismatch can only come from cells the text leaves unset, and a
      rectangular text never reports one. */
  method RunOnce(s: string, rows: nat, cols: nat, gens: int, skipSerial: bool, rule: Rule,
                 worldSerial: array2<int>, auxS: array2<int>, worldOmp: array2<int>, auxO: array2<int>,
                 maxLines: int, maxCols: int) returns (mismatch: bool)
    requires rows == SizeRows(s) && cols == MaxCells(Lines(s))
    requires rows <= maxLines && cols <= maxCols
    requires worldSerial != auxS && worldSerial != worldOmp && worldSerial != auxO
    requires auxS != worldOmp && auxS != auxO && worldOmp != auxO
    requires worldSerial.Length0 == rows + 2 && worldSerial.Length1 > cols
    requires worldOmp.Length0 == rows + 2 && worldOmp.Length1 > cols
    requires Fits(auxS, rows, cols) && Fits(auxO, rows, cols)
    modifies worldSerial, auxS, worldOmp, auxO
    ensures Interior(worldOmp, rows, cols) ==
      StepN(Toroidal, Loaded(Lines(s), old(Contents(worldOmp)), rows, cols), rows, cols, gens, rule)
    ensures !skipSerial ==>
      Interior(worldSerial, rows, cols) ==
        StepN(Toroidal, Loaded(Lines(s), old(Contents(worldSerial)), rows, cols), rows, cols, gens, rule)
    ensures mismatch <==> !skipSerial && Interior(worldSerial, rows, cols) != Interior(worldOmp, rows, cols)
    ensures Rectangular(Lines(s), rows, cols) ==> !mismatch
  {
    ghost var beforeS, beforeO := Contents(worldSerial), Contents(worldOmp);
    LoadBoth(s, rows, cols, skipSerial, worldSerial, worldOmp, maxLines, maxCols);
    StepBoth(rows, cols, gens, skipSerial, rule, worldSerial, auxS, worldOmp, auxO);
    if !skipSerial {
      var eq := WorldsEqual(worldSerial, worldOmp, rows, cols);
      mismatch := eq == 0;
      if Rectangular(Lines(s), rows, cols) {
        RectangularLoadIgnoresMemory(Lines(s), beforeS, beforeO, rows, cols);
      }
    } else {
      mismatch := false;
    }
  }
}
