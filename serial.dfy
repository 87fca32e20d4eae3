/** The helpers and the output tail of life/run_serial.c over its flat
    pitched buffer: count_neighbors_toroidal, count_neighbors_dead,
    next_state (in LifeRule), the copy-back of aux into dw->data after a
    single generation, and the spaced printer. */
module RunSerial {
  import opened LifeRule
  import opened Torus
  import opened Grid
  import opened Flat
  import opened LifeText

  /** count_neighbors_toroidal: the eight wrapped neighbours of (r, c) read
      from the buffer and added up; it is the neighbour sum of the
      toroidal neighbourhood of the buffer's interior. */
  function CountToroidal(buf: seq<int>, r: int, c: int, rows: nat, cols: nat, pitch: int): (n: int)
    requires Layout(|buf|, rows, cols, pitch) && 1 <= r <= rows && 1 <= c <= cols
    ensures n == NeighbourSum(Neighbourhood(Toroidal, FlatInterior(buf, rows, cols, pitch), rows, cols, r, c))
  {
    var rUp, rDn := Prev(r, rows), Next(r, rows);
    var cLt, cRt := Prev(c, cols), Next(c, cols);
    FlatAt(buf, rows, cols, pitch, rUp, cLt);
    FlatAt(buf, rows, cols, pitch, rUp, c);
    FlatAt(buf, rows, cols, pitch, rUp, cRt);
    FlatAt(buf, rows, cols, pitch, r, cLt);
    FlatAt(buf, rows, cols, pitch, r, cRt);
    FlatAt(buf, rows, cols, pitch, rDn, cLt);
    FlatAt(buf, rows, cols, pitch, rDn, c);
    FlatAt(buf, rows, cols, pitch, rDn, cRt);
    buf[Index(rUp, cLt, pitch)] + buf[Index(rUp, c, pitch)] + buf[Index(rUp, cRt, pitch)]
      + buf[Index(r, cLt, pitch)] + buf[Index(r, cRt, pitch)]
      + buf[Index(rDn, cLt, pitch)] + buf[Index(rDn, c, pitch)] + buf[Index(rDn, cRt, pitch)]
  }

  /** On a 0/1 buffer the toroidal count lies in [0, 8]. */
  lemma CountToroidalBounds(buf: seq<int>, r: int, c: int, rows: nat, cols: nat, pitch: int)
    requires Layout(|buf|, rows, cols, pitch) && 1 <= r <= rows && 1 <= c <= cols
    requires Binary(FlatInterior(buf, rows, cols, pitch))
    ensures 0 <= CountToroidal(buf, r, c, rows, cols, pitch) <= 8
  {
    BinaryNeighbourhood(Toroidal, FlatInterior(buf, rows, cols, pitch), rows, cols, r, c);
  }

  /** The value count_neighbors_dead adds for (rr, cc): the buffer cell
      inside [1, rows] x [1, cols], nothing outside. */
  function DeadValue(buf: seq<int>, rows: nat, cols: nat, pitch: int, rr: int, cc: int): int
    requires Layout(|buf|, rows, cols, pitch)
  {
    if rr < 1 || rr > rows || cc < 1 || cc > cols then 0
    else
      IndexInRange(|buf|, rows, cols, pitch, rr, cc);
      buf[Index(rr, cc, pitch)]
  }

  /** The 3x3 submatrix around (r, c) as count_neighbors_dead sees it. */
  function DeadWindow(buf: seq<int>, rows: nat, cols: nat, pitch: int, r: int, c: int): Window
    requires Layout(|buf|, rows, cols, pitch)
  {
    seq(3, i requires 0 <= i < 3 =>
      seq(3, j requires 0 <= j < 3 => DeadValue(buf, rows, cols, pitch, r + i - 1, c + j - 1)))
  }

  /** One visit of count_neighbors_dead's loop, at offset (dr, dc): the
      running sum of the submatrix grows by the cell's value, or by nothing
      at the centre and outside the interior. */
  lemma DeadStep(buf: seq<int>, rows: nat, cols: nat, pitch: int, r: int, c: int, dr: int, dc: int)
    requires Layout(|buf|, rows, cols, pitch) && -1 <= dr <= 1 && -1 <= dc <= 1
    ensures 1 <= r + dr <= rows && 1 <= c + dc <= cols ==> 0 <= (r + dr) * pitch + (c + dc) < |buf|
    ensures PartialSum(DeadWindow(buf, rows, cols, pitch, r, c), 3 * (dr + 1) + (dc + 1) + 1)
         == PartialSum(DeadWindow(buf, rows, cols, pitch, r, c), 3 * (dr + 1) + (dc + 1))
          + (if (dr == 0 && dc == 0) || r + dr < 1 || r + dr > rows || c + dc < 1 || c + dc > cols then 0
             else buf[(r + dr) * pitch + (c + dc)])
  {
    var w := DeadWindow(buf, rows, cols, pitch, r, c);
    PartialSumNext(w, dr + 1, dc + 1);
    assert w[dr + 1][dc + 1] == DeadValue(buf, rows, cols, pitch, r + dr, c + dc);
    if 1 <= r + dr <= rows && 1 <= c + dc <= cols {
      IndexInRange(|buf|, rows, cols, pitch, r + dr, c + dc);
    }
  }

  /** That submatrix is the dead-border neighbourhood of the interior. */
  lemma DeadWindowIsNeighbourhood(buf: seq<int>, r: int, c: int, rows: nat, cols: nat, pitch: int)
    requires Layout(|buf|, rows, cols, pitch) && 1 <= r <= rows && 1 <= c <= cols
    ensures DeadWindow(buf, rows, cols, pitch, r, c)
         == Neighbourhood(DeadBorder, FlatInterior(buf, rows, cols, pitch), rows, cols, r, c)
  {
    var g := FlatInterior(buf, rows, cols, pitch);
    var w, v := DeadWindow(buf, rows, cols, pitch, r, c), Neighbourhood(DeadBorder, g, rows, cols, r, c);
    forall i, j | 0 <= i < 3 && 0 <= j < 3
      ensures w[i][j] == v[i][j]
    {
      var rr, cc := r + i - 1, c + j - 1;
      assert w[i][j] == DeadValue(buf, rows, cols, pitch, rr, cc);
      DeadNeighbourhoodCell(g, rows, cols, r, c, i - 1, j - 1);
      assert v[i][j] == DeadAt(g, rows, cols, rr, cc);
      if 1 <= rr <= rows && 1 <= cc <= cols {
        FlatAt(buf, rows, cols, pitch, rr, cc);
        assert DeadAt(g, rows, cols, rr, cc) == At(g, rows, cols, rr, cc);
      }
    }
    assert w[0] == v[0] && w[1] == v[1] && w[2] == v[2];
  }

  /** One pass of count_neighbors_dead's outer loop, at row offset dr:
      the inner loop over dc adds the row's three entries of the
      submatrix to the running sum, skipping the centre. */
  method CountDeadRow(buf: seq<int>, r: int, c: int, rows: nat, cols: nat, pitch: int, dr: int, sum: int)
    returns (n: int)
    requires Layout(|buf|, rows, cols, pitch) && -1 <= dr <= 1
    requires sum == PartialSum(DeadWindow(buf, rows, cols, pitch, r, c), 3 * (dr + 1))
    ensures n == PartialSum(DeadWindow(buf, rows, cols, pitch, r, c), 3 * (dr + 1) + 3)
  {
    ghost var w := DeadWindow(buf, rows, cols, pitch, r, c);
    n := sum;
    for dc := -1 to 2
      invariant n == PartialSum(w, 3 * (dr + 1) + (dc + 1))
    {
      DeadStep(buf, rows, cols, pitch, r, c, dr, dc);
      if dr == 0 && dc == 0 {
        continue;
      }
      var rr := r + dr;
      var cc := c + dc;
      if rr < 1 || rr > rows || cc < 1 || cc > cols {
        continue;
      }
      n := n + buf[rr * pitch + cc];
    }
  }

  /** count_neighbors_dead: the nested loop over the offsets dr, dc in
      [-1, 1], skipping the centre and every cell outside the interior; it
      is the neighbour sum of the dead-border neighbourhood. */
  method CountDead(buf: seq<int>, r: int, c: int, rows: nat, cols: nat, pitch: int) returns (n: int)
    requires Layout(|buf|, rows, cols, pitch) && 1 <= r <= rows && 1 <= c <= cols
    ensures n == NeighbourSum(Neighbourhood(DeadBorder, FlatInterior(buf, rows, cols, pitch), rows, cols, r, c))
  {
    n := 0;
    for dr := -1 to 2
      invariant n == PartialSum(DeadWindow(buf, rows, cols, pitch, r, c), 3 * (dr + 1))
    {
      n := CountDeadRow(buf, r, c, rows, cols, pitch, dr, n);
    }
    PartialSumComplete(DeadWindow(buf, rows, cols, pitch, r, c));
    DeadWindowIsNeighbourhood(buf, r, c, rows, cols, pitch);
  }

  /** Away from the edge, the dead-border count equals the toroidal count
      (the specification of CountDead against CountToroidal). */
  lemma CountsAgreeAwayFromEdge(buf: seq<int>, r: int, c: int, rows: nat, cols: nat, pitch: int)
    requires Layout(|buf|, rows, cols, pitch) && 1 < r < rows && 1 < c < cols
    ensures CountToroidal(buf, r, c, rows, cols, pitch)
         == NeighbourSum(Neighbourhood(DeadBorder, FlatInterior(buf, rows, cols, pitch), rows, cols, r, c))
  {
    PoliciesAgreeAwayFromEdge(FlatInterior(buf, rows, cols, pitch), rows, cols, r, c, Standard);
  }

  /** At the corner (1, 1) the dead-border count sees only the three cells
      (1, 2), (2, 1) and (2, 2). */
  lemma DeadCountAtCorner(buf: seq<int>, rows: nat, cols: nat, pitch: int)
    requires Layout(|buf|, rows, cols, pitch) && rows >= 2 && cols >= 2
    ensures NeighbourSum(Neighbourhood(DeadBorder, FlatInterior(buf, rows, cols, pitch), rows, cols, 1, 1))
         == buf[Index(1, 2, pitch)] + buf[Index(2, 1, pitch)] + buf[Index(2, 2, pitch)]
  {
    var g := FlatInterior(buf, rows, cols, pitch);
    DeadCornerCountsThreeCells(g, rows, cols);
    assert g[0][1] == buf[Index(1, 2, pitch)];
    assert g[1][0] == buf[Index(2, 1, pitch)];
    assert g[1][1] == buf[Index(2, 2, pitch)];
  }

  /** The next generation that run_serial's helpers describe: every
      interior cell becomes next_state of its value and of its count under
      the given policy. The steppers update_world_flat and
      update_world_flat_dead are not part of this model; this is what
      their helpers compute cell by cell. */
  function HelperStep(policy: Policy, g: Cells, rows: nat, cols: nat): (h: Cells)
    requires IsGrid(g, rows, cols)
    ensures IsGrid(h, rows, cols)
    ensures forall r, c :: 1 <= r <= rows && 1 <= c <= cols ==>
      h[r - 1][c - 1] == NextCell(Neighbourhood(policy, g, rows, cols, r, c))
  {
    var h := seq(rows, i requires 0 <= i < rows =>
      seq(cols, j requires 0 <= j < cols =>
        NextCell(Neighbourhood(policy, g, rows, cols, i + 1, j + 1))));
    assert forall i, j :: 0 <= i < rows && 0 <= j < cols ==>
      h[i][j] == NextCell(Neighbourhood(policy, g, rows, cols, i + 1, j + 1));
    h
  }

  /** On a 0/1 grid, the helpers' generation is Step with rule {3, 2, 3},
      the generation update_world computes with the rule every driver
      passes. */
  lemma HelperStepIsStandardStep(policy: Policy, g: Cells, rows: nat, cols: nat)
    requires IsGrid(g, rows, cols) && Binary(g)
    ensures HelperStep(policy, g, rows, cols) == Step(policy, g, rows, cols, Standard)
  {
    var h, k := HelperStep(policy, g, rows, cols), Step(policy, g, rows, cols, Standard);
    forall i, j | 0 <= i < rows && 0 <= j < cols
      ensures h[i][j] == k[i][j]
    {
      NeighbourhoodCentre(policy, g, rows, cols, i + 1, j + 1);
      NextCellIsStandard(Neighbourhood(policy, g, rows, cols, i + 1, j + 1));
    }
    SameCells(h, k, rows, cols);
  }

  /** The copy-back of life/run_serial.c for a single generation: every
      one of the rows + 2 rows of pitch ints of aux is copied (memcpy) into
      data; the rest of data, if any, is untouched. */
  method CopyBack(data: array<int>, aux: array<int>, rows: nat, pitch: nat)
    requires data != aux
    requires (rows + 2) * pitch <= data.Length && (rows + 2) * pitch <= aux.Length
    modifies data
    ensures data[..(rows + 2) * pitch] == aux[..(rows + 2) * pitch]
    ensures data[(rows + 2) * pitch..] == old(data[(rows + 2) * pitch..])
  {
    for r := 0 to rows + 2
      invariant r * pitch <= (rows + 2) * pitch
      invariant forall i :: 0 <= i < r * pitch ==> data[i] == aux[i]
      invariant forall i :: r * pitch <= i < data.Length ==> data[i] == old(data[i])
    {
      MulNonNegative(rows + 1 - r, pitch);
      assert (r + 1) * pitch == r * pitch + pitch;
      assert (rows + 2) * pitch - (r + 1) * pitch == (rows + 1 - r) * pitch;
      for k := 0 to pitch
        invariant forall i :: 0 <= i < r * pitch + k ==> data[i] == aux[i]
        invariant forall i :: r * pitch + k <= i < data.Length ==> data[i] == old(data[i])
      {
        data[r * pitch + k] := aux[r * pitch + k];
      }
    }
  }

  /** The inner loop of run_serial's printer for interior row r: the cells
      as 'x' or '.', a space after every cell but the last. */
  method PrintRow(data: array<int>, rows: nat, cols: nat, pitch: int, r: int) returns (out: string)
    requires Layout(data.Length, rows, cols, pitch) && 1 <= r <= rows
    ensures out == SpacedLine(FlatInterior(data[..], rows, cols, pitch)[r - 1])
  {
    ghost var line := FlatInterior(data[..], rows, cols, pitch)[r - 1];
    out := [];
    for c := 1 to cols + 1
      invariant out == SpacedLine(line[..c - 1]) + (if 1 < c <= cols then " " else "")
    {
      FlatAt(data[..], rows, cols, pitch, r, c);
      var val := data[r * pitch + c];
      assert line[..c][..c - 1] == line[..c - 1];
      out := out + [if val != 0 then 'x' else '.'];
      if c < cols {
        out := out + [' '];
      }
    }
    assert line[..cols] == line;
  }

  /** The printer of life/run_serial.c: for every interior row, the cells
      as 'x' or '.', single spaces between them and none after the last,
      then '\n'. */
  method PrintWorld(data: array<int>, rows: nat, cols: nat, pitch: int) returns (out: string)
    requires Layout(data.Length, rows, cols, pitch)
    ensures out == SpacedText(FlatInterior(data[..], rows, cols, pitch))
  {
    ghost var g := FlatInterior(data[..], rows, cols, pitch);
    out := [];
    for r := 1 to rows + 1
      invariant out == SpacedText(g[..r - 1])
    {
      var line := PrintRow(data, rows, cols, pitch, r);
      assert g[..r][..r - 1] == g[..r - 1];
      out := out + line + ['\n'];
    }
    assert g[..rows] == g;
  }

  /** The tail of run_serial's main once the steppers have run: with
      exactly one generation, aux holds it and is copied into data first;
      otherwise data is printed as it stands (unchanged input when
      generations <= 0). */
  method CopyAndPrint(data: array<int>, aux: array<int>, rows: nat, cols: nat, pitch: nat, generations: int)
    returns (out: string)
    requires data != aux
    requires Layout(data.Length, rows, cols, pitch) && Layout(aux.Length, rows, cols, pitch)
    modifies data
    ensures generations == 1 ==> data[..] == old(aux[..])
    ensures generations != 1 ==> unchanged(data)
    ensures out == SpacedText(FlatInterior(if generations == 1 then old(aux[..]) else old(data[..]), rows, cols, pitch))
  {
    if generations == 1 {
      CopyBack(data, aux, rows, pitch);
      assert data[..] == data[..(rows + 2) * pitch];
      assert aux[..] == aux[..(rows + 2) * pitch];
    }
    out := PrintWorld(data, rows, cols, pitch);
  }
}
