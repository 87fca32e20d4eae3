/** print_world_cells of life/run_cuda.c, the one piece of that file that
    is not a call into the GPU: it prints a flat pitched buffer in the
    spaced format, exactly as the printer of life/run_serial.c does. */
module RunCuda {
  import opened Grid
  import opened Flat
  import opened LifeText
  import RunSerial

  /** One interior row r of print_world_cells: the symbols 'x' / '.' with
      a space after every one but the last. */
  method PrintRowCells(worldFlat: array<int>, rows: nat, cols: nat, pitch: int, r: int) returns (out: string)
    requires Layout(worldFlat.Length, rows, cols, pitch) && 1 <= r <= rows
    ensures out == SpacedLine(FlatInterior(worldFlat[..], rows, cols, pitch)[r - 1])
  {
    ghost var line := FlatInterior(worldFlat[..], rows, cols, pitch)[r - 1];
    out := [];
    for c := 1 to cols + 1
      invariant out == SpacedLine(line[..c - 1]) + (if 1 < c <= cols then " " else "")
    {
      FlatAt(worldFlat[..], rows, cols, pitch, r, c);
      var v := worldFlat[r * pitch + c];
      assert line[..c][..c - 1] == line[..c - 1];
      out := out + [if v != 0 then 'x' else '.'];
      if c < cols {
        out := out + [' '];
      }
    }
    assert line[..cols] == line;
  }

  /** print_world_cells: rows lines, each the spaced row and '\n'. */
  method PrintWorldCells(worldFlat: array<int>, rows: nat, cols: nat, pitch: int) returns (out: string)
    requires Layout(worldFlat.Length, rows, cols, pitch)
    ensures out == SpacedText(FlatInterior(worldFlat[..], rows, cols, pitch))
  {
    ghost var g := FlatInterior(worldFlat[..], rows, cols, pitch);
    out := [];
    for r := 1 to rows + 1
      invariant out == SpacedText(g[..r - 1])
    {
      var line := PrintRowCells(worldFlat, rows, cols, pitch, r);
      assert g[..r][..r - 1] == g[..r - 1];
      out := out + line + ['\n'];
    }
    assert g[..rows] == g;
  }

  /** The two printers write the same characters for the same buffer. */
  method PrintersAgree(buf: array<int>, rows: nat, cols: nat, pitch: int) returns (cuda: string, serial: string)
    requires Layout(buf.Length, rows, cols, pitch)
    ensures cuda == serial
  {
    cuda := PrintWorldCells(buf, rows, cols, pitch);
    serial := RunSerial.PrintWorld(buf, rows, cols, pitch);
  }

  /** Line r of the output is 2 * cols - 1 characters long (empty when
      cols is 0): the symbol of buffer cell r * pitch + c at position
      2 * (c - 1), 'x' exactly when the cell is nonzero, and a space
      between two symbols. */
  lemma PrintedRow(buf: seq<int>, rows: nat, cols: nat, pitch: int, r: int)
    requires Layout(|buf|, rows, cols, pitch) && 1 <= r <= rows
    ensures var line := SpacedLine(FlatInterior(buf, rows, cols, pitch)[r - 1]);
      && |line| == (if cols == 0 then 0 else 2 * cols - 1)
      && (forall c :: 1 <= c <= cols ==> line[2 * (c - 1)] == (if buf[Index(r, c, pitch)] != 0 then 'x' else '.'))
      && (forall c :: 1 <= c < cols ==> line[2 * c - 1] == ' ')
  {
    var row := FlatInterior(buf, rows, cols, pitch)[r - 1];
    SpacedLineShape(row);
    forall c | 1 <= c <= cols
      ensures SpacedLine(row)[2 * (c - 1)] == (if buf[Index(r, c, pitch)] != 0 then 'x' else '.')
    {
      FlatAt(buf, rows, cols, pitch, r, c);
      assert SpacedLine(row)[2 * (c - 1)] == Symbol(row[c - 1]);
    }
    forall c | 1 <= c < cols
      ensures SpacedLine(row)[2 * c - 1] == ' '
    {
      assert SpacedLine(row)[2 * (c - 1) + 1] == ' ';
    }
  }
}
