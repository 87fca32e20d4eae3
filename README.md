# Game of Life update engine, modelled in Dafny

This project models the core of a C implementation of Conway's Game of
Life. It covers:

- the per-cell rule (`cell_lives`, and `next_state` of `run_serial`);
- toroidal and dead-border neighbour counting;
- the double-buffered generation stepper of `life.c` and its OpenMP twin;
- the text parser (`read_world_size`, `read_world`) and the three printers;
- the two helpers of the test driver (`parse_iterations`, `worlds_equal`) and
  one test run of that driver: read a file into a serial and an OpenMP world,
  step both, and compare them.

The specification everything is proved against is a value-level grid
(`Grid.Step`, `Grid.StepN`). Its interior is a `seq<seq<int>>` with 1-based
row and column numbers, as in the source.

The source's own forms are kept:

- The world of `life.c` is a ghost-padded `array2<int>`. Row 0, column 0,
  row `rows + 1` and column `cols + 1` form the margin.
- The buffer of `run_serial.c` and `run_cuda.c` is a flat pitched `array<int>`
  or `seq<int>`, with cell `(r, c)` at `r * pitch + c`.
- Loops that change arrays or build output stay methods with loop invariants.
  Each of them is proved equal to a function of the old state.

Modules, one file each:

- `LifeRule` (rule.dfy): `cell_lives` and `next_state`.
- `Torus` (torus.dfy): index wrapping, in both spellings used by the source.
- `Grid` (grid.dfy): neighbourhoods under both boundary policies, `Step` and
  `StepN`, and their properties.
- `LifeWorld` (world.dfy): the world operations of `life.c`.
- `LifeOmp` (omp.dfy): `life_omp.c`, run sequentially and in any covering
  order.
- `LifeText` (text.dfy): the text format, the parsers and the printers.
- `Flat` (flat.dfy): addressing in the pitched buffer.
- `RunSerial` (serial.dfy): the helpers and output tail of `run_serial.c`.
- `RunCuda` (cuda.dfy): `print_world_cells`.
- `IterationCount` (iterations.dfy): `parse_iterations`.
- `TestDriver` (driver.dfy): `worlds_equal` and one run of the test driver.

Points where the code's behaviour is easy to misread, and what the model
does about each:

- **Rows of different lengths.** `read_world` does not reject them: it
  stores the cells it finds and leaves every other cell as it was. The driver's worlds come from `malloc`, so those cells hold
  whatever the memory held. `TestDriver.Loaded` states this, and
  `TestDriver.RunOnce` proves three things:
  - both steppers reach `StepN` of what was loaded;
  - a mismatch is reported exactly when the two interiors differ;
  - a rectangular text never reports one.

  A text leaves interior cells unset exactly when it is not
  `TestDriver.Rectangular`. Examples are short lines, blank lines before the
  last data line, and trailing blank lines. For "x\n\n", `read_world_size`
  reports 2 rows, but `read_world` stores row 1 only. The unset cells of the
  two worlds may differ. The driver can then report a
  mismatch even though both steppers are correct.
- **Cells other than 0 and 1.** No code checks that cells are 0 or 1, and
  unset cells can hold any `int`.
  - `cell_lives` returns 0 for any other centre value.
  - `next_state` treats every nonzero value as live.

  The two rules agree on 0/1 cells only (`LifeRule.NextCellIsStandard`,
  `LifeRule.NextStateDiffersOnNonBinaryCell`).
- **Pitch.** `run_serial.c` and `run_cuda.c` take the pitch from the loaded
  world (life/run_serial.c:58) and never compare it with `cols`. The model
  allows any `pitch >= cols + 2`, the least that holds a padded row.
- **Row counts of the two parsers.** `read_world_size` counts every `'\n'`,
  trailing blank lines included. `read_world` reports the last line that
  holds a cell. The model keeps both (`LifeText.SizeRows` and
  `LifeText.LastDataRow`), and `LifeText.SizeCoversData` relates them.
- **The loop count of `update_world_n_generations`.** The comment at
  life/src/life.c:94 says the loop should run n times, not n + 1. The code
  already runs it n times, and `LifeWorld.UpdateWorldN` proves exactly n
  generations.

## Model

| member | source | states |
|---|---|---|
| LifeRule.Decide | life/src/life.c:23-24 | the result is 0 or 1; a cell of 1 gives 1 iff minSurvive <= live <= maxSurvive; a cell of 0 gives 1 iff live == birth; any other cell value gives 0 |
| LifeRule.NeighbourSum | life/src/life.c:13-21 | on a window of 0/1 cells the count of the eight neighbours lies in [0, 8] |
| LifeRule.CellLives | life/src/life.c:8-25 | the next value of the centre is 0 or 1, and 0 whenever the centre is neither 0 nor 1 |
| LifeRule.ComputeCellLives | life/src/life.c:8-25 | the nested loop, which skips position (1, 1) and accumulates the rest, returns exactly CellLives of the window |
| LifeRule.PartialSumComplete | life/src/life.c:13-21 | visiting all nine positions in row-major order and skipping the centre adds up exactly the eight neighbours |
| LifeRule.CentreNotCounted | life/src/life.c:17-18 | changing the centre never changes the neighbour count |
| LifeRule.NextState | life/run_serial.c:99-105 | a nonzero cell gives 1 iff it has 2 or 3 neighbours; a zero cell gives 1 iff it has exactly 3; the result is 0 or 1 |
| LifeRule.NextStateIsStandardRule | life/run_serial.c:99-105 | on a 0/1 cell, next_state equals the general rule with {3, 2, 3}, the rule of life/run_serial.c:59 |
| LifeRule.NextCellIsStandard | life/run_serial.c:99-105 | on a window with a 0/1 centre, next_state of its count equals cell_lives with {3, 2, 3} |
| LifeRule.NextStateDiffersOnNonBinaryCell | life/run_serial.c:100 | for a cell holding 2 with 2 neighbours, next_state gives 1 and cell_lives gives 0 |
| Torus.Prev | life/src/life.c:67 | the wrapped predecessor of an index in [1, n] lies in [1, n], and row 1's upper neighbour is row n |
| Torus.Next | life/src/life.c:68 | the wrapped successor of an index in [1, n] lies in [1, n], and row n's lower neighbour is row 1 |
| Torus.PrevIsModular | life/src/life.c:72 | the wrap equals the modular step back, (i - 2) mod n + 1 |
| Torus.NextIsModular | life/src/life.c:73 | the wrap equals the modular step forward, i mod n + 1 |
| Torus.PrevNextInverse | life/src/life.c:67-68 | stepping back and then forward, or forward and then back, returns to the start |
| Torus.OmpPrev | life/src/life_omp.c:15-17 | the compare-with-0 wrap of an index in [1, n] lies in [1, n] |
| Torus.OmpNext | life/src/life_omp.c:19-21 | the compare-with-n+1 wrap of an index in [1, n] lies in [1, n] |
| Torus.OmpWrapMatchesSerial | life/src/life_omp.c:15-29 | for every index, the OpenMP wrap computes the same index as the wrap of update_world |
| Grid.Step | life/src/life.c:65-88 | every interior cell of the next generation is CellLives of its neighbourhood in the old grid, and the new grid is 0/1 |
| Grid.BinaryNeighbourhood | life/run_serial.c:76-84 | on a 0/1 grid every neighbourhood holds only 0/1 values, and its count lies in [0, 8] under both policies |
| Grid.NeighbourhoodCentre | life/src/life.c:81 | the centre of every neighbourhood is the cell itself |
| Grid.DeadNeighbourhoodCell | life/run_serial.c:91-94 | under the dead border, offset (dr, dc) of the neighbourhood is cell (r + dr, c + dc) inside the grid and 0 outside |
| Grid.StepNSucc | life/src/life.c:104-105 | generation n + 1 is one Step after generation n |
| Grid.StepNSplit | life/src/life.c:95-106 | a + b generations are a generations followed by b generations |
| Grid.StepNThenZero | life/src/life.c:101-102 | zero generations after n generations give the n-generation result |
| Grid.ToroidalCornerSeesOppositeCorner | life/src/life.c:67-72 | on the torus, the upper-left neighbour of (1, 1) is (rows, cols) |
| Grid.DeadCornerCountsThreeCells | life/run_serial.c:88-97 | under the dead border, the count of (1, 1) is the sum of (1, 2), (2, 1) and (2, 2) only |
| Grid.PoliciesAgreeAwayFromEdge | life/run_serial.c:70-98 | for 1 < r < rows and 1 < c < cols, both policies see the same neighbourhood, so their steps agree on that cell |
| Grid.RotatedNeighbourhood | life/src/life.c:67-85 | the neighbourhood of (r, c) in the grid rotated down one row is the neighbourhood of (Prev(r), c) in the original |
| Grid.RotatedCell | life/src/life.c:75-87 | at each cell, stepping the rotated grid gives the value found by rotating the stepped grid |
| Grid.StepCommutesWithRotation | life/src/life.c:65-88 | the torus has no distinguished edge: stepping a rotated grid equals rotating the stepped grid |
| Grid.LoneCellDies | life/src/life.c:23-24 | a lone live cell in the middle of a 3x3 torus dies, and the grid becomes all dead |
| Grid.BlinkerTurnsUpright | life/src/life.c:60-92 | on a 5x5 torus under {3, 2, 3}, the horizontal blinker in row 3 becomes the vertical one in column 3 |
| Grid.BlinkerLiesDown | life/src/life.c:60-92 | the vertical blinker becomes the horizontal one again |
| Grid.BlinkerHasPeriodTwo | life/src/life.c:95-106 | one generation of the blinker gives the vertical form, and two give the original |
| LifeWorld.GetCell | life/src/life.c:44-47 | get_cell returns the stored value at (row, col), margin included |
| LifeWorld.SetCell | life/src/life.c:39-42 | set_cell stores the value at (row, col) and changes no other cell |
| LifeWorld.ClearWorld | life/src/life.c:29-37 | clear_world zeroes exactly the interior and leaves the margin; it changes nothing when cols > VIRTUAL_MAX_COLS, rows < 2 or cols < 2 |
| LifeWorld.CopyWorld | life/src/life.c:49-56 | the interior of world1 becomes the old interior of world2, and the margin of world1 is untouched |
| LifeWorld.WindowFromArray | life/src/life.c:75-85 | the nine get_cell reads at the wrapped indices form the toroidal neighbourhood of the interior |
| LifeWorld.ComputeCell | life/src/life.c:67-87 | the value update_world computes for (row, col) is CellLives of the toroidal neighbourhood in the old world |
| LifeWorld.UpdateRow | life/src/life.c:70-88 | one pass of the column loop fills interior row `row` of world_aux with the next generation and changes nothing else |
| LifeWorld.UpdateWorld | life/src/life.c:60-92 | the new interior of world is Step of its old interior; world_aux's interior equals it, its old contents play no part, and neither margin changes |
| LifeWorld.UpdateWorldN | life/src/life.c:95-106 | the new interior is StepN of the old one for n; when n <= 0 neither array changes; margins never change |
| LifeOmp.ComputeCellOmp | life/src/life_omp.c:15-44 | the compare-after-step wrap and the direct reads give CellLives of the toroidal neighbourhood, the same value as update_world |
| LifeOmp.UpdateCellOmp | life/src/life_omp.c:31-44 | one iteration writes that value into world_aux[row][col] and no other cell |
| LifeOmp.UpdateRowOmp | life/src/life_omp.c:13-45 | the inner loop fills one interior row of world_aux with the next generation |
| LifeOmp.UpdateWorldOmp | life/src/life_omp.c:4-50 | run in row-major order, update_world_omp leaves Step of the old interior in world and world_aux, exactly as update_world does; margins are untouched |
| LifeOmp.RunSchedule | life/src/life_omp.c:10-46 | the loop body, executed for the cells of any covering schedule in any order and with repeats, leaves the next generation in every interior cell of world_aux |
| LifeOmp.UpdateWorldScheduled | life/src/life_omp.c:4-50 | with any covering iteration order, update_world_omp still ends with Step of the old interior: the order does not matter |
| LifeOmp.UpdateWorldNOmp | life/src/life_omp.c:53-66 | the result is StepN of the old interior, the same as update_world_n_generations; nothing changes for n <= 0 |
| LifeText.CellCountIsCharCount | life/src/life.c:157-160 | a line holds exactly as many cells as it has 'X', 'x' and '.' characters |
| LifeText.JoinLines | life/src/life.c:155-168 | cutting a text at its '\n' characters loses nothing: joining the lines with '\n' gives the text back |
| LifeText.LinesHaveNoNewline | life/src/life.c:161-166 | no line contains a '\n' |
| LifeText.LineCountIsNewlineCount | life/src/life.c:161-163 | a text has one line more than it has '\n' characters |
| LifeText.MaxCells | life/src/life.c:164-165 | the width is at least the cell count of every line, and equals that count for some line (0 with no lines) |
| LifeText.LastDataRow | life/src/life.c:221-223 | the reported row holds a cell, and no later line does (0 when no line holds one) |
| LifeText.ReadWorldSize | life/src/life.c:142-181 | rows is the number of '\n' characters plus one when the text after the last one holds a cell; cols is the largest number of cells on a line |
| LifeText.ExceedsIff | life/src/life.c:206-213 | some cell lies beyond the limits iff the text holds a cell and its last data row exceeds FILE_MAX_LINES or its widest line exceeds VIRTUAL_MAX_COLS |
| LifeText.SizeCoversData | life/src/life.c:170-175 | the size pass covers the last data row and leaves at most one line of the text outside it |
| LifeText.ScanInLine | life/src/life.c:215-216 | a cell or an ignored character advances col or nothing, and the finished-line counters stay correct |
| LifeText.ScanNewline | life/src/life.c:220-229 | a '\n' closes the line: the line counts as a data row when it held a cell, and its width enters the maximum |
| LifeText.ScanEnd | life/src/life.c:238-243 | the final check counts an unterminated last line the same way, giving LastDataRow and MaxCells of all lines |
| LifeText.StoreCell | life/src/life.c:215-216 | a cell character stores 1 for 'X'/'x' and 0 for '.' at (current line, its place on the line), extending the parsed cells by one |
| LifeText.ScanChar | life/src/life.c:201-234 | a cell outside the limits stops the scan with the world unchanged; otherwise the counters and the world move on by one character |
| LifeText.StoredWithoutCell | life/src/life.c:220-233 | a '\n' or an ignored character stores nothing and parses no new cell |
| LifeText.OutsideLimitsUnchanged | life/src/life.c:206-215 | while no cell has exceeded the limits, nothing outside [1, FILE_MAX_LINES] x [1, VIRTUAL_MAX_COLS] has been written |
| LifeText.ReadChar | life/src/life.c:199-235 | one pass of the loop either stops on a cell beyond the limits, which the whole text then exceeds, or advances the counters and the stored cells to the text read so far |
| LifeText.ScanText | life/src/life.c:199-235 | the loop stops iff the text exceeds the limits; otherwise it has stored every cell; in both cases nothing outside the limits is written |
| LifeText.ReadWorld | life/src/life.c:183-249 | the result is an error iff some cell lies beyond the limits; otherwise it is the last data row and the widest line, the c-th cell of line r sits in world[r][c], and every other cell keeps its old value |
| LifeText.ReadsBack | life/src/life.c:199-243 | one line per grid row holding that row's cells, then an empty line, parses as exactly that grid, with its size, width and limit check |
| LifeText.FprintLineShape | life/src/life.c:115-116 | a printed row has two characters per cell, 'X' or '.' and then a space, trailing space included, and no '\n' |
| LifeText.FprintLineCells | life/src/life.c:116 | reading back a printed row gives its cells, every nonzero value as 1 |
| LifeText.FprintTextLines | life/src/life.c:113-118 | fprint_world's text cuts into exactly the printed rows plus an empty line after the final '\n' |
| LifeText.FprintRow | life/src/life.c:115-116 | the column loop writes "X " or ". " for each cell of the interior row |
| LifeText.FprintWorld | life/src/life.c:110-119 | fprint_world writes every interior row followed by '\n' |
| LifeText.FprintReadsBack | life/src/life.c:110-119 | read_world_size and read_world, run on fprint_world's output, give back the grid, its size and its cells (nonzero as 1) |
| LifeText.SpacedLineShape | life/run_serial.c:227-228 | a spaced row has the symbol of cell i at position 2i and single spaces between symbols, with no trailing space, so it is 2 * cols - 1 characters long (0 when empty) |
| LifeText.SpacedLineCells | life/run_serial.c:227-228 | reading back a spaced row gives its cells, every nonzero value as 1 |
| LifeText.SpacedTextLines | life/run_serial.c:224-231 | spaced output cuts into exactly the spaced rows plus an empty line |
| LifeText.SpacedReadsBack | life/run_serial.c:224-231 | the parser, run on spaced output, gives back the grid in the same way |
| Flat.IndexInRange | life/run_serial.c:61 | every index r * pitch + c of the padded grid lies in a buffer of (rows + 2) * pitch ints when pitch >= cols + 2 |
| Flat.IndexDistinct | life/run_serial.c:76-94 | two cells of the padded grid never share a flat index |
| Flat.FlatAt | life/run_serial.c:76-84 | interior cell (r, c) of the buffer's grid is the buffer at r * pitch + c, and that index is in bounds |
| Flat.InteriorIgnoresMargin | life/run_cuda.c:16-18 | buffers that agree on the interior indices have the same interior grid, whatever their margins hold |
| RunSerial.CountToroidal | life/run_serial.c:70-85 | the eight wrapped buffer reads add up to the neighbour count of the toroidal neighbourhood of the interior |
| RunSerial.CountToroidalBounds | life/run_serial.c:76-84 | on a 0/1 buffer the toroidal count lies in [0, 8] |
| RunSerial.DeadStep | life/run_serial.c:90-94 | a visit at offset (dr, dc) reads an in-bounds index and adds that cell, or nothing for the centre or a cell outside the grid |
| RunSerial.DeadWindowIsNeighbourhood | life/run_serial.c:91-94 | the 3x3 values the dead-border loop sees form the dead-border neighbourhood of the buffer's interior |
| RunSerial.CountDeadRow | life/run_serial.c:89-95 | one pass of the dc loop adds that row's three entries of the submatrix, skipping the centre |
| RunSerial.CountDead | life/run_serial.c:86-98 | count_neighbors_dead returns the neighbour count of the dead-border neighbourhood |
| RunSerial.CountsAgreeAwayFromEdge | life/run_serial.c:70-98 | for 1 < r < rows and 1 < c < cols, the toroidal count equals the dead-border count |
| RunSerial.DeadCountAtCorner | life/run_serial.c:88-97 | the dead-border count of (1, 1) is the sum of the buffer cells (1, 2), (2, 1) and (2, 2) |
| RunSerial.HelperStep | life/run_serial.c:70-105 | the generation run_serial's helpers describe gives every interior cell next_state of its value and its count under the chosen policy |
| RunSerial.HelperStepIsStandardStep | life/run_serial.c:59 | on a 0/1 grid that generation equals Step with rule {3, 2, 3} under the same policy |
| RunSerial.CopyBack | life/run_serial.c:214-220 | the row-by-row memcpy makes the first (rows + 2) * pitch ints of data equal to aux and leaves the rest of data alone |
| RunSerial.PrintRow | life/run_serial.c:225-229 | the column loop writes the spaced row of interior row r |
| RunSerial.PrintWorld | life/run_serial.c:224-231 | the printer writes every interior row in the spaced format followed by '\n' |
| RunSerial.CopyAndPrint | life/run_serial.c:208-231 | with exactly one generation, data becomes aux and the output is aux's grid; otherwise data is printed as it stands |
| RunCuda.PrintRowCells | life/run_cuda.c:17-21 | the column loop writes the spaced row of interior row r |
| RunCuda.PrintWorldCells | life/run_cuda.c:15-24 | print_world_cells writes rows lines, each the spaced row followed by '\n' |
| RunCuda.PrintersAgree | life/run_cuda.c:60 | print_world_cells and run_serial's printer write the same characters for the same buffer |
| RunCuda.PrintedRow | life/run_cuda.c:17-21 | line r is 2 * cols - 1 characters long; position 2(c - 1) is 'x' iff buffer cell r * pitch + c is nonzero, and a space separates two symbols |
| IterationCount.FindFrom | tests/run_tests.c:39 | the result is the first "_it" at or after k, or -1 when there is none |
| IterationCount.RunStart | tests/run_tests.c:44-49 | the result starts the longest run of digits ending just before position i |
| IterationCount.LeadingDigits | tests/run_tests.c:51 | atoi reads the maximal prefix of digits |
| IterationCount.Iterations | tests/run_tests.c:37-53 | the result is the default or positive, and it is the default when the name has no "_it" |
| IterationCount.LeadingDigitsOfRun | tests/run_tests.c:51 | at the start of the run before "_it", atoi reads exactly that run |
| IterationCount.ParseIterations | tests/run_tests.c:37-53 | the backward walk, the step forward and atoi give Iterations of the name |
| IterationCount.DecimalOfDigits | tests/run_tests.c:51 | reading the decimal digits of n > 0 gives n |
| IterationCount.FirstItAfterRun | tests/run_tests.c:39 | in a name made of a prefix without "_it", digits, "_it" and a suffix, the first "_it" is the one after the digits |
| IterationCount.NameWithRun | tests/run_tests.c:44-52 | such a name asks for the value of its digits, or for the default when they read as 0 |
| IterationCount.NameRoundTrip | tests/run_tests.c:37-53 | writing n > 0 before "_it" and parsing the name gives back n |
| IterationCount.RunOfDigits | tests/run_tests.c:44-49 | the walk stops at p when s[p..i] is all digits and s[p - 1] is not a digit or p is 0 |
| IterationCount.FirstDocumentedName | tests/run_tests.c:33 | "test_case_1_001_it.txt" asks for 1 generation |
| IterationCount.ThirdDocumentedName | tests/run_tests.c:34 | "test_case_3_1000_it.txt" asks for 1000 generations |
| IterationCount.SecondDocumentedName | tests/run_tests.c:35 | "test_case_2.txt" asks for the default |
| TestDriver.WorldsEqual | tests/run_tests.c:21-29 | the result is 1 iff the two interiors agree cell by cell, and 0 otherwise |
| TestDriver.PlanTest | tests/run_tests.c:97-125 | a file is skipped as invalid iff it has no rows or no columns, and as too large iff its size exceeds the limits; otherwise it runs with the size read, the generations from its name, and the serial run skipped iff rows or cols exceed 1000 |
| TestDriver.RectangularLoadIgnoresMemory | tests/run_tests.c:130-134 | for a text whose first rows lines all hold cols cells, the loaded interior does not depend on what the allocated memory held |
| TestDriver.PlannedTextFits | tests/run_tests.c:114-117 | a text that passed the size checks fits the allocated world and never trips read_world's limit check |
| TestDriver.Load | tests/run_tests.c:148-151 | after read_world, the interior is the parsed cells of the text, and old memory wherever the text has no cell |
| TestDriver.LoadBoth | tests/run_tests.c:146-151 | both worlds are loaded from the text, except the serial world when its run is skipped |
| TestDriver.StepBoth | tests/run_tests.c:153-167 | the OpenMP world, and the serial world unless skipped, advance by StepN of their loaded interiors |
| TestDriver.RunOnce | tests/run_tests.c:144-174 | both worlds reach StepN of what was loaded; a mismatch is reported iff the serial run happened and the interiors differ; a rectangular text never reports one |

## Left out

- Concurrency: the `#pragma omp parallel for` of life/src/life_omp.c:10 and
  the thread count. The loop is modelled sequentially, and
  `LifeOmp.UpdateWorldScheduled` covers any order of its iterations.
  Interleaving inside one iteration is not modelled; the iterations share no
  written cell.
- CUDA: `cuda_init_world`, `cuda_step_n`, `cuda_get_world`,
  `cuda_free_world` and the rest of life/run_cuda.c are foreign GPU calls.
  Only `print_world_cells` is modelled.
- The flat steppers `update_world_flat`, `update_world_flat_dead` and
  `update_world_n_generations_flat(_dead)`, and `read_world_dyn` and
  `free_world_dyn`, have no body in these sources. `RunSerial.HelperStep` is
  the generation their helpers describe. The steppers themselves, and hence
  the `generations > 1` branch of run_serial (life/run_serial.c:208-213),
  are not modelled.
- File and console I/O (`fopen`, `getc`, `fputs`, `putchar`, `perror`,
  `exit`): the parsers take the file's contents as a string, and the printers
  return the text they would write. An exit on exceeded limits is the
  `Exceeded` outcome of `LifeText.ReadWorld`. A file that cannot be opened is
  not modelled, nor are the empty filename slots of the 30-entry
  `filenames` array in tests/run_tests.c. Only 26 slots are filled, and
  opening the first empty one ends the program.
- Command-line parsing, the `--probe` diagnostics of run_serial, timing
  (`now`), means, speedups and the result table of the test driver: these
  are argument handling, clocks, floating point and printing.
- The driver's outer loops. `TestDriver.PlanTest` and `TestDriver.RunOnce`
  model one file and one of its N_RUNS runs. Each run reloads both worlds
  from the file, so later runs differ only in what memory held.
- `malloc` failure and `free` in the driver. Allocated memory is modelled as
  arbitrary prior contents of the arrays.
- LifeWorld.ClearWorld, LifeWorld.UpdateWorld, LifeOmp.UpdateWorldOmp and
  the other world operations take `rows` and `cols` as `nat`. For negative
  counts the `int` loops of life.c do nothing. The `size_t` loops of
  `update_world_omp` (life/src/life_omp.c:11,13) do not: a count of -2 or
  less turns into a huge unsigned bound, and the loop indexes far outside
  the array. No caller passes a negative count, so that case is not
  modelled.
- The compile-time array shape `int[][MAX_COLS]` and the constants
  `FILE_MAX_LINES` and `VIRTUAL_MAX_COLS` come from life.h, which is not part
  of this model. The arrays are `array2<int>`, and the limits are parameters
  (`maxLines`, `maxCols`). The driver's worlds (`TestDriver.Load`,
  `TestDriver.LoadBoth`, `TestDriver.RunOnce`) need `rows + 2` rows and more
  than `cols` columns. In C the column count is `MAX_COLS`, so the driver
  relies on `MAX_COLS > cols`. The size check `cols <= VIRTUAL_MAX_COLS`
  guarantees that only if life.h makes `MAX_COLS` exceed `VIRTUAL_MAX_COLS`.
- IterationCount.ParseIterations requires that "_it" does not start the
  name. In that case the C walk reads `filename[-1]`, which is undefined
  behaviour.
- IterationCount.ParseIterations also requires at most nine digits before
  "_it", because `atoi` overflows `int` beyond that. The name is always
  non-null, and `strstr` is modelled as a function.
- IterationCount.Atoi handles only what it is given here: text that starts
  with a digit or with '_'. `atoi`'s skipping of leading white space and its
  sign are never reached from `parse_iterations`.
- Integer width: cell values, neighbour sums and indices are unbounded
  `int`. Indices stay far inside the 32-bit range for grids within the
  limits. Neighbour sums can overflow in one case only: the first generation
  after a load, over cells `read_world` left unset, which hold arbitrary
  `int`s. After one generation every cell is 0 or 1. The sum
  `live_cells += submatrix[row][col]` (life/src/life.c:19), and the sums of
  the serial counters, can then overflow. Signed overflow is undefined
  behaviour in C, and the model uses unbounded sums. For example, take a
  centre of 0 whose neighbours are 2147483647, 2147483647, 5 and five 0s.
  A wrapping machine would sum to 3, and the cell would be born.
  `LifeRule.NeighbourSum` gives 4294967299, and the cell stays 0.
