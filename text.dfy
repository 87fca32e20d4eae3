/** The text format of life/src/life.c. A world file is a sequence of
    characters cut into lines by '\n'; on each line 'X', 'x' and '.' are
    cells (live, live, dead) and every other character is ignored.
    read_world_size and read_world scan such text (here a string instead of
    a FILE*), fprint_world writes "X " / ". " per cell; the spaced format of
    the run_serial and run_cuda printers is defined here as well. */
module LifeText {
  import opened Grid
  import opened LifeWorld

  predicate IsCellChar(c: char) {
    c == 'X' || c == 'x' || c == '.'
  }

  predicate IsLiveChar(c: char) {
    c == 'X' || c == 'x'
  }

  /** The value a cell character stands for: 1 for 'X' or 'x', 0 for '.'. */
  function CellValue(c: char): int {
    if IsLiveChar(c) then 1 else 0
  }

  /** The cells of one line, in order, as 0/1 values. */
  function CellsOf(line: string): (cs: seq<int>)
    ensures |cs| <= |line|
  {
    if |line| == 0 then []
    else
      var c := line[|line| - 1];
      CellsOf(line[..|line| - 1]) + (if IsCellChar(c) then [CellValue(c)] else [])
  }

  /** The cells of a concatenation are the cells of its parts. */
  lemma {:induction false} CellsOfAppend(a: string, b: string)
    ensures CellsOf(a + b) == CellsOf(a) + CellsOf(b)
    decreases |b|
  {
    if |b| == 0 {
      assert a + b == a;
    } else {
      var b' := b[..|b| - 1];
      assert (a + b)[..|a + b| - 1] == a + b';
      CellsOfAppend(a, b');
    }
  }

  /** A line holds exactly as many cells as it has 'X', 'x' and '.' characters. */
  lemma {:induction false} CellCountIsCharCount(line: string)
    ensures |CellsOf(line)| == multiset(line)['X'] + multiset(line)['x'] + multiset(line)['.']
  {
    if |line| > 0 {
      var p := line[..|line| - 1];
      assert line == p + [line[|line| - 1]];
      CellCountIsCharCount(p);
    }
  }

  /** The prefix of a line carries a prefix of its cells. */
  lemma CellsOfPrefix(a: string, b: string)
    requires a <= b
    ensures CellsOf(a) <= CellsOf(b)
  {
    assert b == a + b[|a|..];
    CellsOfAppend(a, b[|a|..]);
  }

  /** The lines after one more character: a '\n' opens a new empty line,
      any other character extends the last line. */
  function NextLines(ls: seq<string>, ch: char): (next: seq<string>)
    requires |ls| >= 1
    ensures |next| >= 1
  {
    if ch == '\n' then ls + [[]]
    else ls[..|ls| - 1] + [ls[|ls| - 1] + [ch]]
  }

  /** The text cut at every '\n': a text with k newlines has k + 1 lines,
      the last of which is what follows the final '\n'. */
  function Lines(s: string): (ls: seq<string>)
    ensures |ls| >= 1
  {
    if |s| == 0 then [[]] else NextLines(Lines(s[..|s| - 1]), s[|s| - 1])
  }

  /** The lines joined back together with '\n' between them. */
  function Join(ls: seq<string>): string
    requires |ls| >= 1
  {
    if |ls| == 1 then ls[0] else Join(ls[..|ls| - 1]) + "\n" + ls[|ls| - 1]
  }

  /** Cutting a text into lines loses nothing: joining them gives it back. */
  lemma {:induction false} JoinLines(s: string)
    ensures Join(Lines(s)) == s
  {
    if |s| > 0 {
      var p := s[..|s| - 1];
      var c := s[|s| - 1];
      var init := Lines(p);
      JoinLines(p);
      assert s == p + [c];
      LinesSnoc(p, c);
      if c == '\n' {
        JoinNewline(init);
      } else {
        JoinExtend(init, c);
      }
    }
  }

  /** A '\n' at the end of a text appends an empty line. */
  lemma JoinNewline(ls: seq<string>)
    requires |ls| >= 1
    ensures Join(ls + [[]]) == Join(ls) + "\n"
  {
    assert (ls + [[]])[..|ls|] == ls;
    assert Join(ls) + "\n" + [] == Join(ls) + "\n";
  }

  /** Any other character at the end of a text extends the last line. */
  lemma JoinExtend(ls: seq<string>, c: char)
    requires |ls| >= 1
    ensures Join(ls[..|ls| - 1] + [Last(ls) + [c]]) == Join(ls) + [c]
  {
    if |ls| > 1 {
      JoinExtendLater(ls, c);
    } else {
      JoinExtendFirst(ls, c);
    }
  }

  /** The same, for a text of one line. */
  lemma JoinExtendFirst(ls: seq<string>, c: char)
    requires |ls| == 1
    ensures Join(ls[..|ls| - 1] + [Last(ls) + [c]]) == Join(ls) + [c]
  {
    assert ls[..|ls| - 1] + [Last(ls) + [c]] == [ls[0] + [c]];
  }

  /** The same, for a text of two lines or more. */
  lemma JoinExtendLater(ls: seq<string>, c: char)
    requires |ls| > 1
    ensures Join(ls[..|ls| - 1] + [Last(ls) + [c]]) == Join(ls) + [c]
  {
    var next := ls[..|ls| - 1] + [Last(ls) + [c]];
    var front := ls[..|ls| - 1];
    var j := Join(front) + "\n";
    assert Join(next) == j + (Last(ls) + [c]) by {
      assert next[..|next| - 1] == front;
    }
    assert j + (Last(ls) + [c]) == (j + Last(ls)) + [c];
  }

  /** No line contains a '\n'. */
  lemma {:induction false} LinesHaveNoNewline(s: string)
    ensures forall i :: 0 <= i < |Lines(s)| ==> '\n' !in Lines(s)[i]
  {
    if |s| > 0 {
      LinesHaveNoNewline(s[..|s| - 1]);
    }
  }

  /** There is one line more than there are '\n' characters. */
  lemma {:induction false} LineCountIsNewlineCount(s: string)
    ensures |Lines(s)| == multiset(s)['\n'] + 1
  {
    if |s| > 0 {
      var p := s[..|s| - 1];
      assert s == p + [s[|s| - 1]];
      LineCountIsNewlineCount(p);
    }
  }

  function Last(ls: seq<string>): string
    requires |ls| >= 1
  {
    ls[|ls| - 1]
  }

  /** Appending one character to a text moves its lines on by NextLines. */
  lemma LinesSnoc(p: string, c: char)
    ensures Lines(p + [c]) == NextLines(Lines(p), c)
  {
    assert (p + [c])[..|p|] == p;
  }

  /** The lines of a text read up to and including position k. */
  lemma LinesUpTo(s: string, k: nat)
    requires k < |s|
    ensures Lines(s[..k + 1]) == NextLines(Lines(s[..k]), s[k])
  {
    assert s[..k + 1] == s[..k] + [s[k]];
    LinesSnoc(s[..k], s[k]);
  }

  /** Appending text without '\n' extends the last line by it. */
  lemma {:induction false} LinesAppendLine(t: string, l: string)
    requires '\n' !in l
    ensures Lines(t + l) == Lines(t)[..|Lines(t)| - 1] + [Last(Lines(t)) + l]
    decreases |l|
  {
    if |l| == 0 {
      assert t + l == t;
      assert Last(Lines(t)) + l == Last(Lines(t));
    } else {
      var l' := l[..|l| - 1];
      var c := l[|l| - 1];
      assert c in l;
      assert t + l == (t + l') + [c];
      assert l == l' + [c];
      LinesAppendLine(t, l');
      LinesSnoc(t + l', c);
      var L := Lines(t + l');
      assert L[..|L| - 1] == Lines(t)[..|Lines(t)| - 1];
      assert Last(L) + [c] == Last(Lines(t)) + l;
    }
  }

  /** A finished line followed by '\n', after text whose last line is
      empty, becomes a line of its own, and a new empty line follows. */
  lemma AddLine(t: string, l: string)
    requires '\n' !in l
    requires Last(Lines(t)) == []
    ensures Lines(t + l + "\n") == Lines(t)[..|Lines(t)| - 1] + [l, []]
  {
    var u := t + l;
    var front := Lines(t)[..|Lines(t)| - 1];
    assert Lines(u) == front + [l] by {
      LinesAppendLine(t, l);
      assert Last(Lines(t)) + l == l;
    }
    assert Lines(t + l + "\n") == Lines(u) + [[]] by {
      assert t + l + "\n" == u + ['\n'];
      LinesSnoc(u, '\n');
    }
    assert front + [l] + [[]] == front + [l, []];
  }

  /** A row and its '\n' written after text cut into the lines P and an
      empty last line: the row becomes the next line. */
  lemma AddRow(t: string, l: string, P: seq<string>)
    requires '\n' !in l
    requires Lines(t) == P + [[]]
    ensures Lines(t + l + "\n") == P + [l] + [[]]
  {
    AddLine(t, l);
    assert Lines(t)[..|Lines(t)| - 1] == P;
  }

  /** Each line of text read so far, with more text after it: the earlier
      lines are final and the current last line can only grow. */
  lemma {:induction false} LinesOfPrefix(s: string, k: nat)
    requires k <= |s|
    ensures |Lines(s[..k])| <= |Lines(s)|
    ensures forall i :: 0 <= i < |Lines(s[..k])| - 1 ==> Lines(s[..k])[i] == Lines(s)[i]
    ensures Last(Lines(s[..k])) <= Lines(s)[|Lines(s[..k])| - 1]
    decreases |s| - k
  {
    if k == |s| {
      assert s[..k] == s;
    } else {
      LinesOfPrefix(s, k + 1);
      LinesUpTo(s, k);
      var L, L1 := Lines(s[..k]), Lines(s[..k + 1]);
      if s[k] == '\n' {
        assert L1 == L + [[]];
        assert forall i :: 0 <= i < |L| ==> L[i] == L1[i];
      } else {
        assert L1 == L[..|L| - 1] + [Last(L) + [s[k]]];
        assert forall i :: 0 <= i < |L| - 1 ==> L[i] == L1[i];
        assert Last(L) <= Last(L1);
      }
    }
  }

  /** The most cells on any one line; 0 for no lines. */
  function MaxCells(ls: seq<string>): (m: nat)
    ensures forall i :: 0 <= i < |ls| ==> |CellsOf(ls[i])| <= m
    ensures (|ls| == 0 && m == 0) || exists i :: 0 <= i < |ls| && |CellsOf(ls[i])| == m
  {
    if |ls| == 0 then 0
    else
      var m := MaxCells(ls[..|ls| - 1]);
      var n := |CellsOf(ls[|ls| - 1])|;
      assert forall i :: 0 <= i < |ls| - 1 ==> ls[..|ls| - 1][i] == ls[i];
      if n > m then n else m
  }

  /** The 1-based number of the last line holding a cell; 0 when none does. */
  function LastDataRow(ls: seq<string>): (r: nat)
    ensures r <= |ls|
    ensures r > 0 ==> |CellsOf(ls[r - 1])| > 0
    ensures forall i :: r <= i < |ls| ==> |CellsOf(ls[i])| == 0
  {
    if |ls| == 0 then 0
    else if |CellsOf(ls[|ls| - 1])| > 0 then |ls|
    else
      var r := LastDataRow(ls[..|ls| - 1]);
      assert forall i :: r <= i < |ls| - 1 ==> ls[..|ls| - 1][i] == ls[i];
      r
  }

  /** What NextLines does to the line count, to the finished lines and to
      the cells of the last line. */
  lemma NextLinesFacts(ls: seq<string>, ch: char)
    requires |ls| >= 1
    ensures ch == '\n' ==> |NextLines(ls, ch)| == |ls| + 1 && NextLines(ls, ch)[..|ls|] == ls
    ensures ch == '\n' ==> CellsOf(Last(NextLines(ls, ch))) == []
    ensures ch != '\n' ==> |NextLines(ls, ch)| == |ls| && NextLines(ls, ch)[..|ls| - 1] == ls[..|ls| - 1]
    ensures ch != '\n' ==>
      CellsOf(Last(NextLines(ls, ch))) == CellsOf(Last(ls)) + (if IsCellChar(ch) then [CellValue(ch)] else [])
  {
    if ch != '\n' {
      CellsOfAppend(Last(ls), [ch]);
    }
  }

  /** read_world_size: rows is the number of '\n' characters, plus one
      when the text after the last '\n' holds a cell; cols is the largest
      number of cells on a line. */
  method ReadWorldSize(s: string) returns (rows: nat, cols: nat)
    ensures rows == SizeRows(s)
    ensures cols == MaxCells(Lines(s))
  {
    rows, cols := 0, 0;
    var currentCols := 0;
    ghost var L: seq<string> := [[]];
    for k := 0 to |s|
      invariant L == Lines(s[..k])
      invariant rows == |L| - 1
      invariant currentCols == |CellsOf(Last(L))|
      invariant cols == MaxCells(L[..rows])
    {
      var c := s[k];
      LinesUpTo(s, k);
      NextLinesFacts(L, c);
      if IsCellChar(c) {
        currentCols := currentCols + 1;
      } else if c == '\n' {
        rows := rows + 1;
        if currentCols > cols {
          cols := currentCols;
        }
        currentCols := 0;
      }
      L := NextLines(L, c);
    }
    assert s[..|s|] == s;
    assert L[..rows + 1] == L;
    if currentCols > 0 {
      rows := rows + 1;
      if currentCols > cols {
        cols := currentCols;
      }
    }
  }

  /** Cell (r, c), both 1-based, is the c-th cell of line r. */
  predicate Parsed(ls: seq<string>, r: int, c: int) {
    1 <= r <= |ls| && 1 <= c <= |CellsOf(ls[r - 1])|
  }

  /** Some line holding a cell lies beyond line maxLines, or holds more
      than maxCols cells. */
  predicate Exceeds(ls: seq<string>, maxLines: int, maxCols: int) {
    exists i :: 0 <= i < |ls| && |CellsOf(ls[i])| > 0 && (i + 1 > maxLines || |CellsOf(ls[i])| > maxCols)
  }

  /** Extending the last line by a character other than '\n': a cell
      character adds one parsed cell at the end of that line, any other
      character adds none; every cell parsed before keeps its value. */
  lemma ExtendLastLine(L: seq<string>, ch: char)
    requires |L| >= 1 && ch != '\n'
    ensures forall r, c :: Parsed(L, r, c) ==>
      Parsed(NextLines(L, ch), r, c) && CellsOf(NextLines(L, ch)[r - 1])[c - 1] == CellsOf(L[r - 1])[c - 1]
    ensures forall r, c :: Parsed(NextLines(L, ch), r, c) && !Parsed(L, r, c) ==>
      IsCellChar(ch) && r == |L| && c == |CellsOf(Last(L))| + 1
  {
    NextLinesFacts(L, ch);
    var L' := NextLines(L, ch);
    assert forall i :: 0 <= i < |L| - 1 ==> L'[i] == L'[..|L| - 1][i];
  }

  /** A cell character at position k is, in the whole text, the c-th cell
      of a line holding at least c cells: its row is at most the number of
      lines and its column at most the widest line. */
  lemma CellInText(s: string, k: nat)
    requires k < |s| && IsCellChar(s[k])
    ensures |Lines(s[..k])| <= |Lines(s)|
    ensures |CellsOf(Lines(s)[|Lines(s[..k])| - 1])| >= |CellsOf(Last(Lines(s[..k])))| + 1
  {
    var L := Lines(s[..k]);
    var L1 := Lines(s[..k + 1]);
    var M := Lines(s);
    LinesUpTo(s, k);
    NextLinesFacts(L, s[k]);
    assert |L1| == |L| && |CellsOf(Last(L1))| == |CellsOf(Last(L))| + 1;
    LinesOfPrefix(s, k + 1);
    assert |L1| <= |M| && Last(L1) <= M[|L1| - 1];
    CellsOfPrefix(Last(L1), M[|L| - 1]);
  }

  /** A character of the text that the parser finds out of bounds lies on a
      line that, in the whole text, holds a cell and is out of bounds. */
  lemma ExceededAt(s: string, k: nat, maxLines: int, maxCols: int)
    requires k < |s| && IsCellChar(s[k])
    requires |Lines(s[..k])| > maxLines || |CellsOf(Last(Lines(s[..k])))| + 1 > maxCols
    ensures Exceeds(Lines(s), maxLines, maxCols)
  {
    var L := Lines(s[..k]);
    var M := Lines(s);
    CellInText(s, k);
    var i := |L| - 1;
    assert 0 <= i < |M| && |CellsOf(M[i])| > 0 && (i + 1 > maxLines || |CellsOf(M[i])| > maxCols);
  }

  /** A cell character within the limits is stored inside the array. */
  lemma CellFits(s: string, k: nat, world: array2<int>, maxLines: int, maxCols: int)
    requires k < |s| && IsCellChar(s[k]) && ReadFits(s, world, maxLines, maxCols)
    ensures var row, col := |Lines(s[..k])|, |CellsOf(Last(Lines(s[..k])))| + 1;
      row <= maxLines && col <= maxCols ==> row < world.Length0 && col < world.Length1
  {
    CellInText(s, k);
    var M := Lines(s);
    var i := |Lines(s[..k])| - 1;
    assert |CellsOf(M[i])| <= MaxCells(M);
  }

  /** The array can hold every cell read_world may store: along each axis
      either the limit or the extent of the text fits. */
  predicate ReadFits(s: string, world: array2<int>, maxLines: int, maxCols: int) {
    Min(maxLines, |Lines(s)|) < world.Length0 && Min(maxCols, MaxCells(Lines(s))) < world.Length1
  }

  function Min(a: int, b: int): int {
    if a < b then a else b
  }

  /** A cell within the limits keeps the text within the limits. */
  lemma StaysWithinLimits(L: seq<string>, ch: char, maxLines: int, maxCols: int)
    requires |L| >= 1 && !Exceeds(L, maxLines, maxCols)
    requires IsCellChar(ch) ==> |L| <= maxLines && |CellsOf(Last(L))| + 1 <= maxCols
    ensures !Exceeds(NextLines(L, ch), maxLines, maxCols)
  {
    NextLinesFacts(L, ch);
    var L' := NextLines(L, ch);
    forall i | 0 <= i < |L'| && |CellsOf(L'[i])| > 0
      ensures i + 1 <= maxLines && |CellsOf(L'[i])| <= maxCols
    {
      if i < |L| - 1 {
        assert L'[i] == L'[..|L| - 1][i] == L[i];
      } else if ch == '\n' && i == |L| - 1 {
        assert L'[i] == L'[..|L|][i] == L[i];
      }
    }
  }

  /** The counters of read_world after the lines L: row is the current
      line, col the place of its next cell, and maxSeen / rowsWithData
      describe the finished lines. */
  ghost predicate Scanning(L: seq<string>, row: int, col: int, maxSeen: int, rowsWithData: int) {
    && |L| >= 1
    && row == |L|
    && col == |CellsOf(Last(L))| + 1
    && maxSeen == MaxCells(L[..|L| - 1])
    && rowsWithData == LastDataRow(L[..|L| - 1])
  }

  /** A cell or an ignored character advances col or nothing. */
  lemma ScanInLine(L: seq<string>, ch: char, row: int, col: int, maxSeen: int, rowsWithData: int)
    requires ch != '\n' && Scanning(L, row, col, maxSeen, rowsWithData)
    ensures Scanning(NextLines(L, ch), row, if IsCellChar(ch) then col + 1 else col, maxSeen, rowsWithData)
  {
    NextLinesFacts(L, ch);
  }

  /** A '\n' closes the current line: it counts as a data row when it
      held a cell, and its width enters the maximum. */
  lemma ScanNewline(L: seq<string>, row: int, col: int, maxSeen: int, rowsWithData: int)
    requires Scanning(L, row, col, maxSeen, rowsWithData)
    ensures Scanning(NextLines(L, '\n'), row + 1, 1,
                     if col > 1 && col - 1 > maxSeen then col - 1 else maxSeen,
                     if col > 1 then row else rowsWithData)
  {
    NextLinesFacts(L, '\n');
    var L' := NextLines(L, '\n');
    assert L'[..|L'| - 1] == L;
    assert L[..|L| - 1] == L'[..|L'| - 1][..|L| - 1];
  }

  /** At the end of the text the open last line is counted the same way. */
  lemma ScanEnd(L: seq<string>, row: int, col: int, maxSeen: int, rowsWithData: int)
    requires Scanning(L, row, col, maxSeen, rowsWithData)
    ensures (if col > 1 then row else rowsWithData) == LastDataRow(L)
    ensures (if col > 1 && col - 1 > maxSeen then col - 1 else maxSeen) == MaxCells(L)
  {
  }

  /** Every cell of world, as a grid value, margin included. */
  function Contents(world: array2<int>): (g: seq<seq<int>>)
    reads world
    ensures |g| == world.Length0
    ensures forall r :: 0 <= r < world.Length0 ==> |g[r]| == world.Length1
    ensures forall r, c :: 0 <= r < world.Length0 && 0 <= c < world.Length1 ==> g[r][c] == world[r, c]
  {
    seq(world.Length0, r requires 0 <= r < world.Length0 reads world =>
      seq(world.Length1, c requires 0 <= c < world.Length1 reads world => world[r, c]))
  }

  /** world holds the parsed cells of ls and, everywhere else, what it held
      before parsing began. */
  ghost predicate Stored(world: array2<int>, ls: seq<string>, before: seq<seq<int>>)
    reads world
  {
    && |before| == world.Length0
    && (forall r :: 0 <= r < world.Length0 ==> |before[r]| == world.Length1)
    && (forall r, c :: 0 <= r < world.Length0 && 0 <= c < world.Length1 ==>
          world[r, c] == if Parsed(ls, r, c) then CellsOf(ls[r - 1])[c - 1] else before[r][c])
  }

  /** Within the limits, nothing outside [1, maxLines] x [1, maxCols] has
      been written. */
  lemma OutsideLimitsUnchanged(world: array2<int>, L: seq<string>, before: seq<seq<int>>, maxLines: int, maxCols: int)
    requires !Exceeds(L, maxLines, maxCols) && Stored(world, L, before)
    ensures forall r, c :: 0 <= r < world.Length0 && 0 <= c < world.Length1 && !(1 <= r <= maxLines && 1 <= c <= maxCols) ==>
      world[r, c] == before[r][c]
  {
    forall r, c | 0 <= r < world.Length0 && 0 <= c < world.Length1 && Parsed(L, r, c)
      ensures r <= maxLines && c <= maxCols
    {
      assert |CellsOf(L[r - 1])| > 0;
    }
  }

  /** The store of one cell character: world[row][col] takes its value,
      where row is the current line and col the cell's place on it. */
  method StoreCell(world: array2<int>, ghost L: seq<string>, ch: char, ghost before: seq<seq<int>>, row: int, col: int)
    requires |L| >= 1 && IsCellChar(ch) && Stored(world, L, before)
    requires row == |L| && col == |CellsOf(Last(L))| + 1
    requires row < world.Length0 && col < world.Length1
    modifies world
    ensures Stored(world, NextLines(L, ch), before)
  {
    ExtendLastLine(L, ch);
    NextLinesFacts(L, ch);
    world[row, col] := if ch == 'X' || ch == 'x' then 1 else 0;
  }

  /** A '\n' or an ignored character stores nothing and parses no cell. */
  lemma StoredWithoutCell(world: array2<int>, L: seq<string>, ch: char, before: seq<seq<int>>)
    requires |L| >= 1 && !IsCellChar(ch) && Stored(world, L, before)
    ensures Stored(world, NextLines(L, ch), before)
  {
    if ch != '\n' {
      ExtendLastLine(L, ch);
    } else {
      var L' := NextLines(L, ch);
      assert forall r, c :: Parsed(L', r, c) ==> Parsed(L, r, c) && L'[r - 1] == L[r - 1];
    }
  }

  /** The switch of read_world for one character ch read after the lines
      L: a cell character outside the limits stops the scan; otherwise the
      counters and the world move on to the lines NextLines(L, ch). */
  method ScanChar(world: array2<int>, ghost L: seq<string>, ghost before: seq<seq<int>>, ch: char,
                  row: int, col: int, maxSeen: int, rowsWithData: int, maxLines: int, maxCols: int)
    returns (exceeded: bool, row': int, col': int, maxSeen': int, rowsWithData': int)
    requires Scanning(L, row, col, maxSeen, rowsWithData) && !Exceeds(L, maxLines, maxCols)
    requires Stored(world, L, before)
    requires IsCellChar(ch) && row <= maxLines && col <= maxCols ==> row < world.Length0 && col < world.Length1
    modifies world
    ensures exceeded <==> IsCellChar(ch) && (row > maxLines || col > maxCols)
    ensures exceeded ==> unchanged(world)
    ensures !exceeded ==> Scanning(NextLines(L, ch), row', col', maxSeen', rowsWithData')
    ensures !exceeded ==> !Exceeds(NextLines(L, ch), maxLines, maxCols) && Stored(world, NextLines(L, ch), before)
  {
    exceeded, row', col', maxSeen', rowsWithData' := false, row, col, maxSeen, rowsWithData;
    if IsCellChar(ch) {
      if row > maxLines || col > maxCols {
        exceeded := true;
        return;
      }
      ScanInLine(L, ch, row, col, maxSeen, rowsWithData);
      StaysWithinLimits(L, ch, maxLines, maxCols);
      StoreCell(world, L, ch, before, row, col);
      col' := col + 1;
    } else if ch == '\n' {
      ScanNewline(L, row, col, maxSeen, rowsWithData);
      StaysWithinLimits(L, ch, maxLines, maxCols);
      StoredWithoutCell(world, L, ch, before);
      if col > 1 {
        rowsWithData' := row;
        if col - 1 > maxSeen {
          maxSeen' := col - 1;
        }
      }
      row' := row + 1;
      col' := 1;
    } else {
      ScanInLine(L, ch, row, col, maxSeen, rowsWithData);
      StaysWithinLimits(L, ch, maxLines, maxCols);
      StoredWithoutCell(world, L, ch, before);
    }
  }

  /** The size read_world_size reports for a text. */
  function SizeRows(s: string): nat {
    |Lines(s)| - 1 + (if |CellsOf(Last(Lines(s)))| > 0 then 1 else 0)
  }

  /** The text exceeds the limits exactly when it holds a cell and either
      its last data row lies beyond maxLines or its widest line holds more
      than maxCols cells. */
  lemma ExceedsIff(ls: seq<string>, maxLines: int, maxCols: int)
    ensures Exceeds(ls, maxLines, maxCols) <==>
      MaxCells(ls) > 0 && (LastDataRow(ls) > maxLines || MaxCells(ls) > maxCols)
  {
    if Exceeds(ls, maxLines, maxCols) {
      var i :| 0 <= i < |ls| && |CellsOf(ls[i])| > 0 && (i + 1 > maxLines || |CellsOf(ls[i])| > maxCols);
      assert i < LastDataRow(ls);
    }
    if MaxCells(ls) > 0 && (LastDataRow(ls) > maxLines || MaxCells(ls) > maxCols) {
      var w :| 0 <= w < |ls| && |CellsOf(ls[w])| == MaxCells(ls);
      if MaxCells(ls) > maxCols {
        assert |CellsOf(ls[w])| > 0 && |CellsOf(ls[w])| > maxCols;
      } else {
        var r := LastDataRow(ls) - 1;
        assert |CellsOf(ls[r])| > 0 && r + 1 > maxLines;
      }
    }
  }

  /** The rows read_world_size reports cover the last data row, and leave
      at most one line of the text beyond them. */
  lemma SizeCoversData(s: string)
    ensures LastDataRow(Lines(s)) <= SizeRows(s)
    ensures |Lines(s)| <= SizeRows(s) + 1
  {
    var L := Lines(s);
    if LastDataRow(L) == |L| {
      assert |CellsOf(Last(L))| > 0;
    }
  }

  /** The outcome of read_world: the text exceeds the compile-time limits
      (the source reports it and exits), or the number of the last line
      holding data and the widest line. */
  datatype ReadOutcome = Exceeded | Loaded(rowsWithData: nat, maxCols: nat)

  /** One pass of read_world's loop over the text s, at position k: the
      character s[k] either stops the scan, and then the text exceeds the
      limits, or moves the counters and the world on to Lines(s[..k + 1]). */
  method ReadChar(s: string, k: nat, world: array2<int>, ghost L: seq<string>, ghost before: seq<seq<int>>,
                  row: int, col: int, maxSeen: int, rowsWithData: int, maxLines: int, maxCols: int)
    returns (exceeded: bool, row': int, col': int, maxSeen': int, rowsWithData': int)
    requires k < |s| && ReadFits(s, world, maxLines, maxCols) && L == Lines(s[..k])
    requires Scanning(L, row, col, maxSeen, rowsWithData) && !Exceeds(L, maxLines, maxCols)
    requires Stored(world, L, before)
    modifies world
    ensures exceeded ==> Exceeds(Lines(s), maxLines, maxCols) && unchanged(world)
    ensures !exceeded ==> NextLines(L, s[k]) == Lines(s[..k + 1])
    ensures !exceeded ==> Scanning(NextLines(L, s[k]), row', col', maxSeen', rowsWithData')
    ensures !exceeded ==> !Exceeds(NextLines(L, s[k]), maxLines, maxCols) && Stored(world, NextLines(L, s[k]), before)
  {
    LinesUpTo(s, k);
    if IsCellChar(s[k]) {
      CellFits(s, k, world, maxLines, maxCols);
    }
    exceeded, row', col', maxSeen', rowsWithData' :=
      ScanChar(world, L, before, s[k], row, col, maxSeen, rowsWithData, maxLines, maxCols);
    if exceeded {
      ExceededAt(s, k, maxLines, maxCols);
    }
  }

  /** The loop of read_world over the whole text: it stops at the first
      cell outside the limits, and then only cells within the limits have
      been written; otherwise it has stored every cell of the text and its
      counters describe all of Lines(s). */
  method ScanText(s: string, world: array2<int>, ghost before: seq<seq<int>>, maxLines: int, maxCols: int)
    returns (exceeded: bool, row: int, col: int, maxSeen: int, rowsWithData: int)
    requires ReadFits(s, world, maxLines, maxCols) && Stored(world, [[]], before)
    modifies world
    ensures exceeded <==> Exceeds(Lines(s), maxLines, maxCols)
    ensures !exceeded ==> Scanning(Lines(s), row, col, maxSeen, rowsWithData) && Stored(world, Lines(s), before)
    ensures forall r, c :: 0 <= r < world.Length0 && 0 <= c < world.Length1 && !(1 <= r <= maxLines && 1 <= c <= maxCols) ==>
      world[r, c] == before[r][c]
  {
    ghost var L: seq<string> := [[]];
    row, col := 1, 1;
    maxSeen, rowsWithData := 0, 0;
    for k := 0 to |s|
      invariant L == Lines(s[..k])
      invariant Scanning(L, row, col, maxSeen, rowsWithData)
      invariant !Exceeds(L, maxLines, maxCols)
      invariant Stored(world, L, before)
    {
      exceeded, row, col, maxSeen, rowsWithData :=
        ReadChar(s, k, world, L, before, row, col, maxSeen, rowsWithData, maxLines, maxCols);
      if exceeded {
        OutsideLimitsUnchanged(world, L, before, maxLines, maxCols);
        return;
      }
      L := NextLines(L, s[k]);
    }
    exceeded := false;
    assert s[..|s|] == s;
    OutsideLimitsUnchanged(world, L, before, maxLines, maxCols);
  }

  /** read_world: the c-th cell of line r goes to world[r][c] as 1 for
      'X'/'x' and 0 for '.'; no other cell of world changes. A cell on a
      line beyond maxLines (FILE_MAX_LINES) or beyond column maxCols
      (VIRTUAL_MAX_COLS) is an error. */
  method ReadWorld(s: string, world: array2<int>, maxLines: int, maxCols: int) returns (result: ReadOutcome)
    requires ReadFits(s, world, maxLines, maxCols)
    modifies world
    ensures result.Exceeded? <==> Exceeds(Lines(s), maxLines, maxCols)
    ensures result.Loaded? ==> result.rowsWithData == LastDataRow(Lines(s)) && result.maxCols == MaxCells(Lines(s))
    ensures result.Loaded? ==> forall r, c :: 0 <= r < world.Length0 && 0 <= c < world.Length1 ==>
      world[r, c] == if Parsed(Lines(s), r, c) then CellsOf(Lines(s)[r - 1])[c - 1] else old(world[r, c])
    ensures forall r, c :: 0 <= r < world.Length0 && 0 <= c < world.Length1 && !(1 <= r <= maxLines && 1 <= c <= maxCols) ==>
      world[r, c] == old(world[r, c])
  {
    ghost var before := Contents(world);
    var exceeded, row, col, maxSeen, rowsWithData := ScanText(s, world, before, maxLines, maxCols);
    if exceeded {
      return Exceeded;
    }
    ScanEnd(Lines(s), row, col, maxSeen, rowsWithData);
    if col > 1 {
      rowsWithData := row;
      if col - 1 > maxSeen {
        maxSeen := col - 1;
      }
    }
    result := Loaded(rowsWithData, maxSeen);
  }

  /** A cell as the parser reads it back: any nonzero value is live. */
  function Bit(v: int): int {
    if v != 0 then 1 else 0
  }

  function Bits(row: seq<int>): (b: seq<int>)
    ensures |b| == |row|
    ensures forall i :: 0 <= i < |row| ==> b[i] == Bit(row[i])
  {
    seq(|row|, i requires 0 <= i < |row| => Bit(row[i]))
  }

  /** What fprint_world writes for one cell. */
  function Mark(v: int): string {
    if v != 0 then "X " else ". "
  }

  /** One row as fprint_world writes it, before the '\n'. */
  function FprintLine(row: seq<int>): string {
    if |row| == 0 then [] else FprintLine(row[..|row| - 1]) + Mark(row[|row| - 1])
  }

  /** The whole grid as fprint_world writes it: every row followed by '\n'. */
  function FprintText(g: Cells): string {
    if |g| == 0 then [] else FprintText(g[..|g| - 1]) + FprintLine(g[|g| - 1]) + "\n"
  }

  /** A row printed by fprint_world: two characters per cell, the symbol
      'X' or '.' then a space, trailing space included, and no '\n'. */
  lemma {:induction false} FprintLineShape(row: seq<int>)
    ensures |FprintLine(row)| == 2 * |row|
    ensures forall i :: 0 <= i < |row| ==>
      FprintLine(row)[2 * i] == (if row[i] != 0 then 'X' else '.') && FprintLine(row)[2 * i + 1] == ' '
    ensures '\n' !in FprintLine(row)
  {
    if |row| > 0 {
      var p := row[..|row| - 1];
      FprintLineShape(p);
      assert forall i :: 0 <= i < |p| ==> p[i] == row[i];
    }
  }

  /** Read back, a printed row gives the row's cells, nonzero as 1. */
  lemma {:induction false} FprintLineCells(row: seq<int>)
    ensures CellsOf(FprintLine(row)) == Bits(row)
  {
    if |row| > 0 {
      var p := row[..|row| - 1];
      FprintLineCells(p);
      CellsOfAppend(FprintLine(p), Mark(row[|row| - 1]));
      assert CellsOf(Mark(row[|row| - 1])) == [Bit(row[|row| - 1])];
      assert Bits(row) == Bits(p) + [Bit(row[|row| - 1])];
    }
  }

  /** A printed row holds no '\n'. */
  lemma FprintLineNoNewline(row: seq<int>)
    ensures '\n' !in FprintLine(row)
  {
    FprintLineShape(row);
  }

  /** The printed rows, one string per row. */
  function FprintLines(g: Cells): (ls: seq<string>)
    ensures |ls| == |g|
  {
    if |g| == 0 then [] else FprintLines(g[..|g| - 1]) + [FprintLine(g[|g| - 1])]
  }

  /** Line i of the list is row i printed. */
  lemma {:induction false} FprintLinesAt(g: Cells, i: int)
    requires 0 <= i < |g|
    ensures FprintLines(g)[i] == FprintLine(g[i])
  {
    if i < |g| - 1 {
      FprintLinesAt(g[..|g| - 1], i);
    }
  }

  /** fprint_world's text cuts into exactly the printed rows, and an empty
      line after the final '\n'. */
  lemma {:induction false} FprintTextLines(g: Cells)
    ensures Lines(FprintText(g)) == FprintLines(g) + [[]]
  {
    if |g| > 0 {
      var p := g[..|g| - 1];
      var t, l := FprintText(p), FprintLine(g[|g| - 1]);
      FprintTextLines(p);
      FprintLineNoNewline(g[|g| - 1]);
      AddRow(t, l, FprintLines(p));
    }
  }

  /** The inner loop of fprint_world: one interior row, cell by cell. */
  method FprintRow(world: array2<int>, rows: nat, cols: nat, row: int) returns (out: string)
    requires Fits(world, rows, cols) && 1 <= row <= rows
    ensures out == FprintLine(Interior(world, rows, cols)[row - 1])
  {
    ghost var line := Interior(world, rows, cols)[row - 1];
    out := [];
    for col := 1 to cols + 1
      invariant out == FprintLine(line[..col - 1])
    {
      assert line[..col][..col - 1] == line[..col - 1];
      out := out + (if world[row, col] != 0 then "X " else ". ");
    }
    assert line[..cols] == line;
  }

  /** fprint_world: every interior row, cell by cell, then '\n'. */
  method FprintWorld(world: array2<int>, rows: nat, cols: nat) returns (out: string)
    requires Fits(world, rows, cols)
    ensures out == FprintText(Interior(world, rows, cols))
  {
    ghost var g := Interior(world, rows, cols);
    out := [];
    for row := 1 to rows + 1
      invariant out == FprintText(g[..row - 1])
    {
      var line := FprintRow(world, rows, cols, row);
      assert g[..row][..row - 1] == g[..row - 1];
      out := out + line + "\n";
    }
    assert g[..rows] == g;
  }

  /** The symbol of the spaced format of the run_serial and run_cuda
      printers: 'x' for a nonzero cell, '.' otherwise. */
  function Symbol(v: int): char {
    if v != 0 then 'x' else '.'
  }

  /** One row in the spaced format, before the '\n'. */
  function SpacedLine(row: seq<int>): string {
    if |row| == 0 then []
    else if |row| == 1 then [Symbol(row[0])]
    else SpacedLine(row[..|row| - 1]) + [' ', Symbol(row[|row| - 1])]
  }

  /** The whole grid in the spaced format: every row followed by '\n'. */
  function SpacedText(g: Cells): string {
    if |g| == 0 then [] else SpacedText(g[..|g| - 1]) + SpacedLine(g[|g| - 1]) + "\n"
  }

  /** A row in the spaced format: the symbols at even positions, single
      spaces between them, no trailing space, 2 * cols - 1 characters. */
  lemma {:induction false} SpacedLineShape(row: seq<int>)
    ensures |SpacedLine(row)| == if |row| == 0 then 0 else 2 * |row| - 1
    ensures forall i :: 0 <= i < |row| ==> SpacedLine(row)[2 * i] == Symbol(row[i])
    ensures forall i :: 0 <= i < |row| - 1 ==> SpacedLine(row)[2 * i + 1] == ' '
    ensures '\n' !in SpacedLine(row)
  {
    if |row| > 1 {
      var p := row[..|row| - 1];
      SpacedLineShape(p);
      assert forall i :: 0 <= i < |p| ==> p[i] == row[i];
    }
  }

  /** Read back, a spaced row gives the row's cells, nonzero as 1. */
  lemma {:induction false} SpacedLineCells(row: seq<int>)
    ensures CellsOf(SpacedLine(row)) == Bits(row)
  {
    if |row| == 1 {
      assert SpacedLine(row) == [] + [Symbol(row[0])];
    } else if |row| > 1 {
      var p := row[..|row| - 1];
      SpacedLineCells(p);
      CellsOfAppend(SpacedLine(p), [' ', Symbol(row[|row| - 1])]);
      assert [' ', Symbol(row[|row| - 1])] == [' '] + [Symbol(row[|row| - 1])];
      CellsOfAppend([' '], [Symbol(row[|row| - 1])]);
      assert [Symbol(row[|row| - 1])] == [] + [Symbol(row[|row| - 1])];
      assert Bits(row) == Bits(p) + [Bit(row[|row| - 1])];
    }
  }

  /** The spaced rows, one string per row. */
  function SpacedLines(g: Cells): (ls: seq<string>)
    ensures |ls| == |g|
  {
    if |g| == 0 then [] else SpacedLines(g[..|g| - 1]) + [SpacedLine(g[|g| - 1])]
  }

  /** Line i of the list is row i printed. */
  lemma {:induction false} SpacedLinesAt(g: Cells, i: int)
    requires 0 <= i < |g|
    ensures SpacedLines(g)[i] == SpacedLine(g[i])
  {
    if i < |g| - 1 {
      SpacedLinesAt(g[..|g| - 1], i);
    }
  }

  /** Spaced text cuts into exactly the spaced rows, and an empty line
      after the final '\n'. */
  lemma {:induction false} SpacedTextLines(g: Cells)
    ensures Lines(SpacedText(g)) == SpacedLines(g) + [[]]
  {
    if |g| > 0 {
      var p := g[..|g| - 1];
      var t, l := SpacedText(p), SpacedLine(g[|g| - 1]);
      SpacedTextLines(p);
      SpacedLineShape(g[|g| - 1]);
      AddRow(t, l, SpacedLines(p));
    }
  }

  /** The lines L read back as the rows x cols grid g: read_world_size
      finds rows x cols (no columns when there are no rows), read_world
      parses exactly the cells [1, rows] x [1, cols] with the values of g,
      nonzero as 1, and reports the last data row and the width, and the
      limits are exceeded exactly when the grid is non-empty and larger
      than they allow. */
  ghost predicate ParsesAs(L: seq<string>, g: Cells, rows: nat, cols: nat, maxLines: int, maxCols: int)
    requires IsGrid(g, rows, cols)
  {
    && |L| == rows + 1
    && |L| - 1 + (if |CellsOf(Last(L))| > 0 then 1 else 0) == rows
    && MaxCells(L) == (if rows == 0 then 0 else cols)
    && LastDataRow(L) == (if cols == 0 then 0 else rows)
    && (Exceeds(L, maxLines, maxCols) <==> rows > 0 && cols > 0 && (rows > maxLines || cols > maxCols))
    && (forall r, c :: Parsed(L, r, c) <==> 1 <= r <= rows && 1 <= c <= cols)
    && (forall i :: 0 <= i < rows ==> CellsOf(L[i]) == Bits(g[i]))
  }

  /** Lines of equal width cols, then an empty line: the widest holds
      cols cells (none when there are no such lines). */
  lemma UniformWidth(ls: seq<string>, cols: nat)
    requires forall i :: 0 <= i < |ls| ==> |CellsOf(ls[i])| == cols
    ensures MaxCells(ls + [[]]) == (if |ls| == 0 then 0 else cols)
  {
    var L := ls + [[]];
    assert forall i :: 0 <= i < |L| ==> |CellsOf(L[i])| == if i < |ls| then cols else 0;
    if |ls| > 0 {
      assert |CellsOf(L[0])| == cols;
    }
  }

  /** Lines of equal width cols, then an empty line: the last data row is
      the last of those lines, or none when they hold no cells. */
  lemma UniformLastDataRow(ls: seq<string>, cols: nat)
    requires forall i :: 0 <= i < |ls| ==> |CellsOf(ls[i])| == cols
    ensures LastDataRow(ls + [[]]) == (if cols == 0 then 0 else |ls|)
  {
    var L := ls + [[]];
    assert L[..|L| - 1] == ls;
    if |ls| > 0 {
      assert ls[..|ls| - 1] + [ls[|ls| - 1]] == ls;
    }
  }

  /** Lines of equal width cols, then an empty line, exceed the limits
      exactly when there are cells and the lines or the width are too many. */
  lemma UniformExceeds(ls: seq<string>, cols: nat, maxLines: int, maxCols: int)
    requires forall i :: 0 <= i < |ls| ==> |CellsOf(ls[i])| == cols
    ensures Exceeds(ls + [[]], maxLines, maxCols) <==> |ls| > 0 && cols > 0 && (|ls| > maxLines || cols > maxCols)
  {
    var L := ls + [[]];
    if |ls| > 0 && cols > 0 && (|ls| > maxLines || cols > maxCols) {
      assert L[|ls| - 1] == ls[|ls| - 1];
      assert |CellsOf(L[|ls| - 1])| > 0 && (|ls| > maxLines || |CellsOf(L[|ls| - 1])| > maxCols);
    }
    assert forall i :: 0 <= i < |L| ==> |CellsOf(L[i])| == if i < |ls| then cols else 0;
  }

  /** Lines of equal width cols, then an empty line: the parsed cells are
      exactly [1, |ls|] x [1, cols]. */
  lemma UniformParsed(ls: seq<string>, cols: nat)
    requires forall i :: 0 <= i < |ls| ==> |CellsOf(ls[i])| == cols
    ensures forall r, c :: Parsed(ls + [[]], r, c) <==> 1 <= r <= |ls| && 1 <= c <= cols
  {
    var L := ls + [[]];
    forall r, c
      ensures Parsed(L, r, c) <==> 1 <= r <= |ls| && 1 <= c <= cols
    {
      if 1 <= r <= |ls| {
        assert L[r - 1] == ls[r - 1];
      } else if r == |ls| + 1 {
        assert CellsOf(L[r - 1]) == [];
      }
    }
  }

  /** Text made of one line per grid row, each holding that row's cells,
      then an empty line, reads back as the grid. */
  lemma ReadsBack(ls: seq<string>, g: Cells, rows: nat, cols: nat, maxLines: int, maxCols: int)
    requires IsGrid(g, rows, cols) && |ls| == rows
    requires forall i :: 0 <= i < rows ==> CellsOf(ls[i]) == Bits(g[i])
    ensures ParsesAs(ls + [[]], g, rows, cols, maxLines, maxCols)
  {
    var L := ls + [[]];
    assert forall i :: 0 <= i < rows ==> |CellsOf(ls[i])| == cols;
    UniformWidth(ls, cols);
    UniformLastDataRow(ls, cols);
    UniformExceeds(ls, cols, maxLines, maxCols);
    UniformParsed(ls, cols);
    assert forall i :: 0 <= i < rows ==> L[i] == ls[i];
    assert CellsOf(Last(L)) == [];
  }

  /** Reading back what fprint_world wrote gives the grid back, every
      nonzero cell as 1. */
  lemma FprintReadsBack(g: Cells, rows: nat, cols: nat, maxLines: int, maxCols: int)
    requires IsGrid(g, rows, cols)
    ensures ParsesAs(Lines(FprintText(g)), g, rows, cols, maxLines, maxCols)
  {
    FprintTextLines(g);
    forall i | 0 <= i < rows
      ensures CellsOf(FprintLines(g)[i]) == Bits(g[i])
    {
      FprintLinesAt(g, i);
      FprintLineCells(g[i]);
    }
    ReadsBack(FprintLines(g), g, rows, cols, maxLines, maxCols);
  }

  /** Reading back spaced output gives the grid back the same way. */
  lemma SpacedReadsBack(g: Cells, rows: nat, cols: nat, maxLines: int, maxCols: int)
    requires IsGrid(g, rows, cols)
    ensures ParsesAs(Lines(SpacedText(g)), g, rows, cols, maxLines, maxCols)
  {
    SpacedTextLines(g);
    forall i | 0 <= i < rows
      ensures CellsOf(SpacedLines(g)[i]) == Bits(g[i])
    {
      SpacedLinesAt(g, i);
      SpacedLineCells(g[i]);
    }
    ReadsBack(SpacedLines(g), g, rows, cols, maxLines, maxCols);
  }
}
