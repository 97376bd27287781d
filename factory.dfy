/** SudokuFactory.create_from_string: the board's text, one line of digits per row, into a board.
    The text is split into lines, each line stripped of surrounding white space, and the lines
    made only of digits are the rows; zeros become editable empty cells and other digits clues. */
module Factory {
  import opened Wrappers
  import opened Cells
  import opened Layout
  import opened Grids
  import opened Board
  import opened Regions

  /** SudokuFactory.POSSIBLE_SIZES: each accepted board size with its box width and height. */
  const PossibleSizes: map<int, (nat, nat)> := map[4 := (2, 2), 6 := (3, 2), 9 := (3, 3)]

  // ---- the text ----

  /** The line boundaries of str.splitlines; "\r\n" counts as one. */
  predicate IsLineBreak(c: char) {
    c in LineBreaks
  }

  const LineBreaks: set<char> := {
    '\n', '\r', '\U{000B}', '\U{000C}', '\U{001C}', '\U{001D}', '\U{001E}', '\U{0085}', '\U{2028}', '\U{2029}'}

  /** The white space str.strip removes (str.isspace). */
  predicate IsSpace(c: char) {
    c in WhiteSpace
  }

  const WhiteSpace: set<char> := {
    ' ', '\t', '\n', '\U{000B}', '\U{000C}', '\r', '\U{001C}', '\U{001D}', '\U{001E}', '\U{001F}',
    '\U{0085}', '\U{00A0}', '\U{1680}', '\U{2000}', '\U{2001}', '\U{2002}', '\U{2003}', '\U{2004}',
    '\U{2005}', '\U{2006}', '\U{2007}', '\U{2008}', '\U{2009}', '\U{200A}', '\U{2028}', '\U{2029}',
    '\U{202F}', '\U{205F}', '\U{3000}'}

  /** The index of the first line boundary of `s`, or |s| when there is none. */
  function FirstBreak(s: string): (i: nat)
    ensures i <= |s| && (i < |s| ==> IsLineBreak(s[i]))
    ensures forall j :: 0 <= j < i ==> !IsLineBreak(s[j])
  {
    if s == [] || IsLineBreak(s[0]) then 0 else 1 + FirstBreak(s[1..])
  }

  /** str.splitlines: the lines of `s` without their boundaries; a final boundary does not start
      another line, so the empty text has no lines. No line holds a boundary. */
  function SplitLines(s: string): (ls: seq<string>)
    ensures forall k, j :: 0 <= k < |ls| && 0 <= j < |ls[k]| ==> !IsLineBreak(ls[k][j])
    decreases |s|
  {
    if s == [] then []
    else
      var i := FirstBreak(s);
      if i == |s| then [s]
      else
        var next := if s[i] == '\r' && i + 1 < |s| && s[i + 1] == '\n' then i + 2 else i + 1;
        [s[..i]] + SplitLines(s[next..])
  }

  /** `s` without its leading white space. */
  function StripLeft(s: string): (t: string)
    ensures |t| <= |s| && t == s[|s| - |t|..]
    ensures t == [] || !IsSpace(t[0])
    ensures forall j :: 0 <= j < |s| - |t| ==> IsSpace(s[j])
  {
    if s == [] || !IsSpace(s[0]) then s else StripLeft(s[1..])
  }

  /** `s` without its trailing white space. */
  function StripRight(s: string): (t: string)
    ensures |t| <= |s| && t == s[..|t|]
    ensures t == [] || !IsSpace(t[|t| - 1])
    ensures forall j :: |t| <= j < |s| ==> IsSpace(s[j])
  {
    if s == [] || !IsSpace(s[|s| - 1]) then s else StripRight(s[..|s| - 1])
  }

  /** str.strip with no argument. */
  function Strip(s: string): string {
    StripRight(StripLeft(s))
  }

  /** str.isdigit, for the ASCII digits. */
  predicate IsDigitString(s: string) {
    |s| > 0 && forall j :: 0 <= j < |s| ==> '0' <= s[j] <= '9'
  }

  /** What the factory's first loop keeps of a line: the stripped line when it is all digits. */
  function Kept(line: string): seq<string> {
    var t := Strip(line);
    if IsDigitString(t) then [t] else []
  }

  /** The lines the factory's first loop keeps, in order. */
  function KeptLines(ls: seq<string>): (rows: seq<string>)
    ensures |rows| <= |ls|
    ensures forall k :: 0 <= k < |rows| ==> IsDigitString(rows[k])
  {
    if ls == [] then [] else KeptLines(ls[..|ls| - 1]) + Kept(ls[|ls| - 1])
  }

  /** The factory's first loop: split, strip, keep the all-digit lines. */
  method DigitLines(text: string) returns (lines: seq<string>)
    ensures lines == KeptLines(SplitLines(text))
  {
    var all := SplitLines(text);
    lines := [];
    for k := 0 to |all|
      invariant lines == KeptLines(all[..k])
    {
      KeptLinesStep(all, k);
      var line := Strip(all[k]);
      if IsDigitString(line) {
        lines := lines + [line];
      }
    }
    assert all[..|all|] == all;
  }

  lemma KeptLinesStep(all: seq<string>, k: nat)
    requires k < |all|
    ensures KeptLines(all[..k + 1]) == KeptLines(all[..k]) + Kept(all[k])
  {
    assert all[..k + 1][..k] == all[..k];
  }

  // ---- the text of a board ----

  /** The rows written out, each followed by a newline. */
  function Join(rows: seq<string>): string {
    if rows == [] then "" else Join(rows[..|rows| - 1]) + rows[|rows| - 1] + "\n"
  }

  lemma {:induction false} JoinCons(rows: seq<string>)
    requires rows != []
    ensures Join(rows) == rows[0] + "\n" + Join(rows[1..])
    decreases |rows|
  {
    if |rows| == 1 {
      assert rows[..0] == [];
      assert rows[1..] == [];
    } else {
      var init, last := rows[..|rows| - 1], rows[|rows| - 1];
      JoinCons(init);
      assert init[0] == rows[0];
      assert init[1..] == rows[1..][..|rows[1..]| - 1];
      assert rows[1..][|rows[1..]| - 1] == last;
      assert Join(rows[1..]) == Join(init[1..]) + last + "\n";
      calc {
        Join(rows);
        Join(init) + last + "\n";
        rows[0] + "\n" + Join(init[1..]) + last + "\n";
        { ConcatAssoc(rows[0] + "\n", Join(init[1..]) + last, "\n");
          ConcatAssoc(rows[0] + "\n", Join(init[1..]), last); }
        rows[0] + "\n" + (Join(init[1..]) + last + "\n");
      }
    }
  }

  /** A line without boundaries followed by "\n" splits off as one line. */
  lemma SplitFirstLine(row: string, rest: string)
    requires forall j :: 0 <= j < |row| ==> !IsLineBreak(row[j])
    ensures SplitLines(row + "\n" + rest) == [row] + SplitLines(rest)
  {
    var s := row + "\n" + rest;
    assert s[|row|] == '\n';
    assert FirstBreak(s) == |row| by {
      FirstBreakAt(s, |row|);
    }
    assert s[..|row|] == row;
    assert s[|row| + 1..] == rest;
  }

  lemma {:induction false} FirstBreakAt(s: string, i: nat)
    requires i < |s| && IsLineBreak(s[i]) && forall j :: 0 <= j < i ==> !IsLineBreak(s[j])
    ensures FirstBreak(s) == i
    decreases i
  {
    if i > 0 {
      FirstBreakAt(s[1..], i - 1);
    }
  }

  /** Splitting the written-out rows gives the rows back, when no row holds a line boundary. */
  lemma {:induction false} SplitJoin(rows: seq<string>)
    requires forall k, j :: 0 <= k < |rows| && 0 <= j < |rows[k]| ==> !IsLineBreak(rows[k][j])
    ensures SplitLines(Join(rows)) == rows
    decreases |rows|
  {
    if rows != [] {
      JoinCons(rows);
      SplitFirstLine(rows[0], Join(rows[1..]));
      SplitJoin(rows[1..]);
    }
  }

  /** A string of digits is its own stripped form and is kept whole. */
  lemma KeptDigits(line: string)
    requires IsDigitString(line)
    ensures Kept(line) == [line]
  {
    assert !IsSpace(line[0]) && !IsSpace(line[|line| - 1]);
  }

  lemma KeptSnocDigits(init: seq<string>, last: string)
    requires IsDigitString(last)
    ensures KeptLines(init + [last]) == KeptLines(init) + [last]
  {
    KeptDigits(last);
    assert (init + [last])[..|init|] == init;
  }

  /** Rows of digits pass the filter unchanged. */
  lemma {:induction false} KeptAllDigits(rows: seq<string>)
    requires forall k :: 0 <= k < |rows| ==> IsDigitString(rows[k])
    ensures KeptLines(rows) == rows
    decreases |rows|
  {
    if rows != [] {
      var init, last := rows[..|rows| - 1], rows[|rows| - 1];
      assert init + [last] == rows;
      KeptAllDigits(init);
      KeptSnocDigits(init, last);
    }
  }

  /** Reading back the text of digit rows yields exactly those rows. */
  lemma ReadBack(rows: seq<string>)
    requires forall k :: 0 <= k < |rows| ==> IsDigitString(rows[k])
    ensures KeptLines(SplitLines(Join(rows))) == rows
  {
    forall k, j | 0 <= k < |rows| && 0 <= j < |rows[k]| ensures !IsLineBreak(rows[k][j]) {
      DigitIsNotBreak(rows[k][j]);
    }
    SplitJoin(rows);
    KeptAllDigits(rows);
  }

  lemma DigitIsNotBreak(c: char)
    requires '0' <= c <= '9'
    ensures !IsLineBreak(c)
  {
  }

  // ---- the cells ----

  /** int() of one ASCII digit. */
  function DigitValue(c: char): int {
    c as int - '0' as int
  }

  /** The cell the factory makes from digit `d` at (row, column) of a board of size `n`: a clue
      for a non-zero digit, an editable empty cell for zero. */
  function FactoryCell(row: int, column: int, d: int, n: int): Result<Cell> {
    if d != 0 then NewCell(row, column, false, d, n) else NewCell(row, column, true, 0, n)
  }

  lemma FactoryCellOk(row: int, column: int, d: int, n: int, x: Cell)
    requires 0 <= row < n && 0 <= column < n && 0 <= d
    requires FactoryCell(row, column, d, n) == Success(x)
    ensures CellOk(n, x) && x.row == row && x.column == column
    ensures x.value == d && x.editable == (d == 0)
  {
  }

  /** The cell the factory makes from digit character `c` at (i, j) on a board of size `n`: an
      editable empty cell with every value of 1..n as candidate for '0', otherwise a clue holding
      the digit, with no candidate. */
  function LinesCell(i: int, j: int, c: char, n: int): Cell {
    if c == '0' then Cell(i, j, true, 0, Range(1, n)) else Cell(i, j, false, DigitValue(c), {})
  }

  /** The grid the factory's cell loops build from square digit lines, cell by cell. */
  function LinesGrid(lines: seq<string>): (g: Grid)
    requires forall k :: 0 <= k < |lines| ==> |lines[k]| == |lines|
    ensures IsGrid(|lines|, g)
    ensures forall i, j :: 0 <= i < |lines| && 0 <= j < |lines| ==> g[i][j] == LinesCell(i, j, lines[i][j], |lines|)
  {
    var n := |lines|;
    seq(n, i requires 0 <= i < n => seq(n, j requires 0 <= j < n => LinesCell(i, j, lines[i][j], n)))
  }

  /** A cell the factory's constructor accepts from a digit character is that character's cell. */
  lemma FactoryCellIs(i: int, j: int, c: char, n: int, x: Cell)
    requires '0' <= c <= '9'
    requires FactoryCell(i, j, DigitValue(c), n) == Success(x)
    ensures x == LinesCell(i, j, c, n)
  {
  }

  /** Every line is as long as there are lines, and that count is a possible size. */
  predicate WellSized(lines: seq<string>) {
    |lines| in PossibleSizes && forall k :: 0 <= k < |lines| ==> |lines[k]| == |lines|
  }

  /** No digit exceeds the board size. */
  predicate DigitsFit(lines: seq<string>) {
    forall i, j :: 0 <= i < |lines| && 0 <= j < |lines[i]| ==> DigitValue(lines[i][j]) <= |lines|
  }

  /** The factory's cell loops: row by row, each digit becomes its cell; a digit above the size
      is refused by the cell constructor. */
  method BuildCells(lines: seq<string>) returns (r: Result<Grid>)
    requires forall k :: 0 <= k < |lines| ==> |lines[k]| == |lines| && IsDigitString(lines[k])
    ensures r.Success? <==> DigitsFit(lines)
    ensures r.Failure? ==> r.error == InvalidValue
    ensures r.Success? ==>
      && WellFormed(|lines|, r.value)
      && r.value == LinesGrid(lines)
      && forall i, j :: 0 <= i < |lines| && 0 <= j < |lines| ==>
           r.value[i][j].value == DigitValue(lines[i][j]) && r.value[i][j].editable == (lines[i][j] == '0')
  {
    var n := |lines|;
    var grid: Grid := [];
    for row := 0 to n
      invariant |grid| == row
      invariant forall i, j :: 0 <= i < row && 0 <= j < n ==> DigitValue(lines[i][j]) <= n
      invariant forall i :: 0 <= i < row ==> |grid[i]| == n
      invariant forall i, j :: 0 <= i < row && 0 <= j < n ==>
        FactoryCell(i, j, DigitValue(lines[i][j]), n) == Success(grid[i][j])
    {
      var cells: seq<Cell> := [];
      for column := 0 to n
        invariant |cells| == column
        invariant forall j :: 0 <= j < column ==>
          DigitValue(lines[row][j]) <= n && FactoryCell(row, j, DigitValue(lines[row][j]), n) == Success(cells[j])
      {
        var cell := FactoryCell(row, column, DigitValue(lines[row][column]), n);
        if cell.Failure? {
          return Failure(cell.error);
        }
        cells := cells + [cell.value];
      }
      grid := grid + [cells];
    }
    forall i, j | 0 <= i < n && 0 <= j < n
      ensures CellOk(n, grid[i][j]) && grid[i][j].row == i && grid[i][j].column == j
      ensures grid[i][j].value == DigitValue(lines[i][j]) && grid[i][j].editable == (lines[i][j] == '0')
    {
      FactoryCellOk(i, j, DigitValue(lines[i][j]), n, grid[i][j]);
      FactoryCellIs(i, j, lines[i][j], n, grid[i][j]);
    }
    assert forall i | 0 <= i < n :: grid[i] == LinesGrid(lines)[i];
    return Success(grid);
  }

  /** A row of cells holding the digits of `line` is written out as `line`. */
  lemma {:induction false} RowStringDigits(row: seq<Cell>, line: string)
    requires |row| == |line|
    requires forall j :: 0 <= j < |line| ==> '0' <= line[j] <= '9' && row[j].value == DigitValue(line[j])
    ensures RowString(row) == line
    decreases |row|
  {
    if row != [] {
      var k := |row| - 1;
      RowStringDigits(row[..k], line[..k]);
      assert IntString(row[k].value) == [line[k]];
      assert line[..k] + [line[k]] == line;
    }
  }

  /** A grid holding the digits of `lines` is written out as those lines. */
  lemma {:induction false} RenderDigits(g: Grid, lines: seq<string>)
    requires |g| == |lines|
    requires forall i :: 0 <= i < |g| ==> |g[i]| == |lines[i]|
    requires forall i, j :: 0 <= i < |g| && 0 <= j < |lines[i]| ==>
      '0' <= lines[i][j] <= '9' && g[i][j].value == DigitValue(lines[i][j])
    ensures Render(g) == Join(lines)
    decreases |g|
  {
    if g != [] {
      var k := |g| - 1;
      RenderDigits(g[..k], lines[..k]);
      RowStringDigits(g[k], lines[k]);
    }
  }

  /** The factory's format loop: every line must be as long as there are lines, and that count
      must be a possible size; with no line there is nothing to check. */
  method CheckFormat(lines: seq<string>) returns (ok: bool)
    ensures ok <==> lines == [] || WellSized(lines)
  {
    var size := |lines|;
    for k := 0 to |lines|
      invariant forall i :: 0 <= i < k ==> |lines[i]| == size && size in PossibleSizes
    {
      if |lines[k]| != size || size !in PossibleSizes {
        return false;
      }
    }
    if lines != [] {
      assert |lines[0]| == size;
    }
    return true;
  }

  /** Each possible size is tiled by its boxes. */
  lemma PossibleShapes(size: int)
    requires size in PossibleSizes
    ensures Supported(Shape(size, PossibleSizes[size].0, PossibleSizes[size].1))
  {
  }

  /** The board create_from_string builds from well-sized digit lines: valid, of that size, with
      the box shape listed for it and an empty history; every cell holds its line's digit and is
      a clue exactly where the digit is non-zero; the candidates are those of the factory's cells
      narrowed against every region; and the board writes out as the lines. */
  ghost predicate FactoryBoard(b: Sudoku, lines: seq<string>)
    reads b, b.history
  {
    && WellSized(lines) && b.Valid()
    && b.size == |lines| && (b.rectWidth, b.rectHeight) == PossibleSizes[|lines|]
    && b.history.undo == [] && b.history.redo == []
    && (forall i, j :: 0 <= i < b.size && 0 <= j < b.size ==>
          b.cells[i][j].value == DigitValue(lines[i][j]) && b.cells[i][j].editable == (lines[i][j] == '0'))
    && b.cells == NarrowAll(b.size, LinesGrid(lines), b.regions, |b.regions|)
    && Render(b.cells) == Join(lines)
  }

  /** create_from_string once the digit lines are known. With no line the size lookup fails; a
      line whose length is not the number of lines, or a count that is not a possible size, is a
      format error; a digit above the size is refused by the cell constructor. Otherwise the
      board has one row per line, clues where the digits are non-zero, an empty history, and its
      text is the lines each followed by a newline. */
  method FromLines(lines: seq<string>) returns (r: Result<Sudoku>)
    requires forall k :: 0 <= k < |lines| ==> IsDigitString(lines[k])
    ensures lines == [] ==> r == Failure(UnknownSize)
    ensures lines != [] && !WellSized(lines) ==> r == Failure(InvalidFormat)
    ensures lines != [] && WellSized(lines) && !DigitsFit(lines) ==> r == Failure(InvalidValue)
    ensures r.Success? <==> lines != [] && WellSized(lines) && DigitsFit(lines)
    ensures r.Success? ==> fresh(r.value) && fresh(r.value.history) && FactoryBoard(r.value, lines)
  {
    var size := |lines|;
    var ok := CheckFormat(lines);
    if !ok {
      return Failure(InvalidFormat);
    }
    var cells := BuildCells(lines);
    if cells.Failure? {
      return Failure(cells.error);
    }
    if size !in PossibleSizes {
      return Failure(UnknownSize);
    }
    var b := NewBoard(lines, cells.value);
    return Success(b);
  }

  /** The last step of create_from_string: the board built from the cells of well-sized lines,
      with the shape listed for its size. */
  method NewBoard(lines: seq<string>, cells: Grid) returns (b: Sudoku)
    requires lines != [] && WellSized(lines) && WellFormed(|lines|, cells)
    requires forall k :: 0 <= k < |lines| ==> IsDigitString(lines[k])
    requires forall i, j :: 0 <= i < |lines| && 0 <= j < |lines| ==>
      cells[i][j].value == DigitValue(lines[i][j]) && cells[i][j].editable == (lines[i][j] == '0')
    ensures fresh(b) && fresh(b.history) && b.Valid()
    ensures b.size == |lines| && (b.rectWidth, b.rectHeight) == PossibleSizes[|lines|]
    ensures b.history.undo == [] && b.history.redo == []
    ensures forall i, j :: 0 <= i < b.size && 0 <= j < b.size ==>
      b.cells[i][j].value == DigitValue(lines[i][j]) && b.cells[i][j].editable == (lines[i][j] == '0')
    ensures b.cells == NarrowAll(b.size, cells, b.regions, |b.regions|)
    ensures Render(b.cells) == Join(lines)
    ensures cells == LinesGrid(lines) ==> FactoryBoard(b, lines)
  {
    var size := |lines|;
    PossibleShapes(size);
    var (w, h) := PossibleSizes[size];
    b := new Sudoku.FromCells(cells, w, h);
    NarrowedDigits(size, cells, b.cells, lines);
  }

  /** Narrowing the candidates keeps every digit and flag, so the board still writes out as its
      lines. */
  lemma NarrowedDigits(n: nat, cells: Grid, g: Grid, lines: seq<string>)
    requires IsGrid(n, cells) && IsGrid(n, g) && Shrinks(n, cells, g) && |lines| == n
    requires forall k :: 0 <= k < n ==> |lines[k]| == n && IsDigitString(lines[k])
    requires forall i, j :: 0 <= i < n && 0 <= j < n ==>
      cells[i][j].value == DigitValue(lines[i][j]) && cells[i][j].editable == (lines[i][j] == '0')
    ensures forall i, j :: 0 <= i < n && 0 <= j < n ==>
      g[i][j].value == DigitValue(lines[i][j]) && g[i][j].editable == (lines[i][j] == '0')
    ensures Render(g) == Join(lines)
  {
    RenderDigits(g, lines);
  }

  /** create_from_string: the digit lines of the text, then the board they describe. */
  method CreateFromString(text: string) returns (r: Result<Sudoku>)
    ensures var lines := KeptLines(SplitLines(text));
      && (lines == [] ==> r == Failure(UnknownSize))
      && (lines != [] && !WellSized(lines) ==> r == Failure(InvalidFormat))
      && (lines != [] && WellSized(lines) && !DigitsFit(lines) ==> r == Failure(InvalidValue))
      && (r.Success? <==> lines != [] && WellSized(lines) && DigitsFit(lines))
    ensures r.Success? ==>
      fresh(r.value) && fresh(r.value.history) && FactoryBoard(r.value, KeptLines(SplitLines(text)))
  {
    var lines := DigitLines(text);
    r := FromLines(lines);
  }
}
