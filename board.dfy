/** The Sudoku board: the grid of cells, the regions built over it and the action history, with
    the operations the patterns, the solver and a user interface call. */
module Board {
  import opened Wrappers
  import opened Cells
  import opened Layout
  import opened History
  import opened Grids
  import opened Regions

  // ---- building the regions ----

  /** The constructor's first loop: each cell joins the region of its row and the region of its
      column. */
  method RowsAndColumns(n: nat, regs0: seq<seq<Pos>>) returns (regs: seq<seq<Pos>>)
    requires |regs0| == 3 * n && forall k :: 0 <= k < |regs0| ==> regs0[k] == []
    ensures |regs| == 3 * n
    ensures forall k :: 0 <= k < n ==> regs[k] == RowRegion(n, k)
    ensures forall k :: n <= k < 2 * n ==> regs[k] == ColumnRegion(n, k - n)
    ensures forall k :: 2 * n <= k < 3 * n ==> regs[k] == []
  {
    regs := regs0;
    for row := 0 to n
      invariant |regs| == 3 * n
      invariant forall k :: 0 <= k < row ==> regs[k] == RowRegion(n, k)
      invariant forall k :: row <= k < n ==> regs[k] == []
      invariant forall k :: n <= k < 2 * n ==> regs[k] == ColumnRegion(row, k - n)
      invariant forall k :: 2 * n <= k < 3 * n ==> regs[k] == []
    {
      regs := AddRow(n, regs, row);
    }
  }

  /** One pass of the constructor's inner loop: the cells of `row` join their row and column
      regions. */
  method AddRow(n: nat, regs0: seq<seq<Pos>>, row: nat) returns (regs: seq<seq<Pos>>)
    requires |regs0| == 3 * n && row < n
    requires regs0[row] == []
    requires forall k :: n <= k < 2 * n ==> regs0[k] == ColumnRegion(row, k - n)
    ensures |regs| == 3 * n
    ensures regs[row] == RowRegion(n, row)
    ensures forall k :: n <= k < 2 * n ==> regs[k] == ColumnRegion(row + 1, k - n)
    ensures forall k :: 0 <= k < 3 * n && k != row && !(n <= k < 2 * n) ==> regs[k] == regs0[k]
  {
    regs := regs0;
    for col := 0 to n
      invariant |regs| == 3 * n
      invariant regs[row] == RowRegion(col, row)
      invariant forall k :: n <= k < n + col ==> regs[k] == ColumnRegion(row + 1, k - n)
      invariant forall k :: n + col <= k < 2 * n ==> regs[k] == ColumnRegion(row, k - n)
      invariant forall k :: 0 <= k < 3 * n && k != row && !(n <= k < 2 * n) ==> regs[k] == regs0[k]
    {
      RowRegionGrow(col, row);
      ColumnRegionGrow(row, col);
      assert Pos(row, col) !in regs[row];
      regs := regs[row := Add(regs[row], Pos(row, col))];
      assert Pos(row, col) !in regs[n + col];
      regs := regs[n + col := Add(regs[n + col], Pos(row, col))];
    }
  }

  /** The constructor's innermost loops: the cells of rows `x0 .. x0 + count - 1`, columns
      `y0 .. y0 + w - 1` join region `reg`, row by row. */
  method FillBox(regs0: seq<seq<Pos>>, reg: nat, x0: int, count: nat, y0: int, w: nat)
    returns (regs: seq<seq<Pos>>)
    requires reg < |regs0| && regs0[reg] == []
    ensures |regs| == |regs0| && regs[reg] == BoxRows(x0, count, y0, w)
    ensures forall k :: 0 <= k < |regs| && k != reg ==> regs[k] == regs0[k]
  {
    regs := regs0;
    for x := x0 to x0 + count
      invariant |regs| == |regs0| && regs[reg] == BoxRows(x0, x - x0, y0, w)
      invariant forall k :: 0 <= k < |regs| && k != reg ==> regs[k] == regs0[k]
    {
      for y := y0 to y0 + w
        invariant |regs| == |regs0|
        invariant regs[reg] == BoxRows(x0, x - x0, y0, w) + seq(y - y0, j => Pos(x, y0 + j))
        invariant forall k :: 0 <= k < |regs| && k != reg ==> regs[k] == regs0[k]
      {
        BoxRowsFacts(x0, x - x0, y0, w);
        assert Pos(x, y) !in regs[reg];
        regs := regs[reg := Add(regs[reg], Pos(x, y))];
        assert seq(y + 1 - y0, j => Pos(x, y0 + j)) == seq(y - y0, j => Pos(x, y0 + j)) + [Pos(x, y)];
      }
      assert seq(w, j => Pos(x, y0 + j)) == seq(w, j => Pos(x0 + (x + 1 - x0) - 1, y0 + j));
    }
  }

  /** The boxes of one value of `x_start`, in the order of `y_start`: the box visited at
      `y_start = j` covers rows `xs * ws .. xs * ws + ws - 1`, columns `j * hs .. j * hs + hs - 1`. */
  function Band(xs: int, ws: nat, hs: nat, count: nat): seq<seq<Pos>> {
    seq(count, j => BoxRows(xs * ws, ws, j * hs, hs))
  }

  /** The middle loop of the constructor's box loops: for each `y_start` the next region is
      filled with its box. */
  method FillBand(regs0: seq<seq<Pos>>, reg0: int, xs: nat, ws: nat, hs: nat)
    returns (regs: seq<seq<Pos>>, reg: int)
    requires -1 <= reg0 && reg0 + 1 + ws <= |regs0|
    requires forall k :: reg0 + 1 <= k < |regs0| ==> regs0[k] == []
    ensures reg == reg0 + ws && |regs| == |regs0|
    ensures regs[..reg0 + 1] == regs0[..reg0 + 1]
    ensures regs[reg0 + 1 .. reg + 1] == Band(xs, ws, hs, ws)
    ensures forall k :: reg + 1 <= k < |regs| ==> regs[k] == []
  {
    regs, reg := regs0, reg0;
    for ys := 0 to ws
      invariant reg == reg0 + ys && |regs| == |regs0|
      invariant regs[..reg0 + 1] == regs0[..reg0 + 1]
      invariant regs[reg0 + 1 .. reg + 1] == Band(xs, ws, hs, ys)
      invariant forall k :: reg + 1 <= k < |regs| ==> regs[k] == []
    {
      reg := reg + 1;
      ghost var before := regs;
      regs := FillBox(regs, reg, xs * ws, ws, ys * hs, hs);
      assert regs[..reg0 + 1] == before[..reg0 + 1];
      assert regs[reg0 + 1 .. reg] == before[reg0 + 1 .. reg];
      assert regs[reg0 + 1 .. reg + 1] == regs[reg0 + 1 .. reg] + [regs[reg]];
      assert Band(xs, ws, hs, ys + 1) == Band(xs, ws, hs, ys) + [BoxRows(xs * ws, ws, ys * hs, hs)];
    }
  }

  /** The constructor's region list: `n` rows, `n` columns and `n * n / (w * h)` boxes, created
      empty and filled by the constructor's loops; it is exactly the layout's region list. */
  method BuildRegions(sh: Shape) returns (regs: seq<seq<Pos>>)
    requires Supported(sh)
    ensures regs == Layout.Regions(sh)
  {
    var n := sh.n;
    DivUnique(n * n, n, n);
    var rectangles := (n * n) / (sh.w * sh.h);
    regs := seq(n + n + rectangles, _ => []);
    regs := RowsAndColumns(n, regs);
    ghost var lines := seq(n, r => RowRegion(n, r)) + seq(n, c => ColumnRegion(n, c));
    assert regs[..2 * n] == lines;
    DivUnique(n, sh.h, sh.w);
    DivUnique(n, sh.w, sh.h);
    var widthSize := n / sh.w;
    var heightSize := n / sh.h;
    var reg := n * 2 - 1;
    var xs := 0;
    while xs < heightSize
      invariant xs <= heightSize
      invariant |regs| == 3 * n && reg == 2 * n - 1 + xs * sh.h
      invariant xs * sh.h <= n
      invariant regs[..reg + 1] == lines + Boxes(sh, xs)
      invariant forall k :: reg + 1 <= k < 3 * n ==> regs[k] == []
    {
      MulLe(xs + 1, sh.w, sh.h);
      assert (xs + 1) * sh.h == xs * sh.h + sh.h;
      ghost var reg0 := reg;
      ghost var before := regs;
      regs, reg := FillBand(regs, reg, xs, widthSize, heightSize);
      assert Band(xs, sh.h, sh.w, sh.h) == seq(sh.h, ys => BoxRegion(sh, xs, ys));
      assert regs[..reg + 1] == regs[..reg0 + 1] + regs[reg0 + 1 .. reg + 1];
      xs := xs + 1;
    }
    assert regs[..3 * n] == regs;
  }

  // ---- the board ----

  /** Sudoku: the grid of cells, the regions (rows, then columns, then boxes), the shape of a box
      and the log of performed writes. A region lists positions; the board's cells are its one
      copy of the cell data. */
  class Sudoku {
    const size: nat
    const rectWidth: nat
    const rectHeight: nat
    const regions: seq<seq<Pos>>
    const history: UndoRedo
    var cells: Grid

    function BoxShape(): Shape {
      Shape(size, rectWidth, rectHeight)
    }

    /** The regions are the layout's, and the grid is `size` by `size`. */
    ghost predicate Shaped()
      reads this
    {
      && Supported(BoxShape())
      && regions == Layout.Regions(BoxShape())
      && RegionsOk(size, regions)
      && IsGrid(size, cells)
    }

    /** Every cell well formed and no empty cell offering a value placed in one of its regions. */
    ghost predicate Valid()
      reads this
    {
      Shaped() && WellFormed(size, cells) && Consistent(size, regions, cells)
    }

    /** Sudoku(size, None, rect_width, rect_height): an empty board, each cell editable with every
        value of 1..size as candidate. */
    constructor Empty(size: nat, rectWidth: nat, rectHeight: nat)
      requires Supported(Shape(size, rectWidth, rectHeight))
      ensures Valid() && fresh(history) && history.undo == [] && history.redo == []
      ensures this.size == size && this.rectWidth == rectWidth && this.rectHeight == rectHeight
      ensures forall r, c :: 0 <= r < size && 0 <= c < size ==> cells[r][c] == Cell(r, c, true, 0, Range(1, size))
    {
      this.size := size;
      this.rectWidth := rectWidth;
      this.rectHeight := rectHeight;
      cells := seq(size, r requires 0 <= r < size =>
        seq(size, c requires 0 <= c < size => NewCell(r, c, true, 0, size).value));
      history := new UndoRedo();
      var regs := BuildRegions(Shape(size, rectWidth, rectHeight));
      regions := regs;
      new;
      RegionsAreOk(BoxShape());
      ghost var g0: Grid := cells;
      assert Blank(size, g0);
      UpdateAllRegions();
      NarrowAllBlank(size, g0, regions, |regions|);
    }

    /** Sudoku(cells=cells, rect_width, rect_height): the board takes the given cells, builds its
        regions over them and narrows every candidate set against the values already placed. */
    constructor FromCells(cells: Grid, rectWidth: nat, rectHeight: nat)
      requires Supported(Shape(|cells|, rectWidth, rectHeight)) && WellFormed(|cells|, cells)
      ensures Valid() && fresh(history) && history.undo == [] && history.redo == []
      ensures size == |cells| && this.rectWidth == rectWidth && this.rectHeight == rectHeight
      ensures this.cells == NarrowAll(|cells|, cells, regions, |regions|)
      ensures Shrinks(size, cells, this.cells)
    {
      this.size := |cells|;
      this.rectWidth := rectWidth;
      this.rectHeight := rectHeight;
      this.cells := cells;
      history := new UndoRedo();
      var regs := BuildRegions(Shape(|cells|, rectWidth, rectHeight));
      regions := regs;
      new;
      RegionsAreOk(BoxShape());
      UpdateAllRegions();
      NarrowAllEffect(size, cells, regions, |regions|);
    }

    /** copy.deepcopy of a board: the same cells, regions and shape, and a history of its own
        holding the same actions. */
    constructor Copy(other: Sudoku)
      requires other.Valid()
      ensures Valid() && fresh(history)
      ensures size == other.size && rectWidth == other.rectWidth && rectHeight == other.rectHeight
      ensures regions == other.regions && cells == other.cells
      ensures history.undo == other.history.undo && history.redo == other.history.redo
    {
      size := other.size;
      rectWidth := other.rectWidth;
      rectHeight := other.rectHeight;
      regions := other.regions;
      cells := other.cells;
      history := new UndoRedo.Copy(other.history);
    }

    /** get_cell_value: the value at (row, column), between 0 and the board size; off the board
        the range check fails. */
    function GetCellValue(row: int, column: int): (r: Result<int>)
      reads this
      requires Valid()
      ensures r.Success? <==> InBounds(size, Pos(row, column))
      ensures !r.Success? ==> r.error == OutOfRange
      ensures r.Success? ==> 0 <= r.value <= size && (r.value == 0 <==> cells[row][column].value == 0)
    {
      if 0 <= row < size && 0 <= column < size then Success(cells[row][column].value) else Failure(OutOfRange)
    }

    /** get_cell_possibilities: the candidates at (row, column), a subset of 1..size that is empty
        for a filled cell; off the board the range check fails. */
    function GetCellPossibilities(row: int, column: int): (r: Result<set<int>>)
      reads this
      requires Valid()
      ensures r.Success? <==> InBounds(size, Pos(row, column))
      ensures !r.Success? ==> r.error == OutOfRange
      ensures r.Success? ==> r.value <= Range(1, size)
      ensures r.Success? && r.value != {} ==> cells[row][column].value == 0 && cells[row][column].editable
    {
      if 0 <= row < size && 0 <= column < size then
        assert CellOk(size, cells[row][column]);
        Success(cells[row][column].cands)
      else Failure(OutOfRange)
    }

    /** is_editable as written: the guard tests the range-check method itself, which is always
        true, so the check never runs; indexing then wraps around for indices in -size..-1 and
        fails only beyond either end. */
    function IsEditableAsWritten(row: int, column: int): (r: Result<bool>)
      reads this
      requires Valid()
      ensures r.Success? <==> -(size as int) <= row < size && -(size as int) <= column < size
      ensures !r.Success? ==> r.error == IndexOutOfRange
      ensures r.Success? ==> r.value == cells[(row + size) % size][(column + size) % size].editable
    {
      if -(size as int) <= row < size && -(size as int) <= column < size then
        DivUnique(row + size, if row < 0 then 0 else 1, size);
        DivUnique(column + size, if column < 0 then 0 else 1, size);
        Success(cells[if row < 0 then row + size else row][if column < 0 then column + size else column].editable)
      else Failure(IndexOutOfRange)
    }

    /** is_editable as intended: off the board the range check fails, as for the other getters. */
    function IsEditable(row: int, column: int): (r: Result<bool>)
      reads this
      requires Valid()
      ensures r.Success? <==> InBounds(size, Pos(row, column))
      ensures !r.Success? ==> r.error == OutOfRange
      ensures r.Success? ==> r.value == cells[row][column].editable
      ensures r.Success? ==> (!r.value ==> GetCellValue(row, column).value != 0)
    {
      if 0 <= row < size && 0 <= column < size then
        assert CellOk(size, cells[row][column]);
        Success(cells[row][column].editable)
      else Failure(OutOfRange)
    }

    /** The two disagree at (-1, -1): as written it answers for the bottom-right cell, where the
        intended range check fails. */
    lemma EditableWrapsAround()
      requires Valid() && size > 0
      ensures IsEditableAsWritten(-1, -1) == Success(cells[size - 1][size - 1].editable)
      ensures IsEditable(-1, -1) == Failure(OutOfRange)
    { }

    /** Region.remove_possible_value_if_cell_is_in_region for region `k`: when `p` lies in the
        region, every cell of the region loses candidate `v`. */
    method RemoveIfInRegion(k: nat, p: Pos, v: int)
      requires Shaped() && k < |regions|
      modifies this
      ensures Shaped()
      ensures forall i, j :: 0 <= i < size && 0 <= j < size ==>
        cells[i][j] == if p in regions[k] && Pos(i, j) in regions[k]
                       then RemoveCandidate(old(cells)[i][j], v) else old(cells)[i][j]
    {
      if p in regions[k] {
        var region := regions[k];
        ghost var g0: Grid := cells;
        var i := 0;
        while i < |region|
          invariant i <= |region| && Shaped()
          invariant forall r, c :: 0 <= r < size && 0 <= c < size ==>
            cells[r][c] == if Pos(r, c) in region[..i] then RemoveCandidate(g0[r][c], v) else g0[r][c]
        {
          var q := region[i];
          assert InBounds(size, q) && q !in region[..i];
          cells := cells[q.r := cells[q.r][q.c := RemoveCandidate(cells[q.r][q.c], v)]];
          assert region[..i + 1] == region[..i] + [q];
          i := i + 1;
        }
        assert region[..|region|] == region;
      }
    }

    /** _remove_possible_value: every region holding `p` strikes `v` from all its cells, so every
        cell sharing a region with `p` loses candidate `v`. */
    method RemovePossibleValue(p: Pos, v: int)
      requires Shaped()
      modifies this
      ensures Shaped()
      ensures cells == RemoveAround(regions, old(cells), p, v)
    {
      ghost var g0: Grid := cells;
      for k := 0 to |regions|
        invariant Shaped()
        invariant forall i, j :: 0 <= i < size && 0 <= j < size ==>
          cells[i][j] == if Peers(regions[..k], p, Pos(i, j)) then RemoveCandidate(g0[i][j], v) else g0[i][j]
      {
        ghost var before := cells;
        RemoveIfInRegion(k, p, v);
        forall i, j | 0 <= i < size && 0 <= j < size
          ensures cells[i][j] == if Peers(regions[..k + 1], p, Pos(i, j)) then RemoveCandidate(g0[i][j], v) else g0[i][j]
        {
          PeersPrefix(regions, k, p, Pos(i, j));
          if Peers(regions[..k], p, Pos(i, j)) && p in regions[k] && Pos(i, j) in regions[k] {
            assert RemoveCandidate(g0[i][j], v).cands - {v} == RemoveCandidate(g0[i][j], v).cands;
          }
        }
      }
      assert regions[..|regions|] == regions;
      var r := RemoveAround(regions, g0, p, v);
      forall i | 0 <= i < size ensures cells[i] == r[i] {
      }
    }

    /** set_cell_value: off the board the range check fails and a refusing cell setter fails,
        both before any change; otherwise the cell takes the value, every cell sharing a region
        with it loses that value as candidate, and the write is logged with the value it
        replaced. The board stays well formed and consistent. */
    method SetCellValue(row: int, column: int, value: int, tag: string) returns (out: Outcome)
      requires Valid()
      modifies this, history
      ensures Valid()
      ensures var res := Assign(size, regions, old(cells), row, column, value);
        && (res.Failure? ==>
              out == Fail(res.error) && cells == old(cells)
              && history.undo == old(history.undo) && history.redo == old(history.redo))
        && (res.Success? ==>
              out == Pass && cells == res.value
              && history.undo == old(history.undo) + [Action(row, column, old(cells)[row][column].value, value, tag)]
              && history.redo == [])
    {
      if !(0 <= row < size && 0 <= column < size) {
        return Fail(OutOfRange);
      }
      var cell := cells[row][column];
      var oldValue := cell.value;
      var written := SetValue(cell, value, size);
      if written.Failure? {
        return Fail(written.error);
      }
      ghost var g0: Grid := cells;
      cells := cells[row := cells[row][column := written.value]];
      RemovePossibleValue(Pos(row, column), value);
      history.AddAction(row, column, oldValue, value, tag);
      AssignKeepsInvariants(size, regions, g0, row, column, value);
      out := Pass;
    }

    /** Region.update_possible_values, first loop: the values 1..len that no cell of region `k`
        holds. */
    method AllowedIn(k: nat) returns (values: set<int>)
      requires Shaped() && k < |regions|
      ensures values == Allowed(RegionCells(size, cells, regions[k]))
    {
      var region := regions[k];
      values := Range(1, |region|);
      for i := 0 to |region|
        invariant forall v :: v in values <==>
          1 <= v <= |region| && forall j :: 0 <= j < i ==> At(cells, region[j]).value != v
      {
        assert InBounds(size, region[i]);
        var v := cells[region[i].r][region[i].c].value;
        if v in values {
          values := values - {v};
        }
      }
    }

    /** Region.update_possible_values, second loop: each empty cell of region `k` keeps only the
        candidates in `values`. */
    method IntersectIn(k: nat, values: set<int>)
      requires Shaped() && k < |regions|
      modifies this
      ensures Shaped()
      ensures forall r, c :: 0 <= r < size && 0 <= c < size ==>
        cells[r][c] == if Pos(r, c) in regions[k] && old(cells)[r][c].value == 0
                       then IntersectCandidates(old(cells)[r][c], values) else old(cells)[r][c]
    {
      var region := regions[k];
      ghost var g0: Grid := cells;
      for i := 0 to |region|
        invariant Shaped()
        invariant forall r, c :: 0 <= r < size && 0 <= c < size ==>
          cells[r][c] == if Pos(r, c) in region[..i] && g0[r][c].value == 0
                         then IntersectCandidates(g0[r][c], values) else g0[r][c]
      {
        var p := region[i];
        assert InBounds(size, p) && p !in region[..i];
        if cells[p.r][p.c].value == 0 {
          cells := cells[p.r := cells[p.r][p.c := IntersectCandidates(cells[p.r][p.c], values)]];
        }
        assert region[..i + 1] == region[..i] + [p];
      }
      assert region[..|region|] == region;
    }

    /** Region.update_possible_values for region `k`: gather the values 1..len that no cell of the
        region holds, then intersect the candidates of each empty cell of the region with them. */
    method UpdateRegion(k: nat)
      requires Shaped() && k < |regions|
      modifies this
      ensures Shaped()
      ensures cells == Narrow(size, old(cells), regions[k])
    {
      ghost var g0: Grid := cells;
      var values := AllowedIn(k);
      IntersectIn(k, values);
      var r := Narrow(size, g0, regions[k]);
      forall i | 0 <= i < size ensures cells[i] == r[i] {
      }
    }

    /** update_possible_values_in_all_regions: narrow every region in turn; afterwards no empty
        cell offers a value placed in one of its regions. */
    method UpdateAllRegions()
      requires Shaped() && WellFormed(size, cells)
      modifies this
      ensures Valid()
      ensures cells == NarrowAll(size, old(cells), regions, |regions|)
    {
      ghost var g0: Grid := cells;
      for k := 0 to |regions|
        invariant Shaped() && cells == NarrowAll(size, g0, regions, k)
      {
        UpdateRegion(k);
      }
      NarrowAllConsistent(size, g0, regions);
    }

    /** is_solved: true exactly when every region is solved, that is when every cell is filled and
        no region repeats a value. */
    method IsSolved() returns (b: bool)
      requires Valid()
      ensures b == BoardSolved(size, cells, regions)
      ensures b <==> (forall p :: InBounds(size, p) ==> At(cells, p).value != 0) && NoDuplicates(size, regions, cells)
    {
      b := AllSolved(size, cells, regions);
      BoardSolvedIff(size, cells, regions);
    }

    /** is_wrong: true exactly when some region reports a contradiction, that is when some empty
        cell has no candidate left or some region holds a value twice. */
    method IsWrong() returns (b: bool)
      requires Valid()
      ensures b == BoardWrong(size, cells, regions)
      ensures b <==> HasStarvedCell(size, cells) || !NoDuplicates(size, regions, cells)
    {
      b := AnyWrong(size, cells, regions);
      BoardWrongIff(size, cells, regions);
    }

    /** to_string: the values row by row, each row followed by a newline. */
    method ToString() returns (s: string)
      requires Valid()
      ensures s == Render(cells)
    {
      var g := cells;
      s := "";
      assert g[..0] == [];
      for i := 0 to size
        invariant s == Render(g[..i])
      {
        var line := RowText(g[i]);
        RenderSnoc(g, i);
        s := s + line + "\n";
      }
      assert g[..size] == g;
    }

    /** One pass of copy_from's loop: the write `L[i]` through set_cell_value, extending a replay
        of `L[start..i]` from `g0` that has led to the current board. */
    method ReplayOne(act: Action, ghost g0: Grid, ghost log0: seq<Action>, ghost redo0: seq<Action>,
                     ghost L: seq<Action>, ghost start: nat, ghost i: nat)
      returns (out: Outcome)
      requires Valid() && IsGrid(size, g0)
      requires start <= i < |L| && act == L[i]
      requires Replayed(size, regions, g0, log0, redo0, L[start..i], cells, history.undo, history.redo)
      modifies this, history
      ensures Valid()
      ensures out.Pass? ==>
        Replayed(size, regions, g0, log0, redo0, L[start..i + 1], cells, history.undo, history.redo)
      ensures out.Fail? ==> Copied(size, regions, g0, log0, redo0, L[start..], cells, history.undo, history.redo, out)
    {
      ghost var before: Grid := cells;
      ghost var logBefore := history.undo;
      out := SetCellValue(act.row, act.column, act.value, act.tag);
      ReplayNext(size, regions, g0, log0, L, start, i, before, logBefore, cells, history.undo, out);
      if out.Fail? {
        CopiedStops(size, regions, g0, log0, redo0, L[start..], cells, history.undo, history.redo, out.error);
      }
    }

    /** copy_from: repeat through set_cell_value, in order, the actions `src` logged beyond this
        board's own history length. When every write is accepted the grid is the replay's result
        and the history grows by the replayed writes; the first refused write ends the copy with
        that write's error. */
    method CopyFrom(src: Sudoku) returns (out: Outcome)
      requires Valid() && src.history != history
      modifies this, history
      ensures Valid()
      ensures Copied(size, regions, old(cells), old(history.undo), old(history.redo),
                     Beyond(old(history.undo), src.history.undo), cells, history.undo, history.redo, out)
    {
      var start := history.UndoLength();
      var L := src.history.undo;
      if start > |L| {
        CopiedNothing(size, regions, cells, history.undo, history.redo);
        return Pass;
      }
      out := ReplayFrom(L, start);
    }

    /** The loop of copy_from over the actions `L[start..]`. */
    method ReplayFrom(L: seq<Action>, start: nat) returns (out: Outcome)
      requires Valid() && start <= |L|
      modifies this, history
      ensures Valid()
      ensures Copied(size, regions, old(cells), old(history.undo), old(history.redo), L[start..],
                     cells, history.undo, history.redo, out)
    {
      ghost var g0: Grid := cells;
      ghost var log0 := history.undo;
      ghost var redo0 := history.redo;
      assert log0 + [] == log0;
      assert L[start..start] == [];
      var i := start;
      while i < |L|
        invariant Valid() && start <= i <= |L|
        invariant Replayed(size, regions, g0, log0, redo0, L[start..i], cells, history.undo, history.redo)
        decreases |L| - i
      {
        out := ReplayOne(L[i], g0, log0, redo0, L, start, i);
        if out.Fail? {
          return;
        }
        i := i + 1;
      }
      assert L[start..i] == L[start..];
      CopiedAll(size, regions, g0, log0, redo0, L[start..], cells, history.undo, history.redo);
      out := Pass;
    }
  }

  /** The actions of `log` beyond the first |own| ones (none when `log` is the shorter). */
  function Beyond(own: seq<Action>, log: seq<Action>): seq<Action> {
    if |own| <= |log| then log[|own|..] else []
  }

  /** What copy_from leaves: replaying `acts` from `g0` either succeeds, and the board and the
      history are the replay's, or stops at a refused write, whose error is the outcome; the
      writes accepted before it stay applied and logged. The redo list is emptied by any
      accepted write and kept when there is none. */
  ghost predicate Copied(n: nat, regs: seq<seq<Pos>>, g0: Grid, log0: seq<Action>, redo0: seq<Action>,
                         acts: seq<Action>, g: Grid, log: seq<Action>, redo: seq<Action>, out: Outcome)
    requires IsGrid(n, g0)
  {
    var res := Replay(n, regs, g0, acts);
    && (res.Success? ==> out == Pass && g == res.value && log == log0 + Relog(n, regs, g0, acts))
    && (res.Failure? ==>
          out == Fail(res.error) && g == Reached(n, regs, g0, acts) && log == log0 + Relog(n, regs, g0, acts))
    && redo == RedoAfter(Relog(n, regs, g0, acts), redo0)
  }

  lemma CopiedStops(n: nat, regs: seq<seq<Pos>>, g0: Grid, log0: seq<Action>, redo0: seq<Action>,
                    acts: seq<Action>, g: Grid, log: seq<Action>, redo: seq<Action>, e: Error)
    requires IsGrid(n, g0) && Replay(n, regs, g0, acts) == Failure(e)
    requires g == Reached(n, regs, g0, acts) && log == log0 + Relog(n, regs, g0, acts)
    requires redo == RedoAfter(Relog(n, regs, g0, acts), redo0)
    ensures Copied(n, regs, g0, log0, redo0, acts, g, log, redo, Fail(e))
  {
  }

  /** Replaying `acts` from `g0` has accepted every write: the board is the replay's result, the
      history grew by the logged writes, and the redo list is what recording them leaves. */
  ghost predicate Replayed(n: nat, regs: seq<seq<Pos>>, g0: Grid, log0: seq<Action>, redo0: seq<Action>,
                           acts: seq<Action>, g: Grid, log: seq<Action>, redo: seq<Action>)
    requires IsGrid(n, g0)
  {
    && Replay(n, regs, g0, acts) == Success(g)
    && log == log0 + Relog(n, regs, g0, acts)
    && redo == RedoAfter(Relog(n, regs, g0, acts), redo0)
  }

  lemma CopiedAll(n: nat, regs: seq<seq<Pos>>, g0: Grid, log0: seq<Action>, redo0: seq<Action>,
                  acts: seq<Action>, g: Grid, log: seq<Action>, redo: seq<Action>)
    requires IsGrid(n, g0) && Replayed(n, regs, g0, log0, redo0, acts, g, log, redo)
    ensures Copied(n, regs, g0, log0, redo0, acts, g, log, redo, Pass)
  {
  }

  lemma CopiedNothing(n: nat, regs: seq<seq<Pos>>, g: Grid, log: seq<Action>, redo: seq<Action>)
    requires IsGrid(n, g)
    ensures Copied(n, regs, g, log, redo, [], g, log, redo, Pass)
  {
    assert log + [] == log;
  }

  /** The inner loop of to_string: one row's values written one after another. */
  method RowText(row: seq<Cell>) returns (t: string)
    ensures t == RowString(row)
  {
    t := "";
    assert row[..0] == [];
    for j := 0 to |row|
      invariant t == RowString(row[..j])
    {
      RowStringSnoc(row, j);
      t := t + IntString(row[j].value);
    }
    assert row[..|row|] == row;
  }

  /** The loop of is_solved: ask each region in turn, stopping at the first unsolved one. */
  method AllSolved(n: nat, g: Grid, regs: seq<seq<Pos>>) returns (b: bool)
    requires IsGrid(n, g) && forall j :: 0 <= j < |regs| ==> Inside(n, regs[j])
    ensures b <==> forall j :: 0 <= j < |regs| ==> Solved(RegionCells(n, g, regs[j]))
  {
    ghost var solvedAt := seq(|regs|, j requires 0 <= j < |regs| => Solved(RegionCells(n, g, regs[j])));
    for k := 0 to |regs|
      invariant forall j :: 0 <= j < k ==> solvedAt[j]
    {
      var solved := ScanSolved(RegionCells(n, g, regs[k]));
      if !solved {
        assert !solvedAt[k];
        return false;
      }
    }
    forall j | 0 <= j < |regs| ensures Solved(RegionCells(n, g, regs[j])) {
      assert solvedAt[j];
    }
    return true;
  }

  /** The loop of is_wrong: ask each region in turn, stopping at the first contradiction. */
  method AnyWrong(n: nat, g: Grid, regs: seq<seq<Pos>>) returns (b: bool)
    requires IsGrid(n, g) && RegionsOk(n, regs)
    ensures b == BoardWrong(n, g, regs)
  {
    b := false;
    for k := 0 to |regs|
      invariant forall j :: 0 <= j < k ==> !Wrong(RegionCells(n, g, regs[j]))
    {
      var wrong := ScanWrong(RegionCells(n, g, regs[k]));
      if wrong {
        return true;
      }
    }
  }
}
