/** The deduction patterns: OnePossibility writes the only candidate of a cell, Exclusion writes
    a value that only one cell of a region still offers. Each pass is specified by the run it
    performs (the grid it leaves and the writes it logs), and the properties of those runs are
    proved as lemmas. */
module Patterns {
  import opened Wrappers
  import opened Cells
  import opened Layout
  import opened History
  import opened Grids
  import opened Regions
  import opened Board

  /** The patterns; BruteForce is the search of module Search. */
  datatype Pattern = OnePossibility | Exclusion | BruteForce

  /** Pattern.name: the class name, which tags every write the pattern makes. */
  function Name(p: Pattern): string {
    match p
    case OnePossibility => "OnePossibility"
    case Exclusion => "Exclusion"
    case BruteForce => "BruteForce"
  }

  /** Pattern.get_patterns_without_brute_force. */
  function WithoutBruteForce(): seq<Pattern> {
    [OnePossibility, Exclusion]
  }

  /** Only deduction patterns, no search. */
  predicate Deductive(ps: seq<Pattern>) {
    forall i :: 0 <= i < |ps| ==> ps[i] != BruteForce
  }

  /** Pattern.get_patterns_with_brute_force. */
  function WithBruteForce(): seq<Pattern> {
    WithoutBruteForce() + [BruteForce]
  }

  /** A write of a candidate of an empty cell, followed by a sound run from the grid it leaves,
      is a sound run. */
  lemma SoundRunCons(n: nat, regs: seq<seq<Pos>>, g: Grid, act: Action, g1: Grid, rest: Run, tag: string)
    requires WellFormed(n, g) && Consistent(n, regs, g)
    requires InBounds(n, Pos(act.row, act.column)) && act.tag == tag
    requires g[act.row][act.column].value == 0 && act.value in g[act.row][act.column].cands
    requires Assign(n, regs, g, act.row, act.column, act.value) == Success(g1) && WellFormed(n, g1)
    requires SoundRun(n, regs, g1, rest, tag)
    ensures SoundRun(n, regs, g, Run(rest.grid, [act] + rest.log), tag)
  {
    SoundWrite(n, regs, g, act, g1, tag);
    SoundRunConcat(n, regs, g, Run(g1, [act]), rest, tag);
  }

  /** A write of a candidate of an empty cell is, on its own, a sound run. */
  lemma SoundWrite(n: nat, regs: seq<seq<Pos>>, g: Grid, act: Action, g1: Grid, tag: string)
    requires WellFormed(n, g) && Consistent(n, regs, g)
    requires InBounds(n, Pos(act.row, act.column)) && act.tag == tag
    requires g[act.row][act.column].value == 0 && act.value in g[act.row][act.column].cands
    requires Assign(n, regs, g, act.row, act.column, act.value) == Success(g1)
    ensures SoundRun(n, regs, g, Run(g1, [act]), tag)
  {
    CandidateWrite(n, regs, g, act.row, act.column, act.value);
    assert [act][1..] == [];
  }

  /** The only member of a one-element set. */
  ghost function Single(s: set<int>): (v: int)
    requires |s| == 1
    ensures s == {v}
  {
    NonEmptyHasMember(s);
    var v :| v in s;
    SingleIs(s, v);
    v
  }

  lemma SingleIs(s: set<int>, v: int)
    requires |s| == 1 && v in s
    ensures s == {v}
  {
    var rest := s - {v};
    assert |rest| == 0;
    assert s == rest + {v};
  }

  // ---- OnePossibility ----

  /** Cell (i, j) comes at or after cell (row, column) in the row-by-row order of the scan. */
  predicate AtOrAfter(i: int, j: int, row: int, column: int) {
    i > row || (i == row && j >= column)
  }

  /** The OnePossibility scan from cell (row, column) on, row by row: each cell whose candidate
      set has exactly one member gets that member written, tagged "OnePossibility"; with
      `solveOne` the scan ends after the first write. */
  ghost function OneScan(n: nat, regs: seq<seq<Pos>>, g: Grid, row: nat, column: nat, solveOne: bool): (r: Run)
    requires IsGrid(n, g)
    decreases n - row, n - column
  {
    if row >= n then Run(g, [])
    else if column >= n then OneScan(n, regs, g, row + 1, 0, solveOne)
    else if |g[row][column].cands| != 1 then OneScan(n, regs, g, row, column + 1, solveOne)
    else
      var v := Single(g[row][column].cands);
      var act := Action(row, column, g[row][column].value, v, Name(OnePossibility));
      match Assign(n, regs, g, row, column, v)
      case Failure(_) => Run(g, [])
      case Success(g1) =>
        if solveOne then Run(g1, [act])
        else
          var rest := OneScan(n, regs, g1, row, column + 1, solveOne);
          Run(rest.grid, [act] + rest.log)
  }

  /** The OnePossibility pass is sound, and with `solveOne` it writes at most once. */
  lemma {:induction false} OneScanSound(n: nat, regs: seq<seq<Pos>>, g: Grid, row: nat, column: nat, solveOne: bool)
    requires WellFormed(n, g) && Consistent(n, regs, g)
    ensures SoundRun(n, regs, g, OneScan(n, regs, g, row, column, solveOne), Name(OnePossibility))
    ensures solveOne ==> |OneScan(n, regs, g, row, column, solveOne).log| <= 1
    decreases n - row, n - column, 1
  {
    if row >= n {
      assert Replay(n, regs, g, []) == Success(g);
    } else if column >= n {
      OneScanSound(n, regs, g, row + 1, 0, solveOne);
    } else if |g[row][column].cands| != 1 {
      OneScanSound(n, regs, g, row, column + 1, solveOne);
    } else {
      OneScanWriteSound(n, regs, g, row, column, solveOne);
    }
  }

  /** The step of OneScanSound at a cell with a single candidate. */
  lemma {:induction false} OneScanWriteSound(n: nat, regs: seq<seq<Pos>>, g: Grid, row: nat, column: nat, solveOne: bool)
    requires WellFormed(n, g) && Consistent(n, regs, g)
    requires row < n && column < n && |g[row][column].cands| == 1
    ensures SoundRun(n, regs, g, OneScan(n, regs, g, row, column, solveOne), Name(OnePossibility))
    ensures solveOne ==> |OneScan(n, regs, g, row, column, solveOne).log| <= 1
    decreases n - row, n - column, 0
  {
    var v := Single(g[row][column].cands);
    var act := Action(row, column, g[row][column].value, v, Name(OnePossibility));
    assert CellOk(n, g[row][column]);
    CandidateWrite(n, regs, g, row, column, v);
    var g1 := Assign(n, regs, g, row, column, v).value;
    OneScanWriteIs(n, regs, g, row, column, solveOne);
    if solveOne {
      SoundWrite(n, regs, g, act, g1, Name(OnePossibility));
      SoundRunSame(n, regs, g, Run(g1, [act]), OneScan(n, regs, g, row, column, solveOne), Name(OnePossibility));
    } else {
      var rest := OneScan(n, regs, g1, row, column + 1, solveOne);
      OneScanSound(n, regs, g1, row, column + 1, solveOne);
      SoundRunCons(n, regs, g, act, g1, rest, Name(OnePossibility));
      SoundRunSame(n, regs, g, Run(rest.grid, [act] + rest.log), OneScan(n, regs, g, row, column, solveOne),
                   Name(OnePossibility));
    }
  }

  /** The scan at a cell with a single candidate `v`, when the write is accepted. */
  lemma OneScanWriteIs(n: nat, regs: seq<seq<Pos>>, g: Grid, row: nat, column: nat, solveOne: bool)
    requires IsGrid(n, g) && row < n && column < n && |g[row][column].cands| == 1
    requires Assign(n, regs, g, row, column, Single(g[row][column].cands)).Success?
    ensures var v := Single(g[row][column].cands);
      var g1 := Assign(n, regs, g, row, column, v).value;
      var act := Action(row, column, g[row][column].value, v, Name(OnePossibility));
      var rest := OneScan(n, regs, g1, row, column + 1, solveOne);
      OneScan(n, regs, g, row, column, solveOne) == if solveOne then Run(g1, [act]) else Run(rest.grid, [act] + rest.log)
  {
  }

  lemma SoundRunSame(n: nat, regs: seq<seq<Pos>>, g: Grid, r: Run, r': Run, tag: string)
    requires WellFormed(n, g) && SoundRun(n, regs, g, r, tag) && r == r'
    ensures SoundRun(n, regs, g, r', tag)
  {
  }

  /** On a consistent board the scan writes nothing exactly when no cell it visits has a single
      candidate. */
  lemma {:induction false} OneScanIdle(n: nat, regs: seq<seq<Pos>>, g: Grid, row: nat, column: nat, solveOne: bool)
    requires WellFormed(n, g) && Consistent(n, regs, g)
    ensures OneScan(n, regs, g, row, column, solveOne).log == [] <==>
      forall i, j :: 0 <= i < n && 0 <= j < n && AtOrAfter(i, j, row, column) ==> |g[i][j].cands| != 1
    decreases n - row, n - column
  {
    if row >= n {
    } else if column >= n {
      OneScanIdle(n, regs, g, row + 1, 0, solveOne);
      assert forall i, j :: 0 <= i < n && 0 <= j < n ==> (AtOrAfter(i, j, row, column) <==> AtOrAfter(i, j, row + 1, 0));
    } else if |g[row][column].cands| != 1 {
      OneScanIdle(n, regs, g, row, column + 1, solveOne);
      assert forall i, j :: 0 <= i < n && 0 <= j < n ==>
        (AtOrAfter(i, j, row, column) <==> AtOrAfter(i, j, row, column + 1) || (i, j) == (row, column));
    } else {
      var v := Single(g[row][column].cands);
      assert CellOk(n, g[row][column]);
      CandidateWrite(n, regs, g, row, column, v);
      assert AtOrAfter(row, column, row, column);
    }
  }

  /** One cell of the OnePossibility scan: when it has a single candidate, write it through
      set_cell_value; the scan from this cell is that write followed by the scan from the next. */
  method VisitCell(s: Sudoku, row: nat, column: nat, solveOne: bool) returns (wrote: bool, ghost act: Action)
    requires s.Valid() && row < s.size && column < s.size
    modifies s, s.history
    ensures s.Valid()
    ensures var r := OneScan(s.size, s.regions, old(s.cells), row, column, solveOne);
      var next := OneScan(s.size, s.regions, s.cells, row, column + 1, solveOne);
      if wrote then
        && s.history.undo == old(s.history.undo) + [act] && s.history.redo == []
        && r == (if solveOne then Run(s.cells, [act]) else Run(next.grid, [act] + next.log))
      else
        && s.cells == old(s.cells)
        && s.history.undo == old(s.history.undo) && s.history.redo == old(s.history.redo)
        && r == next
  {
    var possibilities := s.GetCellPossibilities(row, column).value;
    act := Action(0, 0, 0, 0, "");
    wrote := false;
    if |possibilities| == 1 {
      var v :| v in possibilities;
      SingleIs(possibilities, v);
      ghost var g := s.cells;
      assert CellOk(s.size, g[row][column]);
      CandidateWrite(s.size, s.regions, g, row, column, v);
      act := Action(row, column, g[row][column].value, v, Name(OnePossibility));
      var out := s.SetCellValue(row, column, v, Name(OnePossibility));
      wrote := true;
    }
  }

  /** OnePossibility.solve: scan the cells row by row and write the only candidate of every
      cell that has exactly one; with `solveOne`, stop after the first write. Reports whether
      anything was written. */
  method SolveOnePossibility(s: Sudoku, solveOne: bool) returns (changed: bool)
    requires s.Valid()
    modifies s, s.history
    ensures s.Valid()
    ensures var r := OneScan(s.size, s.regions, old(s.cells), 0, 0, solveOne);
      && s.cells == r.grid && s.history.undo == old(s.history.undo) + r.log
      && (changed <==> r.log != [])
      && s.history.redo == (if changed then [] else old(s.history.redo))
  {
    var size := s.size;
    ghost var g0 := s.cells;
    ghost var log0 := s.history.undo;
    ghost var redo0 := s.history.redo;
    ghost var done: seq<Action> := [];
    changed := false;
    assert log0 + [] == log0;
    var row := 0;
    while row < size
      invariant row <= size
      invariant s.Valid()
      invariant s.history.undo == log0 + done
      invariant (changed <==> done != []) && (solveOne ==> done == [])
      invariant s.history.redo == (if changed then [] else redo0)
      invariant var r := OneScan(size, s.regions, s.cells, row, 0, solveOne);
        OneScan(size, s.regions, g0, 0, 0, solveOne) == Run(r.grid, done + r.log)
    {
      var column := 0;
      while column < size
        invariant column <= size
        invariant s.Valid()
        invariant s.history.undo == log0 + done
        invariant (changed <==> done != []) && (solveOne ==> done == [])
        invariant s.history.redo == (if changed then [] else redo0)
        invariant var r := OneScan(size, s.regions, s.cells, row, column, solveOne);
          OneScan(size, s.regions, g0, 0, 0, solveOne) == Run(r.grid, done + r.log)
      {
        var wrote, act := VisitCell(s, row, column, solveOne);
        if wrote {
          if solveOne {
            assert done + [act] == [act];
            return true;
          }
          ghost var next := OneScan(size, s.regions, s.cells, row, column + 1, solveOne);
          assert (done + [act]) + next.log == done + ([act] + next.log);
          done := done + [act];
          changed := true;
        }
        column := column + 1;
      }
      row := row + 1;
    }
  }

  // ---- Exclusion ----

  /** The cells of `region`, in the region's order, that offer `v` as a candidate: the cell list
      Exclusion collects for `v`. */
  ghost function Holders(n: nat, g: Grid, region: seq<Pos>, v: int): (hs: seq<Pos>)
    requires IsGrid(n, g) && Inside(n, region)
    ensures |hs| <= |region|
    ensures forall q :: q in hs ==> q in region && v in At(g, q).cands
  {
    if region == [] then []
    else
      var last := region[|region| - 1];
      Holders(n, g, region[..|region| - 1], v) + (if v in At(g, last).cands then [last] else [])
  }

  /** A value some cell of the region offers has a holder. */
  lemma {:induction false} HoldersComplete(n: nat, g: Grid, region: seq<Pos>, v: int, i: nat)
    requires IsGrid(n, g) && Inside(n, region) && i < |region| && v in At(g, region[i]).cands
    ensures Holders(n, g, region, v) != []
  {
    if i < |region| - 1 {
      HoldersComplete(n, g, region[..|region| - 1], v, i);
    }
  }

  /** The values 1..hi, ascending, that `cands` holds and `seen` does not. */
  ghost function NewValues(cands: set<int>, seen: seq<int>, hi: int): (vs: seq<int>)
    ensures forall u :: u in vs <==> 1 <= u <= hi && u in cands && u !in seen
    ensures forall a, b :: 0 <= a < b < |vs| ==> vs[a] < vs[b]
    decreases hi
  {
    if hi < 1 then []
    else
      var pre := NewValues(cands, seen, hi - 1);
      assert forall a :: 0 <= a < |pre| ==> pre[a] < hi by {
        forall a | 0 <= a < |pre| ensures pre[a] < hi {
          assert pre[a] in pre;
        }
      }
      pre + (if hi in cands && hi !in seen then [hi] else [])
  }

  /** The keys of Exclusion's dictionary for a region, in insertion order: the candidate values
      in the order the region's cells first offer them, each cell's candidates taken ascending. */
  ghost function Keys(n: nat, g: Grid, region: seq<Pos>): (ks: seq<int>)
    requires IsGrid(n, g) && Inside(n, region)
  {
    if region == [] then []
    else
      var ks := Keys(n, g, region[..|region| - 1]);
      ks + NewValues(At(g, region[|region| - 1]).cands, ks, n)
  }

  predicate DistinctInts(s: seq<int>) {
    forall a, b :: 0 <= a < b < |s| ==> s[a] != s[b]
  }

  /** The keys are distinct, and they are exactly the values in 1..n some cell of the region
      offers. */
  lemma {:induction false} KeysFacts(n: nat, g: Grid, region: seq<Pos>)
    requires IsGrid(n, g) && Inside(n, region)
    ensures DistinctInts(Keys(n, g, region))
    ensures forall v :: v in Keys(n, g, region) <==> 1 <= v <= n && Holders(n, g, region, v) != []
  {
    if region != [] {
      var pre := region[..|region| - 1];
      var last := region[|region| - 1];
      KeysFacts(n, g, pre);
      var ks := Keys(n, g, pre);
      var nv := NewValues(At(g, last).cands, ks, n);
      assert Keys(n, g, region) == ks + nv;
      forall a, b | 0 <= a < b < |ks + nv| ensures (ks + nv)[a] != (ks + nv)[b] {
        if b >= |ks| && a < |ks| {
          assert (ks + nv)[b] in nv;
        }
      }
    }
  }

  /** The grid `g` reached while writing the singles of one region, compared with the snapshot
      `gs` the dictionary was built from, with `keys` still to visit: both grids are well formed
      and consistent, no flag changed, filled cells stay filled, every value that changed is not
      among the keys still to visit, and those keys are distinct. */
  ghost predicate ExclusionInv(n: nat, regs: seq<seq<Pos>>, gs: Grid, g: Grid, keys: seq<int>)
  {
    && WellFormed(n, gs) && Consistent(n, regs, gs)
    && WellFormed(n, g) && Consistent(n, regs, g)
    && (forall i, j :: 0 <= i < n && 0 <= j < n ==> g[i][j].editable == gs[i][j].editable)
    && (forall i, j :: 0 <= i < n && 0 <= j < n && g[i][j].value != gs[i][j].value ==> g[i][j].value !in keys)
    && Fills(n, gs, g)
    && DistinctInts(keys)
  }

  /** The write of a single holder is accepted, introduces no duplicate, keeps filled cells
      filled and keeps the invariant for the remaining keys. */
  lemma ExclusionStep(n: nat, regs: seq<seq<Pos>>, gs: Grid, region: seq<Pos>, g: Grid, keys: seq<int>)
    requires Inside(n, region) && ExclusionInv(n, regs, gs, g, keys)
    requires keys != [] && |Holders(n, gs, region, keys[0])| == 1
    ensures var p, v := Holders(n, gs, region, keys[0])[0], keys[0];
      && InBounds(n, p) && Assign(n, regs, g, p.r, p.c, v).Success?
      && var g1 := Assign(n, regs, g, p.r, p.c, v).value;
      && ExclusionInv(n, regs, gs, g1, keys[1..])
      && (NoDuplicates(n, regs, g) ==> NoDuplicates(n, regs, g1))
      && Fills(n, g, g1)
      && (g[p.r][p.c].value == 0 ==> Empties(g1) < Empties(g))
      && Empties(g1) <= Empties(g)
  {
    var p, v := Holders(n, gs, region, keys[0])[0], keys[0];
    assert p in Holders(n, gs, region, v);
    assert InBounds(n, p);
    assert CellOk(n, gs[p.r][p.c]);
    CandidateIsFree(n, regs, gs, p, v);
    assert g[p.r][p.c].editable == gs[p.r][p.c].editable;
    var g1 := Assign(n, regs, g, p.r, p.c, v).value;
    if NoDuplicates(n, regs, g) {
      ExclusionKeepsNoDuplicates(n, regs, gs, g, keys, p);
    }
    ExclusionInvAfter(n, regs, gs, g, keys, p, g1);
  }

  /** A value free for `p` in the snapshot is still free for `p` in the current grid, so writing
      it introduces no duplicate. */
  lemma ExclusionKeepsNoDuplicates(n: nat, regs: seq<seq<Pos>>, gs: Grid, g: Grid, keys: seq<int>, p: Pos)
    requires ExclusionInv(n, regs, gs, g, keys) && keys != [] && InBounds(n, p)
    requires FreeFor(n, regs, gs, p, keys[0]) && NoDuplicates(n, regs, g)
    requires Assign(n, regs, g, p.r, p.c, keys[0]).Success?
    ensures NoDuplicates(n, regs, Assign(n, regs, g, p.r, p.c, keys[0]).value)
  {
    var v := keys[0];
    forall q | InBounds(n, q) && q != p && Peers(regs, p, q) ensures At(g, q).value != v {
      assert At(gs, q).value != v;
    }
    AssignKeepsNoDuplicates(n, regs, g, p.r, p.c, v);
  }

  /** The invariant survives the write of the first key into `p`, for the remaining keys. */
  lemma ExclusionInvAfter(n: nat, regs: seq<seq<Pos>>, gs: Grid, g: Grid, keys: seq<int>, p: Pos, g1: Grid)
    requires ExclusionInv(n, regs, gs, g, keys) && keys != [] && InBounds(n, p)
    requires keys[0] != 0 && Assign(n, regs, g, p.r, p.c, keys[0]) == Success(g1)
    ensures ExclusionInv(n, regs, gs, g1, keys[1..]) && Fills(n, g, g1)
    ensures (g[p.r][p.c].value == 0 ==> Empties(g1) < Empties(g)) && Empties(g1) <= Empties(g)
  {
    var v := keys[0];
    AssignEffect(n, regs, g, p.r, p.c, v);
    AssignKeepsInvariants(n, regs, g, p.r, p.c, v);
    assert forall a :: 0 <= a < |keys| - 1 ==> keys[1..][a] == keys[a + 1];
    assert v !in keys[1..];
    forall i, j | 0 <= i < n && 0 <= j < n && g1[i][j].value != gs[i][j].value
      ensures g1[i][j].value !in keys[1..]
    {
      if (i, j) != (p.r, p.c) {
        assert g[i][j].value !in keys;
      }
    }
    EmptiesMono(g, g1);
  }

  /** The writes of one region: for each key `v` in insertion order, when exactly one cell of the
      snapshot `gs` offered `v`, write `v` into that cell of the current grid, tagged
      "Exclusion". */
  ghost function WriteSingles(n: nat, regs: seq<seq<Pos>>, gs: Grid, region: seq<Pos>, g: Grid, keys: seq<int>): (r: Run)
    requires IsGrid(n, gs) && IsGrid(n, g) && Inside(n, region)
    ensures IsGrid(n, r.grid)
    decreases |keys|
  {
    if keys == [] then Run(g, [])
    else
      var hs := Holders(n, gs, region, keys[0]);
      if |hs| != 1 then WriteSingles(n, regs, gs, region, g, keys[1..])
      else
        var p := hs[0];
        assert p in hs;
        var act := Action(p.r, p.c, g[p.r][p.c].value, keys[0], Name(Exclusion));
        match Assign(n, regs, g, p.r, p.c, keys[0])
        case Failure(_) => Run(g, [])
        case Success(g1) =>
          var rest := WriteSingles(n, regs, gs, region, g1, keys[1..]);
          Run(rest.grid, [act] + rest.log)
  }

  /** What the writes of one region keep, from grid `g` to run `r`, `gs` being the snapshot the
      dictionary was built from: the grid stays well formed and consistent, the logged writes
      replay from `g` to the new grid, every write is tagged "Exclusion", filled cells stay
      filled, no duplicate is introduced, nothing is logged only if nothing changed, the number
      of empty cells never rises, and it falls when a write was logged from the snapshot. */
  ghost predicate SinglesRun(n: nat, regs: seq<seq<Pos>>, gs: Grid, g: Grid, r: Run)
    requires IsGrid(n, g)
  {
    && WellFormed(n, r.grid) && Consistent(n, regs, r.grid)
    && Replay(n, regs, g, r.log) == Success(r.grid)
    && (forall i :: 0 <= i < |r.log| ==> r.log[i].tag == Name(Exclusion))
    && Fills(n, g, r.grid)
    && (NoDuplicates(n, regs, g) ==> NoDuplicates(n, regs, r.grid))
    && (r.log == [] ==> r.grid == g)
    && Empties(r.grid) <= Empties(g)
    && (r.log != [] && g == gs ==> Empties(r.grid) < Empties(g))
  }

  /** The writes of one region are sound; the first one fills an empty cell. */
  lemma {:induction false} WriteSinglesSound(n: nat, regs: seq<seq<Pos>>, gs: Grid, region: seq<Pos>, g: Grid, keys: seq<int>)
    requires Inside(n, region) && ExclusionInv(n, regs, gs, g, keys)
    ensures SinglesRun(n, regs, gs, g, WriteSingles(n, regs, gs, region, g, keys))
    decreases |keys|, 1
  {
    if keys == [] {
      assert Replay(n, regs, g, []) == Success(g);
    } else if |Holders(n, gs, region, keys[0])| != 1 {
      assert forall a :: 0 <= a < |keys| - 1 ==> keys[1..][a] == keys[a + 1];
      WriteSinglesSound(n, regs, gs, region, g, keys[1..]);
    } else {
      WriteSingleSound(n, regs, gs, region, g, keys);
    }
  }

  /** The case of WriteSinglesSound where the first key has a single holder. */
  lemma {:induction false} WriteSingleSound(n: nat, regs: seq<seq<Pos>>, gs: Grid, region: seq<Pos>, g: Grid, keys: seq<int>)
    requires Inside(n, region) && ExclusionInv(n, regs, gs, g, keys)
    requires keys != [] && |Holders(n, gs, region, keys[0])| == 1
    ensures SinglesRun(n, regs, gs, g, WriteSingles(n, regs, gs, region, g, keys))
    decreases |keys|, 0
  {
    var hs := Holders(n, gs, region, keys[0]);
    var p := hs[0];
    ExclusionStep(n, regs, gs, region, g, keys);
    var g1 := Assign(n, regs, g, p.r, p.c, keys[0]).value;
    WriteSinglesSound(n, regs, gs, region, g1, keys[1..]);
    var act := Action(p.r, p.c, g[p.r][p.c].value, keys[0], Name(Exclusion));
    var rest := WriteSingles(n, regs, gs, region, g1, keys[1..]);
    assert WriteSingles(n, regs, gs, region, g, keys) == Run(rest.grid, [act] + rest.log);
    if g == gs {
      assert p in hs;
      assert CellOk(n, gs[p.r][p.c]);
    }
    SinglesRunCons(n, regs, gs, g, act, g1, rest);
  }

  /** An accepted write from `g` to `g1`, followed by writes that keep SinglesRun from `g1`,
      keeps SinglesRun from `g`. */
  lemma SinglesRunCons(n: nat, regs: seq<seq<Pos>>, gs: Grid, g: Grid, act: Action, g1: Grid, rest: Run)
    requires IsGrid(n, g) && IsGrid(n, g1) && act.tag == Name(Exclusion)
    requires Assign(n, regs, g, act.row, act.column, act.value) == Success(g1)
    requires Fills(n, g, g1) && Empties(g1) <= Empties(g) && (g == gs ==> Empties(g1) < Empties(g))
    requires NoDuplicates(n, regs, g) ==> NoDuplicates(n, regs, g1)
    requires SinglesRun(n, regs, gs, g1, rest)
    ensures SinglesRun(n, regs, gs, g, Run(rest.grid, [act] + rest.log))
  {
    ConsParts(act, rest.log);
    TagsConcat([act], rest.log, Name(Exclusion));
    FillsTransitive(n, g, g1, rest.grid);
  }

  /** The writes of one region leave the grid alone exactly when no key has a single holder. */
  lemma {:induction false} WriteSinglesIdle(n: nat, regs: seq<seq<Pos>>, gs: Grid, region: seq<Pos>, g: Grid, keys: seq<int>)
    requires Inside(n, region) && ExclusionInv(n, regs, gs, g, keys)
    ensures WriteSingles(n, regs, gs, region, g, keys).log == [] <==>
      forall t :: 0 <= t < |keys| ==> |Holders(n, gs, region, keys[t])| != 1
    decreases |keys|
  {
    if keys != [] {
      var hs := Holders(n, gs, region, keys[0]);
      assert forall a :: 0 <= a < |keys| - 1 ==> keys[1..][a] == keys[a + 1];
      if |hs| != 1 {
        WriteSinglesIdle(n, regs, gs, region, g, keys[1..]);
        assert forall t :: 0 <= t < |keys| ==> (t == 0 || keys[t] in keys[1..]);
      } else {
        ExclusionStep(n, regs, gs, region, g, keys);
      }
    }
  }

  /** Every region lies on the board. */
  predicate AllInside(n: nat, regs: seq<seq<Pos>>) {
    forall k :: 0 <= k < |regs| ==> Inside(n, regs[k])
  }

  lemma OkRegionsInside(n: nat, regs: seq<seq<Pos>>)
    requires RegionsOk(n, regs)
    ensures AllInside(n, regs)
  {
  }

  /** Exclusion on one region: build the dictionary from the grid as it stands, then write the
      singles. */
  ghost function ExcludeRegion(n: nat, regs: seq<seq<Pos>>, g: Grid, region: seq<Pos>): (r: Run)
    requires IsGrid(n, g) && Inside(n, region)
    ensures IsGrid(n, r.grid)
  {
    WriteSingles(n, regs, g, region, g, Keys(n, g, region))
  }

  /** The Exclusion pass from region `k` on: each region in turn, on the grid the previous ones
      left. */
  ghost function ExclusionScan(n: nat, regs: seq<seq<Pos>>, g: Grid, k: nat): (r: Run)
    requires IsGrid(n, g) && AllInside(n, regs)
    decreases |regs| - k
  {
    if k >= |regs| then Run(g, [])
    else
      var r1 := ExcludeRegion(n, regs, g, regs[k]);
      var r2 := ExclusionScan(n, regs, r1.grid, k + 1);
      Run(r2.grid, r1.log + r2.log)
  }

  lemma TagsConcat(a: seq<Action>, b: seq<Action>, tag: string)
    requires forall i :: 0 <= i < |a| ==> a[i].tag == tag
    requires forall i :: 0 <= i < |b| ==> b[i].tag == tag
    ensures forall i :: 0 <= i < |a + b| ==> (a + b)[i].tag == tag
  {
    forall i | 0 <= i < |a + b| ensures (a + b)[i].tag == tag {
      if i >= |a| {
        assert (a + b)[i] == b[i - |a|];
      }
    }
  }

  lemma FillsTransitive(n: nat, g: Grid, g1: Grid, g2: Grid)
    requires IsGrid(n, g) && IsGrid(n, g1) && IsGrid(n, g2) && Fills(n, g, g1) && Fills(n, g1, g2)
    ensures Fills(n, g, g2)
  {
  }

  /** Two sound runs one after the other make a sound run. */
  lemma SoundRunConcat(n: nat, regs: seq<seq<Pos>>, g: Grid, r1: Run, r2: Run, tag: string)
    requires WellFormed(n, g) && SoundRun(n, regs, g, r1, tag) && SoundRun(n, regs, r1.grid, r2, tag)
    ensures SoundRun(n, regs, g, Run(r2.grid, r1.log + r2.log), tag)
  {
    ReplayConcat(n, regs, g, r1.log, r2.log);
    TagsConcat(r1.log, r2.log, tag);
    FillsTransitive(n, g, r1.grid, r2.grid);
    EmptiesMono(g, r1.grid);
    EmptiesMono(r1.grid, r2.grid);
    if r1.log + r2.log == [] {
      assert r1.log == [] && r2.log == [];
    }
  }

  /** Exclusion on one region is sound. */
  lemma ExcludeRegionSound(n: nat, regs: seq<seq<Pos>>, g: Grid, region: seq<Pos>)
    requires WellFormed(n, g) && Consistent(n, regs, g) && Inside(n, region)
    ensures SoundRun(n, regs, g, ExcludeRegion(n, regs, g, region), Name(Exclusion))
  {
    KeysFacts(n, g, region);
    WriteSinglesSound(n, regs, g, region, g, Keys(n, g, region));
  }

  /** The Exclusion pass is sound. */
  lemma {:induction false} ExclusionScanSound(n: nat, regs: seq<seq<Pos>>, g: Grid, k: nat)
    requires WellFormed(n, g) && Consistent(n, regs, g) && AllInside(n, regs)
    ensures SoundRun(n, regs, g, ExclusionScan(n, regs, g, k), Name(Exclusion))
    decreases |regs| - k
  {
    if k >= |regs| {
      assert Replay(n, regs, g, []) == Success(g);
    } else {
      var r1 := ExcludeRegion(n, regs, g, regs[k]);
      ExcludeRegionSound(n, regs, g, regs[k]);
      ExclusionScanSound(n, regs, r1.grid, k + 1);
      SoundRunConcat(n, regs, g, r1, ExclusionScan(n, regs, r1.grid, k + 1), Name(Exclusion));
    }
  }

  /** Only values in 1..n have holders. */
  lemma HoldersInRange(n: nat, g: Grid, region: seq<Pos>, v: int)
    requires WellFormed(n, g) && Inside(n, region) && Holders(n, g, region, v) != []
    ensures 1 <= v <= n
  {
    var q := Holders(n, g, region, v)[0];
    assert q in Holders(n, g, region, v);
    assert CellOk(n, g[q.r][q.c]);
  }

  /** Exclusion writes nothing in a region exactly when no value has a single holder there. */
  lemma ExcludeRegionIdle(n: nat, regs: seq<seq<Pos>>, g: Grid, region: seq<Pos>)
    requires WellFormed(n, g) && Consistent(n, regs, g) && Inside(n, region)
    ensures ExcludeRegion(n, regs, g, region).log == [] <==> forall v :: |Holders(n, g, region, v)| != 1
  {
    var keys := Keys(n, g, region);
    KeysFacts(n, g, region);
    WriteSinglesIdle(n, regs, g, region, g, keys);
    if ExcludeRegion(n, regs, g, region).log == [] {
      forall v ensures |Holders(n, g, region, v)| != 1 {
        if Holders(n, g, region, v) != [] {
          HoldersInRange(n, g, region, v);
          var t :| 0 <= t < |keys| && keys[t] == v;
        }
      }
    }
  }

  /** A board without hidden singles: no value is offered by exactly one cell of a region. */
  ghost predicate NoHiddenSingle(n: nat, regs: seq<seq<Pos>>, g: Grid, k: nat)
    requires IsGrid(n, g) && AllInside(n, regs)
  {
    forall kk, v :: k <= kk < |regs| ==> |Holders(n, g, regs[kk], v)| != 1
  }

  /** The Exclusion pass writes nothing exactly when no region from `k` on has a hidden single. */
  lemma {:induction false} ExclusionScanIdle(n: nat, regs: seq<seq<Pos>>, g: Grid, k: nat)
    requires WellFormed(n, g) && Consistent(n, regs, g) && AllInside(n, regs)
    ensures ExclusionScan(n, regs, g, k).log == [] <==> NoHiddenSingle(n, regs, g, k)
    decreases |regs| - k
  {
    if k < |regs| {
      var r1 := ExcludeRegion(n, regs, g, regs[k]);
      ExcludeRegionIdle(n, regs, g, regs[k]);
      if r1.log == [] {
        ExcludeRegionSound(n, regs, g, regs[k]);
        assert r1.grid == g;
        ExclusionScanIdle(n, regs, g, k + 1);
        if NoHiddenSingle(n, regs, g, k + 1) {
          forall kk, v | k <= kk < |regs| ensures |Holders(n, g, regs[kk], v)| != 1 {
            if kk > k {
              assert |Holders(n, g, regs[kk], v)| != 1;
            }
          }
        }
      } else {
        var v :| |Holders(n, g, regs[k], v)| == 1;
      }
    }
  }

  /** An entry of Exclusion's dictionary: how many cells offer the value, and which. */
  type Entry = (int, seq<Pos>)

  /** The entry for `u`, or the empty one when the dictionary has none. */
  function Lookup(counts: map<int, Entry>, u: int): Entry {
    if u in counts then counts[u] else (0, [])
  }

  /** One more cell offering the value. */
  function Bump(e: Entry, p: Pos): Entry {
    (e.0 + 1, e.1 + [p])
  }

  /** The inner loops of the counting half of Exclusion.solve for one cell: each candidate, in
      ascending order, gets the cell added to its entry; a value seen for the first time becomes
      the dictionary's newest key. */
  method AddCell(counts0: map<int, Entry>, order0: seq<int>, p: Pos, cands: set<int>, size: nat)
    returns (counts: map<int, Entry>, order: seq<int>)
    requires forall u :: u in counts0 <==> u in order0
    requires forall u :: u in cands ==> 1 <= u <= size
    ensures order == order0 + NewValues(cands, order0, size)
    ensures forall u :: u in counts <==> u in order
    ensures forall u :: u in counts ==> counts[u] == if u in cands then Bump(Lookup(counts0, u), p) else Lookup(counts0, u)
  {
    counts, order := counts0, order0;
    assert order0 + [] == order0;
    for v := 1 to size + 1
      invariant AddedBelow(counts0, order0, p, cands, v, counts, order)
    {
      var counts', order' := counts, order;
      if v in cands {
        var entry := if v in counts then counts[v] else (0, []);
        if v !in counts {
          order' := order + [v];
        }
        counts' := counts[v := (entry.0 + 1, entry.1 + [p])];
      }
      AddedStep(counts0, order0, p, cands, v, counts, order, counts', order');
      counts, order := counts', order';
    }
    AddedAll(counts0, order0, p, cands, size, counts, order);
  }

  /** AddCell's loop invariant: the candidates below `v` have been added. */
  ghost predicate AddedBelow(counts0: map<int, Entry>, order0: seq<int>, p: Pos, cands: set<int>, v: int,
                             counts: map<int, Entry>, order: seq<int>)
  {
    && order == order0 + NewValues(cands, order0, v - 1)
    && (forall u :: u in counts <==> u in order)
    && (forall u :: u in counts ==> counts[u] == if u < v && u in cands then Bump(Lookup(counts0, u), p) else Lookup(counts0, u))
  }

  lemma AddedStep(counts0: map<int, Entry>, order0: seq<int>, p: Pos, cands: set<int>, v: int,
                  counts: map<int, Entry>, order: seq<int>, counts': map<int, Entry>, order': seq<int>)
    requires v >= 1 && forall u :: u in counts0 <==> u in order0
    requires AddedBelow(counts0, order0, p, cands, v, counts, order)
    requires v in cands ==>
      && order' == order + (if v in counts then [] else [v])
      && counts' == counts[v := Bump(Lookup(counts, v), p)]
    requires v !in cands ==> counts' == counts && order' == order
    ensures AddedBelow(counts0, order0, p, cands, v + 1, counts', order')
  {
    var nv := NewValues(cands, order0, v - 1);
    assert v !in nv;
    assert NewValues(cands, order0, v) == nv + (if v in cands && v !in order0 then [v] else []);
    if v in cands {
      assert v in counts <==> v in counts0;
      assert Lookup(counts, v) == Lookup(counts0, v);
    }
  }

  lemma AddedAll(counts0: map<int, Entry>, order0: seq<int>, p: Pos, cands: set<int>, size: nat,
                 counts: map<int, Entry>, order: seq<int>)
    requires forall u :: u in counts0 <==> u in order0
    requires forall u :: u in cands ==> 1 <= u <= size
    requires AddedBelow(counts0, order0, p, cands, size + 1, counts, order)
    ensures order == order0 + NewValues(cands, order0, size)
    ensures forall u :: u in counts <==> u in order
    ensures forall u :: u in counts ==> counts[u] == if u in cands then Bump(Lookup(counts0, u), p) else Lookup(counts0, u)
  {
  }

  /** `counts` and `order` are Exclusion's dictionary and its insertion order for the cells
      of `region`: the keys are Keys, each entry counts and lists the holders of its value. */
  ghost predicate Counted(n: nat, g: Grid, region: seq<Pos>, counts: map<int, Entry>, order: seq<int>)
    requires IsGrid(n, g) && Inside(n, region)
  {
    && order == Keys(n, g, region)
    && (forall v :: v in counts <==> v in order)
    && (forall v :: v in counts ==> counts[v] == (|Holders(n, g, region, v)|, Holders(n, g, region, v)))
  }

  /** The Keys of a region prefix one cell longer. */
  lemma KeysStep(n: nat, g: Grid, region: seq<Pos>, i: nat)
    requires IsGrid(n, g) && Inside(n, region) && i < |region|
    ensures var ks := Keys(n, g, region[..i]);
      Keys(n, g, region[..i + 1]) == ks + NewValues(At(g, region[i]).cands, ks, n)
  {
    var pre := region[..i + 1];
    assert pre[..i] == region[..i] && pre[i] == region[i];
  }

  /** The holders of `v` in a region prefix one cell longer. */
  lemma HoldersStep(n: nat, g: Grid, region: seq<Pos>, i: nat, v: int)
    requires IsGrid(n, g) && Inside(n, region) && i < |region|
    ensures Holders(n, g, region[..i + 1], v)
      == Holders(n, g, region[..i], v) + (if v in At(g, region[i]).cands then [region[i]] else [])
  {
    var pre := region[..i + 1];
    assert pre[..i] == region[..i] && pre[i] == region[i];
  }

  /** One entry of the dictionary as cell `region[i]` is added. */
  lemma EntryStep(n: nat, g: Grid, region: seq<Pos>, i: nat, v: int, e0: Entry, e: Entry)
    requires IsGrid(n, g) && Inside(n, region) && i < |region|
    requires e0 == (|Holders(n, g, region[..i], v)|, Holders(n, g, region[..i], v))
    requires e == if v in At(g, region[i]).cands then Bump(e0, region[i]) else e0
    ensures e == (|Holders(n, g, region[..i + 1], v)|, Holders(n, g, region[..i + 1], v))
  {
    HoldersStep(n, g, region, i, v);
    var h0 := Holders(n, g, region[..i], v);
    if v in At(g, region[i]).cands {
      assert Holders(n, g, region[..i + 1], v) == h0 + [region[i]];
      assert |h0 + [region[i]]| == |h0| + 1;
      assert e == (|h0| + 1, h0 + [region[i]]);
    } else {
      assert Holders(n, g, region[..i + 1], v) == h0;
    }
  }

  /** A value missing from the dictionary has no holder so far. */
  lemma LookupMissing(n: nat, g: Grid, region: seq<Pos>, i: nat, counts0: map<int, Entry>, order0: seq<int>, v: int)
    requires WellFormed(n, g) && Inside(n, region) && i < |region|
    requires Counted(n, g, region[..i], counts0, order0)
    requires v in At(g, region[i]).cands
    ensures Lookup(counts0, v) == (|Holders(n, g, region[..i], v)|, Holders(n, g, region[..i], v))
  {
    if v !in counts0 {
      var p := region[i];
      assert CellOk(n, g[p.r][p.c]);
      assert v in Range(1, n);
      KeysFacts(n, g, region[..i]);
    }
  }

  /** `counts` and `order` are what AddCell makes of `counts0` and `order0` for cell `region[i]`. */
  ghost predicate CellAdded(n: nat, g: Grid, region: seq<Pos>, i: nat, counts0: map<int, Entry>, order0: seq<int>,
                            counts: map<int, Entry>, order: seq<int>)
    requires IsGrid(n, g) && Inside(n, region) && i < |region|
  {
    var cands := At(g, region[i]).cands;
    && order == order0 + NewValues(cands, order0, n)
    && (forall u :: u in counts <==> u in order)
    && (forall u :: u in counts ==> counts[u] == if u in cands then Bump(Lookup(counts0, u), region[i]) else Lookup(counts0, u))
  }

  /** Adding cell `region[i]` to the dictionary of the cells before it gives the dictionary of
      the cells up to it. */
  lemma CountStep(n: nat, g: Grid, region: seq<Pos>, i: nat, counts0: map<int, Entry>, order0: seq<int>,
                  counts: map<int, Entry>, order: seq<int>)
    requires WellFormed(n, g) && Inside(n, region) && i < |region|
    requires Counted(n, g, region[..i], counts0, order0)
    requires CellAdded(n, g, region, i, counts0, order0, counts, order)
    ensures Counted(n, g, region[..i + 1], counts, order)
  {
    InsidePrefix(n, region, i + 1);
    KeysStep(n, g, region, i);
    CountEntries(n, g, region, i, counts0, order0, counts, order);
  }

  lemma InsidePrefix(n: nat, region: seq<Pos>, i: nat)
    requires Inside(n, region) && i <= |region|
    ensures Inside(n, region[..i])
  {
  }

  lemma CountEntries(n: nat, g: Grid, region: seq<Pos>, i: nat, counts0: map<int, Entry>, order0: seq<int>,
                     counts: map<int, Entry>, order: seq<int>)
    requires WellFormed(n, g) && Inside(n, region) && i < |region|
    requires Counted(n, g, region[..i], counts0, order0)
    requires CellAdded(n, g, region, i, counts0, order0, counts, order)
    ensures forall v :: v in counts ==>
      counts[v] == (|Holders(n, g, region[..i + 1], v)|, Holders(n, g, region[..i + 1], v))
  {
    forall v | v in counts
      ensures counts[v] == (|Holders(n, g, region[..i + 1], v)|, Holders(n, g, region[..i + 1], v))
    {
      CountEntry(n, g, region, i, counts0, order0, counts, order, v);
    }
  }

  /** CountStep for the entry of one value `v`. */
  lemma CountEntry(n: nat, g: Grid, region: seq<Pos>, i: nat, counts0: map<int, Entry>, order0: seq<int>,
                   counts: map<int, Entry>, order: seq<int>, v: int)
    requires WellFormed(n, g) && Inside(n, region) && i < |region|
    requires Counted(n, g, region[..i], counts0, order0)
    requires CellAdded(n, g, region, i, counts0, order0, counts, order)
    requires v in counts
    ensures counts[v] == (|Holders(n, g, region[..i + 1], v)|, Holders(n, g, region[..i + 1], v))
  {
    if v in At(g, region[i]).cands {
      LookupMissing(n, g, region, i, counts0, order0, v);
      EntryStep(n, g, region, i, v, Lookup(counts0, v), counts[v]);
    } else {
      assert v in order0;
      EntryStep(n, g, region, i, v, counts0[v], counts[v]);
    }
  }

  /** The first half of Exclusion.solve for region `k`: the dictionary from each candidate value
      to its count and the list of the region's cells offering it, filled cell by cell in the
      region's order; `order` is the dictionary's insertion order. */
  method CountCandidates(s: Sudoku, k: nat) returns (counts: map<int, Entry>, order: seq<int>)
    requires s.Valid() && k < |s.regions|
    ensures Inside(s.size, s.regions[k])
    ensures Counted(s.size, s.cells, s.regions[k], counts, order)
  {
    var region := s.regions[k];
    var g := s.cells;
    var size := s.size;
    assert Inside(size, region) && WellFormed(size, g);
    counts := map[];
    order := [];
    assert region[..0] == [];
    for i := 0 to |region|
      invariant Counted(size, g, region[..i], counts, order)
    {
      var p := region[i];
      assert CellOk(size, g[p.r][p.c]);
      ghost var counts0, order0 := counts, order;
      counts, order := AddCell(counts, order, p, g[p.r][p.c].cands, size);
      CountStep(size, g, region, i, counts0, order0, counts, order);
    }
    assert region[..|region|] == region;
  }

  /** Dropping a visited key keeps the invariant of the write loop. */
  lemma ExclusionInvDrop(n: nat, regs: seq<seq<Pos>>, gs: Grid, g: Grid, keys: seq<int>)
    requires ExclusionInv(n, regs, gs, g, keys) && keys != []
    ensures ExclusionInv(n, regs, gs, g, keys[1..])
  {
    assert forall a :: 0 <= a < |keys| - 1 ==> keys[1..][a] == keys[a + 1];
  }

  /** One turn of the write half of Exclusion.solve: when the count of `v` is one, write `v`
      into the one cell offering it. */
  method WriteSingle(s: Sudoku, ghost gs: Grid, ghost region: seq<Pos>, ghost keys: seq<int>, v: int, entry: Entry)
    returns (wrote: bool, ghost act: Action)
    requires s.Valid() && Inside(s.size, region) && ExclusionInv(s.size, s.regions, gs, s.cells, keys)
    requires keys != [] && v == keys[0]
    requires entry == (|Holders(s.size, gs, region, v)|, Holders(s.size, gs, region, v))
    modifies s, s.history
    ensures s.Valid() && ExclusionInv(s.size, s.regions, gs, s.cells, keys[1..])
    ensures var rest := WriteSingles(s.size, s.regions, gs, region, s.cells, keys[1..]);
      WriteSingles(s.size, s.regions, gs, region, old(s.cells), keys)
        == if wrote then Run(rest.grid, [act] + rest.log) else rest
    ensures if wrote then s.history.undo == old(s.history.undo) + [act] && s.history.redo == []
      else s.cells == old(s.cells) && s.history.undo == old(s.history.undo) && s.history.redo == old(s.history.redo)
  {
    act := Action(0, 0, 0, 0, "");
    wrote := false;
    if entry.0 == 1 {
      var p := entry.1[0];
      ExclusionStep(s.size, s.regions, gs, region, s.cells, keys);
      ghost var g: Grid := s.cells;
      act := Action(p.r, p.c, g[p.r][p.c].value, v, Name(Exclusion));
      var out := s.SetCellValue(p.r, p.c, v, Name(Exclusion));
      wrote := true;
    } else {
      ExclusionInvDrop(s.size, s.regions, gs, s.cells, keys);
    }
  }

  /** Bookkeeping of a loop that performs a run piece by piece: `done` is performed and `rest`
      remains; performing `piece` of `rest` leaves `rest'`. */
  lemma RunAdvance(total: Run, done: seq<Action>, rest: Run, piece: seq<Action>, rest': Run)
    requires total == Run(rest.grid, done + rest.log)
    requires rest == Run(rest'.grid, piece + rest'.log)
    ensures total == Run(rest'.grid, (done + piece) + rest'.log)
  {
    assert (done + piece) + rest'.log == done + (piece + rest'.log);
  }

  /** Exclusion.solve for region `k`: count, then write every value whose count is one into
      the one cell that offers it, in the dictionary's order. */
  method ExcludeInRegion(s: Sudoku, k: nat) returns (wrote: bool, ghost acts: seq<Action>)
    requires s.Valid() && k < |s.regions|
    modifies s, s.history
    ensures s.Valid() && Inside(s.size, s.regions[k])
    ensures ExcludeRegion(s.size, s.regions, old(s.cells), s.regions[k]) == Run(s.cells, acts)
    ensures s.history.undo == old(s.history.undo) + acts
    ensures (wrote <==> acts != []) && s.history.redo == (if wrote then [] else old(s.history.redo))
  {
    var counts, order := CountCandidates(s, k);
    ghost var gs := s.cells;
    ghost var region := s.regions[k];
    ghost var log0 := s.history.undo;
    ghost var redo0 := s.history.redo;
    KeysFacts(s.size, gs, region);
    acts := [];
    wrote := false;
    assert order[0..] == order;
    assert log0 + [] == log0;
    for t := 0 to |order|
      invariant s.Valid()
      invariant ExclusionInv(s.size, s.regions, gs, s.cells, order[t..])
      invariant var rest := WriteSingles(s.size, s.regions, gs, region, s.cells, order[t..]);
        WriteSingles(s.size, s.regions, gs, region, gs, order) == Run(rest.grid, acts + rest.log)
      invariant s.history.undo == log0 + acts
      invariant (wrote <==> acts != []) && s.history.redo == (if wrote then [] else redo0)
    {
      SuffixHead(order, t);
      ghost var before := WriteSingles(s.size, s.regions, gs, region, s.cells, order[t..]);
      var w, act := WriteSingle(s, gs, region, order[t..], order[t], counts[order[t]]);
      if w {
        ghost var rest := WriteSingles(s.size, s.regions, gs, region, s.cells, order[t + 1..]);
        RunAdvance(WriteSingles(s.size, s.regions, gs, region, gs, order), acts, before, [act], rest);
        ConcatAssoc(log0, acts, [act]);
        acts := acts + [act];
        wrote := true;
      }
    }
  }

  /** Unfolding the Exclusion pass by one region. */
  lemma ExclusionScanStep(n: nat, regs: seq<seq<Pos>>, g: Grid, k: nat, g1: Grid, acts: seq<Action>)
    requires IsGrid(n, g) && AllInside(n, regs) && k < |regs|
    requires ExcludeRegion(n, regs, g, regs[k]) == Run(g1, acts)
    ensures IsGrid(n, g1)
    ensures ExclusionScan(n, regs, g, k)
      == Run(ExclusionScan(n, regs, g1, k + 1).grid, acts + ExclusionScan(n, regs, g1, k + 1).log)
  {
  }

  /** Where Exclusion.solve stands after `k` regions, on plain values: the grid `g` is sound,
      the undo log is `log0 + done`, and the rest of the pass from `g` completes `total`. */
  ghost predicate ExclusionAt(n: nat, regs: seq<seq<Pos>>, g: Grid, undo: seq<Action>, redo: seq<Action>,
                              k: nat, total: Run, log0: seq<Action>, redo0: seq<Action>,
                              done: seq<Action>, changed: bool)
  {
    && IsGrid(n, g) && AllInside(n, regs) && k <= |regs|
    && undo == log0 + done
    && (changed <==> done != []) && redo == (if changed then [] else redo0)
    && var r := ExclusionScan(n, regs, g, k); total == Run(r.grid, done + r.log)
  }

  lemma ExclusionAtStep(n: nat, regs: seq<seq<Pos>>, g: Grid, undo: seq<Action>, redo: seq<Action>,
                        k: nat, total: Run, log0: seq<Action>, redo0: seq<Action>,
                        done: seq<Action>, changed: bool, g1: Grid, acts: seq<Action>)
    requires ExclusionAt(n, regs, g, undo, redo, k, total, log0, redo0, done, changed) && k < |regs|
    requires ExcludeRegion(n, regs, g, regs[k]) == Run(g1, acts)
    ensures ExclusionAt(n, regs, g1, undo + acts, if acts != [] then [] else redo,
                        k + 1, total, log0, redo0, done + acts, changed || acts != [])
  {
    ExclusionScanStep(n, regs, g, k, g1, acts);
    RunAdvance(total, done, ExclusionScan(n, regs, g, k), acts, ExclusionScan(n, regs, g1, k + 1));
    ConcatAssoc(log0, done, acts);
  }

  /** One turn of Exclusion.solve's region loop: region `k` is done and the rest of the pass
      remains. */
  method ExclusionRound(s: Sudoku, k: nat, ghost total: Run, ghost log0: seq<Action>, ghost redo0: seq<Action>,
                        ghost done: seq<Action>, changed: bool)
    returns (changed': bool, ghost done': seq<Action>)
    requires s.Valid() && k < |s.regions|
    requires ExclusionAt(s.size, s.regions, s.cells, s.history.undo, s.history.redo, k, total, log0, redo0, done, changed)
    modifies s, s.history
    ensures s.Valid()
    ensures ExclusionAt(s.size, s.regions, s.cells, s.history.undo, s.history.redo, k + 1, total, log0, redo0, done', changed')
  {
    ghost var gk: Grid := s.cells;
    ghost var undo := s.history.undo;
    ghost var redo := s.history.redo;
    var wrote, acts := ExcludeInRegion(s, k);
    ExclusionAtStep(s.size, s.regions, gk, undo, redo, k, total, log0, redo0, done, changed, s.cells, acts);
    done' := done + acts;
    changed' := changed || wrote;
  }

  /** Exclusion.solve: every region in turn, each on the board the previous ones left. The
      `solveOne` flag is accepted and ignored. Reports whether anything was written. */
  method SolveExclusion(s: Sudoku, solveOne: bool) returns (changed: bool)
    requires s.Valid()
    modifies s, s.history
    ensures s.Valid()
    ensures var r := ExclusionScan(s.size, s.regions, old(s.cells), 0);
      && s.cells == r.grid && s.history.undo == old(s.history.undo) + r.log
      && (changed <==> r.log != [])
      && s.history.redo == (if changed then [] else old(s.history.redo))
  {
    assert AllInside(s.size, s.regions);
    ghost var total := ExclusionScan(s.size, s.regions, s.cells, 0);
    ghost var log0 := s.history.undo;
    ghost var redo0 := s.history.redo;
    ghost var done: seq<Action> := [];
    changed := false;
    ExclusionAtStart(s.size, s.regions, s.cells, log0, redo0);
    for k := 0 to |s.regions|
      invariant s.Valid()
      invariant ExclusionAt(s.size, s.regions, s.cells, s.history.undo, s.history.redo, k, total, log0, redo0, done, changed)
    {
      changed, done := ExclusionRound(s, k, total, log0, redo0, done, changed);
    }
    ExclusionAtEnd(s.size, s.regions, s.cells, s.history.undo, s.history.redo, total, log0, redo0, done, changed);
  }

  lemma ExclusionAtStart(n: nat, regs: seq<seq<Pos>>, g: Grid, undo: seq<Action>, redo: seq<Action>)
    requires IsGrid(n, g) && AllInside(n, regs)
    ensures ExclusionAt(n, regs, g, undo, redo, 0, ExclusionScan(n, regs, g, 0), undo, redo, [], false)
  {
    assert undo + [] == undo;
  }

  lemma ExclusionAtEnd(n: nat, regs: seq<seq<Pos>>, g: Grid, undo: seq<Action>, redo: seq<Action>,
                       total: Run, log0: seq<Action>, redo0: seq<Action>, done: seq<Action>, changed: bool)
    requires ExclusionAt(n, regs, g, undo, redo, |regs|, total, log0, redo0, done, changed)
    ensures g == total.grid && undo == log0 + total.log
    ensures (changed <==> total.log != []) && redo == (if changed then [] else redo0)
  {
    assert done + [] == done;
  }

  // ---- a pattern's pass, and repeating it ----

  /** No cell has exactly one candidate: OnePossibility has nothing to write. */
  ghost predicate NoNakedSingle(n: nat, g: Grid)
    requires IsGrid(n, g)
  {
    forall i, j :: 0 <= i < n && 0 <= j < n ==> |g[i][j].cands| != 1
  }

  /** The board offers pattern `p` nothing to write. */
  ghost predicate Exhausted(n: nat, regs: seq<seq<Pos>>, g: Grid, p: Pattern)
    requires IsGrid(n, g) && AllInside(n, regs)
  {
    if p == OnePossibility then NoNakedSingle(n, g) else NoHiddenSingle(n, regs, g, 0)
  }

  /** Pattern.solve with `solve_one` false, as every caller passes it, dispatched on the
      pattern: the pass it makes over the grid `g`. */
  ghost function PatternPass(n: nat, regs: seq<seq<Pos>>, g: Grid, p: Pattern): Run
    requires IsGrid(n, g) && AllInside(n, regs) && p != BruteForce
  {
    if p == OnePossibility then OneScan(n, regs, g, 0, 0, false) else ExclusionScan(n, regs, g, 0)
  }

  /** A pass is sound, and it writes nothing exactly when the board is exhausted for its
      pattern. */
  lemma PassSound(n: nat, regs: seq<seq<Pos>>, g: Grid, p: Pattern)
    requires WellFormed(n, g) && Consistent(n, regs, g) && AllInside(n, regs) && p != BruteForce
    ensures SoundRun(n, regs, g, PatternPass(n, regs, g, p), Name(p))
    ensures PatternPass(n, regs, g, p).log == [] <==> Exhausted(n, regs, g, p)
  {
    if p == OnePossibility {
      OneScanSound(n, regs, g, 0, 0, false);
      OneScanIdle(n, regs, g, 0, 0, false);
    } else {
      ExclusionScanSound(n, regs, g, 0);
      ExclusionScanIdle(n, regs, g, 0);
    }
  }

  /** `while solve_again: solve_again = pattern.solve(sudoku, False)`: the pass of `p`
      repeated until one writes nothing. */
  ghost function Fixpoint(n: nat, regs: seq<seq<Pos>>, g: Grid, p: Pattern): Run
    requires WellFormed(n, g) && Consistent(n, regs, g) && AllInside(n, regs) && p != BruteForce
    decreases Empties(g)
  {
    PassSound(n, regs, g, p);
    var r := PatternPass(n, regs, g, p);
    if r.log == [] then Run(g, []) else Then(r, Fixpoint(n, regs, r.grid, p))
  }

  /** One step of Fixpoint: a pass that writes nothing ends it, any other is followed by the
      fixpoint from the grid it left. */
  lemma FixpointStep(n: nat, regs: seq<seq<Pos>>, g: Grid, p: Pattern)
    requires WellFormed(n, g) && Consistent(n, regs, g) && AllInside(n, regs) && p != BruteForce
    ensures var r := PatternPass(n, regs, g, p);
      && WellFormed(n, r.grid) && Consistent(n, regs, r.grid)
      && Fixpoint(n, regs, g, p) == if r.log == [] then Run(g, []) else Then(r, Fixpoint(n, regs, r.grid, p))
  {
    PassSound(n, regs, g, p);
  }

  /** Repeating a pass is sound, and it ends on a board exhausted for its pattern. */
  lemma {:induction false} FixpointSound(n: nat, regs: seq<seq<Pos>>, g: Grid, p: Pattern)
    requires WellFormed(n, g) && Consistent(n, regs, g) && AllInside(n, regs) && p != BruteForce
    ensures SoundRun(n, regs, g, Fixpoint(n, regs, g, p), Name(p))
    ensures Exhausted(n, regs, Fixpoint(n, regs, g, p).grid, p)
    decreases Empties(g)
  {
    PassSound(n, regs, g, p);
    var r := PatternPass(n, regs, g, p);
    if r.log == [] {
      assert Replay(n, regs, g, []) == Success(g);
    } else {
      FixpointSound(n, regs, r.grid, p);
      SoundRunConcat(n, regs, g, r, Fixpoint(n, regs, r.grid, p), Name(p));
    }
  }

  /** Pattern.solve dispatched on the pattern, with `solve_one` false as every caller passes it:
      the board becomes the pass's grid and the history grows by the pass's writes, which replay
      from the old board to the new one; a pass that reports no change left board and history
      as they were, on a board exhausted for its pattern. */
  method Apply(s: Sudoku, p: Pattern) returns (changed: bool)
    requires s.Valid() && p != BruteForce
    modifies s, s.history
    ensures s.Valid() && AllInside(s.size, s.regions)
    ensures var r := PatternPass(s.size, s.regions, old(s.cells), p);
      && s.cells == r.grid && s.history.undo == old(s.history.undo) + r.log
      && (changed <==> r.log != [])
      && s.history.redo == (if changed then [] else old(s.history.redo))
    ensures Extends(s.size, s.regions, old(s.cells), old(s.history.undo), s.cells, s.history.undo)
    ensures Fills(s.size, old(s.cells), s.cells)
    ensures NoDuplicates(s.size, s.regions, old(s.cells)) ==> NoDuplicates(s.size, s.regions, s.cells)
    ensures changed ==> Empties(s.cells) < Empties(old(s.cells))
    ensures !changed ==> s.cells == old(s.cells) && Exhausted(s.size, s.regions, s.cells, p)
  {
    ghost var g0: Grid := s.cells;
    ghost var log0 := s.history.undo;
    assert AllInside(s.size, s.regions);
    if p == OnePossibility {
      changed := SolveOnePossibility(s, false);
    } else {
      changed := SolveExclusion(s, false);
    }
    PassSound(s.size, s.regions, g0, p);
    ghost var r := PatternPass(s.size, s.regions, g0, p);
    ExtendsByReplay(s.size, s.regions, g0, log0, r.log, r.grid);
  }
}
