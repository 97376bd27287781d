/** SudokuSolver: the deduction patterns in rounds until a round changes nothing or the board is
    solved, then the brute-force search if it is still unsolved. */
module Solver {
  import opened Wrappers
  import opened Cells
  import opened Layout
  import opened History
  import opened Grids
  import opened Regions
  import opened Board
  import opened Patterns
  import opened Search

  // ---- SudokuSolver.solve on plain values ----

  /** A round so far: the run its passes made and whether one of them wrote something; what a
      round leaves, with whether it asks for another round. */
  datatype RoundOut = RoundOut(run: Run, restart: bool)

  /** One round of SudokuSolver.solve's inner loop, from pattern `ps[i]` on, after the round so
      far made `sofar`: each pattern's pass once, in order, on the grid the previous one left.
      A pass that leaves the board solved ends the round and asks for no further round;
      otherwise a pass that wrote something asks for one. */
  ghost function RoundFrom(n: nat, regs: seq<seq<Pos>>, ps: seq<Pattern>, i: nat, sofar: RoundOut): RoundOut
    requires Searchable(n, regs, sofar.run.grid) && Deductive(ps)
    decreases |ps| - i
  {
    if i >= |ps| then sofar
    else
      OkRegionsInside(n, regs);
      PassSound(n, regs, sofar.run.grid, ps[i]);
      var r := PatternPass(n, regs, sofar.run.grid, ps[i]);
      var run := Run(r.grid, sofar.run.log + r.log);
      if BoardSolved(n, r.grid, regs) then RoundOut(run, false)
      else RoundFrom(n, regs, ps, i + 1, RoundOut(run, sofar.restart || r.log != []))
  }

  /** The pattern lists the solver runs: deduction patterns only, the two singles among them. */
  predicate SolverPatterns(ps: seq<Pattern>) {
    Deductive(ps) && OnePossibility in ps && Exclusion in ps
  }

  /** One round of the patterns `ps` from `g`. */
  ghost function RoundOf(n: nat, regs: seq<seq<Pos>>, ps: seq<Pattern>, g: Grid): RoundOut
    requires Searchable(n, regs, g) && Deductive(ps)
  {
    RoundFrom(n, regs, ps, 0, RoundOut(Run(g, []), false))
  }

  /** The rest of a round keeps advancing the board from `g0` and only adds writes; it asks for
      another round exactly when it ends on an unsolved board and some pass of the round wrote
      something; a rest that wrote nothing and ended unsolved left the board alone and found
      every one of its patterns exhausted on it. */
  lemma {:induction false} RoundFromSound(n: nat, regs: seq<seq<Pos>>, g0: Grid, ps: seq<Pattern>, i: nat, sofar: RoundOut)
    requires Searchable(n, regs, g0) && Searchable(n, regs, sofar.run.grid) && Deductive(ps)
    requires Advances(n, regs, g0, sofar.run)
    ensures var o := RoundFrom(n, regs, ps, i, sofar);
      && Advances(n, regs, g0, o.run)
      && |sofar.run.log| <= |o.run.log|
      && (i < |ps| ==>
            (o.restart <==> !BoardSolved(n, o.run.grid, regs) && (sofar.restart || |sofar.run.log| < |o.run.log|)))
    ensures var o := RoundFrom(n, regs, ps, i, sofar);
      |o.run.log| == |sofar.run.log| && !BoardSolved(n, o.run.grid, regs) ==>
        && o.run.grid == sofar.run.grid
        && forall k :: i <= k < |ps| ==> Exhausted(n, regs, sofar.run.grid, ps[k])
    decreases |ps| - i
  {
    OkRegionsInside(n, regs);
    if i < |ps| {
      var g := sofar.run.grid;
      PassSound(n, regs, g, ps[i]);
      var r := PatternPass(n, regs, g, ps[i]);
      AdvancesThen(n, regs, g0, sofar.run, r);
      var run := Run(r.grid, sofar.run.log + r.log);
      assert run == Then(sofar.run, r);
      if !BoardSolved(n, r.grid, regs) {
        var next := RoundOut(run, sofar.restart || r.log != []);
        RoundFromSound(n, regs, g0, ps, i + 1, next);
        var o := RoundFrom(n, regs, ps, i + 1, next);
        assert RoundFrom(n, regs, ps, i, sofar) == o;
        if |o.run.log| == |sofar.run.log| && !BoardSolved(n, o.run.grid, regs) {
          assert r.log == [] && r.grid == g && next.run.grid == g;
          assert |next.run.log| == |o.run.log|;
          forall k | i <= k < |ps|
            ensures Exhausted(n, regs, g, ps[k])
          {
            if k == i {
              assert Exhausted(n, regs, g, ps[i]);
            } else {
              assert Exhausted(n, regs, next.run.grid, ps[k]);
            }
          }
        }
      }
    }
  }

  /** A round asks for another round exactly when it left the board unsolved with fewer empty
      cells. */
  lemma RoundRestarts(n: nat, regs: seq<seq<Pos>>, ps: seq<Pattern>, g: Grid)
    requires Searchable(n, regs, g) && Deductive(ps) && |ps| > 0
    ensures var o := RoundOf(n, regs, ps, g);
      && Searchable(n, regs, o.run.grid)
      && (o.restart <==> !BoardSolved(n, o.run.grid, regs) && Empties(o.run.grid) < Empties(g))
  {
    AdvancesIdle(n, regs, g);
    RoundFromSound(n, regs, g, ps, 0, RoundOut(Run(g, []), false));
  }

  /** One pass of a round, unfolded: pattern `ps[i]` once, then either the end of the round on
      a solved board or the rest of the round. */
  lemma RoundFromStep(n: nat, regs: seq<seq<Pos>>, ps: seq<Pattern>, i: nat, sofar: RoundOut)
    requires Searchable(n, regs, sofar.run.grid) && Deductive(ps) && i < |ps|
    ensures var r := PatternPass(n, regs, sofar.run.grid, ps[i]);
      var run := Run(r.grid, sofar.run.log + r.log);
      && Searchable(n, regs, r.grid)
      && (BoardSolved(n, r.grid, regs) ==> RoundFrom(n, regs, ps, i, sofar) == RoundOut(run, false))
      && (!BoardSolved(n, r.grid, regs) ==>
            RoundFrom(n, regs, ps, i, sofar) == RoundFrom(n, regs, ps, i + 1, RoundOut(run, sofar.restart || r.log != [])))
  {
    OkRegionsInside(n, regs);
    PassSound(n, regs, sofar.run.grid, ps[i]);
  }

  /** A round advances the board, and when it asks for no further round on an unsolved board it
      changed nothing and no naked or hidden single is left. */
  lemma RoundSound(n: nat, regs: seq<seq<Pos>>, ps: seq<Pattern>, g: Grid)
    requires Searchable(n, regs, g) && SolverPatterns(ps)
    ensures Advances(n, regs, g, RoundOf(n, regs, ps, g).run)
    ensures var o := RoundOf(n, regs, ps, g);
      !o.restart && !BoardSolved(n, o.run.grid, regs) ==>
        o.run.grid == g && NoNakedSingle(n, g) && NoHiddenSingle(n, regs, g, 0)
  {
    AdvancesIdle(n, regs, g);
    RoundFromSound(n, regs, g, ps, 0, RoundOut(Run(g, []), false));
    var o := RoundOf(n, regs, ps, g);
    if !o.restart && !BoardSolved(n, o.run.grid, regs) {
      var a :| 0 <= a < |ps| && ps[a] == OnePossibility;
      var b :| 0 <= b < |ps| && ps[b] == Exclusion;
      assert Exhausted(n, regs, g, ps[a]) && Exhausted(n, regs, g, ps[b]);
    }
  }

  /** SudokuSolver.solve's outer loop on plain values: rounds while a round asks for another. */
  ghost function RoundsFrom(n: nat, regs: seq<seq<Pos>>, ps: seq<Pattern>, g: Grid): (r: Run)
    requires Searchable(n, regs, g) && SolverPatterns(ps)
    ensures Advances(n, regs, g, r)
    decreases Empties(g)
  {
    RoundRestarts(n, regs, ps, g);
    RoundSound(n, regs, ps, g);
    var o := RoundOf(n, regs, ps, g);
    if o.restart then
      var rest := RoundsFrom(n, regs, ps, o.run.grid);
      AdvancesThen(n, regs, g, o.run, rest);
      Then(o.run, rest)
    else o.run
  }

  /** The rounds advance the board and end on one that is solved or has neither a naked nor a
      hidden single left. */
  lemma {:induction false} RoundsSound(n: nat, regs: seq<seq<Pos>>, ps: seq<Pattern>, g: Grid)
    requires Searchable(n, regs, g) && SolverPatterns(ps)
    ensures Advances(n, regs, g, RoundsFrom(n, regs, ps, g))
    ensures var f := RoundsFrom(n, regs, ps, g).grid;
      BoardSolved(n, f, regs) || (NoNakedSingle(n, f) && NoHiddenSingle(n, regs, f, 0))
    decreases Empties(g)
  {
    RoundRestarts(n, regs, ps, g);
    RoundSound(n, regs, ps, g);
    var o := RoundOf(n, regs, ps, g);
    if o.restart {
      RoundsSound(n, regs, ps, o.run.grid);
    }
  }

  /** SudokuSolver.solve on plain values: the rounds, then brute force on a board they left
      unsolved; a brute force that finds nothing leaves the board as the rounds left it. */
  ghost function SolverRun(n: nat, regs: seq<seq<Pos>>, ps: seq<Pattern>, g: Grid): Run
    requires Searchable(n, regs, g) && SolverPatterns(ps)
  {
    var r := RoundsFrom(n, regs, ps, g);
    if BoardSolved(n, r.grid, regs) then r
    else
      match BruteForced(n, regs, r.grid)
      case None => r
      case Some(b) => Then(r, b)
  }

  /** The solver advances the board; it ends solved exactly when the rounds solved it or brute
      force found a solution for the board the rounds left. */
  lemma SolverRunSound(n: nat, regs: seq<seq<Pos>>, ps: seq<Pattern>, g: Grid)
    requires Searchable(n, regs, g) && SolverPatterns(ps)
    ensures Advances(n, regs, g, SolverRun(n, regs, ps, g))
    ensures var r := RoundsFrom(n, regs, ps, g);
      BoardSolved(n, SolverRun(n, regs, ps, g).grid, regs) <==>
        BoardSolved(n, r.grid, regs) || BruteForced(n, regs, r.grid).Some?
  {
    var r := RoundsFrom(n, regs, ps, g);
    if BoardSolved(n, r.grid, regs) {
      assert SolverRun(n, regs, ps, g) == r;
    } else {
      BruteForcedSound(n, regs, r.grid);
      match BruteForced(n, regs, r.grid)
      case None =>
        assert SolverRun(n, regs, ps, g) == r;
      case Some(b) =>
        AdvancesThen(n, regs, g, r, b);
        assert SolverRun(n, regs, ps, g) == Then(r, b);
    }
  }

  /** The history the solver leaves extends the old one, and the board it leaves keeps the
      clues and introduces no duplicate. */
  lemma SolverRunKeeps(n: nat, regs: seq<seq<Pos>>, ps: seq<Pattern>, g: Grid, log: seq<Action>)
    requires Searchable(n, regs, g) && SolverPatterns(ps)
    ensures var x := SolverRun(n, regs, ps, g);
      && IsGrid(n, x.grid)
      && Extends(n, regs, g, log, x.grid, log + x.log)
      && (NoDuplicates(n, regs, g) ==> NoDuplicates(n, regs, x.grid))
      && forall i, j :: 0 <= i < n && 0 <= j < n && !g[i][j].editable ==>
           x.grid[i][j].value == g[i][j].value && !x.grid[i][j].editable
  {
    SolverRunSound(n, regs, ps, g);
    var x := SolverRun(n, regs, ps, g);
    ExtendsByReplay(n, regs, g, log, x.log, x.grid);
    ExtendsKeepsClues(n, regs, g, log, x.grid, log + x.log);
  }

  /** The solver leaves a solved board as it is and logs nothing: the first pass of the first
      round finds nothing to write, the board is solved after it, and brute force is not run. */
  lemma SolverKeepsSolved(n: nat, regs: seq<seq<Pos>>, ps: seq<Pattern>, g: Grid)
    requires Searchable(n, regs, g) && SolverPatterns(ps) && BoardSolved(n, g, regs)
    ensures SolverRun(n, regs, ps, g) == Run(g, [])
  {
    SolvedPassIdle(n, regs, g, ps[0]);
    RoundFromStep(n, regs, ps, 0, RoundOut(Run(g, []), false));
    assert RoundOf(n, regs, ps, g) == RoundOut(Run(g, []), false);
    assert RoundsFrom(n, regs, ps, g) == Run(g, []);
  }

  /** One step of the rounds: after `done` took the board to `g`, one more round takes it to
      the grid that round leaves, and the rounds go on from there only if it asks for more. */
  lemma RoundsAdvance(n: nat, regs: seq<seq<Pos>>, ps: seq<Pattern>, g: Grid, done: seq<Action>, total: Run)
    requires Searchable(n, regs, g) && SolverPatterns(ps)
    requires total == Then(Run(g, done), RoundsFrom(n, regs, ps, g))
    ensures var o := RoundOf(n, regs, ps, g);
      && Searchable(n, regs, o.run.grid)
      && (o.restart ==> total == Then(Run(o.run.grid, done + o.run.log), RoundsFrom(n, regs, ps, o.run.grid)))
      && (!o.restart ==> total == Run(o.run.grid, done + o.run.log))
  {
    RoundRestarts(n, regs, ps, g);
    var o := RoundOf(n, regs, ps, g);
    if o.restart {
      ConcatAssoc(done, o.run.log, RoundsFrom(n, regs, ps, o.run.grid).log);
    }
  }

  class SudokuSolver {
    const sudoku: Sudoku
    const patterns: seq<Pattern>

    constructor(sudoku: Sudoku)
      ensures this.sudoku == sudoku && patterns == WithoutBruteForce()
    {
      this.sudoku := sudoku;
      patterns := WithoutBruteForce();
    }

    /** solve: the rounds, then brute force on a board they left unsolved. The board and history
        become those of SolverRun, and the answer is whether the board ends solved. The board
        stays sound, its clues stay in place, no duplicate is introduced, and its history extends
        the old one by writes that replay from the old board to the new one. */
    method Solve() returns (solved: bool)
      requires sudoku.Valid() && SolverPatterns(patterns)
      modifies sudoku, sudoku.history
      ensures sudoku.Valid()
      ensures var r := SolverRun(sudoku.size, sudoku.regions, patterns, old(sudoku.cells));
        && sudoku.cells == r.grid && sudoku.history.undo == old(sudoku.history.undo) + r.log
        && sudoku.history.redo == RedoAfter(r.log, old(sudoku.history.redo))
      ensures solved == BoardSolved(sudoku.size, sudoku.cells, sudoku.regions)
      ensures Extends(sudoku.size, sudoku.regions, old(sudoku.cells), old(sudoku.history.undo),
                      sudoku.cells, sudoku.history.undo)
      ensures NoDuplicates(sudoku.size, sudoku.regions, old(sudoku.cells)) ==>
        NoDuplicates(sudoku.size, sudoku.regions, sudoku.cells)
      ensures forall i, j :: 0 <= i < sudoku.size && 0 <= j < sudoku.size && !old(sudoku.cells)[i][j].editable ==>
        sudoku.cells[i][j].value == old(sudoku.cells)[i][j].value && !sudoku.cells[i][j].editable
    {
      ghost var n, regs := sudoku.size, sudoku.regions;
      ghost var g0: Grid := sudoku.cells;
      ghost var log0, redo0 := sudoku.history.undo, sudoku.history.redo;
      Rounds();
      ghost var r := RoundsFrom(n, regs, patterns, g0);
      var done := sudoku.IsSolved();
      if !done {
        var found := BruteForceSolve(sudoku);
        if found {
          ghost var b := BruteForced(n, regs, r.grid).value;
          ConcatAssoc(log0, r.log, b.log);
          RedoAfterThen(r.log, b.log, redo0);
          assert SolverRun(n, regs, patterns, g0) == Then(r, b);
        } else {
          assert SolverRun(n, regs, patterns, g0) == r;
        }
      } else {
        assert SolverRun(n, regs, patterns, g0) == r;
      }
      solved := sudoku.IsSolved();
      SolverRunKeeps(n, regs, patterns, g0, log0);
    }

    /** solve's outer loop: rounds of the patterns while a round asks for another. The board and
        history become those of RoundsFrom, which end solved or with no single left. */
    method Rounds()
      requires sudoku.Valid() && SolverPatterns(patterns)
      modifies sudoku, sudoku.history
      ensures sudoku.Valid()
      ensures var r := RoundsFrom(sudoku.size, sudoku.regions, patterns, old(sudoku.cells));
        && sudoku.cells == r.grid && sudoku.history.undo == old(sudoku.history.undo) + r.log
        && sudoku.history.redo == RedoAfter(r.log, old(sudoku.history.redo))
      ensures BoardSolved(sudoku.size, sudoku.cells, sudoku.regions) ||
        (NoNakedSingle(sudoku.size, sudoku.cells) && NoHiddenSingle(sudoku.size, sudoku.regions, sudoku.cells, 0))
    {
      ghost var n, regs := sudoku.size, sudoku.regions;
      ghost var g0: Grid := sudoku.cells;
      ghost var log0 := sudoku.history.undo;
      ghost var redo0 := sudoku.history.redo;
      ghost var total := RoundsFrom(n, regs, patterns, g0);
      ghost var done: seq<Action> := [];
      assert log0 + [] == log0;
      var restart := true;
      while restart
        invariant sudoku.Valid()
        invariant sudoku.history.undo == log0 + done
        invariant sudoku.history.redo == RedoAfter(done, redo0)
        invariant Searchable(n, regs, sudoku.cells)
        invariant restart ==> total == Then(Run(sudoku.cells, done), RoundsFrom(n, regs, patterns, sudoku.cells))
        invariant !restart ==> total == Run(sudoku.cells, done)
        decreases if restart then Empties(sudoku.cells) + 1 else 0
      {
        ghost var gb: Grid := sudoku.cells;
        RoundsAdvance(n, regs, patterns, gb, done, total);
        restart := Round();
        ghost var o := RoundOf(n, regs, patterns, gb);
        ConcatAssoc(log0, done, o.run.log);
        RedoAfterThen(done, o.run.log, redo0);
        done := done + o.run.log;
      }
      RoundsSound(n, regs, patterns, g0);
    }

    /** One round of solve's inner loop: each pattern once, in order, stopping early when the
        board is solved. The board and history become those of RoundOf; another round is asked
        for exactly when the board is unsolved and has fewer empty cells than before. */
    method Round() returns (restart: bool)
      requires sudoku.Valid() && Deductive(patterns) && |patterns| > 0
      modifies sudoku, sudoku.history
      ensures sudoku.Valid()
      ensures var o := RoundOf(sudoku.size, sudoku.regions, patterns, old(sudoku.cells));
        && sudoku.cells == o.run.grid && sudoku.history.undo == old(sudoku.history.undo) + o.run.log
        && sudoku.history.redo == RedoAfter(o.run.log, old(sudoku.history.redo))
        && restart == o.restart
      ensures restart <==>
        !BoardSolved(sudoku.size, sudoku.cells, sudoku.regions) && Empties(sudoku.cells) < Empties(old(sudoku.cells))
    {
      RoundRestarts(sudoku.size, sudoku.regions, patterns, sudoku.cells);
      restart := RoundPasses();
    }

    /** The loop of a round: each pattern once, in order, until one leaves the board solved. */
    method RoundPasses() returns (restart: bool)
      requires sudoku.Valid() && Deductive(patterns)
      modifies sudoku, sudoku.history
      ensures sudoku.Valid()
      ensures var o := RoundOf(sudoku.size, sudoku.regions, patterns, old(sudoku.cells));
        && sudoku.cells == o.run.grid && sudoku.history.undo == old(sudoku.history.undo) + o.run.log
        && sudoku.history.redo == RedoAfter(o.run.log, old(sudoku.history.redo))
        && restart == o.restart
    {
      ghost var n, regs := sudoku.size, sudoku.regions;
      ghost var g0: Grid := sudoku.cells;
      ghost var log0 := sudoku.history.undo;
      ghost var redo0 := sudoku.history.redo;
      ghost var sofar := RoundOut(Run(g0, []), false);
      assert log0 + [] == log0;
      ghost var total := RoundOf(n, regs, patterns, g0);
      restart := false;
      var i := 0;
      while i < |patterns|
        invariant 0 <= i <= |patterns|
        invariant sudoku.Valid() && Searchable(n, regs, sofar.run.grid)
        invariant sofar.run.grid == sudoku.cells && sofar.restart == restart
        invariant sudoku.history.undo == log0 + sofar.run.log
        invariant sudoku.history.redo == RedoAfter(sofar.run.log, redo0)
        invariant total == RoundFrom(n, regs, patterns, i, sofar)
      {
        var solved;
        solved, restart, sofar := PassInRound(i, restart, log0, redo0, sofar);
        if solved {
          break;
        }
        i := i + 1;
      }
    }

    /** The body of a round's loop: pattern `i` once, then `restart = False` and the end of the
        round when the board is solved, `restart = True` when the pattern wrote something. The
        board and history follow the pass, and the rest of the round after it is the rest after
        `sofar`. */
    method PassInRound(i: nat, restart0: bool, ghost log0: seq<Action>, ghost redo0: seq<Action>, ghost sofar: RoundOut)
      returns (solved: bool, restart: bool, ghost next: RoundOut)
      requires i < |patterns| && Deductive(patterns)
      requires sudoku.Valid() && Searchable(sudoku.size, sudoku.regions, sofar.run.grid)
      requires sofar.run.grid == sudoku.cells && sofar.restart == restart0
      requires sudoku.history.undo == log0 + sofar.run.log
      requires sudoku.history.redo == RedoAfter(sofar.run.log, redo0)
      modifies sudoku, sudoku.history
      ensures sudoku.Valid() && Searchable(sudoku.size, sudoku.regions, next.run.grid)
      ensures next.run.grid == sudoku.cells && next.restart == restart
      ensures sudoku.history.undo == log0 + next.run.log
      ensures sudoku.history.redo == RedoAfter(next.run.log, redo0)
      ensures solved ==> RoundFrom(sudoku.size, sudoku.regions, patterns, i, sofar) == next
      ensures !solved ==>
        RoundFrom(sudoku.size, sudoku.regions, patterns, i, sofar) ==
        RoundFrom(sudoku.size, sudoku.regions, patterns, i + 1, next)
    {
      ghost var n, regs := sudoku.size, sudoku.regions;
      RoundFromStep(n, regs, patterns, i, sofar);
      ghost var r := PatternPass(n, regs, sofar.run.grid, patterns[i]);
      var again := Apply(sudoku, patterns[i]);
      ConcatAssoc(log0, sofar.run.log, r.log);
      RedoAfterThen(sofar.run.log, r.log, redo0);
      solved := sudoku.IsSolved();
      restart := if solved then false else restart0 || again;
      next := RoundOut(Run(r.grid, sofar.run.log + r.log), restart);
    }

    /** to_string: the board's text. */
    method ToString() returns (s: string)
      requires sudoku.Valid()
      ensures s == Render(sudoku.cells)
    {
      s := sudoku.ToString();
    }
  }
}
