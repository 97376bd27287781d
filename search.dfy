/** BruteForce: a tree of board copies. Each node runs the deduction patterns to a fixpoint,
    stops on a solved or contradictory board, and otherwise branches on the first empty cell,
    one child per candidate; as written, only the first child is ever searched. The search is
    first defined on plain values (Settled, Search, Conclude, BruteForced) and the methods on
    the objects are proved to compute exactly that. */
module Search {
  import opened Wrappers
  import opened Cells
  import opened Layout
  import opened History
  import opened Grids
  import opened Regions
  import opened Board
  import opened Patterns

  /** What a node's search ends with: the solved board it reached (the value the source keeps in
      the static `sudoku_solved`), or a contradiction. */
  datatype NodeResult = Found(board: Sudoku) | Unsolvable

  /** A grid the search can work on: sound cells over the board's regions. */
  ghost predicate Searchable(n: nat, regs: seq<seq<Pos>>, g: Grid) {
    RegionsOk(n, regs) && WellFormed(n, g) && Consistent(n, regs, g)
  }

  // ---- settling a board: each pattern to its own fixpoint ----

  /** SudokuNode.solve's first loop on plain values: each pattern of `ps` in turn, repeated
      until it writes nothing, each on the grid the previous one left. */
  ghost function SettleFrom(n: nat, regs: seq<seq<Pos>>, g: Grid, ps: seq<Pattern>): Run
    requires WellFormed(n, g) && Consistent(n, regs, g) && AllInside(n, regs) && Deductive(ps)
    decreases |ps|
  {
    if ps == [] then Run(g, [])
    else
      FixpointSound(n, regs, g, ps[0]);
      var r := Fixpoint(n, regs, g, ps[0]);
      Then(r, SettleFrom(n, regs, r.grid, ps[1..]))
  }

  /** The board a node settles on, with the writes that took it there. */
  ghost function Settled(n: nat, regs: seq<seq<Pos>>, g: Grid): (r: Run)
    requires Searchable(n, regs, g)
    ensures Advances(n, regs, g, r)
  {
    OkRegionsInside(n, regs);
    SettleFromSound(n, regs, g, WithoutBruteForce());
    SettleFrom(n, regs, g, WithoutBruteForce())
  }

  /** Settling advances the board. */
  lemma {:induction false} SettleFromSound(n: nat, regs: seq<seq<Pos>>, g: Grid, ps: seq<Pattern>)
    requires WellFormed(n, g) && Consistent(n, regs, g) && AllInside(n, regs) && Deductive(ps)
    ensures Advances(n, regs, g, SettleFrom(n, regs, g, ps))
    decreases |ps|
  {
    if ps == [] {
      AdvancesIdle(n, regs, g);
    } else {
      FixpointSound(n, regs, g, ps[0]);
      var r := Fixpoint(n, regs, g, ps[0]);
      var rest := SettleFrom(n, regs, r.grid, ps[1..]);
      SettleFromSound(n, regs, r.grid, ps[1..]);
      AdvancesThen(n, regs, g, r, rest);
      assert SettleFrom(n, regs, g, ps) == Then(r, rest);
    }
  }

  /** Settling ends with the last pattern exhausted. */
  lemma {:induction false} SettleFromExhausts(n: nat, regs: seq<seq<Pos>>, g: Grid, ps: seq<Pattern>)
    requires WellFormed(n, g) && Consistent(n, regs, g) && AllInside(n, regs) && Deductive(ps) && ps != []
    ensures IsGrid(n, SettleFrom(n, regs, g, ps).grid)
    ensures Exhausted(n, regs, SettleFrom(n, regs, g, ps).grid, ps[|ps| - 1])
    decreases |ps|
  {
    FixpointSound(n, regs, g, ps[0]);
    var r := Fixpoint(n, regs, g, ps[0]);
    var rest := SettleFrom(n, regs, r.grid, ps[1..]);
    assert SettleFrom(n, regs, g, ps).grid == rest.grid;
    if ps[1..] == [] {
      assert rest.grid == r.grid && ps[|ps| - 1] == ps[0];
    } else {
      SettleFromExhausts(n, regs, r.grid, ps[1..]);
      assert ps[1..][|ps[1..]| - 1] == ps[|ps| - 1];
    }
  }

  /** One step of SettleFrom: the first pattern to its fixpoint, then the rest. */
  lemma SettleFromStep(n: nat, regs: seq<seq<Pos>>, g: Grid, ps: seq<Pattern>)
    requires WellFormed(n, g) && Consistent(n, regs, g) && AllInside(n, regs) && Deductive(ps) && ps != []
    ensures WellFormed(n, Fixpoint(n, regs, g, ps[0]).grid) && Consistent(n, regs, Fixpoint(n, regs, g, ps[0]).grid)
    ensures SettleFrom(n, regs, g, ps) == Then(Fixpoint(n, regs, g, ps[0]), SettleFrom(n, regs, Fixpoint(n, regs, g, ps[0]).grid, ps[1..]))
  {
    FixpointSound(n, regs, g, ps[0]);
  }

  /** Settling the patterns from `i` on, after `done` took `g0` to `g`, is one fixpoint
      further on settling them from `i + 1`. */
  lemma SettleAdvance(n: nat, regs: seq<seq<Pos>>, g0: Grid, ps: seq<Pattern>, i: nat, g: Grid, done: seq<Action>)
    requires WellFormed(n, g0) && Consistent(n, regs, g0) && WellFormed(n, g) && Consistent(n, regs, g) && AllInside(n, regs)
    requires Deductive(ps) && i < |ps|
    requires SettleFrom(n, regs, g0, ps) == Then(Run(g, done), SettleFrom(n, regs, g, ps[i..]))
    ensures var f := Fixpoint(n, regs, g, ps[i]);
      && WellFormed(n, f.grid) && Consistent(n, regs, f.grid)
      && SettleFrom(n, regs, g0, ps) == Then(Run(f.grid, done + f.log), SettleFrom(n, regs, f.grid, ps[i + 1..]))
  {
    assert ps[i..][0] == ps[i] && ps[i..][1..] == ps[i + 1..];
    SettleFromStep(n, regs, g, ps[i..]);
    var f := Fixpoint(n, regs, g, ps[i]);
    ConcatAssoc(done, f.log, SettleFrom(n, regs, f.grid, ps[i + 1..]).log);
  }

  /** A settled board advances from the board it started from and has no hidden single left:
      the last pattern run to its fixpoint is Exclusion. */
  lemma SettledSound(n: nat, regs: seq<seq<Pos>>, g: Grid)
    requires Searchable(n, regs, g)
    ensures AllInside(n, regs)
    ensures Advances(n, regs, g, Settled(n, regs, g))
    ensures Empties(Settled(n, regs, g).grid) <= Empties(g)
    ensures NoHiddenSingle(n, regs, Settled(n, regs, g).grid, 0)
  {
    OkRegionsInside(n, regs);
    SettleFromSound(n, regs, g, WithoutBruteForce());
    SettleFromExhausts(n, regs, g, WithoutBruteForce());
  }

  /** Every cell of a solved board holds a value. */
  lemma SolvedIsFull(n: nat, regs: seq<seq<Pos>>, g: Grid)
    requires Searchable(n, regs, g) && BoardSolved(n, g, regs)
    ensures forall i, j :: 0 <= i < n && 0 <= j < n ==> g[i][j].value != 0
  {
    SolvedBoardIsFull(n, g, regs);
    forall i, j | 0 <= i < n && 0 <= j < n
      ensures g[i][j].value != 0
    {
      assert 1 <= At(g, Pos(i, j)).value;
    }
  }

  /** A run that advances a full board cannot write: a write would lower the number of empty
      cells below none. */
  lemma FullStays(n: nat, regs: seq<seq<Pos>>, g: Grid, r: Run)
    requires WellFormed(n, g) && Advances(n, regs, g, r)
    requires forall i, j :: 0 <= i < n && 0 <= j < n ==> g[i][j].value != 0
    ensures r == Run(g, [])
  {
    EmptiesMono(r.grid, g);
  }

  /** A pass over a solved board finds nothing to write. */
  lemma SolvedPassIdle(n: nat, regs: seq<seq<Pos>>, g: Grid, p: Pattern)
    requires Searchable(n, regs, g) && BoardSolved(n, g, regs) && p != BruteForce
    ensures AllInside(n, regs) && PatternPass(n, regs, g, p) == Run(g, [])
  {
    OkRegionsInside(n, regs);
    SolvedIsFull(n, regs, g);
    PassSound(n, regs, g, p);
    FullStays(n, regs, g, PatternPass(n, regs, g, p));
  }

  /** Settling a solved board writes nothing. */
  lemma {:induction false} SettleSolved(n: nat, regs: seq<seq<Pos>>, g: Grid, ps: seq<Pattern>)
    requires Searchable(n, regs, g) && BoardSolved(n, g, regs) && Deductive(ps)
    ensures AllInside(n, regs) && SettleFrom(n, regs, g, ps) == Run(g, [])
    decreases |ps|
  {
    OkRegionsInside(n, regs);
    if ps != [] {
      SolvedPassIdle(n, regs, g, ps[0]);
      FixpointStep(n, regs, g, ps[0]);
      SettleSolved(n, regs, g, ps[1..]);
    }
  }

  // ---- the branching cell and value ----

  /** The first empty cell at or after (row, column) in row-major order. */
  function FirstEmptyFrom(n: nat, g: Grid, row: nat, column: nat): Option<Pos>
    requires IsGrid(n, g)
    decreases n - row, n - column
  {
    if row >= n then None
    else if column >= n then FirstEmptyFrom(n, g, row + 1, 0)
    else if g[row][column].value == 0 then Some(Pos(row, column))
    else FirstEmptyFrom(n, g, row, column + 1)
  }

  /** The scan finds an empty cell exactly when one lies at or after its start, and the cell it
      finds is empty and preceded by filled cells only. */
  lemma {:induction false} FirstEmptyFacts(n: nat, g: Grid, row: nat, column: nat)
    requires IsGrid(n, g)
    ensures FirstEmptyFrom(n, g, row, column).None? <==>
      forall i, j :: 0 <= i < n && 0 <= j < n && AtOrAfter(i, j, row, column) ==> g[i][j].value != 0
    ensures FirstEmptyFrom(n, g, row, column).Some? ==>
      var p := FirstEmptyFrom(n, g, row, column).value;
      && InBounds(n, p) && g[p.r][p.c].value == 0 && AtOrAfter(p.r, p.c, row, column)
      && forall i, j :: 0 <= i < n && 0 <= j < n && AtOrAfter(i, j, row, column) && !AtOrAfter(i, j, p.r, p.c) ==>
           g[i][j].value != 0
    decreases n - row, n - column
  {
    if row >= n {
    } else if column >= n {
      FirstEmptyFacts(n, g, row + 1, 0);
      assert forall i, j :: 0 <= i < n && 0 <= j < n ==> (AtOrAfter(i, j, row, column) <==> AtOrAfter(i, j, row + 1, 0));
    } else if g[row][column].value == 0 {
      assert AtOrAfter(row, column, row, column);
    } else {
      FirstEmptyFacts(n, g, row, column + 1);
      assert forall i, j :: 0 <= i < n && 0 <= j < n ==>
        (AtOrAfter(i, j, row, column) <==> AtOrAfter(i, j, row, column + 1) || (i, j) == (row, column));
    }
  }

  /** The search for the cell to branch on: the first empty cell in row-major order. */
  method FirstEmpty(s: Sudoku) returns (found: bool, row: int, column: int)
    requires s.Valid()
    ensures found <==> FirstEmptyFrom(s.size, s.cells, 0, 0).Some?
    ensures found ==> FirstEmptyFrom(s.size, s.cells, 0, 0) == Some(Pos(row, column))
    ensures found <==> exists p :: InBounds(s.size, p) && At(s.cells, p).value == 0
    ensures found ==> InBounds(s.size, Pos(row, column)) && s.cells[row][column].value == 0
    ensures found ==> forall i, j :: 0 <= i < s.size && 0 <= j < s.size && (i < row || (i == row && j < column)) ==>
      s.cells[i][j].value != 0
  {
    FirstEmptyFacts(s.size, s.cells, 0, 0);
    for r := 0 to s.size
      invariant FirstEmptyFrom(s.size, s.cells, 0, 0) == FirstEmptyFrom(s.size, s.cells, r, 0)
    {
      for c := 0 to s.size
        invariant FirstEmptyFrom(s.size, s.cells, 0, 0) == FirstEmptyFrom(s.size, s.cells, r, c)
      {
        var v := s.GetCellValue(r, c);
        if v.value == 0 {
          return true, r, c;
        }
      }
    }
    return false, 0, 0;
  }

  /** The smallest member of a non-empty set. */
  ghost function Smallest(s: set<int>): (m: int)
    requires s != {}
    ensures m in s && forall u :: u in s ==> m <= u
  {
    SmallestExists(s);
    var m :| m in s && forall u :: u in s ==> m <= u; m
  }

  lemma SmallestExists(s: set<int>)
    requires s != {}
    ensures exists m :: m in s && forall u :: u in s ==> m <= u
    decreases |s|
  {
    NonEmptyHasMember(s);
    var x :| x in s;
    var rest := s - {x};
    if forall u :: u in s ==> u == x {
      assert forall u :: u in s ==> x <= u;
    } else {
      var y :| y in s && y != x;
      assert y in rest;
      SmallestExists(rest);
      var m :| m in rest && forall u :: u in rest ==> m <= u;
      assert forall u :: u in s ==> u == x || u in rest;
      if x < m {
        assert forall u :: u in s ==> x <= u;
      } else {
        assert m in s && forall u :: u in s ==> m <= u;
      }
    }
  }

  /** The first of the members of a set listed in ascending order is its smallest. */
  lemma AscendingHead(s: set<int>, vs: seq<int>)
    requires vs != [] && forall u :: u in s <==> u in vs
    requires forall k, l :: 0 <= k < l < |vs| ==> vs[k] < vs[l]
    ensures s != {} && vs[0] == Smallest(s)
  {
    assert vs[0] in vs;
    forall u | u in s ensures vs[0] <= u {
      var k :| 0 <= k < |vs| && vs[k] == u;
    }
  }

  /** The values of `s` from `lo` to `hi`, in ascending order: the order in which the model
      iterates over a set of candidates. */
  function Ascending(s: set<int>, lo: int, hi: int): (vs: seq<int>)
    ensures forall u :: u in vs <==> u in s && lo <= u <= hi
    ensures forall k, l :: 0 <= k < l < |vs| ==> vs[k] < vs[l]
    ensures forall k :: 0 <= k < |vs| ==> lo <= vs[k]
    decreases hi - lo
  {
    if lo > hi then []
    else if lo in s then [lo] + Ascending(s, lo + 1, hi)
    else Ascending(s, lo + 1, hi)
  }

  /** The first child of a node branching on the empty cell `p`: its smallest candidate
      written, tagged "BruteForce". */
  ghost function Guess(n: nat, regs: seq<seq<Pos>>, g: Grid, p: Pos): (w: Run)
    requires WellFormed(n, g) && Consistent(n, regs, g) && InBounds(n, p)
    requires At(g, p).value == 0 && At(g, p).cands != {}
    ensures WellFormed(n, w.grid) && Consistent(n, regs, w.grid) && Empties(w.grid) < Empties(g)
  {
    var v := Smallest(At(g, p).cands);
    CandidateWrite(n, regs, g, p.r, p.c, v);
    Run(Assign(n, regs, g, p.r, p.c, v).value, [Action(p.r, p.c, At(g, p).value, v, Name(BruteForce))])
  }

  /** The guess of the cell `p` is the write of candidate `v` there, when `v` is the smallest. */
  lemma GuessIs(n: nat, regs: seq<seq<Pos>>, g: Grid, p: Pos, v: int)
    requires WellFormed(n, g) && Consistent(n, regs, g) && InBounds(n, p)
    requires At(g, p).value == 0 && At(g, p).cands != {} && v == Smallest(At(g, p).cands)
    ensures Assign(n, regs, g, p.r, p.c, v).Success?
    ensures Guess(n, regs, g, p) ==
      Run(Assign(n, regs, g, p.r, p.c, v).value, [Action(p.r, p.c, At(g, p).value, v, Name(BruteForce))])
  {
  }

  /** The guess is a write that advances the board. */
  lemma GuessSound(n: nat, regs: seq<seq<Pos>>, g: Grid, p: Pos)
    requires WellFormed(n, g) && Consistent(n, regs, g) && InBounds(n, p)
    requires At(g, p).value == 0 && At(g, p).cands != {}
    ensures Advances(n, regs, g, Guess(n, regs, g, p)) && Guess(n, regs, g, p).log != []
  {
    var v := Smallest(At(g, p).cands);
    var e := Action(p.r, p.c, At(g, p).value, v, Name(BruteForce));
    CandidateWrite(n, regs, g, p.r, p.c, v);
    SoundWrite(n, regs, g, e, Assign(n, regs, g, p.r, p.c, v).value, Name(BruteForce));
  }

  // ---- the search ----

  /** SudokuNode.solve on plain values: settle the board, then conclude on it. `Some` carries
      the solved grid and the writes, beyond the node's own history, that reached it. */
  ghost function Search(n: nat, regs: seq<seq<Pos>>, g: Grid): Option<Run>
    requires Searchable(n, regs, g)
    decreases Empties(g), 2
  {
    var st := Settled(n, regs, g);
    match Conclude(n, regs, st.grid)
    case None => None
    case Some(r) => Some(Then(st, r))
  }

  /** The rest of SudokuNode.solve on a settled grid: a solved grid is the answer, a wrong one
      has none, and otherwise the answer is the branching's. */
  ghost function Conclude(n: nat, regs: seq<seq<Pos>>, g: Grid): Option<Run>
    requires Searchable(n, regs, g)
    decreases Empties(g), 1
  {
    if BoardSolved(n, g, regs) then Some(Run(g, []))
    else if BoardWrong(n, g, regs) then None
    else Branching(n, regs, g)
  }

  /** The cell an open grid branches on: the first empty one, which has a candidate left. */
  ghost function BranchCell(n: nat, regs: seq<seq<Pos>>, g: Grid): (p: Pos)
    requires Searchable(n, regs, g) && !BoardSolved(n, g, regs) && !BoardWrong(n, g, regs)
    ensures FirstEmptyFrom(n, g, 0, 0) == Some(p)
    ensures InBounds(n, p) && At(g, p).value == 0 && At(g, p).cands != {}
  {
    OpenBoardCanBranch(n, g, regs);
    FirstEmptyFacts(n, g, 0, 0);
    FirstEmptyFrom(n, g, 0, 0).value
  }

  /** The answer of a grid that is neither solved nor wrong: the first child's, the child
      holding the smallest candidate of the first empty cell. */
  ghost function Branching(n: nat, regs: seq<seq<Pos>>, g: Grid): Option<Run>
    requires Searchable(n, regs, g) && !BoardSolved(n, g, regs) && !BoardWrong(n, g, regs)
    decreases Empties(g), 0
  {
    var p := BranchCell(n, regs, g);
    GuessSound(n, regs, g, p);
    var w := Guess(n, regs, g, p);
    match Search(n, regs, w.grid)
    case None => None
    case Some(r) => Some(Then(w, r))
  }

  /** What the search finds is a solved grid reached from the start by replaying the writes it
      logged. */
  lemma {:induction false} SearchSound(n: nat, regs: seq<seq<Pos>>, g: Grid)
    requires Searchable(n, regs, g)
    ensures Search(n, regs, g).Some? ==>
      Advances(n, regs, g, Search(n, regs, g).value) && BoardSolved(n, Search(n, regs, g).value.grid, regs)
    decreases Empties(g), 2
  {
    var st := Settled(n, regs, g);
    ConcludeSound(n, regs, st.grid);
    var c := Conclude(n, regs, st.grid);
    if c.Some? {
      AdvancesThen(n, regs, g, st, c.value);
      assert Search(n, regs, g) == Some(Then(st, c.value));
    } else {
      assert Search(n, regs, g) == None;
    }
  }

  lemma {:induction false} ConcludeSound(n: nat, regs: seq<seq<Pos>>, g: Grid)
    requires Searchable(n, regs, g)
    ensures Conclude(n, regs, g).Some? ==>
      Advances(n, regs, g, Conclude(n, regs, g).value) && BoardSolved(n, Conclude(n, regs, g).value.grid, regs)
    decreases Empties(g), 1
  {
    if BoardSolved(n, g, regs) {
      AdvancesIdle(n, regs, g);
    } else if !BoardWrong(n, g, regs) {
      BranchingSound(n, regs, g);
    }
  }

  lemma {:induction false} BranchingSound(n: nat, regs: seq<seq<Pos>>, g: Grid)
    requires Searchable(n, regs, g) && !BoardSolved(n, g, regs) && !BoardWrong(n, g, regs)
    ensures Branching(n, regs, g).Some? ==>
      Advances(n, regs, g, Branching(n, regs, g).value) && BoardSolved(n, Branching(n, regs, g).value.grid, regs)
    decreases Empties(g), 0
  {
    var p := BranchCell(n, regs, g);
    GuessSound(n, regs, g, p);
    var w := Guess(n, regs, g, p);
    SearchSound(n, regs, w.grid);
    if Search(n, regs, w.grid).Some? {
      AdvancesThen(n, regs, g, w, Search(n, regs, w.grid).value);
    }
  }

  /** A node whose settled board is solved answers with it; one whose settled board is wrong and
      not solved answers with nothing. */
  lemma SearchStops(n: nat, regs: seq<seq<Pos>>, g: Grid)
    requires Searchable(n, regs, g)
    ensures var st := Settled(n, regs, g);
      && (BoardSolved(n, st.grid, regs) ==> Search(n, regs, g) == Some(st))
      && (!BoardSolved(n, st.grid, regs) && BoardWrong(n, st.grid, regs) ==> Search(n, regs, g) == None)
  {
    var st := Settled(n, regs, g);
    if BoardSolved(n, st.grid, regs) {
      assert Conclude(n, regs, st.grid) == Some(Run(st.grid, []));
      assert st.log + [] == st.log;
    } else if BoardWrong(n, st.grid, regs) {
      assert Conclude(n, regs, st.grid) == None;
    }
  }

  /** The search and brute force answer a solved board with that board and no write. */
  lemma SearchKeepsSolved(n: nat, regs: seq<seq<Pos>>, g: Grid)
    requires Searchable(n, regs, g) && BoardSolved(n, g, regs)
    ensures Search(n, regs, g) == Some(Run(g, []))
    ensures BruteForced(n, regs, g) == Some(Run(g, []))
  {
    SettleSolved(n, regs, g, WithoutBruteForce());
    assert Settled(n, regs, g) == Run(g, []);
    SolvedBoardIsFull(n, g, regs);
  }

  /** BruteForce.solve on plain values: a wrong board is left alone; otherwise the root is
      searched, and a solution found is copied back by replaying its writes, which logs them
      afresh. */
  ghost function BruteForced(n: nat, regs: seq<seq<Pos>>, g: Grid): Option<Run>
    requires Searchable(n, regs, g)
  {
    if BoardWrong(n, g, regs) then None
    else
      match Search(n, regs, g)
      case None => None
      case Some(r) => Some(Run(r.grid, Relog(n, regs, g, r.log)))
  }

  /** What brute force leaves is solved and reached by replaying the writes it logged. */
  lemma BruteForcedSound(n: nat, regs: seq<seq<Pos>>, g: Grid)
    requires Searchable(n, regs, g)
    ensures BruteForced(n, regs, g).Some? ==>
      Advances(n, regs, g, BruteForced(n, regs, g).value) && BoardSolved(n, BruteForced(n, regs, g).value.grid, regs)
  {
    SearchSound(n, regs, g);
    if BruteForced(n, regs, g).Some? {
      var r := Search(n, regs, g).value;
      ReplayRelog(n, regs, g, r.log);
      if Relog(n, regs, g, r.log) == [] {
        assert Replay(n, regs, g, []) == Success(g);
      }
    }
  }

  /** BruteForce.SudokuNode: a deep copy of a board, with one write tagged "BruteForce" when a
      cell and a positive value are given. */
  class SudokuNode {
    const sudoku: Sudoku
    var children: seq<SudokuNode>

    /** The copy keeps the parent's history, so the write extends it. A write the board refuses
        raises in the source; the requires rules it out. */
    constructor(parent: Sudoku, row: int, column: int, value: int)
      requires parent.Valid()
      requires row != -1 && column != -1 && value > 0 ==>
        Assign(parent.size, parent.regions, parent.cells, row, column, value).Success?
      ensures fresh(sudoku) && fresh(sudoku.history) && sudoku.Valid() && children == []
      ensures sudoku.size == parent.size && sudoku.regions == parent.regions
      ensures if row != -1 && column != -1 && value > 0 then
          && sudoku.cells == Assign(parent.size, parent.regions, parent.cells, row, column, value).value
          && sudoku.history.undo == parent.history.undo
               + [Action(row, column, parent.cells[row][column].value, value, Name(BruteForce))]
          && sudoku.history.redo == []
        else
          && sudoku.cells == parent.cells
          && sudoku.history.undo == parent.history.undo && sudoku.history.redo == parent.history.redo
    {
      var s := new Sudoku.Copy(parent);
      if row != -1 && column != -1 && value > 0 {
        var out := s.SetCellValue(row, column, value, Name(BruteForce));
      }
      sudoku := s;
      children := [];
    }

    /** SudokuNode.solve's first loop: each pattern in turn, repeated while it reports a change.
        The board becomes the settled one and the history grows by the writes that settled it;
        no hidden single is left. */
    method Settle()
      requires sudoku.Valid()
      modifies sudoku, sudoku.history
      ensures sudoku.Valid()
      ensures var st := Settled(sudoku.size, sudoku.regions, old(sudoku.cells));
        && sudoku.cells == st.grid && sudoku.history.undo == old(sudoku.history.undo) + st.log
        && sudoku.history.redo == RedoAfter(st.log, old(sudoku.history.redo))
      ensures Empties(sudoku.cells) <= Empties(old(sudoku.cells))
      ensures NoHiddenSingle(sudoku.size, sudoku.regions, sudoku.cells, 0)
    {
      SettledSound(sudoku.size, sudoku.regions, sudoku.cells);
      var patterns := WithoutBruteForce();
      SettleWith(patterns);
    }

    /** The loop of Settle over the deduction patterns `patterns`: each one run to its fixpoint
        in turn. The board and history become those of SettleFrom. */
    method SettleWith(patterns: seq<Pattern>)
      requires sudoku.Valid() && Deductive(patterns)
      modifies sudoku, sudoku.history
      ensures sudoku.Valid()
      ensures var st := SettleFrom(sudoku.size, sudoku.regions, old(sudoku.cells), patterns);
        && sudoku.cells == st.grid && sudoku.history.undo == old(sudoku.history.undo) + st.log
        && sudoku.history.redo == RedoAfter(st.log, old(sudoku.history.redo))
    {
      ghost var n, regs := sudoku.size, sudoku.regions;
      ghost var g0: Grid := sudoku.cells;
      ghost var log0 := sudoku.history.undo;
      ghost var redo0 := sudoku.history.redo;
      ghost var done: seq<Action> := [];
      OkRegionsInside(n, regs);
      assert patterns[0..] == patterns;
      assert log0 + [] == log0;
      var i := 0;
      while i < |patterns|
        invariant i <= |patterns|
        invariant sudoku.Valid()
        invariant sudoku.history.undo == log0 + done
        invariant sudoku.history.redo == RedoAfter(done, redo0)
        invariant SettleFrom(n, regs, g0, patterns) ==
          Then(Run(sudoku.cells, done), SettleFrom(n, regs, sudoku.cells, patterns[i..]))
      {
        ghost var gi: Grid := sudoku.cells;
        SettleAdvance(n, regs, g0, patterns, i, gi, done);
        Saturate(patterns[i]);
        ghost var f := Fixpoint(n, regs, gi, patterns[i]);
        ConcatAssoc(log0, done, f.log);
        RedoAfterThen(done, f.log, redo0);
        done := done + f.log;
        i := i + 1;
      }
      assert patterns[|patterns|..] == [];
      assert done + [] == done;
    }

    /** The inner loop of SudokuNode.solve's first loop: `p`'s pass, repeated while it reports a
        change. The board and history become those of Fixpoint, exhausted for `p`. */
    method Saturate(p: Pattern)
      requires sudoku.Valid() && p != BruteForce
      modifies sudoku, sudoku.history
      ensures sudoku.Valid() && AllInside(sudoku.size, sudoku.regions)
      ensures var f := Fixpoint(sudoku.size, sudoku.regions, old(sudoku.cells), p);
        && sudoku.cells == f.grid && sudoku.history.undo == old(sudoku.history.undo) + f.log
        && sudoku.history.redo == RedoAfter(f.log, old(sudoku.history.redo))
      ensures Exhausted(sudoku.size, sudoku.regions, sudoku.cells, p)
    {
      ghost var n, regs := sudoku.size, sudoku.regions;
      ghost var log0 := sudoku.history.undo;
      ghost var redo0 := sudoku.history.redo;
      OkRegionsInside(n, regs);
      ghost var total := Fixpoint(n, regs, sudoku.cells, p);
      ghost var done: seq<Action> := [];
      assert log0 + [] == log0;
      var again := true;
      while again
        invariant sudoku.Valid()
        invariant sudoku.history.undo == log0 + done
        invariant sudoku.history.redo == RedoAfter(done, redo0)
        invariant again ==> total == Then(Run(sudoku.cells, done), Fixpoint(n, regs, sudoku.cells, p))
        invariant !again ==> total == Run(sudoku.cells, done) && Exhausted(n, regs, sudoku.cells, p)
        decreases if again then Empties(sudoku.cells) + 1 else 0
      {
        ghost var gb: Grid := sudoku.cells;
        FixpointStep(n, regs, gb, p);
        again := Apply(sudoku, p);
        ghost var step := PatternPass(n, regs, gb, p);
        ConcatAssoc(log0, done, step.log);
        RedoAfterThen(done, step.log, redo0);
        if again {
          ConcatAssoc(done, step.log, Fixpoint(n, regs, sudoku.cells, p).log);
        }
        done := done + step.log;
      }
    }

    /** `c` is a child of this node for writing `v` into the cell (row, column): a sound board of
        the same shape holding this board with the write accepted, this history with the write
        logged, and fewer empty cells. */
    ghost predicate ChildFor(c: SudokuNode, row: int, column: int, v: int)
      reads sudoku, sudoku.history, c.sudoku, c.sudoku.history
    {
      && sudoku.Valid() && c.sudoku.Valid()
      && c.sudoku.size == sudoku.size && c.sudoku.regions == sudoku.regions
      && InBounds(sudoku.size, Pos(row, column))
      && Assign(sudoku.size, sudoku.regions, sudoku.cells, row, column, v).Success?
      && c.sudoku.cells == Assign(sudoku.size, sudoku.regions, sudoku.cells, row, column, v).value
      && c.sudoku.history.undo ==
           sudoku.history.undo + [Action(row, column, sudoku.cells[row][column].value, v, Name(BruteForce))]
      && Empties(c.sudoku.cells) < Empties(sudoku.cells)
    }

    /** SudokuNode(self.sudoku, row, column, value) for a candidate `v` of the empty cell
        (row, column). */
    method NewChild(row: int, column: int, v: int) returns (child: SudokuNode)
      requires sudoku.Valid() && InBounds(sudoku.size, Pos(row, column))
      requires sudoku.cells[row][column].value == 0 && v in sudoku.cells[row][column].cands
      ensures fresh(child) && fresh(child.sudoku) && fresh(child.sudoku.history)
      ensures ChildFor(child, row, column, v)
    {
      CandidateWrite(sudoku.size, sudoku.regions, sudoku.cells, row, column, v);
      assert CellOk(sudoku.size, sudoku.cells[row][column]);
      child := new SudokuNode(sudoku, row, column, v);
    }

    /** SudokuNode.solve's branching: one child per candidate of the empty cell (row, column),
        in ascending order of the candidates `vs`, each a fresh copy of this board with its
        candidate written and the write logged. */
    method MakeChildren(row: int, column: int) returns (ghost vs: seq<int>)
      requires sudoku.Valid() && InBounds(sudoku.size, Pos(row, column))
      requires sudoku.cells[row][column].value == 0 && sudoku.cells[row][column].cands != {}
      modifies this
      ensures |children| == |vs| && vs != []
      ensures forall u :: u in sudoku.cells[row][column].cands <==> u in vs
      ensures forall k, l :: 0 <= k < l < |vs| ==> vs[k] < vs[l]
      ensures forall k :: 0 <= k < |vs| ==>
        && fresh(children[k]) && fresh(children[k].sudoku) && fresh(children[k].sudoku.history)
        && ChildFor(children[k], row, column, vs[k])
      ensures vs[0] == Smallest(sudoku.cells[row][column].cands)
    {
      var cands := sudoku.GetCellPossibilities(row, column);
      assert cands.value == sudoku.cells[row][column].cands;
      assert CellOk(sudoku.size, sudoku.cells[row][column]);
      var values := Ascending(cands.value, 1, sudoku.size);
      vs := values;
      var kids := NewChildren(row, column, values);
      children := kids;
      assert vs != [] by {
        NonEmptyHasMember(cands.value);
        var u :| u in cands.value;
        assert u in vs;
      }
      AscendingHead(cands.value, vs);
    }

    /** The loop of MakeChildren: a child for each of the candidates `values` of the empty cell
        (row, column), in order. */
    method NewChildren(row: int, column: int, values: seq<int>) returns (kids: seq<SudokuNode>)
      requires sudoku.Valid() && InBounds(sudoku.size, Pos(row, column))
      requires sudoku.cells[row][column].value == 0
      requires forall k :: 0 <= k < |values| ==> values[k] in sudoku.cells[row][column].cands
      ensures |kids| == |values|
      ensures forall k :: 0 <= k < |values| ==>
        && fresh(kids[k]) && fresh(kids[k].sudoku) && fresh(kids[k].sudoku.history)
        && ChildFor(kids[k], row, column, values[k])
    {
      kids := [];
      var i := 0;
      while i < |values|
        invariant i <= |values| && |kids| == i
        invariant forall k :: 0 <= k < i ==>
          && fresh(kids[k]) && fresh(kids[k].sudoku) && fresh(kids[k].sudoku.history)
          && ChildFor(kids[k], row, column, values[k])
      {
        var child := NewChild(row, column, values[i]);
        kids := kids + [child];
        i := i + 1;
      }
    }

    /** SudokuNode.solve: the patterns to a fixpoint, then the decision on the settled board.
        The node's board becomes the settled board, and the answer is exactly the search's: found
        iff Search finds, with its solved grid and this history extended by its writes. A board
        found is this node's own or one created below it. */
    method Solve() returns (r: NodeResult)
      requires sudoku.Valid()
      modifies this, sudoku, sudoku.history
      ensures sudoku.Valid()
      ensures var st := Settled(sudoku.size, sudoku.regions, old(sudoku.cells));
        && sudoku.cells == st.grid && sudoku.history.undo == old(sudoku.history.undo) + st.log
        && sudoku.history.redo == RedoAfter(st.log, old(sudoku.history.redo))
      ensures var x := Search(sudoku.size, sudoku.regions, old(sudoku.cells));
        && (r.Found? <==> x.Some?)
        && (r.Found? ==> r.board.cells == x.value.grid && r.board.history.undo == old(sudoku.history.undo) + x.value.log)
      ensures r.Found? ==>
        && r.board.Valid() && r.board.size == sudoku.size && r.board.regions == sudoku.regions
        && (r.board == sudoku || (fresh(r.board) && fresh(r.board.history)))
      decreases Empties(sudoku.cells), 2
    {
      ghost var log0 := sudoku.history.undo;
      Settle();
      r := Decide();
      if r.Found? {
        ghost var st := Settled(sudoku.size, sudoku.regions, old(sudoku.cells));
        ghost var c := Conclude(sudoku.size, sudoku.regions, st.grid).value;
        ConcatAssoc(log0, st.log, c.log);
      }
    }

    /** The rest of SudokuNode.solve: a solved board is the answer, a wrong one has none, and
        otherwise the node branches on the first empty cell and answers with its first child's
        result. The answer is exactly Conclude's; this node's board is left as it is. */
    method Decide() returns (r: NodeResult)
      requires sudoku.Valid()
      modifies this
      ensures var c := Conclude(sudoku.size, sudoku.regions, sudoku.cells);
        && (r.Found? <==> c.Some?)
        && (r.Found? ==> r.board.cells == c.value.grid && r.board.history.undo == sudoku.history.undo + c.value.log)
      ensures BoardSolved(sudoku.size, sudoku.cells, sudoku.regions) ==> r == Found(sudoku)
      ensures !BoardSolved(sudoku.size, sudoku.cells, sudoku.regions) && BoardWrong(sudoku.size, sudoku.cells, sudoku.regions) ==>
        r == Unsolvable
      ensures r.Found? ==>
        && r.board.Valid() && r.board.size == sudoku.size && r.board.regions == sudoku.regions
        && (r.board == sudoku || (fresh(r.board) && fresh(r.board.history)))
      decreases Empties(sudoku.cells), 1
    {
      var solved := sudoku.IsSolved();
      if solved {
        assert sudoku.history.undo + [] == sudoku.history.undo;
        return Found(sudoku);
      }
      var wrong := sudoku.IsWrong();
      if wrong {
        return Unsolvable;
      }
      ghost var p := BranchCell(sudoku.size, sudoku.regions, sudoku.cells);
      var found, row, column := FirstEmpty(sudoku);
      assert p == Pos(row, column);
      r := Branch(row, column);
      assert Conclude(sudoku.size, sudoku.regions, sudoku.cells) == Branching(sudoku.size, sudoku.regions, sudoku.cells);
    }

    /** The branching of SudokuNode.solve on the empty cell (row, column), which still has a
        candidate: its children, and the first child's result, which is the search from this
        board with the smallest candidate written there. */
    method Branch(row: int, column: int) returns (r: NodeResult)
      requires sudoku.Valid() && InBounds(sudoku.size, Pos(row, column))
      requires sudoku.cells[row][column].value == 0 && sudoku.cells[row][column].cands != {}
      modifies this
      ensures var w := Guess(sudoku.size, sudoku.regions, sudoku.cells, Pos(row, column));
        var x := Search(sudoku.size, sudoku.regions, w.grid);
        && (r.Found? <==> x.Some?)
        && (r.Found? ==> r.board.cells == x.value.grid && r.board.history.undo == sudoku.history.undo + Then(w, x.value).log)
      ensures r.Found? ==>
        && r.board.Valid() && r.board.size == sudoku.size && r.board.regions == sudoku.regions
        && (r.board == sudoku || (fresh(r.board) && fresh(r.board.history)))
      decreases Empties(sudoku.cells), 0
    {
      ghost var vs := MakeChildren(row, column);
      ghost var n, regs, g, log := sudoku.size, sudoku.regions, sudoku.cells, sudoku.history.undo;
      GuessIs(n, regs, g, Pos(row, column), vs[0]);
      ghost var w := Guess(n, regs, g, Pos(row, column));
      // The source's `for child in children: return child.solve()`: the first child decides.
      r := children[0].Solve();
      if r.Found? {
        ConcatAssoc(log, w.log, Search(n, regs, w.grid).value.log);
      }
    }
  }

  /** BruteForce.solve: a root node copies the board; unless the board already reports a
      contradiction, the root is searched, and a solution found is copied back into the board
      through its history. Exactly BruteForced: solved iff it finds a board, which the board and
      its history then hold; otherwise the board is left as it was. */
  method BruteForceSolve(s: Sudoku) returns (solved: bool)
    requires s.Valid()
    modifies s, s.history
    ensures s.Valid()
    ensures var b := BruteForced(s.size, s.regions, old(s.cells));
      && (solved <==> b.Some?)
      && (solved ==> s.cells == b.value.grid && s.history.undo == old(s.history.undo) + b.value.log)
      && (solved ==> s.history.redo == RedoAfter(b.value.log, old(s.history.redo)))
    ensures !solved ==>
      s.cells == old(s.cells) && s.history.undo == old(s.history.undo) && s.history.redo == old(s.history.redo)
  {
    ghost var n, regs := s.size, s.regions;
    ghost var g0: Grid := s.cells;
    ghost var log0 := s.history.undo;
    var root := new SudokuNode(s, -1, -1, -1);
    var wrong := s.IsWrong();
    if !wrong {
      var r := root.Solve();
      if r.Found? {
        ghost var x := Search(n, regs, g0).value;
        SearchSound(n, regs, g0);
        assert Beyond(log0, r.board.history.undo) == x.log;
        assert BruteForced(n, regs, g0) == Some(Run(x.grid, Relog(n, regs, g0, x.log)));
        var out := s.CopyFrom(r.board);
        return true;
      }
      assert BruteForced(n, regs, g0) == None;
    }
    return false;
  }
}
