/** What a region computes from the cells it lists: whether it is solved, whether it shows a
    contradiction, and the candidate narrowing of update_possible_values. */
module Regions {
  import opened Cells
  import opened Layout
  import opened Grids

  /** Every position the region lists is on the board. */
  predicate Inside(n: nat, region: seq<Pos>) {
    forall i :: 0 <= i < |region| ==> InBounds(n, region[i])
  }

  /** The cells a region lists, in its order. */
  function RegionCells(n: nat, g: Grid, region: seq<Pos>): (cs: seq<Cell>)
    requires IsGrid(n, g) && Inside(n, region)
    ensures |cs| == |region| && forall i :: 0 <= i < |region| ==> cs[i] == At(g, region[i])
  {
    seq(|region|, i requires 0 <= i < |region| => At(g, region[i]))
  }

  /** The set of the values of `cs`, gathered one cell at a time. */
  function ValueSet(cs: seq<Cell>): (s: set<int>)
    ensures forall v :: v in s <==> exists i :: 0 <= i < |cs| && cs[i].value == v
  {
    if cs == [] then {} else ValueSet(cs[..|cs| - 1]) + {cs[|cs| - 1].value}
  }

  predicate DistinctValues(cs: seq<Cell>) {
    forall i, j :: 0 <= i < j < |cs| ==> cs[i].value != cs[j].value
  }

  /** Region.is_solved: the values of the region's cells form exactly the set {1..len}. */
  function Solved(cs: seq<Cell>): bool {
    ValueSet(cs) == Range(1, |cs|)
  }

  /** Some empty cell has no candidate left. */
  predicate Starved(cs: seq<Cell>) {
    exists i :: 0 <= i < |cs| && cs[i].value == 0 && cs[i].cands == {}
  }

  /** Two cells hold the same non-zero value. */
  predicate Duplicated(cs: seq<Cell>) {
    exists i, j :: 0 <= i < j < |cs| && cs[i].value != 0 && cs[i].value == cs[j].value
  }

  /** A region shows a contradiction: an empty cell without candidates, or a value met twice. */
  predicate Wrong(cs: seq<Cell>) {
    Starved(cs) || Duplicated(cs)
  }

  /** Region.is_not_possible_to_solve: scan the cells, remembering the non-zero values met, and
      stop at the first empty cell without candidates or the first value met again. */
  method ScanWrong(cs: seq<Cell>) returns (b: bool)
    ensures b <==> Starved(cs) || Duplicated(cs)
  {
    var seen: set<int> := {};
    for i := 0 to |cs|
      invariant forall v :: v in seen <==> v != 0 && exists j :: 0 <= j < i && cs[j].value == v
      invariant forall j :: 0 <= j < i ==> !(cs[j].value == 0 && cs[j].cands == {})
      invariant forall a, b :: 0 <= a < b < i && cs[a].value != 0 ==> cs[a].value != cs[b].value
    {
      if cs[i].value == 0 && |cs[i].cands| == 0 {
        assert Starved(cs);
        return true;
      } else if cs[i].value in seen {
        var j :| 0 <= j < i && cs[j].value == cs[i].value;
        assert Duplicated(cs);
        return true;
      } else if cs[i].value != 0 {
        seen := seen + {cs[i].value};
      }
    }
    return false;
  }

  // ---- counting ----

  lemma DistinctSnoc(cs: seq<Cell>)
    requires cs != []
    ensures DistinctValues(cs) <==>
      DistinctValues(cs[..|cs| - 1]) && cs[|cs| - 1].value !in ValueSet(cs[..|cs| - 1])
  {
    var init, last := cs[..|cs| - 1], cs[|cs| - 1];
    if !DistinctValues(cs) && DistinctValues(init) {
      var i, j :| 0 <= i < j < |cs| && cs[i].value == cs[j].value;
      assert init[i].value == last.value;
    }
  }

  lemma {:induction false} ValueSetSize(cs: seq<Cell>)
    ensures |ValueSet(cs)| <= |cs|
    ensures |ValueSet(cs)| == |cs| <==> DistinctValues(cs)
  {
    if cs != [] {
      var init, last := cs[..|cs| - 1], cs[|cs| - 1];
      ValueSetSize(init);
      DistinctSnoc(cs);
      assert ValueSet(cs) == ValueSet(init) + {last.value};
      if last.value in ValueSet(init) {
        assert ValueSet(cs) == ValueSet(init);
      } else {
        assert |ValueSet(cs)| == |ValueSet(init)| + 1;
      }
    }
  }

  lemma {:induction false} SubsetSize(a: set<int>, b: set<int>)
    requires a <= b
    ensures |a| <= |b|
    decreases a
  {
    if a != {} {
      NonEmptyHasMember(a);
      var x: int :| x in a;
      SubsetSize(a - {x}, b - {x});
      assert a == (a - {x}) + {x};
      assert b == (b - {x}) + {x};
    }
  }

  lemma SubsetSameSize(a: set<int>, b: set<int>)
    requires a <= b && |a| == |b|
    ensures a == b
  {
    if b - a != {} {
      NonEmptyHasMember(b - a);
      var x: int :| x in b - a;
      SubsetSize(a, b - {x});
      assert false;
    }
  }

  /** A region is solved exactly when its values are all in 1..len and pairwise different. */
  lemma SolvedIff(cs: seq<Cell>)
    ensures Solved(cs) <==>
      (forall i :: 0 <= i < |cs| ==> 1 <= cs[i].value <= |cs|) && DistinctValues(cs)
  {
    ValueSetSize(cs);
    RangeSize(1, |cs|);
    if (forall i :: 0 <= i < |cs| ==> 1 <= cs[i].value <= |cs|) && DistinctValues(cs) {
      SubsetSameSize(ValueSet(cs), Range(1, |cs|));
    }
    if Solved(cs) {
      forall i | 0 <= i < |cs| ensures 1 <= cs[i].value <= |cs| {
        assert cs[i].value in ValueSet(cs);
      }
    }
  }

  /** Region.is_solved: gather the values of the cells into a set and compare it with {1..len};
      true exactly when every value lies in 1..len and no two cells share one. */
  method ScanSolved(cs: seq<Cell>) returns (b: bool)
    ensures b == Solved(cs)
    ensures b <==> (forall i :: 0 <= i < |cs| ==> 1 <= cs[i].value <= |cs|) && DistinctValues(cs)
  {
    var values: set<int> := {};
    for i := 0 to |cs|
      invariant values == ValueSet(cs[..i])
    {
      assert cs[..i + 1][..i] == cs[..i];
      values := values + {cs[i].value};
    }
    assert cs[..|cs|] == cs;
    b := values == Range(1, |cs|);
    SolvedIff(cs);
  }

  // ---- narrowing ----

  /** The values update_possible_values leaves possible: 1..len minus those already placed. */
  function Allowed(cs: seq<Cell>): (s: set<int>)
    ensures forall v :: v in s <==> 1 <= v <= |cs| && forall i :: 0 <= i < |cs| ==> cs[i].value != v
  {
    Range(1, |cs|) - ValueSet(cs)
  }

  /** update_possible_values on the grid: each empty cell of the region keeps only the allowed
      values; every other cell is left alone. */
  function Narrow(n: nat, g: Grid, region: seq<Pos>): (g': Grid)
    requires IsGrid(n, g) && Inside(n, region)
    ensures IsGrid(n, g')
  {
    var allowed := Allowed(RegionCells(n, g, region));
    seq(n, r requires 0 <= r < n =>
      seq(n, c requires 0 <= c < n =>
        if Pos(r, c) in region && g[r][c].value == 0 then IntersectCandidates(g[r][c], allowed) else g[r][c]))
  }

  /** After narrowing, an empty cell of the region keeps exactly the old candidates that lie in
      1..len and are not placed in the region; filled cells and cells elsewhere are untouched. */
  lemma NarrowEffect(n: nat, g: Grid, region: seq<Pos>)
    requires IsGrid(n, g) && Inside(n, region)
    ensures var g' := Narrow(n, g, region);
      forall r, c :: 0 <= r < n && 0 <= c < n ==>
        && g'[r][c].value == g[r][c].value && g'[r][c].editable == g[r][c].editable
        && g'[r][c].row == g[r][c].row && g'[r][c].column == g[r][c].column
        && (Pos(r, c) !in region || g[r][c].value != 0 ==> g'[r][c] == g[r][c])
        && (Pos(r, c) in region && g[r][c].value == 0 ==>
              forall v :: v in g'[r][c].cands <==>
                v in g[r][c].cands && 1 <= v <= |region| && forall q :: q in region ==> At(g, q).value != v)
  {
    var cs := RegionCells(n, g, region);
    forall r, c, v | 0 <= r < n && 0 <= c < n && Pos(r, c) in region && g[r][c].value == 0
      ensures v in Narrow(n, g, region)[r][c].cands <==>
        v in g[r][c].cands && 1 <= v <= |region| && forall q :: q in region ==> At(g, q).value != v
    {
      if forall i :: 0 <= i < |cs| ==> cs[i].value != v {
        forall q | q in region ensures At(g, q).value != v {
          var i :| 0 <= i < |region| && region[i] == q;
          assert cs[i] == At(g, q);
        }
      }
    }
  }

  /** update_possible_values_in_all_regions: the first `k` regions narrowed, in order. */
  function NarrowAll(n: nat, g: Grid, regs: seq<seq<Pos>>, k: nat): (g': Grid)
    requires IsGrid(n, g) && k <= |regs| && forall j :: 0 <= j < |regs| ==> Inside(n, regs[j])
    ensures IsGrid(n, g')
  {
    if k == 0 then g else Narrow(n, NarrowAll(n, g, regs, k - 1), regs[k - 1])
  }

  /** Within one region, no empty cell keeps as candidate a value placed in that region. */
  ghost predicate RegionConsistent(n: nat, g: Grid, region: seq<Pos>)
    requires IsGrid(n, g) && Inside(n, region)
  {
    forall p, q :: p in region && q in region && At(g, p).value == 0 ==> At(g, q).value !in At(g, p).cands
  }

  /** `g'` differs from `g` only in smaller candidate sets of empty cells. */
  ghost predicate Shrinks(n: nat, g: Grid, g': Grid)
    requires IsGrid(n, g) && IsGrid(n, g')
  {
    forall r, c :: 0 <= r < n && 0 <= c < n ==>
      && g'[r][c].value == g[r][c].value && g'[r][c].editable == g[r][c].editable
      && g'[r][c].row == g[r][c].row && g'[r][c].column == g[r][c].column
      && g'[r][c].cands <= g[r][c].cands
      && (g[r][c].value != 0 ==> g'[r][c] == g[r][c])
  }

  lemma NarrowShrinks(n: nat, g: Grid, region: seq<Pos>)
    requires IsGrid(n, g) && Inside(n, region)
    ensures Shrinks(n, g, Narrow(n, g, region))
    ensures RegionConsistent(n, Narrow(n, g, region), region)
  {
    NarrowEffect(n, g, region);
  }

  lemma ShrinksTransitive(n: nat, g: Grid, g1: Grid, g2: Grid)
    requires IsGrid(n, g) && IsGrid(n, g1) && IsGrid(n, g2)
    requires Shrinks(n, g, g1) && Shrinks(n, g1, g2)
    ensures Shrinks(n, g, g2)
  {
    forall r, c | 0 <= r < n && 0 <= c < n
      ensures g2[r][c].cands <= g[r][c].cands && (g[r][c].value != 0 ==> g2[r][c] == g[r][c])
    {
      assert g1[r][c].cands <= g[r][c].cands;
    }
  }

  lemma ShrinksKeepsRegionConsistent(n: nat, g: Grid, g': Grid, region: seq<Pos>)
    requires IsGrid(n, g) && IsGrid(n, g') && Inside(n, region) && Shrinks(n, g, g')
    requires RegionConsistent(n, g, region)
    ensures RegionConsistent(n, g', region)
  {
    forall p, q | p in region && q in region && At(g', p).value == 0
      ensures At(g', q).value !in At(g', p).cands
    {
      assert InBounds(n, p) && InBounds(n, q);
    }
  }

  lemma NarrowStep(n: nat, g: Grid, g1: Grid, regs: seq<seq<Pos>>, k: nat)
    requires IsGrid(n, g) && IsGrid(n, g1) && 0 < k <= |regs|
    requires forall j :: 0 <= j < |regs| ==> Inside(n, regs[j])
    requires Shrinks(n, g, g1)
    requires forall j :: 0 <= j < k - 1 ==> RegionConsistent(n, g1, regs[j])
    ensures Shrinks(n, g, Narrow(n, g1, regs[k - 1]))
    ensures forall j :: 0 <= j < k ==> RegionConsistent(n, Narrow(n, g1, regs[k - 1]), regs[j])
  {
    var g' := Narrow(n, g1, regs[k - 1]);
    NarrowShrinks(n, g1, regs[k - 1]);
    ShrinksTransitive(n, g, g1, g');
    forall j | 0 <= j < k - 1 ensures RegionConsistent(n, g', regs[j]) {
      ShrinksKeepsRegionConsistent(n, g1, g', regs[j]);
    }
  }

  /** Narrowing every region leaves values and flags alone, only shrinks candidate sets, and
      makes every region narrowed so far consistent. */
  lemma {:induction false} NarrowAllEffect(n: nat, g: Grid, regs: seq<seq<Pos>>, k: nat)
    requires IsGrid(n, g) && k <= |regs| && forall j :: 0 <= j < |regs| ==> Inside(n, regs[j])
    ensures Shrinks(n, g, NarrowAll(n, g, regs, k))
    ensures forall j :: 0 <= j < k ==> RegionConsistent(n, NarrowAll(n, g, regs, k), regs[j])
  {
    if k > 0 {
      NarrowAllEffect(n, g, regs, k - 1);
      NarrowStep(n, g, NarrowAll(n, g, regs, k - 1), regs, k);
    } else {
      assert Shrinks(n, g, g);
    }
  }

  lemma NarrowAllConsistent(n: nat, g: Grid, regs: seq<seq<Pos>>)
    requires WellFormed(n, g) && forall j :: 0 <= j < |regs| ==> Inside(n, regs[j])
    ensures WellFormed(n, NarrowAll(n, g, regs, |regs|))
    ensures Consistent(n, regs, NarrowAll(n, g, regs, |regs|))
  {
    var g' := NarrowAll(n, g, regs, |regs|);
    NarrowAllEffect(n, g, regs, |regs|);
    forall r, c | 0 <= r < n && 0 <= c < n ensures CellOk(n, g'[r][c]) && g'[r][c].row == r && g'[r][c].column == c {
      assert CellOk(n, g[r][c]);
    }
    forall p, q | InBounds(n, p) && InBounds(n, q) && Peers(regs, p, q) && At(g', p).value == 0
      ensures At(g', q).value !in At(g', p).cands
    {
      var k :| 0 <= k < |regs| && p in regs[k] && q in regs[k];
      assert RegionConsistent(n, g', regs[k]);
    }
  }

  /** The empty board: every cell editable, no value placed and every candidate still open. */
  ghost predicate Blank(n: nat, g: Grid) {
    IsGrid(n, g) && forall r, c :: 0 <= r < n && 0 <= c < n ==> g[r][c] == Cell(r, c, true, 0, Range(1, n))
  }

  /** On the empty board narrowing changes nothing. */
  lemma NarrowBlank(n: nat, g: Grid, region: seq<Pos>)
    requires Blank(n, g) && Inside(n, region) && |region| == n
    ensures Blank(n, Narrow(n, g, region))
  {
    NarrowEffect(n, g, region);
    var g' := Narrow(n, g, region);
    forall r, c | 0 <= r < n && 0 <= c < n ensures g'[r][c] == g[r][c] {
      if Pos(r, c) in region {
        assert g'[r][c].cands == g[r][c].cands;
      }
    }
  }

  lemma {:induction false} NarrowAllBlank(n: nat, g: Grid, regs: seq<seq<Pos>>, k: nat)
    requires Blank(n, g) && k <= |regs| && forall j :: 0 <= j < |regs| ==> Inside(n, regs[j]) && |regs[j]| == n
    ensures Blank(n, NarrowAll(n, g, regs, k))
  {
    if k > 0 {
      NarrowAllBlank(n, g, regs, k - 1);
      NarrowBlank(n, NarrowAll(n, g, regs, k - 1), regs[k - 1]);
    }
  }

  // ---- the whole board ----

  /** Sudoku.is_solved: every region is solved. */
  function BoardSolved(n: nat, g: Grid, regs: seq<seq<Pos>>): bool
    requires IsGrid(n, g) && RegionsOk(n, regs)
  {
    forall k :: 0 <= k < |regs| ==> Solved(RegionCells(n, g, regs[k]))
  }

  /** Sudoku.is_wrong: some region reports a contradiction. */
  function BoardWrong(n: nat, g: Grid, regs: seq<seq<Pos>>): bool
    requires IsGrid(n, g) && RegionsOk(n, regs)
  {
    exists k :: 0 <= k < |regs| && Wrong(RegionCells(n, g, regs[k]))
  }

  /** Some empty cell has no candidate left. */
  ghost predicate HasStarvedCell(n: nat, g: Grid)
    requires IsGrid(n, g)
  {
    exists p :: InBounds(n, p) && At(g, p).value == 0 && At(g, p).cands == {}
  }

  lemma WrongBoardHasCause(n: nat, g: Grid, regs: seq<seq<Pos>>)
    requires IsGrid(n, g) && RegionsOk(n, regs) && BoardWrong(n, g, regs)
    ensures HasStarvedCell(n, g) || !NoDuplicates(n, regs, g)
  {
    var k :| 0 <= k < |regs| && Wrong(RegionCells(n, g, regs[k]));
    var cs := RegionCells(n, g, regs[k]);
    if Starved(cs) {
      var i :| 0 <= i < |cs| && cs[i].value == 0 && cs[i].cands == {};
      assert InBounds(n, regs[k][i]);
    } else {
      var i, j :| 0 <= i < j < |cs| && cs[i].value != 0 && cs[i].value == cs[j].value;
      var p, q := regs[k][i], regs[k][j];
      assert InBounds(n, p) && InBounds(n, q) && p != q && Peers(regs, p, q);
    }
  }

  lemma StarvedCellMakesWrong(n: nat, g: Grid, regs: seq<seq<Pos>>)
    requires IsGrid(n, g) && RegionsOk(n, regs) && HasStarvedCell(n, g)
    ensures BoardWrong(n, g, regs)
  {
    var p :| InBounds(n, p) && At(g, p).value == 0 && At(g, p).cands == {};
    var cs := RegionCells(n, g, regs[p.r]);
    assert cs[p.c] == At(g, p);
  }

  lemma DuplicateMakesWrong(n: nat, g: Grid, regs: seq<seq<Pos>>)
    requires IsGrid(n, g) && RegionsOk(n, regs) && !NoDuplicates(n, regs, g)
    ensures BoardWrong(n, g, regs)
  {
    var p, q :| InBounds(n, p) && InBounds(n, q) && p != q && Peers(regs, p, q) && At(g, p).value != 0
      && At(g, p).value == At(g, q).value;
    var k :| 0 <= k < |regs| && p in regs[k] && q in regs[k];
    var i :| 0 <= i < |regs[k]| && regs[k][i] == p;
    var j :| 0 <= j < |regs[k]| && regs[k][j] == q;
    var cs := RegionCells(n, g, regs[k]);
    assert cs[i] == At(g, p) && cs[j] == At(g, q) && i != j;
    if i < j {
      assert Duplicated(cs);
    } else {
      assert Duplicated(cs);
    }
  }

  /** The board reports a contradiction exactly when some empty cell has no candidate or some
      region holds a non-zero value twice. */
  lemma BoardWrongIff(n: nat, g: Grid, regs: seq<seq<Pos>>)
    requires IsGrid(n, g) && RegionsOk(n, regs)
    ensures BoardWrong(n, g, regs) <==> HasStarvedCell(n, g) || !NoDuplicates(n, regs, g)
  {
    if BoardWrong(n, g, regs) {
      WrongBoardHasCause(n, g, regs);
    }
    if HasStarvedCell(n, g) {
      StarvedCellMakesWrong(n, g, regs);
    }
    if !NoDuplicates(n, regs, g) {
      DuplicateMakesWrong(n, g, regs);
    }
  }

  /** A board is solved exactly when it is full and no region repeats a value. */
  lemma BoardSolvedIff(n: nat, g: Grid, regs: seq<seq<Pos>>)
    requires WellFormed(n, g) && RegionsOk(n, regs)
    ensures BoardSolved(n, g, regs) <==>
      (forall p :: InBounds(n, p) ==> At(g, p).value != 0) && NoDuplicates(n, regs, g)
  {
    if BoardSolved(n, g, regs) {
      SolvedBoardIsFull(n, g, regs);
    } else if (forall p :: InBounds(n, p) ==> At(g, p).value != 0) && NoDuplicates(n, regs, g) {
      FullBoardIsSolved(n, g, regs);
    }
  }

  /** A solved board has every cell filled and no region holding a value twice, so it does not
      report a contradiction. */
  lemma SolvedBoardIsFull(n: nat, g: Grid, regs: seq<seq<Pos>>)
    requires IsGrid(n, g) && RegionsOk(n, regs) && BoardSolved(n, g, regs)
    ensures forall p :: InBounds(n, p) ==> 1 <= At(g, p).value <= n
    ensures NoDuplicates(n, regs, g)
    ensures !BoardWrong(n, g, regs)
  {
    forall p | InBounds(n, p) ensures 1 <= At(g, p).value <= n {
      SolvedCellFilled(n, g, regs, p);
    }
    forall p, q | InBounds(n, p) && InBounds(n, q) && p != q && Peers(regs, p, q) && At(g, p).value != 0
      ensures At(g, p).value != At(g, q).value
    {
      SolvedPeersDiffer(n, g, regs, p, q);
    }
    BoardWrongIff(n, g, regs);
  }

  /** A cell of a solved board holds a value in 1..n. */
  lemma SolvedCellFilled(n: nat, g: Grid, regs: seq<seq<Pos>>, p: Pos)
    requires IsGrid(n, g) && RegionsOk(n, regs) && BoardSolved(n, g, regs) && InBounds(n, p)
    ensures 1 <= At(g, p).value <= n
  {
    var cs := RegionCells(n, g, regs[p.r]);
    SolvedIff(cs);
    assert cs[p.c] == At(g, p);
  }

  /** Two cells sharing a region of a solved board hold different values. */
  lemma SolvedPeersDiffer(n: nat, g: Grid, regs: seq<seq<Pos>>, p: Pos, q: Pos)
    requires IsGrid(n, g) && RegionsOk(n, regs) && BoardSolved(n, g, regs)
    requires InBounds(n, p) && InBounds(n, q) && p != q && Peers(regs, p, q)
    ensures At(g, p).value != At(g, q).value
  {
    var k :| 0 <= k < |regs| && p in regs[k] && q in regs[k];
    var i :| 0 <= i < |regs[k]| && regs[k][i] == p;
    var j :| 0 <= j < |regs[k]| && regs[k][j] == q;
    var cs := RegionCells(n, g, regs[k]);
    SolvedIff(cs);
    assert cs[i] == At(g, p) && cs[j] == At(g, q);
  }

  /** A board with every cell filled and no duplicate in any region is solved. */
  lemma FullBoardIsSolved(n: nat, g: Grid, regs: seq<seq<Pos>>)
    requires WellFormed(n, g) && RegionsOk(n, regs) && NoDuplicates(n, regs, g)
    requires forall p :: InBounds(n, p) ==> At(g, p).value != 0
    ensures BoardSolved(n, g, regs)
  {
    forall k | 0 <= k < |regs| ensures Solved(RegionCells(n, g, regs[k])) {
      var cs := RegionCells(n, g, regs[k]);
      forall i | 0 <= i < |cs| ensures 1 <= cs[i].value <= |cs| {
        assert InBounds(n, regs[k][i]);
        assert CellOk(n, g[regs[k][i].r][regs[k][i].c]);
      }
      forall i, j | 0 <= i < j < |cs| ensures cs[i].value != cs[j].value {
        assert regs[k][i] != regs[k][j];
        assert Peers(regs, regs[k][i], regs[k][j]);
      }
      SolvedIff(cs);
    }
  }

  /** A board neither solved nor contradictory has an empty cell, and every empty cell still has
      a candidate: the search always has somewhere to branch. */
  lemma OpenBoardCanBranch(n: nat, g: Grid, regs: seq<seq<Pos>>)
    requires WellFormed(n, g) && RegionsOk(n, regs)
    requires !BoardSolved(n, g, regs) && !BoardWrong(n, g, regs)
    ensures exists p :: InBounds(n, p) && At(g, p).value == 0
    ensures forall p :: InBounds(n, p) && At(g, p).value == 0 ==> At(g, p).cands != {}
  {
    BoardWrongIff(n, g, regs);
    if forall p :: InBounds(n, p) ==> At(g, p).value != 0 {
      FullBoardIsSolved(n, g, regs);
    }
  }
}
