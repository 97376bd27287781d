/** The board's cell grid as a value, and the write operation `set_cell_value` performs on it:
    validate the position, run the cell setter, strike the value from every cell that shares a
    region with the written one. */
module Grids {
  import opened Wrappers
  import opened Cells
  import opened Layout
  import opened History

  /** Rows of cells, `g[r][c]` being the cell at row `r`, column `c`. */
  type Grid = seq<seq<Cell>>

  predicate IsGrid(n: int, g: Grid) {
    |g| == n && forall r :: 0 <= r < |g| ==> |g[r]| == n
  }

  function At(g: Grid, p: Pos): Cell
    requires 0 <= p.r < |g| && 0 <= p.c < |g[p.r]|
  {
    g[p.r][p.c]
  }

  /** Every cell keeps the cell invariant and knows its own coordinates. */
  ghost predicate WellFormed(n: nat, g: Grid) {
    && IsGrid(n, g)
    && forall r, c :: 0 <= r < n && 0 <= c < n ==>
         CellOk(n, g[r][c]) && g[r][c].row == r && g[r][c].column == c
  }

  /** `p` and `q` lie together in some region. */
  predicate Peers(regs: seq<seq<Pos>>, p: Pos, q: Pos) {
    exists k :: 0 <= k < |regs| && p in regs[k] && q in regs[k]
  }

  lemma PeersSymmetric(regs: seq<seq<Pos>>, p: Pos, q: Pos)
    requires Peers(regs, p, q)
    ensures Peers(regs, q, p)
  {
    var k :| 0 <= k < |regs| && p in regs[k] && q in regs[k];
  }

  /** Sharing a region among the first `k + 1` regions: sharing one among the first `k`, or
      both lying in region `k`. */
  lemma PeersPrefix(regs: seq<seq<Pos>>, k: nat, p: Pos, q: Pos)
    requires k < |regs|
    ensures Peers(regs[..k + 1], p, q) <==> Peers(regs[..k], p, q) || (p in regs[k] && q in regs[k])
  {
    if Peers(regs[..k + 1], p, q) {
      var j :| 0 <= j < k + 1 && p in regs[..k + 1][j] && q in regs[..k + 1][j];
      if j < k {
        assert regs[..k][j] == regs[j];
      }
    }
    if Peers(regs[..k], p, q) {
      var j :| 0 <= j < k && p in regs[..k][j] && q in regs[..k][j];
      assert regs[..k + 1][j] == regs[j];
    }
    if p in regs[k] && q in regs[k] {
      assert regs[..k + 1][k] == regs[k];
    }
  }

  /** No empty cell keeps as candidate a value placed in a cell it shares a region with. */
  ghost predicate Consistent(n: nat, regs: seq<seq<Pos>>, g: Grid)
    requires IsGrid(n, g)
  {
    forall p, q :: InBounds(n, p) && InBounds(n, q) && Peers(regs, p, q) && At(g, p).value == 0 ==>
      At(g, q).value !in At(g, p).cands
  }

  /** No two distinct cells of a region hold the same non-zero value. */
  ghost predicate NoDuplicates(n: nat, regs: seq<seq<Pos>>, g: Grid)
    requires IsGrid(n, g)
  {
    forall p, q :: InBounds(n, p) && InBounds(n, q) && p != q && Peers(regs, p, q) && At(g, p).value != 0 ==>
      At(g, p).value != At(g, q).value
  }

  /** No cell other than `p` sharing a region with `p` holds `v`. */
  ghost predicate FreeFor(n: nat, regs: seq<seq<Pos>>, g: Grid, p: Pos, v: int)
    requires IsGrid(n, g)
  {
    forall q :: InBounds(n, q) && q != p && Peers(regs, p, q) ==> At(g, q).value != v
  }

  /** _remove_possible_value: every cell sharing a region with `p` loses candidate `v`. */
  function RemoveAround(regs: seq<seq<Pos>>, g: Grid, p: Pos, v: int): (r: Grid)
    ensures |r| == |g| && forall i :: 0 <= i < |g| ==> |r[i]| == |g[i]|
    ensures forall i, j :: 0 <= i < |g| && 0 <= j < |g[i]| ==>
      r[i][j] == if Peers(regs, p, Pos(i, j)) then RemoveCandidate(g[i][j], v) else g[i][j]
  {
    seq(|g|, i requires 0 <= i < |g| =>
      seq(|g[i]|, j requires 0 <= j < |g[i]| =>
        if Peers(regs, p, Pos(i, j)) then RemoveCandidate(g[i][j], v) else g[i][j]))
  }

  /** set_cell_value on the grid: fails with OutOfRange before any change when (r, c) is off
      the board, fails with the setter's error when the cell refuses the value, and succeeds
      otherwise (AssignEffect says with what grid). */
  function Assign(n: nat, regs: seq<seq<Pos>>, g: Grid, r: int, c: int, v: int): (res: Result<Grid>)
    requires IsGrid(n, g)
    ensures !InBounds(n, Pos(r, c)) ==> res == Failure(OutOfRange)
    ensures InBounds(n, Pos(r, c)) && !g[r][c].editable ==> res == Failure(NotEditable)
    ensures InBounds(n, Pos(r, c)) && g[r][c].editable && !(0 <= v <= n) ==> res == Failure(InvalidValue)
    ensures res.Success? <==> InBounds(n, Pos(r, c)) && g[r][c].editable && 0 <= v <= n
  {
    if !(0 <= r < n && 0 <= c < n) then Failure(OutOfRange)
    else
      match SetValue(g[r][c], v, n)
      case Failure(e) => Failure(e)
      case Success(x) => Success(RemoveAround(regs, g[r := g[r][c := x]], Pos(r, c), v))
  }

  /** An accepted write: the cell holds `v`, every cell sharing a region with it loses candidate
      `v`, and no other value, flag or candidate changes; a non-zero value leaves the written
      cell without candidates. */
  lemma AssignEffect(n: nat, regs: seq<seq<Pos>>, g: Grid, r: int, c: int, v: int)
    requires IsGrid(n, g) && Assign(n, regs, g, r, c, v).Success?
    ensures var g' := Assign(n, regs, g, r, c, v).value;
      && IsGrid(n, g')
      && g'[r][c].value == v
      && (forall i, j :: 0 <= i < n && 0 <= j < n ==>
            && g'[i][j].editable == g[i][j].editable
            && g'[i][j].row == g[i][j].row && g'[i][j].column == g[i][j].column
            && ((i, j) != (r, c) ==> g'[i][j].value == g[i][j].value && g'[i][j].cands <= g[i][j].cands)
            && (Peers(regs, Pos(r, c), Pos(i, j)) ==> v !in g'[i][j].cands)
            && (!Peers(regs, Pos(r, c), Pos(i, j)) && (i, j) != (r, c) ==> g'[i][j] == g[i][j]))
      && (v != 0 ==> g'[r][c].cands == {})
      && (v == 0 ==> g'[r][c].cands <= g[r][c].cands)
  {
  }

  /** A write keeps every cell well formed and keeps candidates consistent with placed values. */
  lemma AssignKeepsInvariants(n: nat, regs: seq<seq<Pos>>, g: Grid, r: int, c: int, v: int)
    requires WellFormed(n, g) && Consistent(n, regs, g)
    requires Assign(n, regs, g, r, c, v).Success?
    ensures WellFormed(n, Assign(n, regs, g, r, c, v).value)
    ensures Consistent(n, regs, Assign(n, regs, g, r, c, v).value)
  {
    AssignEffect(n, regs, g, r, c, v);
    var g' := Assign(n, regs, g, r, c, v).value;
    var P := Pos(r, c);
    forall i, j | 0 <= i < n && 0 <= j < n
      ensures CellOk(n, g'[i][j]) && g'[i][j].row == i && g'[i][j].column == j
    {
      assert CellOk(n, g[i][j]);
    }
    forall p, q | InBounds(n, p) && InBounds(n, q) && Peers(regs, p, q) && At(g', p).value == 0
      ensures At(g', q).value !in At(g', p).cands
    {
      if q == P {
        if p != P {
          PeersSymmetric(regs, p, q);
        }
      } else if p == P {
        assert CellOk(n, g[r][c]);
      }
    }
  }

  /** Writing a value that no other cell of the written cell's regions holds never puts a
      duplicate into a region. */
  lemma AssignKeepsNoDuplicates(n: nat, regs: seq<seq<Pos>>, g: Grid, r: int, c: int, v: int)
    requires IsGrid(n, g) && NoDuplicates(n, regs, g) && FreeFor(n, regs, g, Pos(r, c), v)
    requires Assign(n, regs, g, r, c, v).Success?
    ensures NoDuplicates(n, regs, Assign(n, regs, g, r, c, v).value)
  {
    AssignEffect(n, regs, g, r, c, v);
    var g' := Assign(n, regs, g, r, c, v).value;
    var P := Pos(r, c);
    forall p, q | InBounds(n, p) && InBounds(n, q) && p != q && Peers(regs, p, q) && At(g', p).value != 0
      ensures At(g', p).value != At(g', q).value
    {
      if q == P {
        PeersSymmetric(regs, p, q);
      }
    }
  }

  /** A candidate of an empty cell is free for it: consistency rules out a clash. */
  lemma CandidateIsFree(n: nat, regs: seq<seq<Pos>>, g: Grid, p: Pos, v: int)
    requires IsGrid(n, g) && Consistent(n, regs, g) && InBounds(n, p)
    requires At(g, p).value == 0 && v in At(g, p).cands
    ensures FreeFor(n, regs, g, p, v)
  {
  }

  /** Replays logged writes, in order, through Assign; the first refused write stops the replay. */
  function Replay(n: nat, regs: seq<seq<Pos>>, g: Grid, acts: seq<Action>): Result<Grid>
    requires IsGrid(n, g)
    decreases |acts|
  {
    if acts == [] then Success(g)
    else
      match Assign(n, regs, g, acts[0].row, acts[0].column, acts[0].value)
      case Failure(e) => Failure(e)
      case Success(g1) => Replay(n, regs, g1, acts[1..])
  }

  /** The actions a replay logs: each write as performed, with the value it overwrote, up to the
      first refused one. */
  function Relog(n: nat, regs: seq<seq<Pos>>, g: Grid, acts: seq<Action>): seq<Action>
    requires IsGrid(n, g)
    decreases |acts|
  {
    if acts == [] then []
    else
      match Assign(n, regs, g, acts[0].row, acts[0].column, acts[0].value)
      case Failure(_) => []
      case Success(g1) =>
        [Action(acts[0].row, acts[0].column, g[acts[0].row][acts[0].column].value, acts[0].value, acts[0].tag)]
        + Relog(n, regs, g1, acts[1..])
  }

  /** The grid a replay ends on: its result when every write is accepted, otherwise the grid
      it had reached when the first write was refused. */
  function Reached(n: nat, regs: seq<seq<Pos>>, g: Grid, acts: seq<Action>): (r: Grid)
    requires IsGrid(n, g)
    ensures IsGrid(n, r)
    ensures Replay(n, regs, g, acts).Success? ==> r == Replay(n, regs, g, acts).value
    decreases |acts|
  {
    if acts == [] then g
    else
      match Assign(n, regs, g, acts[0].row, acts[0].column, acts[0].value)
      case Failure(_) => g
      case Success(g1) => Reached(n, regs, g1, acts[1..])
  }

  /** A replay that reaches `h` through `a` and is then refused the write `e` ends on `h`,
      having logged only the writes of `a`, whatever follows `e`. */
  lemma {:induction false} ReachedStops(n: nat, regs: seq<seq<Pos>>, g: Grid, a: seq<Action>, e: Action,
                                        rest: seq<Action>)
    requires IsGrid(n, g) && Replay(n, regs, g, a).Success? && IsGrid(n, Replay(n, regs, g, a).value)
    requires Assign(n, regs, Replay(n, regs, g, a).value, e.row, e.column, e.value).Failure?
    ensures Reached(n, regs, g, a + [e] + rest) == Replay(n, regs, g, a).value
    ensures Relog(n, regs, g, a + [e] + rest) == Relog(n, regs, g, a)
    decreases |a|
  {
    if a == [] {
      assert a + [e] + rest == [e] + rest;
    } else {
      var g1 := Assign(n, regs, g, a[0].row, a[0].column, a[0].value).value;
      ReachedStops(n, regs, g1, a[1..], e, rest);
      assert (a + [e] + rest)[0] == a[0];
      assert (a + [e] + rest)[1..] == a[1..] + [e] + rest;
    }
  }

  /** Replaying `a + b` is replaying `a`, then `b` from where `a` left the grid. */
  lemma {:induction false} ReplayConcat(n: nat, regs: seq<seq<Pos>>, g: Grid, a: seq<Action>, b: seq<Action>)
    requires IsGrid(n, g) && Replay(n, regs, g, a).Success?
    ensures IsGrid(n, Replay(n, regs, g, a).value)
    ensures Replay(n, regs, g, a + b) == Replay(n, regs, Replay(n, regs, g, a).value, b)
    decreases |a|
  {
    if a == [] {
      assert a + b == b;
    } else {
      var g1 := Assign(n, regs, g, a[0].row, a[0].column, a[0].value).value;
      assert (a + b)[0] == a[0] && (a + b)[1..] == a[1..] + b;
      ReplayConcat(n, regs, g1, a[1..], b);
    }
  }

  /** Extending a replay by one more write. */
  lemma ReplayStep(n: nat, regs: seq<seq<Pos>>, g: Grid, a: seq<Action>, e: Action)
    requires IsGrid(n, g) && Replay(n, regs, g, a).Success?
    requires IsGrid(n, Replay(n, regs, g, a).value)
    requires Assign(n, regs, Replay(n, regs, g, a).value, e.row, e.column, e.value).Success?
    ensures Replay(n, regs, g, a + [e]) == Assign(n, regs, Replay(n, regs, g, a).value, e.row, e.column, e.value)
  {
    ReplayConcat(n, regs, g, a, [e]);
    var g1 := Replay(n, regs, g, a).value;
    assert [e][1..] == [];
  }

  /** Extending a logged replay by one more write. */
  lemma {:induction false} RelogStep(n: nat, regs: seq<seq<Pos>>, g: Grid, a: seq<Action>, e: Action)
    requires IsGrid(n, g) && Replay(n, regs, g, a).Success?
    requires IsGrid(n, Replay(n, regs, g, a).value)
    ensures var g1 := Replay(n, regs, g, a).value;
      Relog(n, regs, g, a + [e]) == Relog(n, regs, g, a) +
        (if Assign(n, regs, g1, e.row, e.column, e.value).Success?
         then [Action(e.row, e.column, g1[e.row][e.column].value, e.value, e.tag)] else [])
    decreases |a|
  {
    if a == [] {
      assert a + [e] == [e];
    } else {
      var g1 := Assign(n, regs, g, a[0].row, a[0].column, a[0].value).value;
      var head := [Action(a[0].row, a[0].column, g[a[0].row][a[0].column].value, a[0].value, a[0].tag)];
      assert (a + [e])[0] == a[0] && (a + [e])[1..] == a[1..] + [e];
      assert Relog(n, regs, g, a + [e]) == head + Relog(n, regs, g1, a[1..] + [e]);
      assert Relog(n, regs, g, a) == head + Relog(n, regs, g1, a[1..]);
      RelogStep(n, regs, g1, a[1..], e);
      var gl := Replay(n, regs, g, a).value;
      ConcatAssoc(head, Relog(n, regs, g1, a[1..]),
        if Assign(n, regs, gl, e.row, e.column, e.value).Success?
        then [Action(e.row, e.column, gl[e.row][e.column].value, e.value, e.tag)] else []);
    }
  }

  /** One more accepted write extends both the replay and its log. */
  lemma ReplayLogStep(n: nat, regs: seq<seq<Pos>>, g0: Grid, a: seq<Action>, e: Action, g: Grid)
    requires IsGrid(n, g0) && Replay(n, regs, g0, a) == Success(g) && IsGrid(n, g)
    requires Assign(n, regs, g, e.row, e.column, e.value).Success?
    ensures Replay(n, regs, g0, a + [e]) == Assign(n, regs, g, e.row, e.column, e.value)
    ensures Relog(n, regs, g0, a + [e]) == Relog(n, regs, g0, a) + [Action(e.row, e.column, g[e.row][e.column].value, e.value, e.tag)]
  {
    ReplayStep(n, regs, g0, a, e);
    RelogStep(n, regs, g0, a, e);
  }

  /** A replay that runs into a refused write fails, whatever follows it. */
  lemma ReplayStopsAt(n: nat, regs: seq<seq<Pos>>, g: Grid, a: seq<Action>, e: Action, rest: seq<Action>)
    requires IsGrid(n, g) && Replay(n, regs, g, a).Success?
    requires IsGrid(n, Replay(n, regs, g, a).value)
    requires Assign(n, regs, Replay(n, regs, g, a).value, e.row, e.column, e.value).Failure?
    ensures Replay(n, regs, g, a + [e] + rest)
      == Failure(Assign(n, regs, Replay(n, regs, g, a).value, e.row, e.column, e.value).error)
  {
    assert a + [e] + rest == a + ([e] + rest);
    ReplayConcat(n, regs, g, a, [e] + rest);
  }

  /** One replayed write of a longer log `L`, as set_cell_value performs it on the board `g`
      reached by replaying `L[start..i]`: an accepted write extends the replay by `L[i]`, a
      refused one makes the replay of all of `L[start..]` fail with its error. */
  lemma ReplayNext(n: nat, regs: seq<seq<Pos>>, g0: Grid, log0: seq<Action>, L: seq<Action>, start: nat, i: nat,
                   g: Grid, log: seq<Action>, g': Grid, log': seq<Action>, out: Outcome)
    requires IsGrid(n, g0) && IsGrid(n, g) && start <= i < |L|
    requires Replay(n, regs, g0, L[start..i]) == Success(g) && log == log0 + Relog(n, regs, g0, L[start..i])
    requires var res := Assign(n, regs, g, L[i].row, L[i].column, L[i].value);
      && (res.Failure? ==> out == Fail(res.error) && g' == g && log' == log)
      && (res.Success? ==>
            (out == Pass && g' == res.value
             && log' == log + [Action(L[i].row, L[i].column, g[L[i].row][L[i].column].value, L[i].value, L[i].tag)]))
    ensures out.Pass? ==>
      (Replay(n, regs, g0, L[start..i + 1]) == Success(g') && log' == log0 + Relog(n, regs, g0, L[start..i + 1]))
    ensures out.Fail? ==> Replay(n, regs, g0, L[start..]) == Failure(out.error)
    ensures out.Fail? ==>
      Reached(n, regs, g0, L[start..]) == g' && log' == log0 + Relog(n, regs, g0, L[start..])
  {
    SliceAt(L, start, i);
    if out.Pass? {
      ReplayNextAccepted(n, regs, g0, L[start..i], L[i], L[start..i + 1], g);
    } else {
      ReplayNextRefused(n, regs, g0, L[start..i], L[i], L[i + 1..], L[start..], g);
      ReachedStops(n, regs, g0, L[start..i], L[i], L[i + 1..]);
    }
  }

  lemma SliceAt<T>(L: seq<T>, start: nat, i: nat)
    requires start <= i < |L|
    ensures L[start..i + 1] == L[start..i] + [L[i]]
    ensures L[start..] == L[start..i] + [L[i]] + L[i + 1..]
  {
  }

  lemma ReplayNextAccepted(n: nat, regs: seq<seq<Pos>>, g0: Grid, a: seq<Action>, e: Action, a': seq<Action>, g: Grid)
    requires IsGrid(n, g0) && IsGrid(n, g) && Replay(n, regs, g0, a) == Success(g) && a' == a + [e]
    requires Assign(n, regs, g, e.row, e.column, e.value).Success?
    ensures Replay(n, regs, g0, a') == Assign(n, regs, g, e.row, e.column, e.value)
    ensures Relog(n, regs, g0, a') == Relog(n, regs, g0, a) + [Action(e.row, e.column, g[e.row][e.column].value, e.value, e.tag)]
  {
    ReplayLogStep(n, regs, g0, a, e, g);
  }

  lemma ReplayNextRefused(n: nat, regs: seq<seq<Pos>>, g0: Grid, a: seq<Action>, e: Action, rest: seq<Action>,
                          all: seq<Action>, g: Grid)
    requires IsGrid(n, g0) && IsGrid(n, g) && Replay(n, regs, g0, a) == Success(g) && all == a + [e] + rest
    requires Assign(n, regs, g, e.row, e.column, e.value).Failure?
    ensures Replay(n, regs, g0, all) == Failure(Assign(n, regs, g, e.row, e.column, e.value).error)
  {
    ReplayStopsAt(n, regs, g0, a, e, rest);
  }

  /** `g` with log `log` is reached from `g0` with log `log0`: the log only grew, and replaying
      the new entries from `g0` yields `g`. */
  ghost predicate Extends(n: nat, regs: seq<seq<Pos>>, g0: Grid, log0: seq<Action>, g: Grid, log: seq<Action>)
    requires IsGrid(n, g0)
  {
    |log0| <= |log| && log[..|log0|] == log0 && Replay(n, regs, g0, log[|log0|..]) == Success(g)
  }

  /** A history grown by writes that replay from `g` to `g'` extends the one it grew from. */
  lemma ExtendsByReplay(n: nat, regs: seq<seq<Pos>>, g: Grid, log0: seq<Action>, acts: seq<Action>, g': Grid)
    requires IsGrid(n, g) && Replay(n, regs, g, acts) == Success(g')
    ensures Extends(n, regs, g, log0, g', log0 + acts)
  {
    assert (log0 + acts)[..|log0|] == log0;
    assert (log0 + acts)[|log0|..] == acts;
  }

  /** The writes a replay logs, replayed, reach the grid the replay reached: a history copied
      over by Relog is as good as the one it was copied from. */
  lemma {:induction false} ReplayRelog(n: nat, regs: seq<seq<Pos>>, g: Grid, acts: seq<Action>)
    requires IsGrid(n, g) && Replay(n, regs, g, acts).Success?
    ensures Replay(n, regs, g, Relog(n, regs, g, acts)) == Replay(n, regs, g, acts)
    decreases |acts|
  {
    if acts != [] {
      var e := acts[0];
      AssignEffect(n, regs, g, e.row, e.column, e.value);
      var g1 := Assign(n, regs, g, e.row, e.column, e.value).value;
      ReplayRelog(n, regs, g1, acts[1..]);
      var l := Relog(n, regs, g, acts);
      assert l[0].row == e.row && l[0].column == e.column && l[0].value == e.value;
      assert l[1..] == Relog(n, regs, g1, acts[1..]);
    }
  }

  lemma ExtendsRefl(n: nat, regs: seq<seq<Pos>>, g: Grid, log: seq<Action>)
    requires IsGrid(n, g)
    ensures Extends(n, regs, g, log, g, log)
  {
    assert log[|log|..] == [];
  }

  /** An accepted write, logged, extends the history. */
  lemma ExtendsStep(n: nat, regs: seq<seq<Pos>>, g0: Grid, log0: seq<Action>, g: Grid, log: seq<Action>, e: Action)
    requires IsGrid(n, g0) && IsGrid(n, g) && Extends(n, regs, g0, log0, g, log)
    requires Assign(n, regs, g, e.row, e.column, e.value).Success?
    ensures Extends(n, regs, g0, log0, Assign(n, regs, g, e.row, e.column, e.value).value, log + [e])
  {
    var a := log[|log0|..];
    ReplayStep(n, regs, g0, a, e);
    assert (log + [e])[..|log0|] == log0;
    assert (log + [e])[|log0|..] == a + [e];
  }

  /** A history that extends the one reached by an accepted, logged write from `g` extends the
      history of `g` itself. */
  lemma ExtendsThroughWrite(n: nat, regs: seq<seq<Pos>>, g: Grid, log: seq<Action>, e: Action,
                            g2: Grid, log2: seq<Action>)
    requires IsGrid(n, g) && Assign(n, regs, g, e.row, e.column, e.value).Success?
    requires Extends(n, regs, Assign(n, regs, g, e.row, e.column, e.value).value, log + [e], g2, log2)
    ensures Extends(n, regs, g, log, g2, log2)
  {
    var g1 := Assign(n, regs, g, e.row, e.column, e.value).value;
    ExtendsRefl(n, regs, g, log);
    ExtendsStep(n, regs, g, log, g, log, e);
    ExtendsTrans(n, regs, g, log, g1, log + [e], g2, log2);
  }

  lemma {:induction false} ExtendsTrans(n: nat, regs: seq<seq<Pos>>, g0: Grid, log0: seq<Action>,
                                        g1: Grid, log1: seq<Action>, g2: Grid, log2: seq<Action>)
    requires IsGrid(n, g0) && IsGrid(n, g1)
    requires Extends(n, regs, g0, log0, g1, log1) && Extends(n, regs, g1, log1, g2, log2)
    ensures Extends(n, regs, g0, log0, g2, log2)
  {
    var a, b := log1[|log0|..], log2[|log1|..];
    assert log1 == log0 + a;
    assert log2 == log1 + b;
    assert log2 == log0 + (a + b);
    ReplayConcat(n, regs, g0, a, b);
    assert log2[|log0|..] == a + b;
    assert log2[..|log0|] == log0;
  }

  /** Replaying writes never changes a cell that is not editable: the clues survive any replay. */
  lemma {:induction false} ReplayKeepsClues(n: nat, regs: seq<seq<Pos>>, g: Grid, acts: seq<Action>)
    requires IsGrid(n, g) && Replay(n, regs, g, acts).Success?
    ensures IsGrid(n, Replay(n, regs, g, acts).value)
    ensures forall i, j :: 0 <= i < n && 0 <= j < n && !g[i][j].editable ==>
      Replay(n, regs, g, acts).value[i][j].value == g[i][j].value
      && !Replay(n, regs, g, acts).value[i][j].editable
    decreases |acts|
  {
    if acts != [] {
      var e := acts[0];
      AssignEffect(n, regs, g, e.row, e.column, e.value);
      var g1 := Assign(n, regs, g, e.row, e.column, e.value).value;
      ReplayKeepsClues(n, regs, g1, acts[1..]);
    }
  }

  /** A board whose history extends another's kept that board's clues. */
  lemma ExtendsKeepsClues(n: nat, regs: seq<seq<Pos>>, g0: Grid, log0: seq<Action>, g: Grid, log: seq<Action>)
    requires IsGrid(n, g0) && Extends(n, regs, g0, log0, g, log)
    ensures IsGrid(n, g)
    ensures forall i, j :: 0 <= i < n && 0 <= j < n && !g0[i][j].editable ==>
      g[i][j].value == g0[i][j].value && !g[i][j].editable
  {
    ReplayKeepsClues(n, regs, g0, log[|log0|..]);
  }

  /** Every filled cell of `g` is still filled in `g'`. */
  ghost predicate Fills(n: nat, g: Grid, g': Grid)
    requires IsGrid(n, g) && IsGrid(n, g')
  {
    forall i, j :: 0 <= i < n && 0 <= j < n && g[i][j].value != 0 ==> g'[i][j].value != 0
  }

  /** Writing a candidate of an empty cell is accepted, keeps the grid well formed and
      consistent, never creates a duplicate, keeps every filled cell filled and lowers the number
      of empty cells. */
  lemma CandidateWrite(n: nat, regs: seq<seq<Pos>>, g: Grid, r: int, c: int, v: int)
    requires WellFormed(n, g) && Consistent(n, regs, g) && InBounds(n, Pos(r, c))
    requires g[r][c].value == 0 && v in g[r][c].cands
    ensures Assign(n, regs, g, r, c, v).Success?
    ensures var g' := Assign(n, regs, g, r, c, v).value;
      && WellFormed(n, g') && Consistent(n, regs, g') && g'[r][c].value == v
      && (NoDuplicates(n, regs, g) ==> NoDuplicates(n, regs, g'))
      && Fills(n, g, g') && Empties(g') < Empties(g)
  {
    assert CellOk(n, g[r][c]);
    AssignEffect(n, regs, g, r, c, v);
    AssignKeepsInvariants(n, regs, g, r, c, v);
    var g' := Assign(n, regs, g, r, c, v).value;
    if NoDuplicates(n, regs, g) {
      CandidateIsFree(n, regs, g, Pos(r, c), v);
      AssignKeepsNoDuplicates(n, regs, g, r, c, v);
    }
    EmptiesMono(g, g');
  }

  // ---- empty cells ----

  function RowEmpties(row: seq<Cell>): nat {
    if row == [] then 0 else (if row[0].value == 0 then 1 else 0) + RowEmpties(row[1..])
  }

  /** The number of empty cells; every productive deduction pass lowers it. */
  function Empties(g: Grid): nat {
    if g == [] then 0 else RowEmpties(g[0]) + Empties(g[1..])
  }

  /** What a pass did: the grid it left and the writes it logged, in order. */
  datatype Run = Run(grid: Grid, log: seq<Action>)

  /** The run `first` followed by the run `next` made from the grid it left. */
  function Then(first: Run, next: Run): Run {
    Run(next.grid, first.log + next.log)
  }

  /** What every step of the solver keeps, from grid `g` to run `r`: the grid stays well formed
      and consistent, the logged writes replay from `g` to the new grid, no duplicate is
      introduced, and the step wrote something exactly when it lowered the number of empty
      cells. */
  ghost predicate Advances(n: nat, regs: seq<seq<Pos>>, g: Grid, r: Run)
    requires WellFormed(n, g)
  {
    && WellFormed(n, r.grid) && Consistent(n, regs, r.grid)
    && Replay(n, regs, g, r.log) == Success(r.grid)
    && (NoDuplicates(n, regs, g) ==> NoDuplicates(n, regs, r.grid))
    && (r.log == [] ==> r.grid == g)
    && (r.log != [] ==> Empties(r.grid) < Empties(g))
  }

  /** A deduction pass advances the board with writes all tagged `tag`, and filled cells stay
      filled. */
  ghost predicate SoundRun(n: nat, regs: seq<seq<Pos>>, g: Grid, r: Run, tag: string)
    requires WellFormed(n, g)
  {
    && Advances(n, regs, g, r)
    && (forall i :: 0 <= i < |r.log| ==> r.log[i].tag == tag)
    && Fills(n, g, r.grid)
  }

  /** Doing nothing advances trivially. */
  lemma AdvancesIdle(n: nat, regs: seq<seq<Pos>>, g: Grid)
    requires WellFormed(n, g) && Consistent(n, regs, g)
    ensures Advances(n, regs, g, Run(g, []))
  {
    assert Replay(n, regs, g, []) == Success(g);
  }

  /** Two steps that advance, one after the other, advance. */
  lemma AdvancesThen(n: nat, regs: seq<seq<Pos>>, g: Grid, r1: Run, r2: Run)
    requires WellFormed(n, g) && Advances(n, regs, g, r1) && Advances(n, regs, r1.grid, r2)
    ensures Advances(n, regs, g, Then(r1, r2))
  {
    ReplayConcat(n, regs, g, r1.log, r2.log);
    if r1.log + r2.log == [] {
      assert r1.log == [] && r2.log == [];
    }
  }

  lemma {:induction false} RowEmptiesMono(a: seq<Cell>, b: seq<Cell>)
    requires |a| == |b|
    requires forall j :: 0 <= j < |a| && a[j].value != 0 ==> b[j].value != 0
    ensures RowEmpties(b) <= RowEmpties(a)
    ensures (exists j :: 0 <= j < |a| && a[j].value == 0 && b[j].value != 0) ==> RowEmpties(b) < RowEmpties(a)
  {
    if a != [] {
      RowEmptiesMono(a[1..], b[1..]);
      if exists j :: 0 <= j < |a| && a[j].value == 0 && b[j].value != 0 {
        var j :| 0 <= j < |a| && a[j].value == 0 && b[j].value != 0;
        if j > 0 {
          assert a[1..][j - 1] == a[j] && b[1..][j - 1] == b[j];
        }
      }
    }
  }

  /** Filling cells (and never emptying one) cannot raise the count of empty cells, and filling
      at least one empty cell lowers it. */
  lemma {:induction false} EmptiesMono(a: Grid, b: Grid)
    requires |a| == |b| && forall i :: 0 <= i < |a| ==> |a[i]| == |b[i]|
    requires forall i, j :: 0 <= i < |a| && 0 <= j < |a[i]| && a[i][j].value != 0 ==> b[i][j].value != 0
    ensures Empties(b) <= Empties(a)
    ensures (exists i, j :: 0 <= i < |a| && 0 <= j < |a[i]| && a[i][j].value == 0 && b[i][j].value != 0) ==>
      Empties(b) < Empties(a)
  {
    if a != [] {
      RowEmptiesMono(a[0], b[0]);
      EmptiesMono(a[1..], b[1..]);
      if exists i, j :: 0 <= i < |a| && 0 <= j < |a[i]| && a[i][j].value == 0 && b[i][j].value != 0 {
        var i, j :| 0 <= i < |a| && 0 <= j < |a[i]| && a[i][j].value == 0 && b[i][j].value != 0;
        if i > 0 {
          assert a[1..][i - 1] == a[i] && b[1..][i - 1] == b[i];
        }
      }
    }
  }

  // ---- rendering ----

  function DigitChar(d: int): char
    requires 0 <= d <= 9
  {
    (48 + d) as char
  }

  /** str(v) for a non-negative integer. */
  function DecimalString(v: nat): (s: string)
    ensures v <= 9 ==> s == [DigitChar(v)]
  {
    if v <= 9 then [DigitChar(v)] else DecimalString(v / 10) + [DigitChar(v % 10)]
  }

  /** str(v) for any integer: a minus sign before the digits of a negative value. */
  function IntString(v: int): (s: string)
    ensures 0 <= v <= 9 ==> s == [DigitChar(v)]
  {
    if v < 0 then "-" + DecimalString(-v) else DecimalString(v)
  }

  /** The values of a row written one after another, as the inner loop of to_string appends them. */
  function RowString(row: seq<Cell>): string {
    if row == [] then "" else RowString(row[..|row| - 1]) + IntString(row[|row| - 1].value)
  }

  /** to_string: each row's values written out, each row followed by a newline. */
  function Render(g: Grid): string {
    if g == [] then "" else Render(g[..|g| - 1]) + RowString(g[|g| - 1]) + "\n"
  }

  lemma RowStringSnoc(row: seq<Cell>, j: nat)
    requires j < |row|
    ensures RowString(row[..j + 1]) == RowString(row[..j]) + IntString(row[j].value)
  {
    assert row[..j + 1][..j] == row[..j];
  }

  lemma RenderSnoc(g: Grid, i: nat)
    requires i < |g|
    ensures Render(g[..i + 1]) == Render(g[..i]) + RowString(g[i]) + "\n"
  {
    assert g[..i + 1][..i] == g[..i];
  }
}
