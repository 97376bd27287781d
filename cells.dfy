/** One board position: its coordinates, whether it may be written, its value (0 = empty)
    and the set of values still possible for it. */
module Cells {
  import opened Wrappers

  /** The integers lo..hi, both ends included. */
  function Range(lo: int, hi: int): (s: set<int>)
    ensures forall v :: v in s <==> lo <= v <= hi
    decreases hi - lo
  {
    if lo > hi then {} else Range(lo, hi - 1) + {hi}
  }

  lemma {:induction false} RangeSize(lo: int, hi: int)
    requires lo <= hi + 1
    ensures |Range(lo, hi)| == hi - lo + 1
    decreases hi - lo
  {
    if lo <= hi {
      RangeSize(lo, hi - 1);
      assert Range(lo, hi) == Range(lo, hi - 1) + {hi};
    } else {
      assert Range(lo, hi) == {};
    }
  }

  lemma NoMemberEmpty(a: set<int>)
    requires forall x :: x !in a
    ensures a == {}
  {
    forall x ensures x in a <==> x in {} {}
  }

  /** A non-empty set has a member. */
  lemma NonEmptyHasMember(a: set<int>)
    requires a != {}
    ensures exists x :: x in a
  {
    if forall x :: x !in a {
      NoMemberEmpty(a);
    }
  }

  datatype Cell = Cell(row: int, column: int, editable: bool, value: int, cands: set<int>)

  /** The invariant every cell of a board keeps: a value in [0, n], candidates drawn from 1..n,
      no candidates once a value is placed, and clue cells always hold a value. */
  ghost predicate CellOk(n: int, x: Cell) {
    && 0 <= x.value <= n
    && x.cands <= Range(1, n)
    && (x.value != 0 ==> x.cands == {})
    && (!x.editable ==> x.value != 0)
  }

  /** Cell construction: rejects a clue without a value, a value outside [0, maxValue] and a
      position outside [0, maxValue); an editable cell starts with every value as candidate,
      even when it is given a non-zero value. */
  function NewCell(row: int, column: int, editable: bool, value: int, maxValue: int): (r: Result<Cell>)
    ensures !editable && value == 0 ==> r == Failure(MissingValue)
    ensures (editable || value != 0) && !(0 <= value <= maxValue) ==> r == Failure(InvalidValue)
    ensures r.Success? <==>
      (editable || value != 0) && 0 <= value <= maxValue && 0 <= row < maxValue && 0 <= column < maxValue
    ensures r.Success? ==>
      && r.value.row == row && r.value.column == column
      && r.value.editable == editable && r.value.value == value
      && (editable ==> r.value.cands == Range(1, maxValue))
      && (!editable ==> r.value.cands == {})
    ensures r.Success? && (!editable || value == 0) ==> CellOk(maxValue, r.value)
  {
    if !editable && value == 0 then Failure(MissingValue)
    else if value < 0 || value > maxValue then Failure(InvalidValue)
    else if !(0 <= row < maxValue) || !(0 <= column < maxValue) then Failure(InvalidPosition)
    else Success(Cell(row, column, editable, value, if editable then Range(1, maxValue) else {}))
  }

  /** The value setter: a clue cell refuses every write, a value outside [0, maxValue] is refused;
      otherwise the value is stored, a non-zero value empties the candidates and 0 keeps them. */
  function SetValue(x: Cell, v: int, maxValue: int): (r: Result<Cell>)
    ensures !x.editable ==> r == Failure(NotEditable)
    ensures x.editable && !(0 <= v <= maxValue) ==> r == Failure(InvalidValue)
    ensures r.Success? <==> x.editable && 0 <= v <= maxValue
    ensures r.Success? ==>
      && r.value.value == v
      && r.value.row == x.row && r.value.column == x.column && r.value.editable == x.editable
      && r.value.cands == (if v == 0 then x.cands else {})
    ensures r.Success? && CellOk(maxValue, x) ==> CellOk(maxValue, r.value)
  {
    if !x.editable then Failure(NotEditable)
    else if v < 0 || v > maxValue then Failure(InvalidValue)
    else if v == 0 then Success(x.(value := v))
    else Success(x.(value := v, cands := {}))
  }

  /** init_possible_values: every value 1..maxValue becomes a candidate again. */
  function InitCandidates(x: Cell, maxValue: int): (r: Cell)
    ensures r.value == x.value && r.editable == x.editable
    ensures forall v :: v in r.cands <==> 1 <= v <= maxValue
  {
    x.(cands := Range(1, maxValue))
  }

  /** intersect_possible_values: keeps only the candidates found in `allowed`. */
  function IntersectCandidates(x: Cell, allowed: set<int>): (r: Cell)
    ensures r.value == x.value && r.editable == x.editable && r.row == x.row && r.column == x.column
    ensures r.cands <= x.cands && r.cands <= allowed
    ensures forall v :: v in x.cands && v in allowed ==> v in r.cands
  {
    x.(cands := x.cands * allowed)
  }

  /** remove_possible_value: drops one candidate, a no-op when it is absent. */
  function RemoveCandidate(x: Cell, v: int): (r: Cell)
    ensures r.value == x.value && r.editable == x.editable && r.row == x.row && r.column == x.column
    ensures v !in r.cands && r.cands <= x.cands
    ensures forall u :: u in x.cands && u != v ==> u in r.cands
  {
    x.(cands := x.cands - {v})
  }

  /** clear: an editable cell becomes empty through the setter; a clue cell is left alone. */
  function Clear(x: Cell, maxValue: int): (r: Cell)
    requires 0 <= maxValue
    ensures r.value == (if x.editable then 0 else x.value)
    ensures r.cands == x.cands && r.editable == x.editable
  {
    if x.editable then SetValue(x, 0, maxValue).value else x
  }
}
