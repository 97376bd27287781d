/** The action log: a stack of performed writes and a stack of undone ones. */
module History {
  import opened Wrappers

  /** One logged write: row, column, value before, value written, and the name of the writer. */
  datatype Action = Action(row: int, column: int, oldValue: int, value: int, tag: string)

  /** What undo and redo hand back: the moved action and both list lengths afterwards. */
  datatype Popped = Popped(action: Action, undoLength: nat, redoLength: nat)

  class UndoRedo {
    var undo: seq<Action>
    var redo: seq<Action>

    constructor ()
      ensures undo == [] && redo == []
    {
      undo, redo := [], [];
    }

    /** The copy a deep copy of a board makes: both lists, element for element. */
    constructor Copy(other: UndoRedo)
      ensures undo == other.undo && redo == other.redo
    {
      undo, redo := other.undo, other.redo;
    }

    /** add_action: records a write and forgets everything undone. */
    method AddAction(row: int, column: int, oldValue: int, value: int, tag: string)
      modifies this
      ensures undo == old(undo) + [Action(row, column, oldValue, value, tag)]
      ensures redo == []
    {
      undo := undo + [Action(row, column, oldValue, value, tag)];
      redo := [];
    }

    function UndoLength(): nat
      reads this
    {
      |undo|
    }

    function RedoLength(): nat
      reads this
    {
      |redo|
    }

    /** undo: moves the newest performed action onto the redo stack and returns it with the new
        lengths; popping an empty list is an error that changes nothing. */
    method Undo() returns (r: Result<Popped>)
      modifies this
      ensures old(undo) == [] ==> r == Failure(EmptyStack) && undo == old(undo) && redo == old(redo)
      ensures old(undo) != [] ==>
        && undo == old(undo)[..|old(undo)| - 1]
        && redo == old(redo) + [old(undo)[|old(undo)| - 1]]
        && r == Success(Popped(old(undo)[|old(undo)| - 1], |undo|, |redo|))
    {
      if undo == [] {
        return Failure(EmptyStack);
      }
      var last := undo[|undo| - 1];
      undo := undo[..|undo| - 1];
      redo := redo + [last];
      r := Success(Popped(last, |undo|, |redo|));
    }

    /** redo: moves the newest undone action back onto the undo stack. */
    method Redo() returns (r: Result<Popped>)
      modifies this
      ensures old(redo) == [] ==> r == Failure(EmptyStack) && undo == old(undo) && redo == old(redo)
      ensures old(redo) != [] ==>
        && redo == old(redo)[..|old(redo)| - 1]
        && undo == old(undo) + [old(redo)[|old(redo)| - 1]]
        && r == Success(Popped(old(redo)[|old(redo)| - 1], |undo|, |redo|))
    {
      if redo == [] {
        return Failure(EmptyStack);
      }
      var last := redo[|redo| - 1];
      redo := redo[..|redo| - 1];
      undo := undo + [last];
      r := Success(Popped(last, |undo|, |redo|));
    }
  }

  /** The redo list after the writes `log` were recorded on a history whose redo list was
      `redo`: a recorded write forgets everything undone, and no write leaves it as it was. */
  function RedoAfter(log: seq<Action>, redo: seq<Action>): seq<Action> {
    if log == [] then redo else []
  }

  /** Recording `a` and then `b` leaves the redo list that recording `a + b` at once leaves. */
  lemma RedoAfterThen(a: seq<Action>, b: seq<Action>, redo: seq<Action>)
    ensures RedoAfter(b, RedoAfter(a, redo)) == RedoAfter(a + b, redo)
  {
    if a != [] {
      assert (a + b)[0] == a[0];
    }
  }

  /** An undo followed by a redo hands back the same action and restores both stacks. */
  method UndoThenRedo(u: UndoRedo) returns (first: Result<Popped>, second: Result<Popped>)
    requires u.undo != []
    modifies u
    ensures u.undo == old(u.undo) && u.redo == old(u.redo)
    ensures first.Success? && second.Success? && first.value.action == second.value.action
    ensures first.value.undoLength + 1 == second.value.undoLength
  {
    first := u.Undo();
    second := u.Redo();
  }

  /** A redo followed by an undo hands back the same action and restores both stacks. */
  method RedoThenUndo(u: UndoRedo) returns (first: Result<Popped>, second: Result<Popped>)
    requires u.redo != []
    modifies u
    ensures u.undo == old(u.undo) && u.redo == old(u.redo)
    ensures first.Success? && second.Success? && first.value.action == second.value.action
    ensures first.value.redoLength + 1 == second.value.redoLength
  {
    first := u.Redo();
    second := u.Undo();
  }
}
