/**
 * `VecMutAccessor`: a handle on a list that the list operations run
 * through. Only the exclusive-reference form is modelled; the handle
 * forwards to the list it holds and re-implements the moves itself.
 */
module Accessors {
  import opened Common
  import opened Seqs
  import opened Vectors

  class VecMutAccessor<T> {
    /** The list the handle holds exclusively. */
    const vec: Vec<T>

    constructor (vec: Vec<T>)
      ensures this.vec == vec
    {
      this.vec := vec;
    }

    function Len(): nat
      reads vec
    {
      |vec.items|
    }

    predicate IsEmpty()
      reads vec
      ensures IsEmpty() <==> vec.items == []
    {
      Len() == 0
    }

    method Remove(index: nat) returns (x: T)
      requires index < |vec.items|
      modifies vec
      ensures x == old(vec.items)[index]
      ensures vec.items == RemoveAt(old(vec.items), index)
    {
      x := vec.Remove(index);
    }

    /** `position(pred)`: the index of the first accepted element of the held list. */
    function Position(pred: T -> bool): (r: Option<nat>)
      reads vec
      ensures r.None? <==> forall k :: 0 <= k < |vec.items| ==> !pred(vec.items[k])
      ensures r.Some? ==> r.value < |vec.items| && pred(vec.items[r.value])
      ensures r.Some? ==> forall k :: 0 <= k < r.value ==> !pred(vec.items[k])
    {
      vec.Position(pred)
    }

    method Swap(a: nat, b: nat)
      requires a < |vec.items| && b < |vec.items|
      modifies vec
      ensures vec.items == SwapAt(old(vec.items), a, b)
    {
      vec.Swap(a, b);
    }

    method Push(item: T)
      modifies vec
      ensures vec.items == old(vec.items) + [item]
    {
      vec.Push(item);
    }

    method MoveUp(i: nat) returns (r: Outcome<VecMoveError>)
      modifies vec
      ensures Reflects(r, vec.items, old(vec.items), MoveUpResult(old(vec.items), i))
    {
      if i == 0 || i >= Len() {
        return Fail(IndexOutOfBounds);
      }
      vec.Swap(i, i - 1);
      r := Pass;
    }

    /** Uses the corrected bounds check; see `MoveDownCheckAsWritten`. */
    method MoveDown(i: nat) returns (r: Outcome<VecMoveError>)
      modifies vec
      ensures Reflects(r, vec.items, old(vec.items), MoveDownResult(old(vec.items), i))
    {
      if MoveDownRejects(Len(), i) {
        return Fail(IndexOutOfBounds);
      }
      vec.Swap(i, i + 1);
      r := Pass;
    }

    /**
     * `move_up_n` as written: it checks the bounds of a move down and then
     * moves down, so it does exactly what `MoveDownN` does.
     */
    method MoveUpN(i: nat, n: nat) returns (r: Outcome<VecMoveError>)
      modifies vec
      ensures Reflects(r, vec.items, old(vec.items), MoveDownNResult(old(vec.items), i, n))
    {
      if i + n >= Len() {
        return Fail(IndexOutOfBounds);
      }
      ghost var s := vec.items;
      MovedDownZero(s, i);
      for j := 0 to n
        invariant vec.items == MovedDown(s, i, j)
      {
        MovedDownStep(s, i, j);
        var moved := MoveDown(i + j);
      }
      r := Pass;
    }

    /** `move_up_n` as intended, the same as the list's own `move_up_n`. */
    method MoveUpNFixed(i: nat, n: nat) returns (r: Outcome<VecMoveError>)
      modifies vec
      ensures Reflects(r, vec.items, old(vec.items), MoveUpNResult(old(vec.items), i, n))
    {
      if i >= Len() || n > i {
        return Fail(IndexOutOfBounds);
      }
      ghost var s := vec.items;
      MovedUpZero(s, i);
      for j := 0 to n
        invariant vec.items == MovedUp(s, i, j)
      {
        MovedUpStep(s, i, j);
        var moved := MoveUp(i - j);
      }
      r := Pass;
    }

    method MoveDownN(i: nat, n: nat) returns (r: Outcome<VecMoveError>)
      modifies vec
      ensures Reflects(r, vec.items, old(vec.items), MoveDownNResult(old(vec.items), i, n))
    {
      if i + n >= Len() {
        return Fail(IndexOutOfBounds);
      }
      ghost var s := vec.items;
      MovedDownZero(s, i);
      for j := 0 to n
        invariant vec.items == MovedDown(s, i, j)
      {
        MovedDownStep(s, i, j);
        var moved := MoveDown(i + j);
      }
      r := Pass;
    }

    method MoveMatchUp(pred: T -> bool) returns (r: Outcome<VecMoveError>)
      modifies vec
      ensures Reflects(r, vec.items, old(vec.items), MoveMatchUpResult(old(vec.items), pred))
    {
      var i := Position(pred);
      if i.None? {
        return Fail(NoMatch);
      }
      r := MoveUp(i.value);
    }

    method MoveMatchDown(pred: T -> bool) returns (r: Outcome<VecMoveError>)
      modifies vec
      ensures Reflects(r, vec.items, old(vec.items), MoveMatchDownResult(old(vec.items), pred))
    {
      var i := Position(pred);
      if i.None? {
        return Fail(NoMatch);
      }
      r := MoveDown(i.value);
    }
  }

  /**
   * The handle's `move_up_n` moves the wrong way: on `[0, 1, 2]`, asked to
   * move the middle element up one place it moves it down, and asked to
   * move the last element up one place it refuses.
   */
  lemma MoveUpNMovesDown()
    ensures MoveDownNResult([0, 1, 2], 1, 1) == Ok([0, 2, 1])
    ensures MoveUpNResult([0, 1, 2], 1, 1) == Ok([1, 0, 2])
    ensures MoveDownNResult([0, 1, 2], 2, 1) == Err(IndexOutOfBounds)
    ensures MoveUpNResult([0, 1, 2], 2, 1) == Ok([0, 2, 1])
  {
    assert MovedDown([0, 1, 2], 1, 1) == [0, 2, 1];
    assert MovedUp([0, 1, 2], 1, 1) == [1, 0, 2];
    assert MovedUp([0, 1, 2], 2, 1) == [0, 2, 1];
  }
}
