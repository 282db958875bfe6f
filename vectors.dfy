/**
 * Reordering a list in place: the `Mover` and `MoverMatcher` implementations
 * for a `Vec`. Each move is specified by a function on the list's contents
 * (where every element ends up), and each method is proved against it.
 */
module Vectors {
  import opened Common
  import opened Seqs

  /** Why a move was refused; the list is then left as it was. */
  datatype VecMoveError = IndexOutOfBounds | NoMatch

  // ---------------------------------------------------------------------------
  // Where the elements go
  // ---------------------------------------------------------------------------

  /** The element at `i` taken `n` places towards the front; the `n` it passes shift back by one. */
  function MovedUp<T>(s: seq<T>, i: nat, n: nat): (r: seq<T>)
    requires n <= i < |s|
    ensures |r| == |s|
    ensures r[i - n] == s[i]
    ensures forall k :: i - n < k <= i ==> r[k] == s[k - 1]
    ensures forall k :: 0 <= k < |s| && (k < i - n || i < k) ==> r[k] == s[k]
  {
    s[..i - n] + [s[i]] + s[i - n..i] + s[i + 1..]
  }

  /** The element at `i` taken `n` places towards the back; the `n` it passes shift forward by one. */
  function MovedDown<T>(s: seq<T>, i: nat, n: nat): (r: seq<T>)
    requires i + n < |s|
    ensures |r| == |s|
    ensures r[i + n] == s[i]
    ensures forall k :: i <= k < i + n ==> r[k] == s[k + 1]
    ensures forall k :: 0 <= k < |s| && (k < i || i + n < k) ==> r[k] == s[k]
  {
    s[..i] + s[i + 1..i + n + 1] + [s[i]] + s[i + n + 1..]
  }

  lemma MovedUpZero<T>(s: seq<T>, i: nat)
    requires i < |s|
    ensures MovedUp(s, i, 0) == s
  {
    assert forall k :: 0 <= k < |s| ==> MovedUp(s, i, 0)[k] == s[k];
  }

  lemma MovedDownZero<T>(s: seq<T>, i: nat)
    requires i < |s|
    ensures MovedDown(s, i, 0) == s
  {
    assert forall k :: 0 <= k < |s| ==> MovedDown(s, i, 0)[k] == s[k];
  }

  /** One more place up is one more swap with the element in front. */
  lemma MovedUpStep<T>(s: seq<T>, i: nat, j: nat)
    requires j < i < |s|
    ensures SwapAt(MovedUp(s, i, j), i - j, i - j - 1) == MovedUp(s, i, j + 1)
  {
    var a := SwapAt(MovedUp(s, i, j), i - j, i - j - 1);
    var b := MovedUp(s, i, j + 1);
    forall k | 0 <= k < |s|
      ensures a[k] == b[k]
    {
    }
  }

  /** One more place down is one more swap with the element behind. */
  lemma MovedDownStep<T>(s: seq<T>, i: nat, j: nat)
    requires i + j + 1 < |s|
    ensures SwapAt(MovedDown(s, i, j), i + j, i + j + 1) == MovedDown(s, i, j + 1)
  {
    var a := SwapAt(MovedDown(s, i, j), i + j, i + j + 1);
    var b := MovedDown(s, i, j + 1);
    forall k | 0 <= k < |s|
      ensures a[k] == b[k]
    {
    }
  }

  /** Moving never adds, drops or duplicates an element. */
  lemma MovedUpPermutes<T>(s: seq<T>, i: nat, n: nat)
    requires n <= i < |s|
    ensures multiset(MovedUp(s, i, n)) == multiset(s)
  {
    assert s == s[..i - n] + s[i - n..i] + [s[i]] + s[i + 1..];
  }

  lemma MovedDownPermutes<T>(s: seq<T>, i: nat, n: nat)
    requires i + n < |s|
    ensures multiset(MovedDown(s, i, n)) == multiset(s)
  {
    assert s == s[..i] + [s[i]] + s[i + 1..i + n + 1] + s[i + n + 1..];
  }

  /** Moving up `n` places and then down `n` places from the new position restores the list. */
  lemma MovedUpThenDown<T>(s: seq<T>, i: nat, n: nat)
    requires n <= i < |s|
    ensures MovedDown(MovedUp(s, i, n), i - n, n) == s
  {
    var a := MovedDown(MovedUp(s, i, n), i - n, n);
    forall k | 0 <= k < |s|
      ensures a[k] == s[k]
    {
    }
  }

  lemma MovedDownThenUp<T>(s: seq<T>, i: nat, n: nat)
    requires i + n < |s|
    ensures MovedUp(MovedDown(s, i, n), i + n, n) == s
  {
    var a := MovedUp(MovedDown(s, i, n), i + n, n);
    forall k | 0 <= k < |s|
      ensures a[k] == s[k]
    {
    }
  }

  // ---------------------------------------------------------------------------
  // The bounds checks
  // ---------------------------------------------------------------------------

  /** `move_up` refuses the first position and any position past the end. */
  predicate MoveUpRejects(len: nat, i: nat) {
    i == 0 || i >= len
  }

  /**
   * `move_down` refuses the last position and any position past the end:
   * the check `i > len - 2` stated without the `usize` subtraction, so that
   * a list of fewer than two elements is refused rather than panicking.
   */
  predicate MoveDownRejects(len: nat, i: nat) {
    i + 1 >= len
  }

  /** `len - k` in `usize`: `None` where the subtraction underflows. */
  function UsizeSub(a: nat, b: nat): (r: Option<nat>)
    ensures r.Some? ==> r.value + b == a
  {
    if a < b then None else Some(a - b)
  }

  /**
   * The check of `move_down` as written, `i > len - 2` on `usize`: `None`
   * stands for the panic on underflow (a debug build stops on the
   * subtraction; a release build wraps, lets the index through and
   * `swap(i, i + 1)` then indexes past the end).
   */
  function MoveDownCheckAsWritten(len: nat, i: nat): (r: Option<bool>)
    ensures r.None? <==> len < 2
  {
    match UsizeSub(len, 2)
    case None => None
    case Some(m) => Some(i > m)
  }

  /** The corrected check refuses exactly what the written one refuses, wherever that one does not panic. */
  lemma MoveDownCheckAgrees(len: nat, i: nat)
    requires len >= 2
    ensures MoveDownCheckAsWritten(len, i) == Some(MoveDownRejects(len, i))
  {
  }

  /** A one-element list: the written check panics where an error is promised. */
  lemma MoveDownUnderflows<T>(x: T)
    ensures MoveDownCheckAsWritten(|[x]|, 0) == None
    ensures MoveDownResult([x], 0) == Err(IndexOutOfBounds)
  {
  }

  /** `move_up_n` refuses a start past the end and a distance past the front. */
  predicate MoveUpNRejects(len: nat, i: nat, n: nat) {
    i >= len || n > i
  }

  /** `move_down_n` refuses a target past the end. */
  predicate MoveDownNRejects(len: nat, i: nat, n: nat) {
    i + n >= len
  }

  // ---------------------------------------------------------------------------
  // What each move does to the contents
  // ---------------------------------------------------------------------------

  /** `move_up(i)`: the element at `i` swaps with the one in front of it. */
  function MoveUpResult<T>(s: seq<T>, i: nat): (r: Result<seq<T>, VecMoveError>)
    ensures r.Err? <==> !(0 < i < |s|)
    ensures r.Err? ==> r.error == IndexOutOfBounds
    ensures r.Ok? ==> r.value == MovedUp(s, i, 1)
  {
    if MoveUpRejects(|s|, i) then Err(IndexOutOfBounds)
    else
      MovedUpZero(s, i);
      MovedUpStep(s, i, 0);
      Ok(SwapAt(s, i, i - 1))
  }

  /** `move_down(i)`: the element at `i` swaps with the one behind it, and nothing panics. */
  function MoveDownResult<T>(s: seq<T>, i: nat): (r: Result<seq<T>, VecMoveError>)
    ensures r.Err? <==> i + 1 >= |s|
    ensures r.Err? ==> r.error == IndexOutOfBounds
    ensures r.Ok? ==> r.value == MovedDown(s, i, 1)
  {
    if MoveDownRejects(|s|, i) then Err(IndexOutOfBounds)
    else
      MovedDownZero(s, i);
      MovedDownStep(s, i, 0);
      Ok(SwapAt(s, i, i + 1))
  }

  /** `move_up_n(i, n)`: refused as a whole, or the element at `i` ends `n` places up. */
  function MoveUpNResult<T>(s: seq<T>, i: nat, n: nat): (r: Result<seq<T>, VecMoveError>)
    ensures r.Err? <==> !(n <= i < |s|)
    ensures r.Err? ==> r.error == IndexOutOfBounds
    ensures r.Ok? ==> |r.value| == |s| && r.value[i - n] == s[i]
    ensures r.Ok? ==> forall k :: i - n < k <= i ==> r.value[k] == s[k - 1]
    ensures r.Ok? ==> forall k :: 0 <= k < |s| && (k < i - n || i < k) ==> r.value[k] == s[k]
  {
    if MoveUpNRejects(|s|, i, n) then Err(IndexOutOfBounds) else Ok(MovedUp(s, i, n))
  }

  /** `move_down_n(i, n)`: refused as a whole, or the element at `i` ends `n` places down. */
  function MoveDownNResult<T>(s: seq<T>, i: nat, n: nat): (r: Result<seq<T>, VecMoveError>)
    ensures r.Err? <==> i + n >= |s|
    ensures r.Err? ==> r.error == IndexOutOfBounds
    ensures r.Ok? ==> |r.value| == |s| && r.value[i + n] == s[i]
    ensures r.Ok? ==> forall k :: i <= k < i + n ==> r.value[k] == s[k + 1]
    ensures r.Ok? ==> forall k :: 0 <= k < |s| && (k < i || i + n < k) ==> r.value[k] == s[k]
  {
    if MoveDownNRejects(|s|, i, n) then Err(IndexOutOfBounds) else Ok(MovedDown(s, i, n))
  }

  /** Moving one place with the `_n` form is the single move. */
  lemma MoveNByOne<T>(s: seq<T>, i: nat)
    ensures MoveUpNResult(s, i, 1) == MoveUpResult(s, i)
    ensures MoveDownNResult(s, i, 1) == MoveDownResult(s, i)
  {
  }

  /** A move that succeeds is undone by the opposite move from where the element landed. */
  lemma MoveNRoundTrip<T>(s: seq<T>, i: nat, n: nat)
    ensures MoveUpNResult(s, i, n).Ok? ==> MoveDownNResult(MoveUpNResult(s, i, n).value, i - n, n) == Ok(s)
    ensures MoveDownNResult(s, i, n).Ok? ==> MoveUpNResult(MoveDownNResult(s, i, n).value, i + n, n) == Ok(s)
  {
    if MoveUpNResult(s, i, n).Ok? {
      MovedUpThenDown(s, i, n);
    }
    if MoveDownNResult(s, i, n).Ok? {
      MovedDownThenUp(s, i, n);
    }
  }

  /** A move that succeeds keeps the same elements. */
  lemma MoveNPermutes<T>(s: seq<T>, i: nat, n: nat)
    ensures MoveUpNResult(s, i, n).Ok? ==> multiset(MoveUpNResult(s, i, n).value) == multiset(s)
    ensures MoveDownNResult(s, i, n).Ok? ==> multiset(MoveDownNResult(s, i, n).value) == multiset(s)
  {
    if MoveUpNResult(s, i, n).Ok? {
      MovedUpPermutes(s, i, n);
    }
    if MoveDownNResult(s, i, n).Ok? {
      MovedDownPermutes(s, i, n);
    }
  }

  /** `move_match_up`: the first element the predicate accepts moves up one place. */
  function MoveMatchUpResult<T>(s: seq<T>, pred: T -> bool): (r: Result<seq<T>, VecMoveError>)
    ensures r == Err(NoMatch) <==> forall k :: 0 <= k < |s| ==> !pred(s[k])
  {
    match FirstMatch(s, pred)
    case None => Err(NoMatch)
    case Some(i) => MoveUpResult(s, i)
  }

  /** `move_match_down`: the first element the predicate accepts moves down one place. */
  function MoveMatchDownResult<T>(s: seq<T>, pred: T -> bool): (r: Result<seq<T>, VecMoveError>)
    ensures r == Err(NoMatch) <==> forall k :: 0 <= k < |s| ==> !pred(s[k])
  {
    match FirstMatch(s, pred)
    case None => Err(NoMatch)
    case Some(i) => MoveDownResult(s, i)
  }

  /**
   * Which element a matched move acts on: the first one accepted, and only
   * that one; accepted elements behind it are not considered.
   */
  lemma MoveMatchFirst<T>(s: seq<T>, pred: T -> bool, i: nat)
    requires i < |s| && pred(s[i])
    requires forall k :: 0 <= k < i ==> !pred(s[k])
    ensures MoveMatchUpResult(s, pred) == MoveUpResult(s, i)
    ensures MoveMatchDownResult(s, pred) == MoveDownResult(s, i)
  {
    var m := FirstMatch(s, pred);
    assert m.Some?;
    assert m.value <= i;
    assert m.value >= i;
  }

  /** The outcome `r` and the contents `after` are what `res` says the move does to `before`. */
  ghost predicate Reflects<T, E>(r: Outcome<E>, after: seq<T>, before: seq<T>, res: Result<seq<T>, E>) {
    match res
    case Ok(s) => r == Pass && after == s
    case Err(e) => r == Fail(e) && after == before
  }

  // ---------------------------------------------------------------------------
  // The list itself
  // ---------------------------------------------------------------------------

  /** A growable list whose contents the moves rewrite in place. */
  class Vec<T> {
    var items: seq<T>

    constructor (items: seq<T>)
      ensures this.items == items
    {
      this.items := items;
    }

    method Swap(a: nat, b: nat)
      requires a < |items| && b < |items|
      modifies this
      ensures items == SwapAt(old(items), a, b)
    {
      items := SwapAt(items, a, b);
    }

    method Remove(i: nat) returns (x: T)
      requires i < |items|
      modifies this
      ensures x == old(items)[i]
      ensures items == RemoveAt(old(items), i)
    {
      x := items[i];
      items := RemoveAt(items, i);
    }

    method Push(x: T)
      modifies this
      ensures items == old(items) + [x]
    {
      items := items + [x];
    }

    /** `iter().position(pred)`: the index of the first accepted element. */
    function Position(pred: T -> bool): (r: Option<nat>)
      reads this
      ensures r.None? <==> forall k :: 0 <= k < |items| ==> !pred(items[k])
      ensures r.Some? ==> r.value < |items| && pred(items[r.value])
      ensures r.Some? ==> forall k :: 0 <= k < r.value ==> !pred(items[k])
    {
      FirstMatch(items, pred)
    }

    method MoveUp(i: nat) returns (r: Outcome<VecMoveError>)
      modifies this
      ensures Reflects(r, items, old(items), MoveUpResult(old(items), i))
    {
      if i == 0 || i >= |items| {
        return Fail(IndexOutOfBounds);
      }
      Swap(i, i - 1);
      r := Pass;
    }

    method MoveDown(i: nat) returns (r: Outcome<VecMoveError>)
      modifies this
      ensures Reflects(r, items, old(items), MoveDownResult(old(items), i))
    {
      if MoveDownRejects(|items|, i) {
        return Fail(IndexOutOfBounds);
      }
      Swap(i, i + 1);
      r := Pass;
    }

    method MoveUpN(i: nat, n: nat) returns (r: Outcome<VecMoveError>)
      modifies this
      ensures Reflects(r, items, old(items), MoveUpNResult(old(items), i, n))
    {
      if i >= |items| || n > i {
        return Fail(IndexOutOfBounds);
      }
      ghost var s := items;
      MovedUpZero(s, i);
      for j := 0 to n
        invariant items == MovedUp(s, i, j)
      {
        MovedUpStep(s, i, j);
        var moved := MoveUp(i - j);
      }
      r := Pass;
    }

    method MoveDownN(i: nat, n: nat) returns (r: Outcome<VecMoveError>)
      modifies this
      ensures Reflects(r, items, old(items), MoveDownNResult(old(items), i, n))
    {
      if i + n >= |items| {
        return Fail(IndexOutOfBounds);
      }
      ghost var s := items;
      MovedDownZero(s, i);
      for j := 0 to n
        invariant items == MovedDown(s, i, j)
      {
        MovedDownStep(s, i, j);
        var moved := MoveDown(i + j);
      }
      r := Pass;
    }

    method MoveMatchUp(pred: T -> bool) returns (r: Outcome<VecMoveError>)
      modifies this
      ensures Reflects(r, items, old(items), MoveMatchUpResult(old(items), pred))
    {
      var i := Position(pred);
      if i.None? {
        return Fail(NoMatch);
      }
      r := MoveUp(i.value);
    }

    method MoveMatchDown(pred: T -> bool) returns (r: Outcome<VecMoveError>)
      modifies this
      ensures Reflects(r, items, old(items), MoveMatchDownResult(old(items), pred))
    {
      var i := Position(pred);
      if i.None? {
        return Fail(NoMatch);
      }
      r := MoveDown(i.value);
    }
  }
}
