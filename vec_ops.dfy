/**
 * Deferred list operations, run later on one list (`VecOp`) or on a pair of
 * lists such as the active and inactive mod lists (`MultiVecOp`). Each run
 * is specified by a function on the contents and proved against it.
 */
module VecOps {
  import opened Common
  import opened Seqs
  import opened Vectors
  import opened Accessors

  /** Which list of a pair an operation acts on. */
  datatype Side = Left | Right

  /** Why an operation failed; the lists are then left as they were. */
  datatype RunError = IndexOutOfBounds | NotFound | MoveError(error: VecMoveError)

  /** An operation on one list; the closures of the source become functions. */
  datatype VecOp<!T> =
    | Swap(a: nat, b: nat)
    | Push(item: T)
    | Remove(index: nat)
    | ForEachMut(operation: T -> T)
    | MoveUp(pred: T -> bool)
    | MoveDown(pred: T -> bool)

  /** An operation on a pair of lists. */
  datatype MultiVecOp<!T> =
    | SingleOp(side: Side, op: VecOp<T>)
    | MoveFrom(from: Side, pred: T -> bool)
    | Swap(pred: T -> bool)
    | ForEachMut(operation: T -> T)
    | MoveUp(pred: T -> bool)
    | MoveDown(pred: T -> bool)

  /** `map_err(Into::into)` from a move's error to a run error. */
  function Lift<T>(r: Result<seq<T>, VecMoveError>): (l: Result<seq<T>, RunError>)
    ensures l.Ok? <==> r.Ok?
    ensures r.Ok? ==> l.value == r.value
    ensures r.Err? ==> l.error == MoveError(r.error)
  {
    match r
    case Ok(s) => Ok(s)
    case Err(e) => Err(MoveError(e))
  }

  /** What running `op` on a list with contents `s` does to it. */
  function RunOn<T>(op: VecOp<T>, s: seq<T>): Result<seq<T>, RunError> {
    match op
    case Swap(a, b) => if a >= |s| || b >= |s| then Err(RunError.IndexOutOfBounds) else Ok(SwapAt(s, a, b))
    case Push(x) => Ok(s + [x])
    case Remove(i) => if i >= |s| then Err(RunError.IndexOutOfBounds) else Ok(RemoveAt(s, i))
    case ForEachMut(f) => Ok(MapSeq(s, f))
    case MoveUp(p) => Lift(MoveMatchUpResult(s, p))
    case MoveDown(p) => Lift(MoveMatchDownResult(s, p))
  }

  /**
   * How each operation fails: only `Swap` and `Remove` report an index out
   * of bounds, `Push` and `ForEachMut` always succeed, and the moves report
   * the move's own error.
   */
  lemma RunOnFailures<T>(op: VecOp<T>, s: seq<T>)
    ensures RunOn(op, s) == Err(RunError.IndexOutOfBounds) <==>
              (op.Swap? && (op.a >= |s| || op.b >= |s|)) || (op.Remove? && op.index >= |s|)
    ensures op.Push? || op.ForEachMut? ==> RunOn(op, s).Ok?
    ensures (op.MoveUp? || op.MoveDown?) && RunOn(op, s).Err? ==> RunOn(op, s).error.MoveError?
  {
  }

  /**
   * What each operation keeps: the reorderings keep the same elements,
   * `Push` and `Remove` add or take exactly the one element, and
   * `ForEachMut` keeps the length.
   */
  lemma RunOnItems<T>(op: VecOp<T>, s: seq<T>)
    requires RunOn(op, s).Ok?
    ensures op.Swap? || op.MoveUp? || op.MoveDown? ==> multiset(RunOn(op, s).value) == multiset(s)
    ensures op.Push? ==> multiset(RunOn(op, s).value) == multiset(s) + multiset{op.item}
    ensures op.Remove? ==> multiset(RunOn(op, s).value) == multiset(s) - multiset{s[op.index]}
    ensures op.ForEachMut? ==> |RunOn(op, s).value| == |s|
  {
    match op
    case Swap(a, b) =>
      SwapAtPermutes(s, a, b);
    case MoveUp(p) =>
      var i := FirstMatch(s, p).value;
      MoveNByOne(s, i);
      MoveNPermutes(s, i, 1);
    case MoveDown(p) =>
      var i := FirstMatch(s, p).value;
      MoveNByOne(s, i);
      MoveNPermutes(s, i, 1);
    case _ =>
  }

  /** `from` loses its first element accepted by `p`, and `to` gains it at its end. */
  function Transfer<T>(from: seq<T>, to: seq<T>, p: T -> bool): (r: Option<(seq<T>, seq<T>)>)
    ensures r.None? <==> forall k :: 0 <= k < |from| ==> !p(from[k])
  {
    match FirstMatch(from, p)
    case None => None
    case Some(i) => Some((RemoveAt(from, i), to + [from[i]]))
  }

  /** A transfer moves one accepted element, the first, and loses nothing. */
  lemma TransferMoves<T>(from: seq<T>, to: seq<T>, p: T -> bool)
    requires Transfer(from, to, p).Some?
    ensures var (f, t) := Transfer(from, to, p).value;
      && |f| + 1 == |from| && |t| == |to| + 1
      && t[..|to|] == to && p(t[|to|])
      && multiset(f) + multiset(t) == multiset(from) + multiset(to)
      && (exists i :: 0 <= i < |from| && from[i] == t[|to|] && f == from[..i] + from[i + 1..]
            && forall k :: 0 <= k < i ==> !p(from[k]))
  {
    var i := FirstMatch(from, p).value;
    var (f, t) := Transfer(from, to, p).value;
    assert t[..|to|] == to;
    assert f == from[..i] + from[i + 1..];
  }

  /** Puts a result on one side of a pair back into the pair. */
  function OnSide<T>(side: Side, r: Result<seq<T>, RunError>, l: seq<T>, rt: seq<T>): Result<(seq<T>, seq<T>), RunError> {
    match r
    case Err(e) => Err(e)
    case Ok(s) => if side == Left then Ok((s, rt)) else Ok((l, s))
  }

  /** What a transfer from `side` does to the pair. */
  function TransferFrom<T>(side: Side, l: seq<T>, rt: seq<T>, p: T -> bool): Result<(seq<T>, seq<T>), RunError> {
    if side == Left then
      match Transfer(l, rt, p)
      case None => Err(NotFound)
      case Some((l', r')) => Ok((l', r'))
    else
      match Transfer(rt, l, p)
      case None => Err(NotFound)
      case Some((r', l')) => Ok((l', r'))
  }

  /** A matched move on the left list, or on the right one when nothing on the left matches. */
  function MoveEither<T>(onLeft: Result<seq<T>, VecMoveError>, onRight: Result<seq<T>, VecMoveError>,
                         l: seq<T>, rt: seq<T>): Result<(seq<T>, seq<T>), RunError> {
    match onLeft
    case Ok(l') => Ok((l', rt))
    case Err(NoMatch) => OnSide(Right, Lift(onRight), l, rt)
    case Err(e) => Err(MoveError(e))
  }

  /** What running `op` on the pair `(l, rt)` does to it. */
  function RunMultiOn<T>(op: MultiVecOp<T>, l: seq<T>, rt: seq<T>): Result<(seq<T>, seq<T>), RunError> {
    match op
    case SingleOp(side, o) => OnSide(side, RunOn(o, if side == Left then l else rt), l, rt)
    case MoveFrom(side, p) => TransferFrom(side, l, rt, p)
    case Swap(p) => TransferFrom(if FirstMatch(l, p).Some? then Left else Right, l, rt, p)
    case ForEachMut(f) => Ok((MapSeq(l, f), MapSeq(rt, f)))
    case MoveUp(p) => MoveEither(MoveMatchUpResult(l, p), MoveMatchUpResult(rt, p), l, rt)
    case MoveDown(p) => MoveEither(MoveMatchDownResult(l, p), MoveMatchDownResult(rt, p), l, rt)
  }

  /** A single operation leaves the other list alone. */
  lemma SingleOpOneSide<T>(side: Side, o: VecOp<T>, l: seq<T>, rt: seq<T>)
    ensures var r := RunMultiOn(MultiVecOp.SingleOp(side, o), l, rt);
      && (r.Ok? && side == Left ==> r.value == (RunOn(o, l).value, rt))
      && (r.Ok? && side == Right ==> r.value == (l, RunOn(o, rt).value))
      && (r.Err? <==> RunOn(o, if side == Left then l else rt).Err?)
  {
  }

  /** A transfer from either side keeps the pair's elements, or finds nothing and changes nothing. */
  lemma TransferFromKeeps<T>(side: Side, l: seq<T>, rt: seq<T>, p: T -> bool)
    ensures var r := TransferFrom(side, l, rt, p);
      && (r.Ok? ==> multiset(r.value.0) + multiset(r.value.1) == multiset(l) + multiset(rt))
      && (r.Ok? ==> |r.value.0| + |r.value.1| == |l| + |rt|)
      && (r.Err? ==> r.error == NotFound)
  {
    if side == Left && Transfer(l, rt, p).Some? {
      TransferMoves(l, rt, p);
    } else if side == Right && Transfer(rt, l, p).Some? {
      TransferMoves(rt, l, p);
    }
  }

  /**
   * Transfers between the lists move elements across and lose none: the
   * pair holds the same elements as before, and the only failure is that
   * nothing was found.
   */
  lemma TransferKeepsItems<T>(op: MultiVecOp<T>, l: seq<T>, rt: seq<T>)
    requires op.MoveFrom? || op.Swap?
    ensures var r := RunMultiOn(op, l, rt);
      && (r.Ok? ==> multiset(r.value.0) + multiset(r.value.1) == multiset(l) + multiset(rt))
      && (r.Ok? ==> |r.value.0| + |r.value.1| == |l| + |rt|)
      && (r.Err? ==> r.error == NotFound)
  {
    var side := if op.MoveFrom? then op.from else if FirstMatch(l, op.pred).Some? then Left else Right;
    TransferFromKeeps(side, l, rt, op.pred);
  }

  /** `Swap` searches the left list first, and reports nothing found only when neither list has a match. */
  lemma SwapSidesSearchesLeftFirst<T>(p: T -> bool, l: seq<T>, rt: seq<T>)
    ensures (exists k :: 0 <= k < |l| && p(l[k])) ==> RunMultiOn(MultiVecOp.Swap(p), l, rt) == RunMultiOn(MultiVecOp.MoveFrom(Left, p), l, rt)
    ensures (forall k :: 0 <= k < |l| ==> !p(l[k])) ==> RunMultiOn(MultiVecOp.Swap(p), l, rt) == RunMultiOn(MultiVecOp.MoveFrom(Right, p), l, rt)
    ensures RunMultiOn(MultiVecOp.Swap(p), l, rt) == Err(NotFound) <==>
              (forall k :: 0 <= k < |l| ==> !p(l[k])) && (forall k :: 0 <= k < |rt| ==> !p(rt[k]))
  {
  }

  /**
   * The paired move up acts on the right list only when nothing on the left
   * matches: a left match that cannot move is an error, not a fallback.
   */
  lemma MoveUpFallsBackOnNoMatch<T>(p: T -> bool, l: seq<T>, rt: seq<T>)
    ensures (exists k :: 0 <= k < |l| && p(l[k])) ==>
              RunMultiOn(MultiVecOp.MoveUp(p), l, rt) == OnSide(Left, Lift(MoveMatchUpResult(l, p)), l, rt)
    ensures (forall k :: 0 <= k < |l| ==> !p(l[k])) ==>
              RunMultiOn(MultiVecOp.MoveUp(p), l, rt) == OnSide(Right, Lift(MoveMatchUpResult(rt, p)), l, rt)
  {
    var m := MoveMatchUpResult(l, p);
    assert RunMultiOn(MultiVecOp.MoveUp(p), l, rt) == MoveEither(m, MoveMatchUpResult(rt, p), l, rt);
  }

  /** The same for the paired move down. */
  lemma MoveDownFallsBackOnNoMatch<T>(p: T -> bool, l: seq<T>, rt: seq<T>)
    ensures (exists k :: 0 <= k < |l| && p(l[k])) ==>
              RunMultiOn(MultiVecOp.MoveDown(p), l, rt) == OnSide(Left, Lift(MoveMatchDownResult(l, p)), l, rt)
    ensures (forall k :: 0 <= k < |l| ==> !p(l[k])) ==>
              RunMultiOn(MultiVecOp.MoveDown(p), l, rt) == OnSide(Right, Lift(MoveMatchDownResult(rt, p)), l, rt)
  {
    var m := MoveMatchDownResult(l, p);
    assert RunMultiOn(MultiVecOp.MoveDown(p), l, rt) == MoveEither(m, MoveMatchDownResult(rt, p), l, rt);
  }

  /** The outcome `r` and the pair `(l', r')` are what `res` says the run does to `(l, rt)`. */
  ghost predicate ReflectsPair<T>(r: Outcome<RunError>, l': seq<T>, r': seq<T>, l: seq<T>, rt: seq<T>,
                                  res: Result<(seq<T>, seq<T>), RunError>) {
    match res
    case Ok((a, b)) => r == Pass && l' == a && r' == b
    case Err(e) => r == Fail(e) && l' == l && r' == rt
  }

  // ---------------------------------------------------------------------------
  // Running the operations
  // ---------------------------------------------------------------------------

  /** `Result::map_err(Into::into)` on an outcome. */
  function LiftOutcome(r: Outcome<VecMoveError>): Outcome<RunError> {
    match r
    case Pass => Pass
    case Fail(e) => Fail(MoveError(e))
  }

  /** Applies `f` to every element in turn, in place. */
  method ForEachMutOn<T>(vec: VecMutAccessor<T>, f: T -> T)
    modifies vec.vec
    ensures vec.vec.items == MapSeq(old(vec.vec.items), f)
  {
    ghost var s := vec.vec.items;
    for k := 0 to |vec.vec.items|
      invariant |vec.vec.items| == |s|
      invariant forall j :: 0 <= j < k ==> vec.vec.items[j] == f(s[j])
      invariant forall j :: k <= j < |s| ==> vec.vec.items[j] == s[j]
    {
      vec.vec.items := vec.vec.items[k := f(vec.vec.items[k])];
    }
    assert vec.vec.items == MapSeq(s, f);
  }

  method Run<T>(op: VecOp<T>, vec: VecMutAccessor<T>) returns (r: Outcome<RunError>)
    modifies vec.vec
    ensures Reflects(r, vec.vec.items, old(vec.vec.items), RunOn(op, old(vec.vec.items)))
  {
    match op
    case Swap(a, b) =>
      if a >= vec.Len() || b >= vec.Len() {
        return Fail(RunError.IndexOutOfBounds);
      }
      vec.Swap(a, b);
      r := Pass;
    case Push(x) =>
      vec.Push(x);
      r := Pass;
    case Remove(i) =>
      if i >= vec.Len() {
        return Fail(RunError.IndexOutOfBounds);
      }
      var removed := vec.Remove(i);
      r := Pass;
    case ForEachMut(f) =>
      ForEachMutOn(vec, f);
      r := Pass;
    case MoveUp(p) =>
      var moved := vec.MoveMatchUp(p);
      r := LiftOutcome(moved);
    case MoveDown(p) =>
      var moved := vec.MoveMatchDown(p);
      r := LiftOutcome(moved);
  }

  /** `move_from`: the first accepted element of `from` is removed and pushed onto `to`. */
  method MoveFromTo<T>(from: VecMutAccessor<T>, to: VecMutAccessor<T>, p: T -> bool) returns (r: Outcome<RunError>)
    requires from.vec != to.vec
    modifies from.vec, to.vec
    ensures match Transfer(old(from.vec.items), old(to.vec.items), p)
      case None => r == Fail(NotFound) && from.vec.items == old(from.vec.items) && to.vec.items == old(to.vec.items)
      case Some((f, t)) => r == Pass && from.vec.items == f && to.vec.items == t
  {
    var index := from.Position(p);
    if index.None? {
      return Fail(NotFound);
    }
    var item := from.Remove(index.value);
    r := Run(Push(item), to);
  }

  method RunMulti<T>(op: MultiVecOp<T>, left: VecMutAccessor<T>, right: VecMutAccessor<T>) returns (r: Outcome<RunError>)
    requires left.vec != right.vec
    modifies left.vec, right.vec
    ensures ReflectsPair(r, left.vec.items, right.vec.items, old(left.vec.items), old(right.vec.items),
                         RunMultiOn(op, old(left.vec.items), old(right.vec.items)))
  {
    match op
    case SingleOp(side, o) =>
      if side == Left {
        r := Run(o, left);
      } else {
        r := Run(o, right);
      }
    case MoveFrom(side, p) =>
      if side == Left {
        r := MoveFromTo(left, right, p);
      } else {
        r := MoveFromTo(right, left, p);
      }
    case Swap(p) =>
      var index := left.Position(p);
      if index.Some? {
        r := MoveFromTo(left, right, p);
      } else {
        r := MoveFromTo(right, left, p);
      }
    case ForEachMut(f) =>
      ForEachMutOn(left, f);
      ForEachMutOn(right, f);
      r := Pass;
    case MoveUp(p) =>
      var moved := left.MoveMatchUp(p);
      if moved == Fail(NoMatch) {
        moved := right.MoveMatchUp(p);
      }
      r := LiftOutcome(moved);
    case MoveDown(p) =>
      var moved := left.MoveMatchDown(p);
      if moved == Fail(NoMatch) {
        moved := right.MoveMatchDown(p);
      }
      r := LiftOutcome(moved);
  }
}
