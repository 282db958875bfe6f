/**
 * The load-order engine: `sort` sorts the candidate package ids, builds each
 * candidate's set of predecessors from the metadata store (`build_deps`) and
 * then runs a depth-first topological sort (`visit`) over them.
 *
 * Rust's `&mut` arguments are threaded through as values: every method takes
 * the old value and returns the new one. The order in which a `HashSet` is
 * iterated is not fixed, so `visit` picks each next predecessor with `:|`;
 * everything proved holds for every such order.
 */
module Sorting {
  import opened Common
  import opened ModMeta
  import opened Seqs
  import LexOrder

  datatype SortError = CyclicError | MissingData

  /** Each candidate's predecessors: the ids that must come before it. */
  type Deps = map<string, set<string>>

  // ---------------------------------------------------------------------------
  // What `build_deps` computes
  // ---------------------------------------------------------------------------

  /** The ids a mod's own metadata asks to be loaded after. */
  function OwnPreds(m: ModMetaData): set<string> {
    DependencyIds(m) + Elems(m.loadAfter) + Elems(m.forceLoadAfter)
  }

  /** `n` names `m` in its `loadBefore` or `forceLoadBefore`. */
  predicate DeclaresBefore(n: ModMetaData, m: string) {
    m in Elems(n.loadBefore) || m in Elems(n.forceLoadBefore)
  }

  /** Every candidate has metadata. */
  predicate AllKnown(s: seq<string>, store: Store) {
    forall m :: m in s ==> m in store
  }

  /**
   * Some candidate names an earlier candidate in its load-before lists but
   * has no package id to be recorded under.
   */
  ghost predicate BeforeWithoutId(s: seq<string>, store: Store)
    requires AllKnown(s, store)
  {
    exists j, m :: 0 <= j < |s| && m in s[..j] && DeclaresBefore(store[s[j]], m) && store[s[j]].packageId.None?
  }

  /**
   * The ids contributed to `m` by load-before declarations: only a candidate
   * placed AFTER an occurrence of `m` in `s` is looked at, since the pairs
   * `(m, n)` are the 2-combinations of `s` in order.
   */
  function BeforePreds(s: seq<string>, store: Store, m: string): set<string>
    requires AllKnown(s, store)
  {
    set j | 0 <= j < |s| && m in s[..j] && DeclaresBefore(store[s[j]], m) && store[s[j]].packageId.Some?
      :: store[s[j]].packageId.value
  }

  /** The predecessor map `build_deps` returns when it succeeds. */
  function Predecessors(s: seq<string>, store: Store): (deps: Deps)
    requires AllKnown(s, store)
    ensures forall m :: m in deps <==> m in s
  {
    map m | m in s :: OwnPreds(store[m]) + BeforePreds(s, store, m)
  }

  /** `ins`: adds `added` to the entry of `m`, creating the entry if needed. */
  function Ins(deps: Deps, m: string, added: set<string>): Deps {
    deps[m := (if m in deps then deps[m] else {}) + added]
  }

  /**
   * What `ins` gives: `m` becomes a key if it was not one, its entry gains
   * exactly `added`, and every other entry is kept.
   */
  lemma InsMeaning(deps: Deps, m: string, added: set<string>)
    ensures Ins(deps, m, added).Keys == deps.Keys + {m}
    ensures forall x :: x in Ins(deps, m, added)[m] <==> x in added || (m in deps && x in deps[m])
    ensures forall k :: k in deps && k != m ==> Ins(deps, m, added)[k] == deps[k]
  {
  }

  // The two loops of `build_deps` replayed as recursive functions, and the
  // lemmas identifying the map they build with `Predecessors`.

  /** The map the first loop builds over the candidates `s`. */
  function OwnMap(s: seq<string>, store: Store): Deps
    requires AllKnown(s, store)
  {
    map m | m in s :: OwnPreds(store[m])
  }

  lemma OwnMapStep(s: seq<string>, store: Store, k: nat)
    requires k < |s| && AllKnown(s[..k + 1], store)
    ensures AllKnown(s[..k], store)
    ensures OwnMap(s[..k + 1], store) == Ins(OwnMap(s[..k], store), s[k], OwnPreds(store[s[k]]))
  {
    assert s[..k + 1] == s[..k] + [s[k]];
    var a := OwnMap(s[..k + 1], store);
    var b := Ins(OwnMap(s[..k], store), s[k], OwnPreds(store[s[k]]));
    assert a.Keys == b.Keys;
    forall m | m in a ensures a[m] == b[m] {
    }
  }

  /** What pair (i, j) of the second loop adds to the entry of `s[i]`. */
  function PairContribution(s: seq<string>, store: Store, i: nat, j: nat): set<string>
    requires AllKnown(s, store) && i < j < |s|
  {
    var n := store[s[j]];
    if DeclaresBefore(n, s[i]) && n.packageId.Some? then {n.packageId.value} else {}
  }

  /** Pair (i, j) passes the id check: if `s[j]` must load before `s[i]`, it has an id. */
  predicate PairOk(s: seq<string>, store: Store, i: nat, j: nat)
    requires AllKnown(s, store) && i < j < |s|
  {
    DeclaresBefore(store[s[j]], s[i]) ==> store[s[j]].packageId.Some?
  }

  /** The map after the pairs (i, i + 1) .. (i, j - 1) of row `i`, starting from `start`. */
  function RowMap(s: seq<string>, store: Store, start: Deps, i: nat, j: nat): Deps
    requires AllKnown(s, store) && i < j <= |s|
    decreases j
  {
    if j == i + 1 then start
    else Ins(RowMap(s, store, start, i, j - 1), s[i], PairContribution(s, store, i, j - 1))
  }

  /** Handling pair (i, j) is one more step of `RowMap` and `RowOk`. */
  lemma RowStep(s: seq<string>, store: Store, start: Deps, i: nat, j: nat, added: set<string>)
    requires AllKnown(s, store) && i < j < |s|
    requires added == PairContribution(s, store, i, j)
    ensures RowMap(s, store, start, i, j + 1) == Ins(RowMap(s, store, start, i, j), s[i], added)
    ensures RowOk(s, store, i, j + 1) <==> RowOk(s, store, i, j) && PairOk(s, store, i, j)
  {
  }

  /** The pairs (i, i + 1) .. (i, j - 1) all pass the id check. */
  predicate RowOk(s: seq<string>, store: Store, i: nat, j: nat)
    requires AllKnown(s, store) && i < j <= |s|
    decreases j
  {
    j == i + 1 || (RowOk(s, store, i, j - 1) && PairOk(s, store, i, j - 1))
  }

  /** The map after the first loop and the rows 0 .. i - 1 of the second. */
  function AfterRows(s: seq<string>, store: Store, i: nat): Deps
    requires AllKnown(s, store) && i <= |s|
  {
    if i == 0 then OwnMap(s, store)
    else RowMap(s, store, AfterRows(s, store, i - 1), i - 1, |s|)
  }

  /** Every pair of the rows 0 .. i - 1 passes the id check. */
  predicate RowsOk(s: seq<string>, store: Store, i: nat)
    requires AllKnown(s, store) && i <= |s|
  {
    i == 0 || (RowsOk(s, store, i - 1) && RowOk(s, store, i - 1, |s|))
  }

  lemma {:induction false} RowOkMeaning(s: seq<string>, store: Store, i: nat, j: nat)
    requires AllKnown(s, store) && i < j <= |s|
    ensures RowOk(s, store, i, j) <==> forall k :: i < k < j ==> PairOk(s, store, i, k)
    decreases j
  {
    if j > i + 1 {
      RowOkMeaning(s, store, i, j - 1);
    }
  }

  lemma {:induction false} RowsOkMeaning(s: seq<string>, store: Store, i: nat)
    requires AllKnown(s, store) && i <= |s|
    ensures RowsOk(s, store, i) <==> forall a, b :: 0 <= a < i && a < b < |s| ==> PairOk(s, store, a, b)
  {
    if i > 0 {
      RowsOkMeaning(s, store, i - 1);
      RowOkMeaning(s, store, i - 1, |s|);
    }
  }

  /** All rows pass the id check exactly when no load-before declarer lacks an id. */
  lemma RowsOkEnd(s: seq<string>, store: Store)
    requires AllKnown(s, store)
    ensures RowsOk(s, store, |s|) <==> !BeforeWithoutId(s, store)
  {
    RowsOkMeaning(s, store, |s|);
    if BeforeWithoutId(s, store) {
      var j, m :| 0 <= j < |s| && m in s[..j] && DeclaresBefore(store[s[j]], m) && store[s[j]].packageId.None?;
      var a :| 0 <= a < j && s[..j][a] == m;
      assert !PairOk(s, store, a, j);
    } else {
      forall a, b | 0 <= a < |s| && a < b < |s| ensures PairOk(s, store, a, b) {
        assert s[a] in s[..b];
      }
    }
  }

  // The entry of each candidate `m` when the loop is about to handle (i, j):
  // its own predecessors plus the ids of the pairs already handled.

  function Min(a: int, b: int): int { if a < b then a else b }

  /** Pair (an occurrence of `m`, position `k`) has been handled before (i, j). */
  predicate Scanned(s: seq<string>, m: string, i: nat, j: nat, k: nat)
    requires k < |s|
  {
    m in s[..Min(i, k)] || (i < k < j && s[i] == m)
  }

  function PairPreds(s: seq<string>, store: Store, m: string, i: nat, j: nat): set<string>
    requires AllKnown(s, store)
  {
    set k | 0 <= k < |s| && Scanned(s, m, i, j, k) && DeclaresBefore(store[s[k]], m) && store[s[k]].packageId.Some?
      :: store[s[k]].packageId.value
  }

  lemma ScannedStep(s: seq<string>, m: string, i: nat, j: nat, k: nat)
    requires i < j < |s| && k < |s|
    ensures m == s[i] ==> (Scanned(s, m, i, j + 1, k) <==> Scanned(s, m, i, j, k) || k == j)
    ensures m != s[i] ==> (Scanned(s, m, i, j + 1, k) <==> Scanned(s, m, i, j, k))
  {
  }

  lemma PairPredsStep(s: seq<string>, store: Store, m: string, i: nat, j: nat)
    requires AllKnown(s, store)
    requires i < j < |s|
    ensures m == s[i] ==>
              PairPreds(s, store, m, i, j + 1) == PairPreds(s, store, m, i, j) + PairContribution(s, store, i, j)
    ensures m != s[i] ==> PairPreds(s, store, m, i, j + 1) == PairPreds(s, store, m, i, j)
  {
    forall k | 0 <= k < |s| {
      ScannedStep(s, m, i, j, k);
    }
    if m == s[i] {
      var before := PairPreds(s, store, m, i, j);
      var after := PairPreds(s, store, m, i, j + 1);
      assert Scanned(s, m, i, j + 1, j);
      forall x | x in after
        ensures x in before + PairContribution(s, store, i, j)
      {
        var k :| 0 <= k < |s| && Scanned(s, m, i, j + 1, k) && DeclaresBefore(store[s[k]], m)
          && store[s[k]].packageId.Some? && x == store[s[k]].packageId.value;
        if k != j {
          assert Scanned(s, m, i, j, k);
        }
      }
    }
  }

  lemma PairPredsStart(s: seq<string>, store: Store, m: string)
    requires AllKnown(s, store)
    ensures PairPreds(s, store, m, 0, 1) == {}
  {
    forall k | 0 <= k < |s| ensures !Scanned(s, m, 0, 1, k) {
      assert s[..Min(0, k)] == [];
    }
  }

  /** Finishing row i is starting row i + 1. */
  lemma PairPredsRow(s: seq<string>, store: Store, m: string, i: nat)
    requires AllKnown(s, store) && i < |s|
    ensures PairPreds(s, store, m, i, |s|) == PairPreds(s, store, m, i + 1, i + 2)
  {
    assert s[..i + 1] == s[..i] + [s[i]];
    forall k | 0 <= k < |s|
      ensures Scanned(s, m, i, |s|, k) <==> Scanned(s, m, i + 1, i + 2, k)
    {
    }
  }

  /** After the last row, the pairs handled are all the 2-combinations. */
  lemma PairPredsEnd(s: seq<string>, store: Store, m: string)
    requires AllKnown(s, store)
    ensures PairPreds(s, store, m, |s|, |s| + 1) == BeforePreds(s, store, m)
  {
    forall k | 0 <= k < |s|
      ensures Scanned(s, m, |s|, |s| + 1, k) <==> m in s[..k]
    {
    }
  }

  /** The ids row `i` adds to the entry of `m` through the pairs (i, i + 1) .. (i, j - 1). */
  function RowAdds(s: seq<string>, store: Store, i: nat, j: nat, m: string): set<string>
    requires AllKnown(s, store) && i < j <= |s|
    decreases j
  {
    if j == i + 1 then {}
    else RowAdds(s, store, i, j - 1, m) + (if m == s[i] then PairContribution(s, store, i, j - 1) else {})
  }

  lemma {:induction false} RowMapAt(s: seq<string>, store: Store, start: Deps, i: nat, j: nat, m: string)
    requires AllKnown(s, store) && i < j <= |s|
    requires m in start
    ensures m in RowMap(s, store, start, i, j)
    ensures RowMap(s, store, start, i, j)[m] == start[m] + RowAdds(s, store, i, j, m)
    decreases j
  {
    if j > i + 1 {
      RowMapAt(s, store, start, i, j - 1, m);
    }
  }

  lemma {:induction false} RowAddsPairs(s: seq<string>, store: Store, i: nat, j: nat, m: string)
    requires AllKnown(s, store) && i < j <= |s|
    ensures PairPreds(s, store, m, i, j) == PairPreds(s, store, m, i, i + 1) + RowAdds(s, store, i, j, m)
    decreases j
  {
    if j > i + 1 {
      RowAddsPairs(s, store, i, j - 1, m);
      PairPredsStep(s, store, m, i, j - 1);
    }
  }

  lemma {:induction false} RowMapKeys(s: seq<string>, store: Store, start: Deps, i: nat, j: nat)
    requires AllKnown(s, store) && i < j <= |s|
    requires s[i] in start
    ensures RowMap(s, store, start, i, j).Keys == start.Keys
    decreases j
  {
    if j > i + 1 {
      RowMapKeys(s, store, start, i, j - 1);
    }
  }

  lemma {:induction false} AfterRowsKeys(s: seq<string>, store: Store, i: nat)
    requires AllKnown(s, store) && i <= |s|
    ensures AfterRows(s, store, i).Keys == set m | m in s
  {
    if i > 0 {
      AfterRowsKeys(s, store, i - 1);
      RowMapKeys(s, store, AfterRows(s, store, i - 1), i - 1, |s|);
    }
  }

  /** The ids the rows 0 .. i - 1 add to the entry of `m`. */
  function Prior(s: seq<string>, store: Store, i: nat, m: string): set<string>
    requires AllKnown(s, store) && i <= |s|
  {
    if i == 0 then {} else Prior(s, store, i - 1, m) + RowAdds(s, store, i - 1, |s|, m)
  }

  lemma {:induction false} AfterRowsAt(s: seq<string>, store: Store, i: nat, m: string)
    requires AllKnown(s, store) && i <= |s| && m in s
    ensures m in AfterRows(s, store, i)
    ensures AfterRows(s, store, i)[m] == OwnPreds(store[m]) + Prior(s, store, i, m)
  {
    if i > 0 {
      AfterRowsAt(s, store, i - 1, m);
      RowMapAt(s, store, AfterRows(s, store, i - 1), i - 1, |s|, m);
    }
  }

  lemma {:induction false} PriorPairs(s: seq<string>, store: Store, i: nat, m: string)
    requires AllKnown(s, store) && i <= |s|
    ensures Prior(s, store, i, m) == PairPreds(s, store, m, i, i + 1)
  {
    if i == 0 {
      PairPredsStart(s, store, m);
    } else {
      PriorPairs(s, store, i - 1, m);
      RowAddsPairs(s, store, i - 1, |s|, m);
      PairPredsRow(s, store, m, i - 1);
    }
  }

  /** The map built by both loops is the predecessor map. */
  lemma AfterRowsDone(s: seq<string>, store: Store)
    requires AllKnown(s, store)
    ensures AfterRows(s, store, |s|) == Predecessors(s, store)
  {
    var g := AfterRows(s, store, |s|);
    var p := Predecessors(s, store);
    AfterRowsKeys(s, store, |s|);
    forall m | m in s ensures g[m] == p[m] {
      AfterRowsAt(s, store, |s|, m);
      PriorPairs(s, store, |s|, m);
      PairPredsEnd(s, store, m);
    }
    assert g.Keys == p.Keys;
  }

  /**
   * `build_deps`: fails with `MissingData` exactly when a candidate has no
   * metadata, or a candidate that must load before an earlier candidate has
   * no package id; otherwise returns the predecessor map.
   */
  method BuildDeps(s: seq<string>, store: Store) returns (r: Result<Deps, SortError>)
    ensures r.Err? <==> !AllKnown(s, store) || BeforeWithoutId(s, store)
    ensures r.Err? ==> r.error == MissingData
    ensures r.Ok? ==> AllKnown(s, store) && r.value == Predecessors(s, store)
  {
    var deps: Deps := map[];
    for k := 0 to |s|
      invariant AllKnown(s[..k], store)
      invariant deps == OwnMap(s[..k], store)
    {
      if s[k] !in store {
        assert s[k] in s;
        return Err(MissingData);
      }
      OwnMapStep(s, store, k);
      deps := Ins(deps, s[k], OwnPreds(store[s[k]]));
    }
    assert s[..|s|] == s;
    for i := 0 to |s|
      invariant deps == AfterRows(s, store, i)
      invariant RowsOk(s, store, i)
    {
      ghost var start := deps;
      for j := i + 1 to |s|
        invariant deps == RowMap(s, store, start, i, j)
        invariant RowOk(s, store, i, j)
      {
        // every candidate has metadata by now, so the lookup cannot fail
        var n := store[s[j]];
        var added: set<string> := {};
        if n.loadBefore.Some? && s[i] in n.loadBefore.value {
          if n.packageId.None? {
            assert s[i] in s[..j];
            return Err(MissingData);
          }
          added := added + {n.packageId.value};
        }
        if n.forceLoadBefore.Some? && s[i] in n.forceLoadBefore.value {
          if n.packageId.None? {
            assert s[i] in s[..j];
            return Err(MissingData);
          }
          added := added + {n.packageId.value};
        }
        RowStep(s, store, start, i, j, added);
        deps := Ins(deps, s[i], added);
      }
    }
    AfterRowsDone(s, store);
    RowsOkEnd(s, store);
    return Ok(deps);
  }

  // ---------------------------------------------------------------------------
  // What the depth-first traversal guarantees
  // ---------------------------------------------------------------------------

  /** Every predecessor that is itself a candidate appears earlier in `out`. */
  predicate Respects(out: seq<string>, deps: Deps) {
    forall i, p :: 0 <= i < |out| && out[i] in deps && p in deps[out[i]] && p in deps ==> p in out[..i]
  }

  /** A walk along predecessor edges that comes back to where it started. */
  predicate IsCycle(deps: Deps, c: seq<string>) {
    && |c| >= 2 && c[0] == c[|c| - 1]
    && forall k :: 0 <= k < |c| - 1 ==> c[k] in deps && c[k + 1] in deps[c[k]]
  }

  ghost predicate HasCycle(deps: Deps) {
    exists c :: IsCycle(deps, c)
  }

  /** A candidate none of whose predecessors is a candidate. */
  predicate NoCandidatePreds(deps: Deps, x: string) {
    x in deps && forall p :: p in deps[x] ==> p !in deps
  }

  /** `unmarked.remove(unmarked.iter().position(|&x| x == node).unwrap())`. */
  function RemoveFirst(s: seq<string>, x: string): seq<string>
    requires x in s
  {
    RemoveAt(s, IndexOf(s, x))
  }

  /** What holds of the traversal state between calls of `visit`. */
  predicate TraversalInv(deps: Deps, output: seq<string>, unmarked: seq<string>, temp: set<string>) {
    && (forall x :: x in unmarked ==> x in deps)
    && (forall x :: x in deps ==> x in output || x in unmarked)
    && (forall x :: x in temp ==> x in unmarked)
    && Respects(output, deps)
  }

  /** The ghost path of nodes being visited: consecutive ones are predecessor edges. */
  predicate Chain(deps: Deps, path: seq<string>) {
    && (forall k :: 0 <= k < |path| ==> path[k] in deps)
    && (forall k :: 0 <= k < |path| - 1 ==> path[k + 1] in deps[path[k]])
  }

  /** A node temp-marked twice closes a cycle along the path. */
  lemma CycleFromPath(deps: Deps, path: seq<string>, node: string)
    requires Chain(deps, path) && node in path && node in deps
    requires node in deps[path[|path| - 1]]
    ensures HasCycle(deps)
  {
    var k := IndexOf(path, node);
    var c := path[k..] + [node];
    assert c[0] == node;
    forall t | 0 <= t < |c| - 1
      ensures c[t] in deps && c[t + 1] in deps[c[t]]
    {
      assert c[t] == path[k + t];
      if t < |c| - 2 {
        assert c[t + 1] == path[k + t + 1];
      }
    }
    assert IsCycle(deps, c);
  }

  /** The recursive call works on fewer unmarked nodes that are not temp-marked. */
  lemma VisitMeasure(unmarked: seq<string>, unmarked': seq<string>, temp: set<string>, node: string)
    requires multiset(unmarked') <= multiset(unmarked)
    requires node in unmarked && node in temp
    ensures (set x | x in unmarked') - temp < ((set x | x in unmarked) - temp) + {node}
  {
    forall x | x in unmarked' ensures x in unmarked {
      assert x in multiset(unmarked');
    }
  }

  /** Moving `node` from `unmarked` to the end of `output` once its predecessors are done. */
  lemma FinishVisit(deps: Deps, output: seq<string>, unmarked: seq<string>,
                    done: seq<string>, left: seq<string>, temp: set<string>, node: string)
    requires TraversalInv(deps, done, left, temp + {node}) && node !in temp
    requires node in deps && Progress(deps, node, {}, output, unmarked, done, left)
    ensures node in left
    ensures TraversalInv(deps, done + [node], RemoveFirst(left, node), temp)
    ensures output <= done + [node] && multiset(RemoveFirst(left, node)) <= multiset(unmarked)
    ensures |RemoveFirst(left, node)| < |unmarked|
    ensures multiset(done + [node]) + multiset(RemoveFirst(left, node)) == multiset(output) + multiset(unmarked)
    ensures node in done + [node]
  {
    var idx := IndexOf(left, node);
    SubMultisetCard(multiset(left), multiset(unmarked));
    var output' := done + [node];
    var unmarked' := RemoveAt(left, idx);
    assert output'[..|done|] == done;
    forall x | x in temp ensures x in unmarked' {
      RemoveAtKeeps(left, idx, x);
    }
    forall x | x in unmarked' ensures x in deps {
      RemoveAtSubset(left, idx, x);
    }
    forall x | x in deps ensures x in output' || x in unmarked' {
      if x !in done && x != node {
        RemoveAtKeeps(left, idx, x);
      }
    }
    forall i, p | 0 <= i < |output'| && output'[i] in deps && p in deps[output'[i]] && p in deps
      ensures p in output'[..i]
    {
      if i < |done| {
        assert output'[..i] == done[..i];
      }
    }
  }

  /** What the predecessor loop of `visit` has achieved so far. */
  predicate Progress(deps: Deps, node: string, rest: set<string>, output: seq<string>, unmarked: seq<string>,
                     output': seq<string>, unmarked': seq<string>)
    requires node in deps
  {
    && output <= output' && multiset(unmarked') <= multiset(unmarked)
    && multiset(output') + multiset(unmarked') == multiset(output) + multiset(unmarked)
    && rest <= deps[node]
    && forall d :: d in deps[node] && d !in rest && d in deps ==> d in output'
  }

  /** One more predecessor visited successfully keeps the progress made. */
  lemma ProgressStep(deps: Deps, node: string, d: string, rest: set<string>,
                     output: seq<string>, unmarked: seq<string>,
                     o1: seq<string>, u1: seq<string>, o2: seq<string>, u2: seq<string>)
    requires node in deps && d in rest
    requires Progress(deps, node, rest, output, unmarked, o1, u1)
    requires o1 <= o2 && multiset(u2) <= multiset(u1)
    requires multiset(o2) + multiset(u2) == multiset(o1) + multiset(u1)
    requires d in deps ==> d in o2
    ensures Progress(deps, node, rest - {d}, output, unmarked, o2, u2)
  {
    forall x | x in o1 ensures x in o2 {
      assert x in o2[..|o1|];
    }
  }

  /**
   * `visit`: a no-op for a node no longer unmarked; `CyclicError` for a node
   * already temp-marked; otherwise temp-marks it, visits every predecessor
   * (`VisitPreds`), then moves the node from `unmarked` to the end of `output`.
   */
  method Visit(node: string, deps: Deps, output: seq<string>, unmarked: seq<string>, temp: set<string>,
               ghost path: seq<string>)
    returns (r: Outcome<SortError>, output': seq<string>, unmarked': seq<string>, temp': set<string>)
    requires TraversalInv(deps, output, unmarked, temp)
    requires forall x :: x in temp <==> x in path
    requires Chain(deps, path)
    requires path != [] ==> node in deps[path[|path| - 1]]
    ensures r.Pass? ==> TraversalInv(deps, output', unmarked', temp') && temp' == temp
    ensures r.Pass? ==> output <= output' && multiset(unmarked') <= multiset(unmarked)
    ensures r.Pass? ==> multiset(output') + multiset(unmarked') == multiset(output) + multiset(unmarked)
    ensures r.Pass? && node in deps ==> node in output'
    ensures r.Pass? && node in unmarked ==> |unmarked'| < |unmarked|
    ensures node !in unmarked ==> r.Pass? && output' == output && unmarked' == unmarked && temp' == temp
    ensures node in unmarked && node in temp ==> r == Fail(CyclicError)
    ensures node in unmarked && node !in temp && NoCandidatePreds(deps, node) ==>
              r.Pass? && output' == output + [node] && unmarked' == RemoveFirst(unmarked, node)
    ensures r.Fail? ==> r.error == CyclicError && HasCycle(deps)
    decreases (set x | x in unmarked) - temp, 1
  {
    if node !in unmarked {
      // already done
      return Pass, output, unmarked, temp;
    }
    if node in temp {
      CycleFromPath(deps, path, node);
      return Fail(CyclicError), output, unmarked, temp;
    }
    temp' := temp + {node};
    assert ((set x | x in unmarked) - temp') + {node} == (set x | x in unmarked) - temp;
    r, output', unmarked', temp' := VisitPreds(node, deps, output, unmarked, temp', path);
    if r.Fail? {
      return;
    }
    FinishVisit(deps, output, unmarked, output', unmarked', temp, node);
    temp' := temp' - {node};
    unmarked' := RemoveFirst(unmarked', node);
    output' := output' + [node];
  }

  /** The `for d in deps[node]` loop of `visit`, in whatever order the set yields. */
  method VisitPreds(node: string, deps: Deps, output: seq<string>, unmarked: seq<string>, temp: set<string>,
                    ghost path: seq<string>)
    returns (r: Outcome<SortError>, output': seq<string>, unmarked': seq<string>, temp': set<string>)
    requires node in deps && node in temp
    requires TraversalInv(deps, output, unmarked, temp)
    requires forall x :: x in temp <==> x in path + [node]
    requires Chain(deps, path + [node])
    ensures r.Pass? ==> TraversalInv(deps, output', unmarked', temp') && temp' == temp
    ensures r.Pass? ==> Progress(deps, node, {}, output, unmarked, output', unmarked')
    ensures NoCandidatePreds(deps, node) ==> r.Pass? && output' == output && unmarked' == unmarked
    ensures r.Fail? ==> r.error == CyclicError && HasCycle(deps)
    decreases ((set x | x in unmarked) - temp) + {node}, 0
  {
    output', unmarked', temp' := output, unmarked, temp;
    ghost var quiet := true;
    var rest := deps[node];
    while rest != {}
      invariant TraversalInv(deps, output', unmarked', temp') && temp' == temp
      invariant Progress(deps, node, rest, output, unmarked, output', unmarked')
      invariant quiet ==> output' == output && unmarked' == unmarked
      invariant NoCandidatePreds(deps, node) ==> quiet
      decreases rest
    {
      var d :| d in rest;
      ghost var rest0 := rest;
      rest := rest - {d};
      if d in deps {
        quiet := false;
      }
      VisitMeasure(unmarked, unmarked', temp, node);
      var o, u, t;
      r, o, u, t := Visit(d, deps, output', unmarked', temp', path + [node]);
      if r.Fail? {
        return r, o, u, t;
      }
      ProgressStep(deps, node, d, rest0, output, unmarked, output', unmarked', o, u);
      output', unmarked', temp' := o, u, t;
    }
    r := Pass;
  }

  // ---------------------------------------------------------------------------
  // sort
  // ---------------------------------------------------------------------------

  /** The candidates as `sort` processes them: sorted lexicographically. */
  function Candidates(mods: seq<string>): (c: seq<string>)
    ensures multiset(c) == multiset(mods)
    ensures forall x :: x in c <==> x in mods
  {
    var c := LexOrder.SortStrings(mods);
    assert forall x :: x in c <==> x in multiset(c);
    assert forall x :: x in mods <==> x in multiset(mods);
    c
  }

  /**
   * `sort`: fails with `MissingData` exactly when `build_deps` does; fails
   * with `CyclicError` exactly when the predecessor map has a cycle; and
   * otherwise returns a permutation of `mods` in which every candidate comes
   * after each of its candidate predecessors. With no edge between
   * candidates the result is the lexicographic order.
   */
  method Sort(mods: seq<string>, store: Store) returns (r: Result<seq<string>, SortError>)
    ensures r == Err(MissingData) <==> !AllKnown(mods, store) || BeforeWithoutId(Candidates(mods), store)
    ensures r.Ok? ==> multiset(r.value) == multiset(mods)
    ensures r.Ok? ==> AllKnown(mods, store) && Respects(r.value, Predecessors(Candidates(mods), store))
    ensures AllKnown(mods, store) && !BeforeWithoutId(Candidates(mods), store) ==>
              (r == Err(CyclicError) <==> HasCycle(Predecessors(Candidates(mods), store)))
    ensures AllKnown(mods, store) && !BeforeWithoutId(Candidates(mods), store)
            && NoEdges(Predecessors(Candidates(mods), store), mods)
            ==> r == Ok(Candidates(mods))
  {
    var sorted := Candidates(mods);
    var built := BuildDeps(sorted, store);
    if built.Err? {
      return Err(built.error);
    }
    r := Traverse(sorted, built.value);
  }

  /**
   * The `while !unmarked.is_empty()` loop of `sort`: visits the first
   * unmarked candidate until none is left.
   */
  method Traverse(sorted: seq<string>, deps: Deps) returns (r: Result<seq<string>, SortError>)
    requires forall x :: x in deps <==> x in sorted
    ensures r.Ok? ==> multiset(r.value) == multiset(sorted) && Respects(r.value, deps)
    ensures r.Err? <==> HasCycle(deps)
    ensures r.Err? ==> r.error == CyclicError
    ensures NoEdges(deps, sorted) ==> r == Ok(sorted)
  {
    var output: seq<string> := [];
    var unmarked := sorted;
    var temp: set<string> := {};
    ghost var quiet := true;
    while unmarked != []
      invariant TraversalInv(deps, output, unmarked, temp) && temp == {}
      invariant multiset(output) + multiset(unmarked) == multiset(sorted)
      invariant quiet ==> output + unmarked == sorted
      invariant NoEdges(deps, sorted) ==> quiet
      decreases |unmarked|
    {
      var res;
      ghost var o0, u0 := output, unmarked;
      if !NoCandidatePreds(deps, unmarked[0]) {
        quiet := false;
      }
      res, output, unmarked, temp := Visit(unmarked[0], deps, output, unmarked, temp, []);
      if res.Fail? {
        return Err(res.error);
      }
      if quiet {
        MoveHead(o0, u0);
      }
    }
    assert output + unmarked == output;
    OkMeansAcyclic(sorted, output, deps);
    return Ok(output);
  }

  /** No candidate has a candidate predecessor. */
  predicate NoEdges(deps: Deps, s: seq<string>) {
    forall x :: x in s ==> NoCandidatePreds(deps, x)
  }

  /** A successful result rules out a cycle among the candidates. */
  lemma OkMeansAcyclic(mods: seq<string>, out: seq<string>, deps: Deps)
    requires multiset(out) == multiset(mods)
    requires forall x :: x in deps ==> x in mods
    requires Respects(out, deps)
    ensures !HasCycle(deps)
  {
    forall x | x in deps ensures x in out {
      assert x in multiset(mods);
    }
    RespectsAcyclic(out, deps);
  }

  // ---------------------------------------------------------------------------
  // Properties
  // ---------------------------------------------------------------------------

  /** An order that respects every edge leaves no room for a cycle. */
  lemma RespectsAcyclic(out: seq<string>, deps: Deps)
    requires Respects(out, deps)
    requires forall x :: x in deps ==> x in out
    ensures !HasCycle(deps)
  {
    if HasCycle(deps) {
      var c :| IsCycle(deps, c);
      EdgesDescend(out, deps, c, |c| - 1);
      assert false;
    }
  }

  /** Along a cycle, the first position of each node in `out` keeps falling. */
  lemma {:induction false} EdgesDescend(out: seq<string>, deps: Deps, c: seq<string>, k: nat)
    requires Respects(out, deps)
    requires forall x :: x in deps ==> x in out
    requires IsCycle(deps, c) && 1 <= k < |c|
    ensures c[k] in out && IndexOf(out, c[k]) < IndexOf(out, c[0])
  {
    var i := IndexOf(out, c[k - 1]);
    assert c[k] in deps by {
      if k < |c| - 1 { } else { assert c[k] == c[0]; }
    }
    assert c[k] in out[..i];
    IndexOfBefore(out, c[k], i);
    if k > 1 {
      EdgesDescend(out, deps, c, k - 1);
    }
  }

  /**
   * The result depends on `mods` only through which ids it holds and how
   * often: `sort` reads `mods` only through `Candidates(mods)`.
   */
  lemma CandidatesIgnoreOrder(a: seq<string>, b: seq<string>)
    requires multiset(a) == multiset(b)
    ensures Candidates(a) == Candidates(b)
  {
    LexOrder.SortIgnoresOrder(a, b);
  }

  /**
   * Load-before declarations are only seen from a later candidate: when the
   * declaring mod sorts before its target, the edge is lost, while the same
   * declaration in the other direction is kept.
   */
  lemma LoadBeforeSeenOnlyFromLater()
    ensures var store := map["a" := EmptyMeta.(packageId := Some("a"), loadBefore := Some({"b"})),
                             "b" := EmptyMeta.(packageId := Some("b"))];
            DeclaresBefore(store["a"], "b") && "a" !in Predecessors(["a", "b"], store)["b"]
    ensures var store := map["a" := EmptyMeta.(packageId := Some("a")),
                             "b" := EmptyMeta.(packageId := Some("b"), loadBefore := Some({"a"}))];
            DeclaresBefore(store["b"], "a") && "b" in Predecessors(["a", "b"], store)["a"]
  {
    var s := ["a", "b"];
    assert s[..0] == [] && s[..1] == ["a"];
    var store1 := map["a" := EmptyMeta.(packageId := Some("a"), loadBefore := Some({"b"})),
                      "b" := EmptyMeta.(packageId := Some("b"))];
    assert "b" !in s[..1];
    assert BeforePreds(s, store1, "b") == {};
    var store2 := map["a" := EmptyMeta.(packageId := Some("a")),
                      "b" := EmptyMeta.(packageId := Some("b"), loadBefore := Some({"a"}))];
    assert "a" in s[..1] && DeclaresBefore(store2[s[1]], "a");
    assert "b" in BeforePreds(s, store2, "a");
  }
}
