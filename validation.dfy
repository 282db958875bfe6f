/**
 * `ModListValidator::validate`: one forward pass over the (lower-cased) mod
 * list that keeps the ids loaded so far, the `loadAfter` and
 * `incompatibleWith` sets of the mods seen, and collects warnings and errors;
 * then a pass over the recorded incompatibilities. The outcome is three-way.
 *
 * Messages are kept structured (`Message`); `Render` gives their text. The
 * order in which one step reports several messages comes from hash-set and
 * hash-map iteration and is left open: those loops pick their next element
 * with `:|`, and their results are described as multisets.
 */
module Validation {
  import Common
  import opened ModMeta
  import Strings
  import Seqs

  // ---------------------------------------------------------------------------
  // Messages and the three-way result
  // ---------------------------------------------------------------------------

  datatype Message =
    | Missing(id: string)
    | Requires(id: string, dep: Dependency)
    | LoadBefore(id: string, other: string)
    | LoadAfter(other: string, id: string)
    | Incompatible(id: string, other: string)

  /**
   * The text the source formats for each message: it names the mod it is
   * about first, and the other mod (or the missing one) last.
   */
  function Render(m: Message): (r: string)
    ensures m.Missing? ==> |r| >= |m.id| && r[|r| - |m.id|..] == m.id
    ensures m.Requires? ==> |r| >= |m.id| && r[..|m.id|] == m.id
    ensures m.LoadBefore? || m.Incompatible? ==>
              |r| >= |m.id| + |m.other| && r[..|m.id|] == m.id && r[|r| - |m.other|..] == m.other
    ensures m.LoadAfter? ==>
              |r| >= |m.other| + |m.id| && r[..|m.other|] == m.other && r[|r| - |m.id|..] == m.id
  {
    match m
    case Missing(p) => "Couldn't find metadata for " + p
    case Requires(p, d) => p + " requires " + (if d.packageId.Some? then d.packageId.value else "")
    case LoadBefore(p, x) => p + " should be loaded before " + x
    case LoadAfter(a, p) => a + " should be loaded after " + p
    case Incompatible(a, b) => a + " is incompatible with " + b
  }

  /** `ModListValidationResult`. */
  datatype ValidationResult =
    | Ok
    | Warn(warnings: seq<Message>)
    | Err(warnings: seq<Message>, errors: seq<Message>)

  /** `is_ok`, `is_warn` and `is_err`: every result is exactly one of the three. */
  predicate IsOk(r: ValidationResult): (b: bool)
    ensures b <==> !r.Warn? && !r.Err?
  {
    r.Ok?
  }

  predicate IsWarn(r: ValidationResult): (b: bool)
    ensures b <==> !r.Ok? && !r.Err?
  {
    r.Warn?
  }

  predicate IsErr(r: ValidationResult): (b: bool)
    ensures b <==> !r.Ok? && !r.Warn?
  {
    r.Err?
  }

  /** `warnings()`: present for `Warn` and `Err`. */
  function Warnings(r: ValidationResult): (w: Common.Option<seq<Message>>)
    ensures w.None? <==> IsOk(r)
    ensures w.Some? ==> w.value == r.warnings
  {
    match r
    case Ok => Common.None
    case Warn(ws) => Common.Some(ws)
    case Err(ws, _) => Common.Some(ws)
  }

  /** `errors()`: present for `Err` only. */
  function Errors(r: ValidationResult): (e: Common.Option<seq<Message>>)
    ensures e.Some? <==> IsErr(r)
    ensures e.Some? ==> e.value == r.errors
  {
    if r.Err? then Common.Some(r.errors) else Common.None
  }

  /** The conversion into `Result<(), Vec<String>>`: warnings first, then errors. */
  function ToResult(r: ValidationResult): (o: Common.Outcome<seq<Message>>)
    ensures o.Pass? <==> r.Ok?
    ensures r.Warn? ==> o == Common.Fail(r.warnings)
    ensures r.Err? ==>
              && o.Fail? && |o.error| == |r.warnings| + |r.errors|
              && o.error[..|r.warnings|] == r.warnings && o.error[|r.warnings|..] == r.errors
  {
    match r
    case Ok => Common.Pass
    case Warn(ws) => Common.Fail(ws)
    case Err(ws, es) => Common.Fail(ws + es)
  }

  /** Every message the accessors report, warnings then errors. */
  function Reported(r: ValidationResult): seq<Message> {
    (if Warnings(r).Some? then Warnings(r).value else [])
    + (if Errors(r).Some? then Errors(r).value else [])
  }

  /**
   * The conversion fails exactly when the result is not `Ok`, and then carries
   * every warning and every error, warnings first.
   */
  lemma ToResultReports(r: ValidationResult)
    ensures ToResult(r).Pass? <==> IsOk(r)
    ensures ToResult(r).Fail? ==> ToResult(r).error == Reported(r)
    ensures IsWarn(r) ==> ToResult(r) == Common.Fail(Warnings(r).value)
  {
  }

  // ---------------------------------------------------------------------------
  // The state of the forward pass, step by step
  // ---------------------------------------------------------------------------

  /** `loaded_so_far`, `should_load_after` and `incompatible`. */
  datatype Pass = Pass(
    loaded: set<string>,
    after: map<string, set<string>>,
    incompat: map<string, set<string>>)

  /** What one step does to the pass state for id `p`. */
  function Advance(st: Pass, p: string, store: Store): Pass {
    if p !in store then st
    else
      var m := store[p];
      Pass(st.loaded + {p},
           if m.loadAfter.Some? then st.after[p := m.loadAfter.value] else st.after,
           if m.incompatibleWith.Some? then st.incompat[p := m.incompatibleWith.value] else st.incompat)
  }

  /** The pass state after the first `k` ids. */
  function PassAfter(ids: seq<string>, store: Store, k: nat): Pass
    requires k <= |ids|
  {
    if k == 0 then Pass({}, map[], map[])
    else Advance(PassAfter(ids, store, k - 1), ids[k - 1], store)
  }

  /** The errors for the hard dependencies `deps` of `p`. */
  function RequireSet(p: string, deps: set<Dependency>, loaded: set<string>): set<Message> {
    set d | d in deps && d.packageId.Some? && Strings.Lower(d.packageId.value) !in loaded :: Requires(p, d)
  }

  /** The warnings for the loaded ids `p` should have been loaded before. */
  function BeforeSet(p: string, before: set<string>, loaded: set<string>): set<Message> {
    set x | x in loaded && x in before :: LoadBefore(p, x)
  }

  /** The warnings for the earlier mods among `keys` that should have been loaded after `p`. */
  function AfterSet(p: string, after: map<string, set<string>>, keys: set<string>): set<Message> {
    set a | a in keys && a in after && p in after[a] :: LoadAfter(a, p)
  }

  /** The errors one step reports. */
  function StepErrors(st: Pass, p: string, store: Store): set<Message> {
    if p in store && store[p].modDependencies.Some?
    then RequireSet(p, store[p].modDependencies.value, st.loaded)
    else {}
  }

  /** The warnings one step reports. */
  function StepWarnings(st: Pass, p: string, store: Store): set<Message> {
    if p !in store then {Missing(p)}
    else
      (if store[p].loadBefore.Some? then BeforeSet(p, store[p].loadBefore.value, st.loaded) else {})
      + AfterSet(p, st.after, st.after.Keys)
  }

  /** The errors of the first `k` steps, each counted once per step. */
  function ErrBag(ids: seq<string>, store: Store, k: nat): multiset<Message>
    requires k <= |ids|
  {
    if k == 0 then multiset{}
    else ErrBag(ids, store, k - 1) + multiset(StepErrors(PassAfter(ids, store, k - 1), ids[k - 1], store))
  }

  /** The warnings of the first `k` steps, each counted once per step. */
  function WarnBag(ids: seq<string>, store: Store, k: nat): multiset<Message>
    requires k <= |ids|
  {
    if k == 0 then multiset{}
    else WarnBag(ids, store, k - 1) + multiset(StepWarnings(PassAfter(ids, store, k - 1), ids[k - 1], store))
  }

  /** The errors for one recorded incompatibility set. */
  function IncompatSet(a: string, bs: set<string>, loaded: set<string>): set<Message> {
    set b | b in bs && b in loaded :: Incompatible(a, b)
  }

  /** The errors of the final pass, over the recorded ids in `keys`. */
  function IncompatFrom(st: Pass, keys: set<string>): set<Message> {
    set a, b | a in keys && a in st.incompat && b in st.incompat[a] && b in st.loaded :: Incompatible(a, b)
  }

  // ---------------------------------------------------------------------------
  // The loops over hash sets and maps
  // ---------------------------------------------------------------------------

  lemma DisjointUnion<T>(a: set<T>, b: set<T>)
    requires a !! b
    ensures multiset(a + b) == multiset(a) + multiset(b)
  {
    assert forall x :: multiset(a + b)[x] == (multiset(a) + multiset(b))[x];
  }

  /** The inner `for hard_req in ...` loop of one step. */
  method CheckRequires(p: string, deps: set<Dependency>, loaded: set<string>) returns (errs: seq<Message>)
    ensures multiset(errs) == multiset(RequireSet(p, deps, loaded))
    ensures forall e :: e in errs ==> e.Requires?
  {
    errs := [];
    var rest := deps;
    while rest != {}
      invariant rest <= deps
      invariant multiset(errs) == multiset(RequireSet(p, deps - rest, loaded))
      invariant forall e :: e in errs ==> e.Requires?
      decreases |rest|
    {
      var d :| d in rest;
      var found := if d.packageId.Some? && Strings.Lower(d.packageId.value) !in loaded then {Requires(p, d)} else {};
      assert RequireSet(p, deps - (rest - {d}), loaded) == RequireSet(p, deps - rest, loaded) + found;
      DisjointUnion(RequireSet(p, deps - rest, loaded), found);
      if d.packageId.Some? && Strings.Lower(d.packageId.value) !in loaded {
        errs := errs + [Requires(p, d)];
      }
      rest := rest - {d};
    }
    assert deps - rest == deps;
  }

  /** `for lbf in loaded_so_far.intersection(load_before)`. */
  method CheckLoadBefore(p: string, before: set<string>, loaded: set<string>) returns (warns: seq<Message>)
    ensures multiset(warns) == multiset(BeforeSet(p, before, loaded))
  {
    warns := [];
    var both := loaded * before;
    var rest := both;
    while rest != {}
      invariant rest <= both
      invariant multiset(warns) == multiset(BeforeSet(p, before, loaded - rest))
      decreases |rest|
    {
      var x :| x in rest;
      assert BeforeSet(p, before, loaded - (rest - {x})) == BeforeSet(p, before, loaded - rest) + {LoadBefore(p, x)};
      DisjointUnion(BeforeSet(p, before, loaded - rest), {LoadBefore(p, x)});
      warns := warns + [LoadBefore(p, x)];
      rest := rest - {x};
    }
    assert BeforeSet(p, before, loaded - rest) == BeforeSet(p, before, loaded);
  }

  /** `for (a, load_after) in &should_load_after`. */
  method CheckLoadAfter(p: string, after: map<string, set<string>>) returns (warns: seq<Message>)
    ensures multiset(warns) == multiset(AfterSet(p, after, after.Keys))
  {
    warns := [];
    var rest := after.Keys;
    while rest != {}
      invariant rest <= after.Keys
      invariant multiset(warns) == multiset(AfterSet(p, after, after.Keys - rest))
      decreases |rest|
    {
      var a :| a in rest;
      var found := if p in after[a] then {LoadAfter(a, p)} else {};
      AfterSetStep(p, after, after.Keys - rest, a);
      assert after.Keys - (rest - {a}) == (after.Keys - rest) + {a};
      DisjointUnion(AfterSet(p, after, after.Keys - rest), found);
      if p in after[a] {
        warns := warns + [LoadAfter(a, p)];
      }
      rest := rest - {a};
    }
    assert after.Keys - rest == after.Keys;
  }

  lemma AfterSetStep(p: string, after: map<string, set<string>>, keys: set<string>, a: string)
    requires a in after && a !in keys
    ensures AfterSet(p, after, keys + {a}) == AfterSet(p, after, keys) + (if p in after[a] then {LoadAfter(a, p)} else {})
    ensures AfterSet(p, after, keys) !! (if p in after[a] then {LoadAfter(a, p)} else {})
  {
  }

  /** `for b in incompatiblities.intersection(&loaded_so_far)` for one `a`. */
  method CheckIncompatible(a: string, bs: set<string>, loaded: set<string>) returns (errs: seq<Message>)
    ensures multiset(errs) == multiset(IncompatSet(a, bs, loaded))
    ensures forall e :: e in errs ==> e.Incompatible?
  {
    errs := [];
    var both := bs * loaded;
    var rest := both;
    while rest != {}
      invariant rest <= both
      invariant multiset(errs) == multiset(IncompatSet(a, bs - rest, loaded))
      invariant forall e :: e in errs ==> e.Incompatible?
      decreases |rest|
    {
      var b :| b in rest;
      assert IncompatSet(a, bs - (rest - {b}), loaded) == IncompatSet(a, bs - rest, loaded) + {Incompatible(a, b)};
      DisjointUnion(IncompatSet(a, bs - rest, loaded), {Incompatible(a, b)});
      errs := errs + [Incompatible(a, b)];
      rest := rest - {b};
    }
    assert IncompatSet(a, bs - rest, loaded) == IncompatSet(a, bs, loaded);
  }

  /** One more recorded id adds its own incompatibilities, and nothing reported before. */
  lemma IncompatFromStep(st: Pass, keys: set<string>, a: string)
    requires a in st.incompat && a !in keys
    ensures IncompatFrom(st, keys + {a}) == IncompatFrom(st, keys) + IncompatSet(a, st.incompat[a], st.loaded)
    ensures IncompatFrom(st, keys) !! IncompatSet(a, st.incompat[a], st.loaded)
  {
  }

  /** `for (a, incompatiblities) in incompatible`. */
  method CheckIncompatibilities(st: Pass) returns (errs: seq<Message>)
    ensures multiset(errs) == multiset(IncompatFrom(st, st.incompat.Keys))
    ensures forall e :: e in errs ==> e.Incompatible?
  {
    errs := [];
    var rest := st.incompat.Keys;
    while rest != {}
      invariant rest <= st.incompat.Keys
      invariant multiset(errs) == multiset(IncompatFrom(st, st.incompat.Keys - rest))
      invariant forall e :: e in errs ==> e.Incompatible?
      decreases |rest|
    {
      var a :| a in rest;
      var more := CheckIncompatible(a, st.incompat[a], st.loaded);
      IncompatFromStep(st, st.incompat.Keys - rest, a);
      DisjointUnion(IncompatFrom(st, st.incompat.Keys - rest), IncompatSet(a, st.incompat[a], st.loaded));
      assert st.incompat.Keys - (rest - {a}) == (st.incompat.Keys - rest) + {a};
      errs := errs + more;
      rest := rest - {a};
    }
    assert st.incompat.Keys - rest == st.incompat.Keys;
  }

  // ---------------------------------------------------------------------------
  // `validate`
  // ---------------------------------------------------------------------------

  /** The input ids as the pass sees them: lower-cased. */
  function Lowered(modList: seq<string>): (ids: seq<string>)
    ensures |ids| == |modList|
    ensures forall i :: 0 <= i < |ids| ==> ids[i] == Strings.Lower(modList[i])
  {
    Seqs.MapSeq(modList, Strings.Lower)
  }

  /** The final pass state for `modList`. */
  function Final(store: Store, modList: seq<string>): Pass {
    var ids := Lowered(modList);
    PassAfter(ids, store, |ids|)
  }

  /** All errors of `modList`: the forward-pass errors and then the incompatibilities. */
  function AllErrors(store: Store, modList: seq<string>): multiset<Message> {
    var ids := Lowered(modList);
    ErrBag(ids, store, |ids|) + multiset(IncompatFrom(Final(store, modList), Final(store, modList).incompat.Keys))
  }

  /** All warnings of `modList`. */
  function AllWarnings(store: Store, modList: seq<string>): multiset<Message> {
    var ids := Lowered(modList);
    WarnBag(ids, store, |ids|)
  }

  /**
   * The body of the forward loop for the lower-cased id `p`: with metadata,
   * records its incompatibilities, reports its missing hard dependencies, the
   * loaded ids it should precede and the earlier mods that should follow it,
   * records its `loadAfter` and marks it loaded; without, only warns.
   */
  method CheckId(st: Pass, p: string, store: Store) returns (st': Pass, errs: seq<Message>, warns: seq<Message>)
    requires Strings.Lower(p) == p
    ensures st' == Advance(st, p, store)
    ensures multiset(errs) == multiset(StepErrors(st, p, store))
    ensures multiset(warns) == multiset(StepWarnings(st, p, store))
    ensures forall e :: e in errs ==> e.Requires?
  {
    var loaded, after, incompat := st.loaded, st.after, st.incompat;
    errs, warns := [], [];
    if p in store {
      var m := store[p];
      if m.incompatibleWith.Some? {
        incompat := incompat[Strings.Lower(p) := m.incompatibleWith.value];
      }
      if m.modDependencies.Some? {
        errs := CheckRequires(p, m.modDependencies.value, loaded);
      }
      if m.loadBefore.Some? {
        warns := CheckLoadBefore(p, m.loadBefore.value, loaded);
      }
      var more := CheckLoadAfter(p, after);
      DisjointUnion(if m.loadBefore.Some? then BeforeSet(p, m.loadBefore.value, loaded) else {},
                    AfterSet(p, after, after.Keys));
      warns := warns + more;
      if m.loadAfter.Some? {
        after := after[Strings.Lower(p) := m.loadAfter.value];
      }
      loaded := loaded + {p};
    } else {
      warns := warns + [Missing(p)];
    }
    st' := Pass(loaded, after, incompat);
  }

  /** No dependency error follows an incompatibility error. */
  predicate IncompatibilitiesLast(errs: seq<Message>) {
    forall i, j :: 0 <= i < j < |errs| && errs[i].Incompatible? ==> errs[j].Incompatible?
  }

  lemma ForwardThenLate(forward: seq<Message>, late: seq<Message>)
    requires forall e :: e in forward ==> e.Requires?
    requires forall e :: e in late ==> e.Incompatible?
    ensures IncompatibilitiesLast(forward + late)
  {
    var errs := forward + late;
    forall k | 0 <= k < |forward| ensures errs[k].Requires? {
      assert errs[k] == forward[k] && forward[k] in forward;
    }
    forall k | |forward| <= k < |errs| ensures errs[k].Incompatible? {
      assert errs[k] == late[k - |forward|] && late[k - |forward|] in late;
    }
  }

  /**
   * Validates `modList` against the metadata `store`. The result is `Err`
   * when there is any error, else `Warn` when there is any warning, else
   * `Ok`; it reports exactly the warnings and errors of the specification
   * functions, and every dependency error comes before every
   * incompatibility error.
   */
  method Validate(store: Store, modList: seq<string>) returns (r: ValidationResult)
    ensures IsErr(r) <==> AllErrors(store, modList) != multiset{}
    ensures IsWarn(r) <==> AllErrors(store, modList) == multiset{} && AllWarnings(store, modList) != multiset{}
    ensures IsOk(r) <==> AllErrors(store, modList) == multiset{} && AllWarnings(store, modList) == multiset{}
    ensures !IsOk(r) ==> multiset(r.warnings) == AllWarnings(store, modList)
    ensures IsErr(r) ==> multiset(r.errors) == AllErrors(store, modList)
    ensures IsErr(r) ==> IncompatibilitiesLast(r.errors)
  {
    var ids := Seqs.MapSeq(modList, Strings.Lower);
    var loaded: set<string> := {};
    var after: map<string, set<string>> := map[];
    var incompat: map<string, set<string>> := map[];
    var errors: seq<Message> := [];
    var warnings: seq<Message> := [];
    for i := 0 to |ids|
      invariant Pass(loaded, after, incompat) == PassAfter(ids, store, i)
      invariant multiset(errors) == ErrBag(ids, store, i)
      invariant multiset(warnings) == WarnBag(ids, store, i)
      invariant forall e :: e in errors ==> e.Requires?
    {
      Strings.LowerIdempotent(modList[i]);
      var st, moreErrors, moreWarnings := CheckId(Pass(loaded, after, incompat), ids[i], store);
      loaded, after, incompat := st.loaded, st.after, st.incompat;
      errors := errors + moreErrors;
      warnings := warnings + moreWarnings;
    }
    var st := Pass(loaded, after, incompat);
    var late := CheckIncompatibilities(st);
    var forward := errors;
    errors := errors + late;
    ForwardThenLate(forward, late);
    if errors != [] {
      r := Err(warnings, errors);
    } else if warnings != [] {
      r := Warn(warnings);
    } else {
      r := Ok;
    }
  }

  // ---------------------------------------------------------------------------
  // What the reported messages mean, in terms of the list and the store
  // ---------------------------------------------------------------------------

  /** Before step `i`, `x` has been loaded: it came earlier and has metadata. */
  predicate KnownAt(ids: seq<string>, store: Store, i: nat, x: string)
    requires i <= |ids|
  {
    x in ids[..i] && x in store
  }

  lemma PrefixStep(ids: seq<string>, k: nat)
    requires 0 < k <= |ids|
    ensures ids[..k] == ids[..k - 1] + [ids[k - 1]]
  {
  }

  /** `loaded_so_far` holds exactly the earlier ids that have metadata. */
  lemma {:induction false} LoadedMeaning(ids: seq<string>, store: Store, k: nat, x: string)
    requires k <= |ids|
    ensures x in PassAfter(ids, store, k).loaded <==> KnownAt(ids, store, k, x)
    decreases k
  {
    if k > 0 {
      LoadedMeaning(ids, store, k - 1, x);
      PrefixStep(ids, k);
    }
  }

  /** `should_load_after` records the `loadAfter` of every loaded mod that has one. */
  lemma {:induction false} AfterMeaning(ids: seq<string>, store: Store, k: nat, a: string)
    requires k <= |ids|
    ensures a in PassAfter(ids, store, k).after <==> KnownAt(ids, store, k, a) && store[a].loadAfter.Some?
    ensures a in PassAfter(ids, store, k).after ==> PassAfter(ids, store, k).after[a] == store[a].loadAfter.value
    decreases k
  {
    if k > 0 {
      AfterMeaning(ids, store, k - 1, a);
      PrefixStep(ids, k);
    }
  }

  /** `incompatible` records the `incompatibleWith` of every loaded mod that has one. */
  lemma {:induction false} IncompatMeaning(ids: seq<string>, store: Store, k: nat, a: string)
    requires k <= |ids|
    ensures a in PassAfter(ids, store, k).incompat <==> KnownAt(ids, store, k, a) && store[a].incompatibleWith.Some?
    ensures a in PassAfter(ids, store, k).incompat ==>
              PassAfter(ids, store, k).incompat[a] == store[a].incompatibleWith.value
    decreases k
  {
    if k > 0 {
      IncompatMeaning(ids, store, k - 1, a);
      PrefixStep(ids, k);
    }
  }

  /**
   * An id without metadata is warned about once per occurrence, and an id
   * with metadata never is.
   */
  lemma {:induction false} MissingCount(ids: seq<string>, store: Store, k: nat, x: string)
    requires k <= |ids|
    ensures WarnBag(ids, store, k)[Missing(x)] == if x in store then 0 else multiset(ids[..k])[x]
    decreases k
  {
    if k > 0 {
      MissingCount(ids, store, k - 1, x);
      PrefixStep(ids, k);
      var step := StepWarnings(PassAfter(ids, store, k - 1), ids[k - 1], store);
      assert Missing(x) in step <==> ids[k - 1] !in store && ids[k - 1] == x;
      assert multiset(ids[..k])[x] == multiset(ids[..k - 1])[x] + (if ids[k - 1] == x then 1 else 0);
    }
  }

  /** Step `i` is mod `p`, which has metadata and lists `d` as a hard dependency not yet loaded. */
  predicate RequiresAt(ids: seq<string>, store: Store, i: nat, p: string, d: Dependency)
    requires i < |ids|
  {
    ids[i] == p && p in store && store[p].modDependencies.Some? && d in store[p].modDependencies.value
    && d.packageId.Some? && !KnownAt(ids, store, i, Strings.Lower(d.packageId.value))
  }

  /** A dependency error is reported exactly for a hard dependency not loaded earlier. */
  lemma {:induction false} RequiresMeaning(ids: seq<string>, store: Store, k: nat, p: string, d: Dependency)
    requires k <= |ids|
    ensures Requires(p, d) in ErrBag(ids, store, k) <==> exists i :: 0 <= i < k && RequiresAt(ids, store, i, p, d)
    decreases k
  {
    if k > 0 {
      RequiresMeaning(ids, store, k - 1, p, d);
      RequiresStep(ids, store, k, p, d);
      var now := Requires(p, d) in ErrBag(ids, store, k);
      var here := RequiresAt(ids, store, k - 1, p, d);
      var before := exists i :: 0 <= i < k - 1 && RequiresAt(ids, store, i, p, d);
      assert now == (Requires(p, d) in ErrBag(ids, store, k - 1) || here);
      assert (exists i :: 0 <= i < k && RequiresAt(ids, store, i, p, d)) == (before || here);
    }
  }

  lemma RequiresStep(ids: seq<string>, store: Store, k: nat, p: string, d: Dependency)
    requires 0 < k <= |ids|
    ensures Requires(p, d) in StepErrors(PassAfter(ids, store, k - 1), ids[k - 1], store)
            <==> RequiresAt(ids, store, k - 1, p, d)
  {
    if d.packageId.Some? {
      LoadedMeaning(ids, store, k - 1, Strings.Lower(d.packageId.value));
    }
    if RequiresAt(ids, store, k - 1, p, d) {
      assert Requires(p, d) in RequireSet(p, store[p].modDependencies.value, PassAfter(ids, store, k - 1).loaded);
    }
  }

  /** Step `i` is mod `p`, which has metadata and must load before the loaded mod `x`. */
  predicate LoadBeforeAt(ids: seq<string>, store: Store, i: nat, p: string, x: string)
    requires i < |ids|
  {
    ids[i] == p && p in store && x in Elems(store[p].loadBefore) && KnownAt(ids, store, i, x)
  }

  /** "should be loaded before" is reported exactly for a loaded mod named in `loadBefore`. */
  lemma {:induction false} LoadBeforeMeaning(ids: seq<string>, store: Store, k: nat, p: string, x: string)
    requires k <= |ids|
    ensures LoadBefore(p, x) in WarnBag(ids, store, k) <==> exists i :: 0 <= i < k && LoadBeforeAt(ids, store, i, p, x)
    decreases k
  {
    if k > 0 {
      LoadBeforeMeaning(ids, store, k - 1, p, x);
      LoadBeforeStep(ids, store, k, p, x);
      var before := exists i :: 0 <= i < k - 1 && LoadBeforeAt(ids, store, i, p, x);
      var here := LoadBeforeAt(ids, store, k - 1, p, x);
      assert (LoadBefore(p, x) in WarnBag(ids, store, k)) == (LoadBefore(p, x) in WarnBag(ids, store, k - 1) || here);
      assert (exists i :: 0 <= i < k && LoadBeforeAt(ids, store, i, p, x)) == (before || here);
    }
  }

  lemma LoadBeforeStep(ids: seq<string>, store: Store, k: nat, p: string, x: string)
    requires 0 < k <= |ids|
    ensures LoadBefore(p, x) in StepWarnings(PassAfter(ids, store, k - 1), ids[k - 1], store)
            <==> LoadBeforeAt(ids, store, k - 1, p, x)
  {
    LoadedMeaning(ids, store, k - 1, x);
    if LoadBeforeAt(ids, store, k - 1, p, x) {
      assert LoadBefore(p, x) in BeforeSet(p, store[p].loadBefore.value, PassAfter(ids, store, k - 1).loaded);
    }
  }

  /** Step `i` is mod `p`, which has metadata and is named in the `loadAfter` of the loaded mod `a`. */
  predicate LoadAfterAt(ids: seq<string>, store: Store, i: nat, a: string, p: string)
    requires i < |ids|
  {
    ids[i] == p && p in store && KnownAt(ids, store, i, a) && p in Elems(store[a].loadAfter)
  }

  /** "should be loaded after" is reported exactly for an earlier mod whose `loadAfter` names `p`. */
  lemma {:induction false} LoadAfterMeaning(ids: seq<string>, store: Store, k: nat, a: string, p: string)
    requires k <= |ids|
    ensures LoadAfter(a, p) in WarnBag(ids, store, k) <==> exists i :: 0 <= i < k && LoadAfterAt(ids, store, i, a, p)
    decreases k
  {
    if k > 0 {
      LoadAfterMeaning(ids, store, k - 1, a, p);
      LoadAfterStep(ids, store, k, a, p);
      var before := exists i :: 0 <= i < k - 1 && LoadAfterAt(ids, store, i, a, p);
      var here := LoadAfterAt(ids, store, k - 1, a, p);
      assert (LoadAfter(a, p) in WarnBag(ids, store, k)) == (LoadAfter(a, p) in WarnBag(ids, store, k - 1) || here);
      assert (exists i :: 0 <= i < k && LoadAfterAt(ids, store, i, a, p)) == (before || here);
    }
  }

  lemma LoadAfterStep(ids: seq<string>, store: Store, k: nat, a: string, p: string)
    requires 0 < k <= |ids|
    ensures LoadAfter(a, p) in StepWarnings(PassAfter(ids, store, k - 1), ids[k - 1], store)
            <==> LoadAfterAt(ids, store, k - 1, a, p)
  {
    AfterMeaning(ids, store, k - 1, a);
    if LoadAfterAt(ids, store, k - 1, a, p) {
      var st := PassAfter(ids, store, k - 1);
      assert LoadAfter(a, p) in AfterSet(p, st.after, st.after.Keys);
    }
  }

  /** The forward pass reports no incompatibility. */
  lemma {:induction false} NoForwardIncompat(ids: seq<string>, store: Store, k: nat, a: string, b: string)
    requires k <= |ids|
    ensures Incompatible(a, b) !in ErrBag(ids, store, k)
    decreases k
  {
    if k > 0 {
      NoForwardIncompat(ids, store, k - 1, a, b);
    }
  }

  /**
   * An incompatibility error is reported exactly when both mods are in the
   * list with metadata and the first names the second in `incompatibleWith`,
   * whatever their order.
   */
  lemma IncompatibleMeaning(store: Store, modList: seq<string>, a: string, b: string)
    ensures var ids := Lowered(modList);
      Incompatible(a, b) in AllErrors(store, modList) <==>
        a in ids && a in store && b in Elems(store[a].incompatibleWith) && b in ids && b in store
  {
    var ids := Lowered(modList);
    assert ids[..|ids|] == ids;
    NoForwardIncompat(ids, store, |ids|, a, b);
    IncompatMeaning(ids, store, |ids|, a);
    LoadedMeaning(ids, store, |ids|, b);
  }

  /** Every id the warnings name as missing is the lower-cased form of an input id. */
  lemma MissingLowered(store: Store, modList: seq<string>, x: string)
    requires Missing(x) in AllWarnings(store, modList)
    ensures Strings.IsLower(x) && x !in store
    ensures exists i :: 0 <= i < |modList| && x == Strings.Lower(modList[i])
  {
    var ids := Lowered(modList);
    assert ids[..|ids|] == ids;
    MissingCount(ids, store, |ids|, x);
    assert x in ids;
    var i :| 0 <= i < |ids| && ids[i] == x;
    Strings.LowerIsLower(modList[i]);
  }
}
