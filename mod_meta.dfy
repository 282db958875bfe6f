/**
 * The metadata record of one mod (the contents of its `About.xml`) and its
 * hard-dependency entries. Fields keep the XML tag names of the file.
 */
module ModMeta {
  import opened Common
  import Strings

  /** One `<li>` of `<modDependencies>`: every part is optional. */
  datatype Dependency = Dependency(
    packageId: Option<string>,
    displayName: Option<string>,
    downloadUrl: Option<string>,
    steamWorkshopUrl: Option<string>)

  /** `Dependency::default()`. */
  const NoDependency: Dependency := Dependency(None, None, None, None)

  /**
   * `ModMetaData` without its `...ByVersion` fields, which nothing in the
   * load-order engine reads. `path` is kept as the text of the path.
   */
  datatype ModMetaData = ModMetaData(
    path: Option<string>,
    name: Option<string>,
    author: Option<string>,
    authors: Option<seq<string>>,
    url: Option<string>,
    packageId: Option<string>,
    supportedVersions: Option<set<string>>,
    description: Option<string>,
    modDependencies: Option<set<Dependency>>,
    loadAfter: Option<set<string>>,
    forceLoadAfter: Option<set<string>>,
    loadBefore: Option<set<string>>,
    forceLoadBefore: Option<set<string>>,
    incompatibleWith: Option<set<string>>)

  /** `ModMetaData::default()`: every field `None`. */
  const EmptyMeta: ModMetaData :=
    ModMetaData(None, None, None, None, None, None, None, None, None, None, None, None, None, None)

  /** The metadata store, keyed by package id. */
  type Store = map<string, ModMetaData>

  /** The members of an optional set, `None` read as empty. */
  function Elems(o: Option<set<string>>): set<string> {
    if o.Some? then o.value else {}
  }

  /** The package ids named by the hard dependencies, entries without one skipped. */
  function DependencyIds(m: ModMetaData): (ids: set<string>)
    ensures forall d :: m.modDependencies.Some? && d in m.modDependencies.value && d.packageId.Some?
              ==> d.packageId.value in ids
    ensures forall id :: id in ids ==>
              exists d :: m.modDependencies.Some? && d in m.modDependencies.value && d.packageId == Some(id)
  {
    if m.modDependencies.None? then {}
    else set d | d in m.modDependencies.value && d.packageId.Some? :: d.packageId.value
  }

  // ---------------------------------------------------------------------------
  // The implicit `loadAfter` entries added by `ModMetaData::read`
  // ---------------------------------------------------------------------------

  const Core: string := "ludeon.rimworld"
  const Royalty: string := "ludeon.rimworld.royalty"
  const Ideology: string := "ludeon.rimworld.ideology"
  const Biotech: string := "ludeon.rimworld.biotech"

  /** The game and its expansions, in the order they are added. */
  const Official: seq<string> := [Core, Royalty, Ideology, Biotech]

  /** A mod published by the game's studio: its lower-cased id starts with the game's id. */
  predicate IsOfficial(packageId: Option<string>) {
    packageId.Some? && Strings.StartsWith(Strings.Lower(packageId.value), Core)
  }

  /** Every id the mod asks to be loaded before. */
  function Blocking(m: ModMetaData): set<string> {
    Elems(m.loadBefore) + Elems(m.forceLoadBefore)
  }

  /** The longest prefix of `ids` none of whose members is in `blocked`. */
  function TakeUntilBlocked(ids: seq<string>, blocked: set<string>): (r: seq<string>)
    ensures r <= ids
    ensures forall k :: 0 <= k < |r| ==> r[k] !in blocked
    ensures |r| < |ids| ==> ids[|r|] in blocked
  {
    if ids == [] || ids[0] in blocked then []
    else [ids[0]] + TakeUntilBlocked(ids[1..], blocked)
  }

  /** The ids added to the `loadAfter` of a mod with metadata `m`. */
  function Implicit(m: ModMetaData): set<string> {
    if IsOfficial(m.packageId) then {}
    else set x | x in TakeUntilBlocked(Official, Blocking(m))
  }

  /** `Implicit` spelled out, as the nested conditionals of the source test it. */
  lemma ImplicitCases(m: ModMetaData)
    ensures var b := Blocking(m);
      Implicit(m) ==
        if IsOfficial(m.packageId) || Core in b then {}
        else if Royalty in b then {Core}
        else if Ideology in b then {Core, Royalty}
        else if Biotech in b then {Core, Royalty, Ideology}
        else {Core, Royalty, Ideology, Biotech}
  {
    var b := Blocking(m);
    assert Official[1..] == [Royalty, Ideology, Biotech];
    assert Official[1..][1..] == [Ideology, Biotech];
    assert Official[1..][1..][1..] == [Biotech];
    assert Official[1..][1..][1..][1..] == [];
    var t1 := TakeUntilBlocked(Official[1..], b);
    var t2 := TakeUntilBlocked(Official[1..][1..], b);
    var t3 := TakeUntilBlocked(Official[1..][1..][1..], b);
    assert t3 == if Biotech in b then [] else [Biotech];
    assert t2 == if Ideology in b then [] else [Ideology] + t3;
    assert t1 == if Royalty in b then [] else [Royalty] + t2;
    assert TakeUntilBlocked(Official, b) == if Core in b then [] else [Core] + t1;
  }

  /**
   * The post-parse step of `ModMetaData::read`: records the path and makes
   * `loadAfter` present, adding the game and then each expansion in turn
   * until one of them is among the ids the mod must load before; mods of the
   * studio itself get nothing added. No other field changes.
   */
  method AddImplicitLoadAfter(mmd: ModMetaData, path: string) returns (m: ModMetaData)
    ensures m.loadAfter.Some?
    ensures m.loadAfter.value == Elems(mmd.loadAfter) + Implicit(mmd)
    ensures m == mmd.(path := Some(path), loadAfter := m.loadAfter)
  {
    m := mmd.(path := Some(path));
    var blocking: set<string> := {};
    if m.loadBefore.Some? {
      blocking := blocking + m.loadBefore.value;
    }
    if m.forceLoadBefore.Some? {
      blocking := blocking + m.forceLoadBefore.value;
    }
    if m.loadAfter.None? {
      m := m.(loadAfter := Some({}));
    }
    var loadAfter := m.loadAfter.value;
    if !IsOfficial(m.packageId) {
      if Core !in blocking {
        loadAfter := loadAfter + {Core};
        if Royalty !in blocking {
          loadAfter := loadAfter + {Royalty};
          if Ideology !in blocking {
            loadAfter := loadAfter + {Ideology};
            if Biotech !in blocking {
              loadAfter := loadAfter + {Biotech};
            }
          }
        }
      }
    }
    m := m.(loadAfter := Some(loadAfter));
    ImplicitCases(mmd);
  }

  /**
   * The implicit entries come in order: an expansion is only added when the
   * game and every earlier expansion were added too, and a mod that must
   * load before the game gets none.
   */
  lemma ImplicitInOrder(m: ModMetaData, i: nat, j: nat)
    requires i <= j < |Official|
    ensures Official[j] in Implicit(m) ==> Official[i] in Implicit(m)
    ensures Core in Blocking(m) ==> Implicit(m) == {}
  {
    var t := TakeUntilBlocked(Official, Blocking(m));
    if Official[j] in Implicit(m) {
      var k :| 0 <= k < |t| && t[k] == Official[j];
      assert k == j;
      assert t[i] == Official[i];
    }
  }
}
