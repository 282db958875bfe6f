/** `ModList`: the metadata of the installed mods keyed by package id, and a load order. */
module ModLists {
  import opened Common
  import opened ModMeta

  datatype ModList = ModList(mods: Store, order: seq<string>)

  /**
   * `filter_map` to `(packageId, metadata)` pairs and `collect` into a map:
   * entries without a package id are dropped, and a later entry with the same
   * id replaces an earlier one.
   */
  function Collect(ms: seq<ModMetaData>): (s: Store)
    ensures forall id :: id in s ==> s[id].packageId == Some(id)
    ensures forall id :: id in s ==> exists i :: 0 <= i < |ms| && ms[i].packageId == Some(id)
  {
    if ms == [] then map[]
    else
      var m := ms[|ms| - 1];
      var s := Collect(ms[..|ms| - 1]);
      if m.packageId.Some? then s[m.packageId.value := m] else s
  }

  /** `ModList::from`: the collected map, with the order left empty. */
  function FromMetadata(ms: seq<ModMetaData>): (l: ModList)
    ensures l.order == []
  {
    ModList(Collect(ms), [])
  }

  /**
   * Every entry with a package id is kept, and the one stored under an id is
   * the last entry carrying that id.
   */
  lemma {:induction false} LastWins(ms: seq<ModMetaData>, i: nat)
    requires i < |ms| && ms[i].packageId.Some?
    requires forall j :: i < j < |ms| ==> ms[j].packageId != ms[i].packageId
    ensures ms[i].packageId.value in FromMetadata(ms).mods
    ensures FromMetadata(ms).mods[ms[i].packageId.value] == ms[i]
    decreases |ms|
  {
    var last := |ms| - 1;
    if i < last {
      var ms' := ms[..last];
      LastWins(ms', i);
    }
  }
}
