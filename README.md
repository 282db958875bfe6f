# rimrs load-order engine in Dafny

This project models the core of rimrs, a RimWorld mod manager. The core is
the engine that decides a mod load order, plus the helpers that feed it:

- **Topological sorter.** Builds a predecessor map from each mod's metadata
  (hard dependencies, `loadAfter`, `forceLoadAfter`, and the load-before
  declarations seen through the ordered pair scan). It then orders the mods
  by depth-first search with temporary marks, which detects cycles.
- **List validator.** One forward pass over the lower-cased ids, keeping the
  loaded ids, the recorded `loadAfter` and `incompatibleWith` sets, and the
  messages. A final pass reports incompatibilities. The result is Ok, Warn
  or Err.
- **In-place list reordering.** The `Mover`/`MoverMatcher` moves on a
  growable list, the `VecMutAccessor` handle (exclusive-reference form), and
  the single- and two-list operations `VecOp`/`MultiVecOp`.
- **Parsers and serialisers.**
  - The `ModsConfig.xml` section state machine and its writer.
  - The `About.xml` event-driven metadata builder.
  - The implicit core/DLC `loadAfter` entries added when metadata is read.
  - The INI line reader.
  - BOM stripping and `<li>` folding.
  - `ModList` construction.

Lists that the source updates in place are classes: `Vectors.Vec` holds its
`items` as a sequence, `Accessors.VecMutAccessor` holds a `Vec`, and
`Ini.IniReader` holds the remaining lines and the current section. The
`&mut` arguments of free functions (sorting, validation, the About.xml
helpers) are threaded through methods as values in and values out. Each
method is proved against a pure function of its inputs. The properties the
source promises are lemmas about those functions.

XML input is an abstract sequence of reader events (`Xml.XmlEvent`). INI
input is a sequence of lines. The metadata store is an immutable
`map<string, ModMetaData>`.

Two behaviours of the sorting code are easy to misread; the model follows
the code:

- **Which mod gets the edge.** The pair scan takes the pairs `(m, n)` of
  `combinations(2)` in sorted order, so a `loadBefore` declared by `n` is
  only seen when `n` sorts after its target (`Sorting.LoadBeforeSeenOnlyFromLater`).
- **What the edge records.** The recorded predecessor is `n`'s `packageId`
  field, not the key it is stored under. A missing `packageId` there is
  `MissingData`.

## Model

| member | source | states |
|---|---|---|
| Sorting.Predecessors | src/mods/sorting.rs:104-150 | the predecessor map has exactly the candidates as keys |
| Sorting.BuildDeps | src/mods/sorting.rs:83-156 | fails with `MissingData` exactly when a candidate has no metadata or a load-before declarer with no package id is met; otherwise returns the predecessor map: own dependency ids, `loadAfter`, `forceLoadAfter`, plus the ids of later candidates declaring load-before |
| Sorting.InsMeaning | src/mods/sorting.rs:91-100 | `ins` makes `m` a key, its entry gains exactly the added ids, and every other entry is kept |
| Sorting.AfterRowsDone | src/mods/sorting.rs:129-150 | scanning all ordered pairs row by row yields exactly the predecessor map |
| Sorting.RowsOkEnd | src/mods/sorting.rs:134-147 | the pair scan completes exactly when no later candidate declaring load-before lacks a package id |
| Sorting.Visit | src/mods/sorting.rs:52-81 | a node not unmarked is a no-op; a temp-marked node gives `CyclicError` and a real cycle exists; otherwise the node is output after its candidate predecessors, the output only grows and output plus unmarked stay a permutation |
| Sorting.VisitPreds | src/mods/sorting.rs:70-74 | visiting every predecessor keeps the traversal invariant and puts each candidate predecessor in the output; a failure is a cycle |
| Sorting.Traverse | src/mods/sorting.rs:34-49 | the loop over unmarked fails exactly when the graph has a cycle; on success the output is a permutation of the candidates in which each candidate predecessor comes first; with no edges it is the sorted list itself |
| Sorting.Candidates | src/mods/sorting.rs:28-29 | the sorted copy of the input has the same elements with the same multiplicities |
| Sorting.Sort | src/mods/sorting.rs:24-50 | `MissingData` exactly for missing metadata or an unrecorded load-before declarer; `CyclicError` exactly when the predecessor graph has a cycle; on success a permutation of the input respecting every predecessor; with no relations the lexicographic order |
| Sorting.OkMeansAcyclic | src/mods/sorting.rs:17-22 | a permutation of the candidates that respects every predecessor rules out a cycle |
| Sorting.RespectsAcyclic | src/mods/sorting.rs:63-68 | an order respecting every edge leaves no cycle among the nodes it holds |
| Sorting.EdgesDescend | src/mods/sorting.rs:70-78 | along a cycle each node would have to precede the one before it in a respecting order |
| Sorting.CandidatesIgnoreOrder | src/mods/sorting.rs:28-29 | the candidate order does not depend on the input order |
| Sorting.LoadBeforeSeenOnlyFromLater | src/mods/sorting.rs:129-139 | a load-before declared by the mod that sorts first is ignored; declared by the later one it becomes a predecessor |
| LexOrder.SortStrings | src/mods/sorting.rs:29 | the result is sorted by byte-wise lexicographic order and is a permutation of the input |
| LexOrder.SortedUnique | src/mods/sorting.rs:29 | two sorted permutations of the same strings are equal |
| LexOrder.SortIgnoresOrder | src/mods/sorting.rs:29 | sorting gives the same list for any order of the same strings |
| LexOrder.LeTotal | src/mods/sorting.rs:29 | the string order is total |
| LexOrder.LeAntisymmetric | src/mods/sorting.rs:29 | the string order is antisymmetric |
| LexOrder.LeTransitive | src/mods/sorting.rs:29 | the string order is transitive |
| Validation.IsOk | src/mods/validation.rs:106-109 | holds exactly for `Ok`, that is, for neither `Warn` nor `Err` |
| Validation.IsWarn | src/mods/validation.rs:111-114 | holds exactly for `Warn`, that is, for neither `Ok` nor `Err` |
| Validation.IsErr | src/mods/validation.rs:116-119 | holds exactly for `Err`, that is, for neither `Ok` nor `Warn` |
| Validation.ToResult | src/mods/validation.rs:139-151 | `Pass` exactly for `Ok`; `Fail(warnings)` for `Warn`; for `Err` a failure holding the warnings and then the errors |
| Validation.Render | src/mods/validation.rs:65-91 | the source's message text for each kind: it begins with the mod the message is about and ends with the other mod, or ends with the id whose metadata is missing |
| Validation.Warnings | src/mods/validation.rs:121-127 | absent exactly for `Ok`, otherwise the result's warnings |
| Validation.Errors | src/mods/validation.rs:129-136 | present exactly for `Err`, and then the result's errors |
| Validation.ToResultReports | src/mods/validation.rs:139-151 | the conversion succeeds exactly for `Ok`; otherwise it carries the warnings followed by the errors |
| Validation.Lowered | src/mods/validation.rs:47 | every id is lower-cased position by position |
| Validation.CheckRequires | src/mods/validation.rs:62-67 | one `requires` error per hard dependency with a package id not yet loaded, and no other message |
| Validation.CheckLoadBefore | src/mods/validation.rs:69-73 | one warning per loaded id that the mod asks to load before |
| Validation.CheckLoadAfter | src/mods/validation.rs:74-79 | one warning per earlier mod whose recorded `loadAfter` names the current one |
| Validation.CheckIncompatible | src/mods/validation.rs:90-92 | one error per loaded id in one mod's incompatibility set |
| Validation.CheckIncompatibilities | src/mods/validation.rs:89-93 | the final pass reports exactly the loaded incompatible pairs |
| Validation.CheckId | src/mods/validation.rs:57-87 | one step of the forward loop: the new state, and the step's errors and warnings as multisets |
| Validation.Validate | src/mods/validation.rs:46-102 | `Err` exactly when some error arises, else `Warn` exactly when some warning arises, else `Ok`; the messages are exactly those of the passes; incompatibility errors come after all dependency errors |
| Validation.ForwardThenLate | src/mods/validation.rs:89-93 | dependency errors followed by incompatibility errors keep the incompatibilities last |
| Validation.LoadedMeaning | src/mods/validation.rs:83-86 | an id is loaded after k steps exactly when it appears among the first k ids and has metadata |
| Validation.AfterMeaning | src/mods/validation.rs:80-82 | the recorded `loadAfter` of an id is its metadata's set, present exactly when it was loaded with one |
| Validation.IncompatMeaning | src/mods/validation.rs:59-61 | the recorded incompatibility set of an id is its metadata's set, present exactly when it was loaded with one |
| Validation.MissingCount | src/mods/validation.rs:84-86 | the missing-metadata warning for an id is given once per occurrence of an id without metadata, and never for one with metadata |
| Validation.RequiresMeaning | src/mods/validation.rs:62-67 | a `requires` error exists exactly when some mod with metadata names a dependency not loaded before it |
| Validation.LoadBeforeMeaning | src/mods/validation.rs:69-73 | a load-before warning exists exactly when some mod names an id loaded before it |
| Validation.LoadAfterMeaning | src/mods/validation.rs:74-81 | a load-after warning exists exactly when an earlier mod's `loadAfter` names a later mod |
| Validation.NoForwardIncompat | src/mods/validation.rs:57-87 | the forward pass reports no incompatibility |
| Validation.IncompatibleMeaning | src/mods/validation.rs:89-93 | an incompatibility error for (a, b) exists exactly when both are in the list with metadata and a's set names b |
| Validation.MissingLowered | src/mods/validation.rs:47-86 | a missing-metadata warning names a lower-cased input id that has no metadata |
| Vectors.MovedUp | src/helpers/traits.rs:97-105 | the element at `i` ends at `i - n`, the ones between shift down one place, the rest stay |
| Vectors.MovedDown | src/helpers/traits.rs:110-118 | the element at `i` ends at `i + n`, the ones between shift up one place, the rest stay |
| Vectors.MovedUpStep | src/helpers/traits.rs:101-103 | one more swap with the front neighbour moves one more place |
| Vectors.MovedDownStep | src/helpers/traits.rs:114-116 | one more swap with the back neighbour moves one more place |
| Vectors.MovedUpPermutes | src/helpers/traits.rs:101-103 | a move up is a permutation |
| Vectors.MovedDownPermutes | src/helpers/traits.rs:114-116 | a move down is a permutation |
| Vectors.MovedUpThenDown | src/helpers/traits.rs:97-118 | moving down by n undoes moving up by n |
| Vectors.MovedDownThenUp | src/helpers/traits.rs:97-118 | moving up by n undoes moving down by n |
| Vectors.MoveUpResult | src/helpers/traits.rs:76-82 | fails with `IndexOutOfBounds` exactly when `i == 0` or `i >= len`; otherwise the element moves one place up |
| Vectors.MoveDownResult | src/helpers/traits.rs:86-92 | fails with `IndexOutOfBounds` exactly when `i + 1 >= len`; otherwise the element moves one place down |
| Vectors.MoveUpNResult | src/helpers/traits.rs:97-105 | fails exactly when `i >= len` or `n > i`; otherwise the element ends at `i - n` and those between shift |
| Vectors.MoveDownNResult | src/helpers/traits.rs:110-118 | fails exactly when `i + n >= len`; otherwise the element ends at `i + n` and those between shift |
| Vectors.MoveNByOne | src/helpers/traits.rs:97-118 | the `_n` moves by one place are the single moves |
| Vectors.MoveNRoundTrip | src/helpers/traits.rs:97-118 | a successful move up by n is undone by a move down by n, and the other way round |
| Vectors.MoveNPermutes | src/helpers/traits.rs:97-118 | every successful move keeps the same elements |
| Vectors.MoveMatchUpResult | src/helpers/traits.rs:127-133 | `NoMatch` exactly when no element matches |
| Vectors.MoveMatchDownResult | src/helpers/traits.rs:135-141 | `NoMatch` exactly when no element matches |
| Vectors.MoveMatchFirst | src/helpers/traits.rs:127-141 | the match moves act on the first matching index |
| Vectors.MoveDownCheckAsWritten | src/helpers/traits.rs:87 | the guard as written has no value (the `usize` subtraction underflows) exactly for lists shorter than two |
| Vectors.MoveDownCheckAgrees | src/helpers/traits.rs:87 | for lists of two or more the guard as written is the corrected one |
| Vectors.MoveDownUnderflows | src/helpers/traits.rs:86-92 | on a one-element list the guard as written underflows, where the corrected move reports `IndexOutOfBounds` |
| Vectors.Vec.Swap | src/helpers/vec_mut_accessor.rs:50-55 | exchanges the two slots and nothing else |
| Vectors.Vec.Remove | src/helpers/vec_mut_accessor.rs:35-40 | returns the element at the index and closes the gap, keeping the order |
| Vectors.Vec.Push | src/helpers/vec_mut_accessor.rs:69-74 | appends at the end |
| Vectors.Vec.Position | src/helpers/vec_mut_accessor.rs:42-48 | the first index whose element matches, none exactly when no element matches |
| Vectors.Vec.MoveUp | src/helpers/traits.rs:76-82 | the contents become the `move_up` result, or stay unchanged with its error |
| Vectors.Vec.MoveDown | src/helpers/traits.rs:86-92 | the contents become the `move_down` result, or stay unchanged with its error |
| Vectors.Vec.MoveUpN | src/helpers/traits.rs:97-105 | the loop of single moves yields the `move_up_n` result, or the error with the list unchanged |
| Vectors.Vec.MoveDownN | src/helpers/traits.rs:110-118 | the loop of single moves yields the `move_down_n` result, or the error with the list unchanged |
| Vectors.Vec.MoveMatchUp | src/helpers/traits.rs:127-133 | moves the first match up, or fails with the list unchanged |
| Vectors.Vec.MoveMatchDown | src/helpers/traits.rs:135-141 | moves the first match down, or fails with the list unchanged |
| Accessors.VecMutAccessor.IsEmpty | src/helpers/vec_mut_accessor.rs:30-33 | empty exactly when the held list is empty |
| Accessors.VecMutAccessor.Remove | src/helpers/vec_mut_accessor.rs:35-40 | `Vec::remove` on the held list |
| Accessors.VecMutAccessor.Position | src/helpers/vec_mut_accessor.rs:42-48 | the first index whose element matches, none exactly when no element matches |
| Accessors.VecMutAccessor.Swap | src/helpers/vec_mut_accessor.rs:50-55 | `Vec::swap` on the held list |
| Accessors.VecMutAccessor.Push | src/helpers/vec_mut_accessor.rs:69-74 | `Vec::push` on the held list |
| Accessors.VecMutAccessor.MoveUp | src/helpers/vec_mut_accessor.rs:80-89 | the same result as the list's own `move_up` |
| Accessors.VecMutAccessor.MoveDown | src/helpers/vec_mut_accessor.rs:91-101 | the same result as the list's own `move_down`, with the corrected guard |
| Accessors.VecMutAccessor.MoveUpN | src/helpers/vec_mut_accessor.rs:103-111 | as written: the effect and the errors of `move_down_n` |
| Accessors.VecMutAccessor.MoveUpNFixed | src/helpers/traits.rs:97-105 | as intended: the effect and the errors of the list's `move_up_n` |
| Accessors.VecMutAccessor.MoveDownN | src/helpers/vec_mut_accessor.rs:113-121 | the effect and the errors of `move_down_n` |
| Accessors.VecMutAccessor.MoveMatchUp | src/helpers/vec_mut_accessor.rs:130-133 | moves the first match up, `NoMatch` with the list unchanged when none matches |
| Accessors.VecMutAccessor.MoveMatchDown | src/helpers/vec_mut_accessor.rs:135-138 | moves the first match down, `NoMatch` with the list unchanged when none matches |
| Accessors.MoveUpNMovesDown | src/helpers/vec_mut_accessor.rs:103-111 | on `[0, 1, 2]` the handle's `move_up_n` moves down where the intended one moves up, and refuses a move the intended one makes |
| VecOps.Lift | src/helpers/vec_ops.rs:15-16 | a move error is carried over unchanged inside `RunError` |
| VecOps.RunOnFailures | src/helpers/vec_ops.rs:73-109 | only `Swap` and `Remove` with an index past the end give `IndexOutOfBounds`; `Push` and `ForEachMut` always succeed; the moves fail only with a move error |
| VecOps.RunOnItems | src/helpers/vec_ops.rs:87-118 | swaps and moves permute the list, `Push` adds exactly its item, `Remove` drops exactly the indexed item, `ForEachMut` keeps the length |
| VecOps.ForEachMutOn | src/helpers/vec_ops.rs:111-118 | every element is replaced by the operation applied to it |
| VecOps.Run | src/helpers/vec_ops.rs:73-109 | the list becomes the operation's result, or stays unchanged with its error |
| VecOps.Transfer | src/helpers/vec_ops.rs:172-181 | nothing to transfer exactly when no element matches |
| VecOps.TransferMoves | src/helpers/vec_ops.rs:172-181 | the first match leaves the source, keeping the order of the others, and is appended to the target |
| VecOps.MoveFromTo | src/helpers/vec_ops.rs:172-181 | the two lists become the transfer's result, or `NotFound` with both unchanged |
| VecOps.SingleOpOneSide | src/helpers/vec_ops.rs:158-159 | a single operation runs on its side only, leaving the other list untouched |
| VecOps.TransferFromKeeps | src/helpers/vec_ops.rs:160-161 | a transfer from either side keeps the combined elements and length, and fails only with `NotFound` |
| VecOps.TransferKeepsItems | src/helpers/vec_ops.rs:160-204 | `MoveFrom` and `Swap` keep the combined elements and length, and fail only with `NotFound` |
| VecOps.SwapSidesSearchesLeftFirst | src/helpers/vec_ops.rs:183-204 | `Swap` moves from the left when it has a match, else from the right; `NotFound` exactly when neither matches |
| VecOps.MoveUpFallsBackOnNoMatch | src/helpers/vec_ops.rs:238-250 | the left list is tried first; the right only when the left has no match |
| VecOps.MoveDownFallsBackOnNoMatch | src/helpers/vec_ops.rs:252-264 | the left list is tried first; the right only when the left has no match |
| VecOps.RunMulti | src/helpers/vec_ops.rs:156-236 | the two lists become the operation's result, or stay unchanged with its error |
| Seqs.RemoveAt | src/helpers/vec_mut_accessor.rs:35-40 | the element at the index is dropped and the others keep their order |
| Seqs.SwapAt | src/helpers/vec_mut_accessor.rs:50-55 | the two slots are exchanged, the others stay |
| Seqs.SwapAtPermutes | src/helpers/vec_mut_accessor.rs:50-55 | a swap is a permutation |
| Seqs.FirstMatch | src/helpers/vec_mut_accessor.rs:42-48 | the first matching index, none exactly when nothing matches |
| Seqs.MapSeq | src/helpers/vec_ops.rs:111-118 | each element replaced by the operation applied to it |
| Helpers.StripBom | src/helpers/mod.rs:10-16 | the input is the BOM (when it starts with one) followed by the result |
| Helpers.StripBomAfterBom | src/helpers/mod.rs:11-12 | a BOM followed by a body strips to the body |
| Helpers.StripBomKeeps | src/helpers/mod.rs:13-15 | input not starting with byte 239 is returned unchanged |
| Helpers.Indent | src/helpers/mod.rs:20 | the indent is four spaces per level |
| Helpers.FoldLis | src/helpers/mod.rs:22-24 | no items fold to the empty string |
| Helpers.FoldLisAppend | src/helpers/mod.rs:19-28 | folding two lists is folding each and concatenating |
| Helpers.FoldLisCons | src/helpers/mod.rs:24-27 | the first item's line comes first, then the rest in order |
| ModsConfigs.SectionOf | src/serialization/mods_config.rs:47-55 | each of the three section tags selects its section, and only it |
| ModsConfigs.Parse | src/serialization/mods_config.rs:34-73 | the event loop computes the fold of the section state machine |
| ModsConfigs.RunFromAppend | src/serialization/mods_config.rs:45-70 | running over two event runs is running over the first then the second |
| ModsConfigs.TextOutsideSection | src/serialization/mods_config.rs:61-62 | text with no open section fails |
| ModsConfigs.TextInSection | src/serialization/mods_config.rs:61-66 | text in `version` replaces it; text in a list section is appended |
| ModsConfigs.StartTagSection | src/serialization/mods_config.rs:47-55 | a `version`, `activeMods` or `knownExpansions` start tag enters that section; any other start tag, `li` included, changes nothing |
| ModsConfigs.EndTagSection | src/serialization/mods_config.rs:56-60 | an end tag of any of the three sections leaves the section; any other end tag changes nothing |
| ModsConfigs.Serialise | src/serialization/mods_config.rs:91-112 | the header, the version line only when present, each list block only when non-empty, then the closing tag without a newline; this text is the rendering of the config's events |
| ModsConfigs.Layout | src/serialization/mods_config.rs:93-109 | the rendered events are the serialised layout |
| ModsConfigs.ListRender | src/serialization/mods_config.rs:98-107 | the rendered `<li>` events are `fold_lis` at level 2 |
| ModsConfigs.ListRound | src/serialization/mods_config.rs:61-66 | parsing a list block files every item in order |
| ModsConfigs.BlockRound | src/serialization/mods_config.rs:47-66 | a whole block opens its section, files its items in order and closes it |
| ModsConfigs.VersionRound | src/serialization/mods_config.rs:47-97 | a version line parses back to that version |
| ModsConfigs.RoundTrip | src/serialization/mods_config.rs:34-112 | parsing the serialised events gives back the config when every text is non-blank and markup-free (no `<`, no `&`, no carriage return, only XML characters) |
| ModsConfigs.MarkupItemNotReadable | src/serialization/mods_config.rs:98-107 | an item holding `</li>` markup, which the writer would insert unescaped, is outside the round trip |
| Xml.TextEvents | src/serialization/mods_config.rs:61 | the reader reports non-blank, markup-free text between tags as one `Characters` event, blank text as whitespace at most, and the events render the text |
| Xml.RenderAllAppend | src/serialization/mods_config.rs:91-112 | rendering distributes over concatenation |
| About.SetDependencyField | src/serialization/about.rs:93-99 | text under `packageId`, `displayName`, `steamWorkshopUrl` or `downloadUrl` at depth 3 sets that field of the dependency; other tags leave it |
| About.AddData | src/serialization/about.rs:46-106 | text outside `ModMetaData` changes nothing; only the five text fields of the metadata may change; the finished dependencies are untouched; text under `ModMetaData/modDependencies` sets the field of the dependency being read that the tag at depth 3 names, and other text leaves that dependency |
| About.AddDataText | src/serialization/about.rs:53-67 | a text field takes the text exactly when the path is `ModMetaData/<field>` |
| About.AddDataSet | src/serialization/about.rs:69-90 | a list field gains the text exactly when the path is `ModMetaData/<field>`; `authors` appends |
| About.EndElement | src/serialization/about.rs:108-121 | the path loses its last tag; closing `li` under `modDependencies` files the current dependency and resets it; otherwise the memory is unchanged |
| About.Commit | src/serialization/about.rs:139-165 | each of the six sets, `authors` and the dependencies replaces its field only when non-empty; the text fields stay |
| About.StopIndex | src/serialization/about.rs:26-40 | the loop stops at the first end of document or reader error |
| About.ParseAbout | src/serialization/about.rs:19-44 | a reader error before the end of the document is returned; otherwise the committed fold of the events |
| About.TextFieldIsLast | src/serialization/about.rs:53-67 | a text field holds the last text read under its tag |
| About.SetFieldIsTexts | src/serialization/about.rs:69-90 | a set field holds every text read under its tag; `authors` holds them in order |
| About.OnlyTextFields | src/serialization/about.rs:46-106 | the loop itself only writes the five text fields |
| About.AboutFields | src/serialization/about.rs:19-165 | the parsed metadata, field by field, in terms of the texts read under each tag, and its dependencies are exactly those filed before the end of the document (`None` when there are none) |
| About.StepDependency | src/serialization/about.rs:93-118 | closing `li` under `modDependencies` files the dependency being read and starts an empty one; text under `ModMetaData/modDependencies` sets the field named at depth 3; nothing else touches either |
| About.DependencyOfStep | src/serialization/about.rs:93-99 | a dependency described by one more event gains the text of that event in the field its depth-3 tag names, when it is dependency text |
| About.FiledStep | src/serialization/about.rs:108-118 | a filing event adds the dependency described by the events since the previous filing; other events add nothing |
| About.DependenciesAre | src/serialization/about.rs:26-40 | after any number of events, the dependency being read holds, per field, the last text read for it since the last filing, and the filed dependencies are those of every `li` closed under `modDependencies` |
| About.PathDepth | src/serialization/about.rs:28-120 | the path depth is the number of open tags, and a start tag pushes its name |
| ModMeta.DependencyIds | src/mods/sorting.rs:108-112 | exactly the package ids of the hard dependencies, those without one skipped |
| ModMeta.TakeUntilBlocked | src/mods/mod_meta_data.rs:83-97 | the longest prefix of the official ids with none blocked |
| ModMeta.ImplicitCases | src/mods/mod_meta_data.rs:79-98 | official mods get nothing; otherwise core, royalty, ideology and biotech are added in that order, stopping at the first blocked one |
| ModMeta.AddImplicitLoadAfter | src/mods/mod_meta_data.rs:63-98 | `loadAfter` becomes present, holding the old entries and the implicit ones; the path is set and nothing else changes |
| ModMeta.ImplicitInOrder | src/mods/mod_meta_data.rs:83-97 | a later official id is added only with every earlier one; a blocked core adds nothing |
| MetaRead.Read | src/mods/mod_meta_data.rs:57-100 | a reader error is returned; otherwise the parsed metadata with its path set and the implicit `loadAfter` entries added |
| ModLists.Collect | src/mods/mod_list.rs:14-16 | every entry is stored under its own package id, and every key comes from some entry |
| ModLists.FromMetadata | src/mods/mod_list.rs:11-19 | the order starts empty |
| ModLists.LastWins | src/mods/mod_list.rs:14-16 | among entries sharing a package id the last one is kept |
| Ini.Classify | src/serialization/ini.rs:55-80 | a line is ignored exactly when skipped, a header exactly when not skipped and its trimmed text starts with `[`; a header has a name exactly when it is closed |
| Ini.HeaderHasOpen | src/serialization/ini.rs:63-64 | a header line contains `[` |
| Ini.SectionNameMeaning | src/serialization/ini.rs:64-66 | the section is the text between the first `[` and the next `]` |
| Ini.KeyValueMeaning | src/serialization/ini.rs:71-80 | a key and value exist exactly when the line has `=`; the key is the trimmed text before the first `=`, the value the trimmed rest, which may hold `=` |
| Ini.NextFrom | src/serialization/ini.rs:54-85 | the scan stops right after the first entry line, emitting it with the section of the headers before it, or consumes everything and gives nothing |
| Ini.NextOver | src/serialization/ini.rs:53-86 | one call: the first entry line yields its pair or error with the current section; with no entry line all input is consumed and nothing is returned |
| Ini.PairCarriesSection | src/serialization/ini.rs:78 | an emitted pair carries the section in force, which is the previous one when no header was read |
| Ini.NoHeaderKeepsSection | src/serialization/ini.rs:62-67 | lines without headers leave the section unchanged |
| Ini.IniReader.Next | src/serialization/ini.rs:53-86 | the returned item, the new section and the lines left are those of one scan |
| Ini.EmptyTextEnds | tests/ini.rs:4-9 | empty input yields nothing |
| Ini.ClassifyPair | tests/ini.rs:11-22 | the line `a = b` is the entry with key `a` and value `b` |
| Ini.FirstLineYields | src/serialization/ini.rs:78-82 | a first entry line is returned at once with the current section |
| Strings.Lower | src/mods/validation.rs:47 | lower-cases position by position |
| Strings.LowerIdempotent | src/mods/validation.rs:47 | lower-casing twice is lower-casing once |
| Strings.TrimStart | src/serialization/ini.rs:63 | a suffix of the input, only whitespace removed, starting with non-whitespace |
| Strings.TrimEnd | src/serialization/ini.rs:63 | a prefix of the input, only whitespace removed, ending with non-whitespace |
| Strings.Trim | src/serialization/ini.rs:79-80 | empty or starts and ends with non-whitespace |
| Strings.TrimIsSlice | src/serialization/ini.rs:79-80 | what trimming keeps is one contiguous slice of the line |
| Strings.TrimDropsWhitespace | src/serialization/ini.rs:79-80 | trimming removes whitespace only, and from the two ends only |
| Strings.TrimEmptyIffAllWhitespace | src/serialization/ini.rs:57 | a line trims to nothing exactly when it is all whitespace |
| Strings.Utf8LenBounds | src/serialization/ini.rs:56 | the byte length is between one and four bytes per character |
| Strings.Find | src/serialization/ini.rs:64-65 | the first index of the character, none exactly when absent |
| Strings.Split | src/serialization/ini.rs:71 | at least one part, none holding the separator |
| Strings.JoinSplit | src/serialization/ini.rs:71-80 | joining the parts with the separator gives back the line |
| Strings.SplitSingleIffAbsent | src/serialization/ini.rs:74 | a single part exactly when the separator is absent |
| Strings.SplitTailJoin | src/serialization/ini.rs:79-80 | the first part is the text before the first separator, the rest joined is the text after it |

## Left out

- File and environment I/O: `fs::read` in `ModMetaData::read` and `ModsConfig::try_from(&Path)`, opening the INI file, `get_config_ini_path`. Their `IOError`/`VarError` results are not modelled.
- `read_line` is not part of this model; the INI reader takes its input as a sequence of lines.
- XML tokenising (xml-rs) is replaced by a sequence of reader events; a malformed document is a `Malformed` event. BOM stripping before the reader is modelled separately (`Helpers.StripBom`).
- Xml.TextEvents: only markup-free text is modelled as read back verbatim; for text holding `<`, `&` or a carriage return the reader's further tags, entity decoding and line-end normalisation are not modelled.
- ModsConfigs.RoundTrip: holds for markup-free texts only; the writer (`fold_lis`, `src/helpers/mod.rs:25`, and the version line) does not escape, so an item holding markup does not read back as itself.
- `Strings.Lower`: ASCII letters only, where Rust's `to_lowercase` also maps other Unicode letters.
- Validation.Validate: states the multisets of warnings and errors and that every incompatibility error comes after every dependency error, not that the messages of the i-th id come before those of the next one, as the forward loop at `src/mods/validation.rs:57-87` emits them.
- Hash iteration order: the order in which `visit` walks predecessors, and the order of messages within one validator step. The model picks an unspecified order, and the contracts speak of multisets and of ordering constraints rather than exact tie-breaks.
- `ByVersion` metadata fields, the UI, logging, threads and the `ArcMutex` form of `VecMutAccessor`.
- `TryReserveError`: `Push` is infallible in the model.
- Rust closures are pure functions: `ForEachMut` takes `T -> T` and predicates are `T -> bool`.
- `ModsConfigs.Parse`: text outside a section panics in the source; the model returns an `UnexpectedCharacters` error instead.
- `Helpers.StripBom`: requires at least three bytes, where the source panics.
- `Ini.IniReader.Next`: requires that every unclosed header (`[` with no later `]`) follows an entry line in the input, since the source panics on reaching one.

## Findings

| source | as written | input that shows it | evidently intended | confidence | as-written member | corrected member |
|---|---|---|---|---|---|---|
| src/helpers/traits.rs:87, src/helpers/vec_mut_accessor.rs:93 | `if i > self.len() - 2` subtracts in `usize` | a list of one element, `move_down(0)` (the subtraction underflows and panics in debug builds) | the documented `IndexOutOfBounds` for every position with no element behind it | not executed | Vectors.MoveDownUnderflows | Vectors.MoveDownResult |
| src/helpers/vec_mut_accessor.rs:103-111 | `move_up_n` checks `i + n >= len` and calls `move_down` | `[0, 1, 2]`, `move_up_n(1, 1)` gives `[0, 2, 1]`; `move_up_n(2, 1)` is refused | the list's own `move_up_n`: `[1, 0, 2]`, and `[0, 2, 1]` | not executed | Accessors.MoveUpNMovesDown | Accessors.VecMutAccessor.MoveUpNFixed |
