/**
 * `parse_about`: builds a mod's metadata from the events of its `About.xml`.
 * The reader's events are folded into a `ParseState` (the metadata being
 * built, the path of open tags and the `ParsingMem` collections); the
 * collections are committed to the metadata at the end.
 *
 * `add_data_to_mmd`, `end_element` and `commit_to_mmd` take their
 * arguments by `&mut`; here each takes the old values and returns the new
 * ones. `parse_about` itself is the loop `ParseAbout`, proved equal to the
 * fold `Run`; what the fold builds is described field by field by the lemma
 * `AboutFields`.
 */
module About {
  import opened Common
  import opened ModMeta
  import opened Xml

  /** The root tag of an `About.xml` file. */
  const Root: string := "ModMetaData"

  /** The collections gathered while parsing, committed at the end. */
  datatype ParsingMem = ParsingMem(
    loadAfter: set<string>,
    forceLoadAfter: set<string>,
    loadBefore: set<string>,
    forceLoadBefore: set<string>,
    supportedVersions: set<string>,
    authors: seq<string>,
    incompatibleWith: set<string>,
    currDependency: Dependency,
    modDependencies: set<Dependency>)

  /** `ParsingMem::default()`. */
  const EmptyMem: ParsingMem := ParsingMem({}, {}, {}, {}, {}, [], {}, NoDependency, {})

  /** `xml_path.get(i)`. */
  function At(path: seq<string>, i: nat): Option<string> {
    if i < |path| then Some(path[i]) else None
  }

  /** The open tags are `<ModMetaData><tag>...`. */
  predicate Under(path: seq<string>, tag: string) {
    At(path, 0) == Some(Root) && At(path, 1) == Some(tag)
  }

  /** The text fields of one dependency, chosen by the tag at depth 3. */
  function SetDependencyField(d: Dependency, tag: Option<string>, text: string): (r: Dependency)
    ensures tag == Some("packageId") ==> r == d.(packageId := Some(text))
    ensures tag == Some("displayName") ==> r == d.(displayName := Some(text))
    ensures tag == Some("steamWorkshopUrl") ==> r == d.(steamWorkshopUrl := Some(text))
    ensures tag == Some("downloadUrl") ==> r == d.(downloadUrl := Some(text))
    ensures tag !in {Some("packageId"), Some("displayName"), Some("steamWorkshopUrl"), Some("downloadUrl")} ==> r == d
  {
    if tag == Some("packageId") then d.(packageId := Some(text))
    else if tag == Some("displayName") then d.(displayName := Some(text))
    else if tag == Some("steamWorkshopUrl") then d.(steamWorkshopUrl := Some(text))
    else if tag == Some("downloadUrl") then d.(downloadUrl := Some(text))
    else d
  }

  /**
   * `add_data_to_mmd`: text outside `<ModMetaData>` is ignored; text changes
   * at most one of the five text fields of the metadata, and never completes
   * a dependency.
   */
  function AddData(mmd: ModMetaData, path: seq<string>, text: string, mem: ParsingMem): (r: (ModMetaData, ParsingMem))
    ensures At(path, 0) != Some(Root) ==> r == (mmd, mem)
    ensures r.0.(name := mmd.name, description := mmd.description, packageId := mmd.packageId,
                 author := mmd.author, url := mmd.url) == mmd
    ensures r.1.modDependencies == mem.modDependencies
    ensures Under(path, "modDependencies") ==>
              r == (mmd, mem.(currDependency := SetDependencyField(mem.currDependency, At(path, 3), text)))
    ensures !Under(path, "modDependencies") ==> r.1.currDependency == mem.currDependency
  {
    if At(path, 0) != Some(Root) then (mmd, mem)
    else
      var tag := At(path, 1);
      if tag == Some("name") then (mmd.(name := Some(text)), mem)
      else if tag == Some("description") then (mmd.(description := Some(text)), mem)
      else if tag == Some("packageId") then (mmd.(packageId := Some(text)), mem)
      else if tag == Some("author") then (mmd.(author := Some(text)), mem)
      else if tag == Some("url") then (mmd.(url := Some(text)), mem)
      else if tag == Some("loadAfter") then (mmd, mem.(loadAfter := mem.loadAfter + {text}))
      else if tag == Some("forceLoadAfter") then (mmd, mem.(forceLoadAfter := mem.forceLoadAfter + {text}))
      else if tag == Some("loadBefore") then (mmd, mem.(loadBefore := mem.loadBefore + {text}))
      else if tag == Some("forceLoadBefore") then (mmd, mem.(forceLoadBefore := mem.forceLoadBefore + {text}))
      else if tag == Some("supportedVersions") then (mmd, mem.(supportedVersions := mem.supportedVersions + {text}))
      else if tag == Some("authors") then (mmd, mem.(authors := mem.authors + [text]))
      else if tag == Some("incompatibleWith") then (mmd, mem.(incompatibleWith := mem.incompatibleWith + {text}))
      else if tag == Some("modDependencies") then
        (mmd, mem.(currDependency := SetDependencyField(mem.currDependency, At(path, 3), text)))
      else (mmd, mem)
  }

  /**
   * `end_element`: closing an `<li>` inside `<modDependencies>` files the
   * dependency being read and starts a fresh, all-`None` one; every closing
   * tag pops the path, and an empty path stays empty.
   */
  function EndElement(path: seq<string>, name: string, mem: ParsingMem): (r: (seq<string>, ParsingMem))
    ensures path != [] ==> r.0 == path[..|path| - 1]
    ensures path == [] ==> r.0 == []
    ensures At(path, 1) == Some("modDependencies") && name == "li" ==>
              r.1 == mem.(modDependencies := mem.modDependencies + {mem.currDependency},
                          currDependency := NoDependency)
    ensures !(At(path, 1) == Some("modDependencies") && name == "li") ==> r.1 == mem
  {
    var mem' :=
      if At(path, 1) == Some("modDependencies") && name == "li" then
        mem.(modDependencies := mem.modDependencies + {mem.currDependency}, currDependency := NoDependency)
      else mem;
    (if path == [] then [] else path[..|path| - 1], mem')
  }

  /** The list behind an `Option`, `None` for an empty one. */
  function NonEmpty<T>(s: set<T>, prev: Option<set<T>>): Option<set<T>> {
    if s == {} then prev else Some(s)
  }

  /**
   * `commit_to_mmd`: each collection replaces its field only when it is
   * non-empty; the text fields are kept.
   */
  function Commit(mem: ParsingMem, mmd: ModMetaData): (r: ModMetaData)
    ensures mem.loadAfter != {} ==> r.loadAfter == Some(mem.loadAfter)
    ensures mem.loadAfter == {} ==> r.loadAfter == mmd.loadAfter
    ensures mem.forceLoadAfter != {} ==> r.forceLoadAfter == Some(mem.forceLoadAfter)
    ensures mem.forceLoadAfter == {} ==> r.forceLoadAfter == mmd.forceLoadAfter
    ensures mem.loadBefore != {} ==> r.loadBefore == Some(mem.loadBefore)
    ensures mem.loadBefore == {} ==> r.loadBefore == mmd.loadBefore
    ensures mem.forceLoadBefore != {} ==> r.forceLoadBefore == Some(mem.forceLoadBefore)
    ensures mem.forceLoadBefore == {} ==> r.forceLoadBefore == mmd.forceLoadBefore
    ensures mem.supportedVersions != {} ==> r.supportedVersions == Some(mem.supportedVersions)
    ensures mem.supportedVersions == {} ==> r.supportedVersions == mmd.supportedVersions
    ensures mem.incompatibleWith != {} ==> r.incompatibleWith == Some(mem.incompatibleWith)
    ensures mem.incompatibleWith == {} ==> r.incompatibleWith == mmd.incompatibleWith
    ensures mem.authors != [] ==> r.authors == Some(mem.authors)
    ensures mem.authors == [] ==> r.authors == mmd.authors
    ensures mem.modDependencies != {} ==> r.modDependencies == Some(mem.modDependencies)
    ensures mem.modDependencies == {} ==> r.modDependencies == mmd.modDependencies
    ensures (r.name, r.description, r.packageId, r.author, r.url, r.path)
         == (mmd.name, mmd.description, mmd.packageId, mmd.author, mmd.url, mmd.path)
  {
    mmd.(
      loadAfter := NonEmpty(mem.loadAfter, mmd.loadAfter),
      forceLoadAfter := NonEmpty(mem.forceLoadAfter, mmd.forceLoadAfter),
      loadBefore := NonEmpty(mem.loadBefore, mmd.loadBefore),
      forceLoadBefore := NonEmpty(mem.forceLoadBefore, mmd.forceLoadBefore),
      supportedVersions := NonEmpty(mem.supportedVersions, mmd.supportedVersions),
      authors := if mem.authors == [] then mmd.authors else Some(mem.authors),
      incompatibleWith := NonEmpty(mem.incompatibleWith, mmd.incompatibleWith),
      modDependencies := NonEmpty(mem.modDependencies, mmd.modDependencies))
  }

  // ---------------------------------------------------------------------------
  // The event loop
  // ---------------------------------------------------------------------------

  datatype ParseState = ParseState(mmd: ModMetaData, path: seq<string>, mem: ParsingMem)

  const Start: ParseState := ParseState(EmptyMeta, [], EmptyMem)

  /** One turn of the loop of `parse_about`, for an event that does not end it. */
  function Step(st: ParseState, e: XmlEvent): ParseState {
    match e
    case StartElement(name) => st.(path := st.path + [name])
    case EndElement(name) =>
      var (path', mem') := EndElement(st.path, name, st.mem);
      st.(path := path', mem := mem')
    case Characters(text) =>
      var (mmd', mem') := AddData(st.mmd, st.path, text, st.mem);
      st.(mmd := mmd', mem := mem')
    case _ => st
  }

  /** The state after the first `n` events. */
  function Run(es: seq<XmlEvent>, n: nat): ParseState
    requires n <= |es|
  {
    if n == 0 then Start else Step(Run(es, n - 1), es[n - 1])
  }

  /** Events that end the loop: the end of the document, or a reader error. */
  predicate Stops(e: XmlEvent) { e.EndDocument? || e.Malformed? }

  /** The index of the first event that ends the loop, `|es|` if none does. */
  function StopIndex(es: seq<XmlEvent>): (k: nat)
    ensures k <= |es|
    ensures forall j :: 0 <= j < k ==> !Stops(es[j])
    ensures k < |es| ==> Stops(es[k])
  {
    if es == [] then 0
    else if Stops(es[0]) then 0
    else 1 + StopIndex(es[1..])
  }

  /** What `parse_about` returns for the events `es`. */
  function AboutOf(es: seq<XmlEvent>): ModMetaData {
    var st := Run(es, StopIndex(es));
    Commit(st.mem, st.mmd)
  }

  /**
   * `parse_about` over the reader's events: a reader error before the end of
   * the document is returned as an error; otherwise the metadata is the
   * committed fold of the events before the end of the document.
   */
  method ParseAbout(es: seq<XmlEvent>) returns (r: Result<ModMetaData, XmlError>)
    ensures StopIndex(es) < |es| && es[StopIndex(es)].Malformed? ==> r == Err(ReaderError)
    ensures !(StopIndex(es) < |es| && es[StopIndex(es)].Malformed?) ==> r == Ok(AboutOf(es))
  {
    var mmd := EmptyMeta;
    var path: seq<string> := [];
    var mem := EmptyMem;
    var k := 0;
    while k < |es|
      invariant k <= StopIndex(es)
      invariant ParseState(mmd, path, mem) == Run(es, k)
    {
      match es[k] {
        case StartElement(name) =>
          path := path + [name];
        case EndElement(name) =>
          var ended := EndElement(path, name, mem);
          path, mem := ended.0, ended.1;
        case Characters(text) =>
          var added := AddData(mmd, path, text, mem);
          mmd, mem := added.0, added.1;
        case EndDocument =>
          break;
        case Malformed =>
          return Err(ReaderError);
        case _ =>
      }
      k := k + 1;
    }
    return Ok(Commit(mem, mmd));
  }

  // ---------------------------------------------------------------------------
  // What the fold builds
  // ---------------------------------------------------------------------------

  /** The texts read directly under `<ModMetaData><tag>` among the first `n` events, in order. */
  function Texts(es: seq<XmlEvent>, n: nat, tag: string): seq<string>
    requires n <= |es|
  {
    if n == 0 then []
    else
      var e := es[n - 1];
      Texts(es, n - 1, tag) + (if e.Characters? && Under(Run(es, n - 1).path, tag) then [e.text] else [])
  }

  function LastOf(s: seq<string>): Option<string> {
    if s == [] then None else Some(s[|s| - 1])
  }

  function Members(s: seq<string>): set<string> {
    set x | x in s
  }

  lemma MembersAppend(s: seq<string>, t: seq<string>)
    ensures Members(s + t) == Members(s) + Members(t)
  {
  }

  /** The tags whose text is a field of its own. */
  const TextTags: set<string> := {"name", "description", "packageId", "author", "url"}

  /** The tags whose texts are collected into a set. */
  const SetTags: set<string> := {"loadAfter", "forceLoadAfter", "loadBefore", "forceLoadBefore", "supportedVersions", "incompatibleWith"}

  /** The metadata field named by one of `TextTags`. */
  function TextField(m: ModMetaData, tag: string): Option<string>
    requires tag in TextTags
  {
    if tag == "name" then m.name
    else if tag == "description" then m.description
    else if tag == "packageId" then m.packageId
    else if tag == "author" then m.author
    else m.url
  }

  /** The collection named by one of `SetTags`. */
  function SetField(mem: ParsingMem, tag: string): set<string>
    requires tag in SetTags
  {
    if tag == "loadAfter" then mem.loadAfter
    else if tag == "forceLoadAfter" then mem.forceLoadAfter
    else if tag == "loadBefore" then mem.loadBefore
    else if tag == "forceLoadBefore" then mem.forceLoadBefore
    else if tag == "supportedVersions" then mem.supportedVersions
    else mem.incompatibleWith
  }

  /** Text sets the field of its tag and no other. */
  lemma AddDataText(mmd: ModMetaData, path: seq<string>, text: string, mem: ParsingMem, tag: string)
    requires tag in TextTags
    ensures TextField(AddData(mmd, path, text, mem).0, tag) == if Under(path, tag) then Some(text) else TextField(mmd, tag)
  {
  }

  /** Text joins the collection of its tag and no other. */
  lemma AddDataSet(mmd: ModMetaData, path: seq<string>, text: string, mem: ParsingMem, tag: string)
    requires tag in SetTags
    ensures SetField(AddData(mmd, path, text, mem).1, tag) == SetField(mem, tag) + if Under(path, tag) then {text} else {}
    ensures AddData(mmd, path, text, mem).1.authors == mem.authors + if Under(path, "authors") then [text] else []
  {
  }

  /** One step of the fold, seen from a text field. */
  lemma StepText(st: ParseState, e: XmlEvent, tag: string)
    requires tag in TextTags
    ensures TextField(Step(st, e).mmd, tag)
         == if e.Characters? && Under(st.path, tag) then Some(e.text) else TextField(st.mmd, tag)
  {
    if e.Characters? {
      AddDataText(st.mmd, st.path, e.text, st.mem, tag);
    }
  }

  /** One step of the fold, seen from a collection. */
  lemma StepSet(st: ParseState, e: XmlEvent, tag: string)
    requires tag in SetTags
    ensures SetField(Step(st, e).mem, tag)
         == SetField(st.mem, tag) + if e.Characters? && Under(st.path, tag) then {e.text} else {}
    ensures Step(st, e).mem.authors
         == st.mem.authors + if e.Characters? && Under(st.path, "authors") then [e.text] else []
  {
    if e.Characters? {
      AddDataSet(st.mmd, st.path, e.text, st.mem, tag);
    }
  }

  /** Each text field holds the last text read under its tag, `None` if there was none. */
  lemma {:induction false} TextFieldIsLast(es: seq<XmlEvent>, n: nat, tag: string)
    requires n <= |es| && tag in TextTags
    ensures TextField(Run(es, n).mmd, tag) == LastOf(Texts(es, n, tag))
  {
    if n > 0 {
      TextFieldIsLast(es, n - 1, tag);
      StepText(Run(es, n - 1), es[n - 1], tag);
    }
  }

  /** Each set collects every text read under its tag. */
  lemma {:induction false} SetFieldIsTexts(es: seq<XmlEvent>, n: nat, tag: string)
    requires n <= |es| && tag in SetTags
    ensures SetField(Run(es, n).mem, tag) == Members(Texts(es, n, tag))
    ensures Run(es, n).mem.authors == Texts(es, n, "authors")
  {
    if n > 0 {
      SetFieldIsTexts(es, n - 1, tag);
      var e := es[n - 1];
      StepSet(Run(es, n - 1), e, tag);
      MembersAppend(Texts(es, n - 1, tag), if e.Characters? && Under(Run(es, n - 1).path, tag) then [e.text] else []);
    }
  }

  /** The fold sets no field of the metadata but the five text fields. */
  lemma {:induction false} OnlyTextFields(es: seq<XmlEvent>, n: nat)
    requires n <= |es|
    ensures Run(es, n).mmd.(name := None, description := None, packageId := None, author := None, url := None)
         == EmptyMeta
  {
    if n > 0 {
      OnlyTextFields(es, n - 1);
    }
  }

  /** Event `k` closes an `<li>` whose path has `modDependencies` at depth 1: it files a dependency. */
  predicate Files(es: seq<XmlEvent>, k: nat)
    requires k < |es|
  {
    es[k].EndElement? && es[k].name == "li" && At(Run(es, k).path, 1) == Some("modDependencies")
  }

  /** Where the dependency being read after `n` events began: just after the last filing event. */
  function DependencyStart(es: seq<XmlEvent>, n: nat): (lo: nat)
    requires n <= |es|
    ensures lo <= n
    ensures forall k :: lo <= k < n ==> !Files(es, k)
  {
    if n == 0 then 0 else if Files(es, n - 1) then n else DependencyStart(es, n - 1)
  }

  /**
   * The texts read among events `lo` to `hi` under `<ModMetaData><modDependencies>`
   * with `tag` at depth 3, in order.
   */
  function DependencyTexts(es: seq<XmlEvent>, lo: nat, hi: nat, tag: string): seq<string>
    requires lo <= hi <= |es|
    decreases hi - lo
  {
    if hi == lo then []
    else
      var e := es[hi - 1];
      var path := Run(es, hi - 1).path;
      DependencyTexts(es, lo, hi - 1, tag)
        + (if e.Characters? && Under(path, "modDependencies") && At(path, 3) == Some(tag) then [e.text] else [])
  }

  /** The dependency described by events `lo` to `hi`: each field holds the last text read for it. */
  function DependencyOf(es: seq<XmlEvent>, lo: nat, hi: nat): Dependency
    requires lo <= hi <= |es|
  {
    Dependency(
      LastOf(DependencyTexts(es, lo, hi, "packageId")),
      LastOf(DependencyTexts(es, lo, hi, "displayName")),
      LastOf(DependencyTexts(es, lo, hi, "downloadUrl")),
      LastOf(DependencyTexts(es, lo, hi, "steamWorkshopUrl")))
  }

  /**
   * The dependencies filed among the first `n` events: one per filing event,
   * described by the events since the previous one.
   */
  function Filed(es: seq<XmlEvent>, n: nat): set<Dependency>
    requires n <= |es|
  {
    set k | 0 <= k < n && Files(es, k) :: DependencyOf(es, DependencyStart(es, k), k)
  }

  lemma FiledStep(es: seq<XmlEvent>, n: nat)
    requires n < |es|
    ensures Filed(es, n + 1)
         == Filed(es, n) + if Files(es, n) then {DependencyOf(es, DependencyStart(es, n), n)} else {}
  {
  }

  /** One step of the fold, seen from the dependency being read and the filed ones. */
  lemma StepDependency(st: ParseState, e: XmlEvent)
    ensures var closes := e.EndElement? && e.name == "li" && At(st.path, 1) == Some("modDependencies");
      && Step(st, e).mem.modDependencies == st.mem.modDependencies + (if closes then {st.mem.currDependency} else {})
      && Step(st, e).mem.currDependency
         == if closes then NoDependency
            else if e.Characters? && Under(st.path, "modDependencies") then
              SetDependencyField(st.mem.currDependency, At(st.path, 3), e.text)
            else st.mem.currDependency
  {
  }

  /** One more event is the last text of a dependency field exactly when it is text under that field. */
  lemma LastDependencyText(es: seq<XmlEvent>, lo: nat, n: nat, tag: string)
    requires lo < n <= |es|
    ensures var e := es[n - 1];
      var path := Run(es, n - 1).path;
      LastOf(DependencyTexts(es, lo, n, tag))
      == if e.Characters? && Under(path, "modDependencies") && At(path, 3) == Some(tag) then Some(e.text)
         else LastOf(DependencyTexts(es, lo, n - 1, tag))
  {
    var before := DependencyTexts(es, lo, n - 1, tag);
    assert before + [] == before;
  }

  /** One more event adds its text to the field named at depth 3, if it is text of a dependency. */
  lemma DependencyOfStep(es: seq<XmlEvent>, lo: nat, n: nat)
    requires lo < n <= |es|
    ensures var e := es[n - 1];
      var path := Run(es, n - 1).path;
      DependencyOf(es, lo, n)
      == if e.Characters? && Under(path, "modDependencies") then
           SetDependencyField(DependencyOf(es, lo, n - 1), At(path, 3), e.text)
         else DependencyOf(es, lo, n - 1)
  {
    LastDependencyText(es, lo, n, "packageId");
    LastDependencyText(es, lo, n, "displayName");
    LastDependencyText(es, lo, n, "downloadUrl");
    LastDependencyText(es, lo, n, "steamWorkshopUrl");
  }

  /**
   * The fold's dependency memory: the dependency being read is described by
   * the events since the last filing, and the filed ones are `Filed`.
   */
  lemma {:induction false} DependenciesAre(es: seq<XmlEvent>, n: nat)
    requires n <= |es|
    ensures Run(es, n).mem.currDependency == DependencyOf(es, DependencyStart(es, n), n)
    ensures Run(es, n).mem.modDependencies == Filed(es, n)
  {
    if n > 0 {
      DependenciesAre(es, n - 1);
      FiledStep(es, n - 1);
      StepDependency(Run(es, n - 1), es[n - 1]);
      if !Files(es, n - 1) {
        DependencyOfStep(es, DependencyStart(es, n - 1), n);
      }
    }
  }

  /** The collection behind a list field: `None` when nothing was read. */
  function Collected(texts: seq<string>): Option<set<string>> {
    if texts == [] then None else Some(Members(texts))
  }

  /** Neither a list field nor the dependencies of parsed metadata is ever `Some` of an empty collection. */
  predicate NoEmptyLists(m: ModMetaData) {
    && m.authors != Some([])
    && m.supportedVersions != Some({})
    && m.modDependencies != Some({})
    && m.loadAfter != Some({})
    && m.forceLoadAfter != Some({})
    && m.loadBefore != Some({})
    && m.forceLoadBefore != Some({})
    && m.incompatibleWith != Some({})
  }

  /**
   * The metadata `parse_about` returns, field by field, in terms of the
   * texts read under each tag before the end of the document.
   */
  lemma AboutFields(es: seq<XmlEvent>)
    ensures var n := StopIndex(es);
      && AboutOf(es).name == LastOf(Texts(es, n, "name"))
      && AboutOf(es).description == LastOf(Texts(es, n, "description"))
      && AboutOf(es).packageId == LastOf(Texts(es, n, "packageId"))
      && AboutOf(es).author == LastOf(Texts(es, n, "author"))
      && AboutOf(es).url == LastOf(Texts(es, n, "url"))
      && AboutOf(es).loadAfter == Collected(Texts(es, n, "loadAfter"))
      && AboutOf(es).forceLoadAfter == Collected(Texts(es, n, "forceLoadAfter"))
      && AboutOf(es).loadBefore == Collected(Texts(es, n, "loadBefore"))
      && AboutOf(es).forceLoadBefore == Collected(Texts(es, n, "forceLoadBefore"))
      && AboutOf(es).supportedVersions == Collected(Texts(es, n, "supportedVersions"))
      && AboutOf(es).incompatibleWith == Collected(Texts(es, n, "incompatibleWith"))
      && AboutOf(es).authors == (if Texts(es, n, "authors") == [] then None else Some(Texts(es, n, "authors")))
      && AboutOf(es).path == None
    ensures var filed := Filed(es, StopIndex(es));
      AboutOf(es).modDependencies == if filed == {} then None else Some(filed)
    ensures NoEmptyLists(AboutOf(es))
  {
    var n := StopIndex(es);
    OnlyTextFields(es, n);
    DependenciesAre(es, n);
    forall tag | tag in TextTags ensures TextField(Run(es, n).mmd, tag) == LastOf(Texts(es, n, tag)) {
      TextFieldIsLast(es, n, tag);
    }
    forall tag | tag in SetTags ensures SetField(Run(es, n).mem, tag) == Members(Texts(es, n, tag)) {
      SetFieldIsTexts(es, n, tag);
    }
    SetFieldIsTexts(es, n, "loadAfter");
    forall texts: seq<string> ensures texts == [] <==> Members(texts) == {} {
      if texts != [] {
        assert texts[0] in Members(texts);
      }
    }
  }

  /** Start tags minus end tags among the first `n` events. */
  function Opened(es: seq<XmlEvent>, n: nat): int
    requires n <= |es|
  {
    if n == 0 then 0
    else Opened(es, n - 1) + (if es[n - 1].StartElement? then 1 else if es[n - 1].EndElement? then -1 else 0)
  }

  /**
   * The path tracks the nesting: as long as no end tag closes more than was
   * opened, its depth is the number of open tags and its last entry is the
   * innermost open tag.
   */
  lemma {:induction false} PathDepth(es: seq<XmlEvent>, n: nat)
    requires n <= |es|
    requires forall k :: 0 <= k <= n ==> Opened(es, k) >= 0
    ensures |Run(es, n).path| == Opened(es, n)
    ensures n > 0 && es[n - 1].StartElement? ==> Run(es, n).path == Run(es, n - 1).path + [es[n - 1].name]
  {
    if n > 0 {
      PathDepth(es, n - 1);
    }
  }
}
