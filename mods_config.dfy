/**
 * `ModsConfig.xml`: the game version, the active mods in load order and the
 * known expansions. The parser tracks which of the three elements it is in
 * and files each text under it; the serialiser writes the fixed layout of
 * the game's own file.
 */
module ModsConfigs {
  import opened Common
  import opened Xml
  import Helpers

  datatype ModsConfig = ModsConfig(
    version: Option<string>,
    activeMods: seq<string>,
    knownExpansions: seq<string>)

  /** `ModsConfig::default()`. */
  const EmptyConfig: ModsConfig := ModsConfig(None, [], [])

  datatype Section = Version | ActiveMods | KnownExpansions

  /**
   * Why parsing stops: the reader failed, or text came outside the three
   * elements (the source panics there through `expect`).
   */
  datatype ParseError = Reader(XmlError) | UnexpectedCharacters

  /** The section an element name opens, if it is one of the three. */
  function SectionOf(name: string): (s: Option<Section>)
    ensures s == Some(Version) <==> name == "version"
    ensures s == Some(ActiveMods) <==> name == "activeMods"
    ensures s == Some(KnownExpansions) <==> name == "knownExpansions"
  {
    if name == "version" then Some(Version)
    else if name == "activeMods" then Some(ActiveMods)
    else if name == "knownExpansions" then Some(KnownExpansions)
    else None
  }

  /** The parser's state: what has been read and the section it is in. */
  datatype Parsing = Parsing(config: ModsConfig, section: Option<Section>)

  const Start: Parsing := Parsing(EmptyConfig, None)

  /** Files the text `t` under section `s`: the version is replaced, the lists grow. */
  function File(c: ModsConfig, s: Section, t: string): ModsConfig {
    match s
    case Version => c.(version := Some(t))
    case ActiveMods => c.(activeMods := c.activeMods + [t])
    case KnownExpansions => c.(knownExpansions := c.knownExpansions + [t])
  }

  /** One turn of the parser's loop. */
  function Step(st: Parsing, e: XmlEvent): Result<Parsing, ParseError> {
    match e
    case Malformed => Err(Reader(ReaderError))
    case StartElement(n) =>
      Ok(if SectionOf(n).Some? then st.(section := SectionOf(n)) else st)
    case EndElement(n) =>
      Ok(if SectionOf(n).Some? then st.(section := None) else st)
    case Characters(t) =>
      if st.section.None? then Err(UnexpectedCharacters)
      else Ok(st.(config := File(st.config, st.section.value, t)))
    case _ => Ok(st)
  }

  /** The loop run over `es` from `r`; the first failure ends it. */
  function RunFrom(r: Result<Parsing, ParseError>, es: seq<XmlEvent>): Result<Parsing, ParseError>
    decreases |es|
  {
    if r.Err? || es == [] then r else RunFrom(Step(r.value, es[0]), es[1..])
  }

  /** What parsing the events `es` gives. */
  function ParseEvents(es: seq<XmlEvent>): Result<ModsConfig, ParseError> {
    var r := RunFrom(Ok(Start), es);
    if r.Err? then Err(r.error) else Ok(r.value.config)
  }

  /**
   * `ModsConfig::try_from(&[u8])`, on the events the reader reports for the bytes. The
   * reader's iterator yields nothing after `EndDocument` or after its first error, so `es`
   * never continues past either.
   */
  method Parse(es: seq<XmlEvent>) returns (r: Result<ModsConfig, ParseError>)
    ensures r == ParseEvents(es)
  {
    var config := EmptyConfig;
    var section: Option<Section> := None;
    var k := 0;
    while k < |es|
      invariant k <= |es|
      invariant RunFrom(Ok(Parsing(config, section)), es[k..]) == RunFrom(Ok(Start), es)
    {
      assert es[k..][1..] == es[k + 1..];
      match es[k] {
        case Malformed =>
          return Err(Reader(ReaderError));
        case StartElement(n) =>
          if n == "version" {
            section := Some(Version);
          } else if n == "activeMods" {
            section := Some(ActiveMods);
          } else if n == "knownExpansions" {
            section := Some(KnownExpansions);
          }
        case EndElement(n) =>
          if n == "version" || n == "activeMods" || n == "knownExpansions" {
            section := None;
          }
        case Characters(t) =>
          if section.None? {
            return Err(UnexpectedCharacters);
          }
          match section.value {
            case Version => config := config.(version := Some(t));
            case ActiveMods => config := config.(activeMods := config.activeMods + [t]);
            case KnownExpansions => config := config.(knownExpansions := config.knownExpansions + [t]);
          }
        case _ =>
      }
      k := k + 1;
    }
    return Ok(config);
  }

  // ---------------------------------------------------------------------------
  // Properties of the parser
  // ---------------------------------------------------------------------------

  /** Running over two stretches of events is running over their concatenation. */
  lemma {:induction false} RunFromAppend(r: Result<Parsing, ParseError>, a: seq<XmlEvent>, b: seq<XmlEvent>)
    ensures RunFrom(r, a + b) == RunFrom(RunFrom(r, a), b)
    decreases |a|
  {
    if r.Err? {
      assert RunFrom(r, a + b) == r;
      RunFromErr(r, b);
    } else if a == [] {
      assert a + b == b;
    } else {
      assert (a + b)[1..] == a[1..] + b;
      RunFromAppend(Step(r.value, a[0]), a[1..], b);
    }
  }

  lemma RunFromErr(r: Result<Parsing, ParseError>, es: seq<XmlEvent>)
    requires r.Err?
    ensures RunFrom(r, es) == r
  {
  }

  /**
   * One more event, as the loop handles it: a section element opens or
   * closes its section, other elements change nothing, text goes to the open
   * section and fails with none open, a reader failure fails, and a failure
   * is final.
   */
  lemma ParseSnoc(es: seq<XmlEvent>, e: XmlEvent)
    ensures var before := RunFrom(Ok(Start), es);
      RunFrom(Ok(Start), es + [e]) == if before.Err? then before else Step(before.value, e)
  {
    RunFromAppend(Ok(Start), es, [e]);
    var before := RunFrom(Ok(Start), es);
    if before.Ok? {
      assert [e][1..] == [];
    }
  }

  /** One turn of the loop on a result that may already have failed. */
  function Then(r: Result<Parsing, ParseError>, e: XmlEvent): Result<Parsing, ParseError> {
    if r.Err? then r else Step(r.value, e)
  }

  lemma RunOne(r: Result<Parsing, ParseError>, e: XmlEvent)
    ensures RunFrom(r, [e]) == Then(r, e)
  {
    if r.Ok? {
      assert [e][1..] == [];
    }
  }

  lemma RunTwo(r: Result<Parsing, ParseError>, a: XmlEvent, b: XmlEvent)
    ensures RunFrom(r, [a, b]) == Then(Then(r, a), b)
  {
    RunFromAppend(r, [a], [b]);
    assert [a] + [b] == [a, b];
    RunOne(r, a);
    RunOne(Then(r, a), b);
  }

  /** The loop over a stretch of events framed by two events on each side. */
  lemma RunFive(r: Result<Parsing, ParseError>, a: XmlEvent, b: XmlEvent, mid: seq<XmlEvent>, d: XmlEvent, e: XmlEvent)
    ensures RunFrom(r, [a, b] + mid + [d, e]) == Then(Then(RunFrom(Then(Then(r, a), b), mid), d), e)
  {
    RunFromAppend(r, [a, b] + mid, [d, e]);
    RunFromAppend(r, [a, b], mid);
    RunTwo(r, a, b);
    RunTwo(RunFrom(Then(Then(r, a), b), mid), d, e);
  }

  /** Text outside the three elements is an error, whatever came before. */
  lemma TextOutsideSection(es: seq<XmlEvent>, t: string)
    requires RunFrom(Ok(Start), es).Ok? && RunFrom(Ok(Start), es).value.section.None?
    ensures ParseEvents(es + [Characters(t)]) == Err(UnexpectedCharacters)
  {
    ParseSnoc(es, Characters(t));
  }

  /** Inside `<version>` the last text wins; inside a list section each text is appended. */
  lemma TextInSection(es: seq<XmlEvent>, t: string)
    requires RunFrom(Ok(Start), es).Ok? && RunFrom(Ok(Start), es).value.section.Some?
    ensures var c := RunFrom(Ok(Start), es).value.config;
      match RunFrom(Ok(Start), es).value.section.value
      case Version => ParseEvents(es + [Characters(t)]) == Ok(c.(version := Some(t)))
      case ActiveMods => ParseEvents(es + [Characters(t)]) == Ok(c.(activeMods := c.activeMods + [t]))
      case KnownExpansions => ParseEvents(es + [Characters(t)]) == Ok(c.(knownExpansions := c.knownExpansions + [t]))
  {
    ParseSnoc(es, Characters(t));
  }
  /** A start tag of a section enters that section; any other start tag leaves the state as it was. */
  lemma StartTagSection(es: seq<XmlEvent>, n: string)
    requires RunFrom(Ok(Start), es).Ok?
    ensures var st := RunFrom(Ok(Start), es).value;
      RunFrom(Ok(Start), es + [StartElement(n)]) == Ok(if SectionOf(n).Some? then st.(section := SectionOf(n)) else st)
  {
    ParseSnoc(es, StartElement(n));
  }

  /** An end tag of any section leaves every section; any other end tag leaves the state as it was. */
  lemma EndTagSection(es: seq<XmlEvent>, n: string)
    requires RunFrom(Ok(Start), es).Ok?
    ensures var st := RunFrom(Ok(Start), es).value;
      RunFrom(Ok(Start), es + [EndElement(n)]) == Ok(if SectionOf(n).Some? then st.(section := None) else st)
  {
    ParseSnoc(es, EndElement(n));
  }


  // ---------------------------------------------------------------------------
  // The serialiser and the events of what it writes
  // ---------------------------------------------------------------------------

  const Header: string := Declaration + "\n<ModsConfigData>\n"
  const Footer: string := "</ModsConfigData>"

  /** The text of the `<version>` line, empty without a version. */
  function VersionText(v: Option<string>): string {
    if v.Some? then "    <version>" + v.value + "</version>\n" else ""
  }

  /** The text of a list block, empty for an empty list. */
  function BlockText(tag: string, items: seq<string>): string {
    if items == [] then "" else OpenLine(tag) + Helpers.FoldLis(items, 2) + CloseLine(tag)
  }

  function OpenLine(tag: string): string { "    <" + tag + ">\n" }
  function CloseLine(tag: string): string { "    </" + tag + ">\n" }

  /** `String::from(ModsConfig)`: the file's text, written piece by piece. */
  method Serialise(c: ModsConfig) returns (out: string)
    ensures out == Header + VersionText(c.version) + BlockText("activeMods", c.activeMods)
                   + BlockText("knownExpansions", c.knownExpansions) + Footer
    ensures out == RenderAll(ConfigEvents(c))
  {
    out := Declaration + "\n<ModsConfigData>\n";
    ghost var head := out;
    if c.version.Some? {
      Group(out, "    <version>", c.version.value, "</version>\n");
      out := out + "    <version>" + c.version.value + "</version>\n";
    }
    ghost var version := out;
    assert version == head + VersionText(c.version);
    ActiveTags();
    KnownTags();
    if c.activeMods != [] {
      Group(out, "    <activeMods>\n", Helpers.FoldLis(c.activeMods, 2), "    </activeMods>\n");
      out := out + "    <activeMods>\n";
      out := out + Helpers.FoldLis(c.activeMods, 2);
      out := out + "    </activeMods>\n";
    }
    ghost var active := out;
    assert active == version + BlockText("activeMods", c.activeMods);
    if c.knownExpansions != [] {
      Group(out, "    <knownExpansions>\n", Helpers.FoldLis(c.knownExpansions, 2), "    </knownExpansions>\n");
      out := out + "    <knownExpansions>\n";
      out := out + Helpers.FoldLis(c.knownExpansions, 2);
      out := out + "    </knownExpansions>\n";
    }
    assert out == active + BlockText("knownExpansions", c.knownExpansions);
    out := out + "</ModsConfigData>";
    Layout(c);
  }

  lemma Group(p: string, a: string, x: string, b: string)
    ensures p + a + x + b == p + (a + x + b)
  {
  }

  lemma ActiveTags()
    ensures OpenLine("activeMods") == "    <activeMods>\n"
    ensures CloseLine("activeMods") == "    </activeMods>\n"
  {
  }

  lemma KnownTags()
    ensures OpenLine("knownExpansions") == "    <knownExpansions>\n"
    ensures CloseLine("knownExpansions") == "    </knownExpansions>\n"
  {
  }

  /** The events of one `<li>` line at indentation `level`. */
  function LiEvents(item: string, level: nat): seq<XmlEvent> {
    [Whitespace(Helpers.Indent(level)), StartElement("li")] + TextEvents(item) + [EndElement("li"), Whitespace("\n")]
  }

  /** The events of the lines of `items`. */
  function ListEvents(items: seq<string>, level: nat): seq<XmlEvent> {
    if items == [] then [] else LiEvents(items[0], level) + ListEvents(items[1..], level)
  }

  /** The events of the `<version>` line, when there is a version. */
  function VersionEvents(v: Option<string>): seq<XmlEvent> {
    if v.None? then []
    else [Whitespace("    "), StartElement("version")] + TextEvents(v.value) + [EndElement("version"), Whitespace("\n")]
  }

  /** The events inside a list block: the line break, the lines, the closing indentation. */
  function BlockBody(items: seq<string>): seq<XmlEvent> {
    [Whitespace("\n")] + ListEvents(items, 2) + [Whitespace("    ")]
  }

  /** The events of a list block, when the list is not empty. */
  function BlockEvents(tag: string, items: seq<string>): seq<XmlEvent> {
    if items == [] then []
    else [Whitespace("    "), StartElement(tag)] + BlockBody(items) + [EndElement(tag), Whitespace("\n")]
  }

  const HeadEvents: seq<XmlEvent> := [StartDocument, Whitespace("\n"), StartElement("ModsConfigData"), Whitespace("\n")]
  const TailEvents: seq<XmlEvent> := [EndElement("ModsConfigData"), EndDocument]

  /**
   * A sequence of events that renders to the serialised form of `c`. A
   * streaming reader would merge adjacent whitespace events into one run;
   * the parser ignores whitespace, so that makes no difference to it.
   */
  function ConfigEvents(c: ModsConfig): seq<XmlEvent> {
    HeadEvents + BodyEvents(c) + TailEvents
  }

  /** The events inside the root element. */
  function BodyEvents(c: ModsConfig): seq<XmlEvent> {
    VersionEvents(c.version)
    + BlockEvents("activeMods", c.activeMods)
    + BlockEvents("knownExpansions", c.knownExpansions)
  }

  /** The text of the events is the serialised layout, piece by piece. */
  lemma Layout(c: ModsConfig)
    ensures RenderAll(ConfigEvents(c)) ==
      Header + VersionText(c.version) + BlockText("activeMods", c.activeMods)
      + BlockText("knownExpansions", c.knownExpansions) + Footer
  {
    RenderAllAppend(HeadEvents + BodyEvents(c), TailEvents);
    RenderAllAppend(HeadEvents, BodyEvents(c));
    RenderHead();
    RenderTail();
    BodyRender(c);
    Regroup(Header, VersionText(c.version), BlockText("activeMods", c.activeMods),
            BlockText("knownExpansions", c.knownExpansions), Footer);
  }

  lemma Regroup(h: string, x: string, y: string, z: string, f: string)
    ensures h + (x + y + z) + f == h + x + y + z + f
  {
  }

  lemma BodyRender(c: ModsConfig)
    ensures RenderAll(BodyEvents(c)) ==
      VersionText(c.version) + BlockText("activeMods", c.activeMods) + BlockText("knownExpansions", c.knownExpansions)
  {
    var v := VersionEvents(c.version);
    var am := BlockEvents("activeMods", c.activeMods);
    var ke := BlockEvents("knownExpansions", c.knownExpansions);
    RenderAllAppend(v + am, ke);
    RenderAllAppend(v, am);
    VersionRender(c.version);
    BlockRender("activeMods", c.activeMods);
    BlockRender("knownExpansions", c.knownExpansions);
  }

  lemma RenderOne(e: XmlEvent)
    ensures RenderAll([e]) == Render(e)
  {
    assert [e][1..] == [];
  }

  lemma RenderTwo(a: XmlEvent, b: XmlEvent)
    ensures RenderAll([a, b]) == Render(a) + Render(b)
  {
    assert [a, b][1..] == [b];
    RenderOne(b);
  }

  /** The text of a stretch of events framed by two events on each side. */
  lemma RenderFive(a: XmlEvent, b: XmlEvent, mid: seq<XmlEvent>, d: XmlEvent, e: XmlEvent)
    ensures RenderAll([a, b] + mid + [d, e]) == Render(a) + Render(b) + RenderAll(mid) + Render(d) + Render(e)
  {
    var x, y := [a, b], [d, e];
    RenderAllAppend(x + mid, y);
    RenderAllAppend(x, mid);
    RenderTwo(a, b);
    RenderTwo(d, e);
    var ra, rb, rm, rd, re := Render(a), Render(b), RenderAll(mid), Render(d), Render(e);
    assert (ra + rb) + rm + (rd + re) == ra + rb + rm + rd + re;
  }

  lemma RenderHead()
    ensures RenderAll(HeadEvents) == Header
  {
    HeadFrame();
    RenderFive(StartDocument, Whitespace("\n"), [], StartElement("ModsConfigData"), Whitespace("\n"));
    HeaderPieces();
  }

  lemma HeadFrame()
    ensures [StartDocument, Whitespace("\n")] + [] + [StartElement("ModsConfigData"), Whitespace("\n")] == HeadEvents
  {
  }

  lemma HeaderPieces()
    ensures Render(StartDocument) + Render(Whitespace("\n")) + RenderAll([])
            + Render(StartElement("ModsConfigData")) + Render(Whitespace("\n")) == Header
  {
    assert Render(StartElement("ModsConfigData")) == "<ModsConfigData>";
    var d := Declaration;
    assert d + "\n" + [] + "<ModsConfigData>" + "\n" == d + "\n<ModsConfigData>\n";
  }

  lemma RenderTail()
    ensures RenderAll(TailEvents) == Footer
  {
    RenderTwo(EndElement("ModsConfigData"), EndDocument);
    assert Render(EndElement("ModsConfigData")) == "</ModsConfigData>";
  }

  lemma VersionRender(v: Option<string>)
    ensures RenderAll(VersionEvents(v)) == VersionText(v)
  {
    if v.Some? {
      RenderFive(Whitespace("    "), StartElement("version"), TextEvents(v.value), EndElement("version"), Whitespace("\n"));
      TagPieces("version");
      VersionPieces(v.value);
    }
  }

  lemma VersionPieces(t: string)
    ensures "    " + ("<" + "version" + ">") + t + ("</" + "version" + ">") + "\n" == "    <version>" + t + "</version>\n"
  {
    assert "<" + "version" + ">" == "<version>";
    assert "</" + "version" + ">" == "</version>";
  }

  lemma LiRender(x: string, level: nat)
    ensures RenderAll(LiEvents(x, level)) == Helpers.Li(x, level)
  {
    RenderFive(Whitespace(Helpers.Indent(level)), StartElement("li"), TextEvents(x), EndElement("li"), Whitespace("\n"));
    assert Render(StartElement("li")) == "<li>";
    assert Render(EndElement("li")) == "</li>";
    var ind := Helpers.Indent(level);
    assert ind + "<li>" + x + "</li>" + "\n" == ind + "<li>" + x + "</li>\n";
  }

  lemma {:induction false} ListRender(items: seq<string>, level: nat)
    ensures RenderAll(ListEvents(items, level)) == Helpers.FoldLis(items, level)
    decreases |items|
  {
    if items != [] {
      ListRender(items[1..], level);
      RenderAllAppend(LiEvents(items[0], level), ListEvents(items[1..], level));
      LiRender(items[0], level);
      Helpers.FoldLisCons(items[0], items[1..], level);
      assert [items[0]] + items[1..] == items;
    }
  }

  lemma BlockRender(tag: string, items: seq<string>)
    ensures RenderAll(BlockEvents(tag, items)) == BlockText(tag, items)
  {
    if items != [] {
      RenderFive(Whitespace("    "), StartElement(tag), BlockBody(items), EndElement(tag), Whitespace("\n"));
      BlockBodyRender(items);
      BlockPieces(tag, Helpers.FoldLis(items, 2));
    }
  }

  lemma BlockBodyRender(items: seq<string>)
    ensures RenderAll(BlockBody(items)) == "\n" + Helpers.FoldLis(items, 2) + "    "
  {
    var list := ListEvents(items, 2);
    RenderAllAppend([Whitespace("\n")] + list, [Whitespace("    ")]);
    RenderAllAppend([Whitespace("\n")], list);
    RenderOne(Whitespace("\n"));
    RenderOne(Whitespace("    "));
    ListRender(items, 2);
  }

  lemma BlockPieces(tag: string, f: string)
    ensures Render(Whitespace("    ")) + Render(StartElement(tag)) + ("\n" + f + "    ")
            + Render(EndElement(tag)) + Render(Whitespace("\n"))
            == OpenLine(tag) + f + CloseLine(tag)
  {
    TagPieces(tag);
    Concat("    ", "<" + tag + ">", "\n" + f + "    ", "</" + tag + ">", "\n", tag, f);
  }

  lemma TagPieces(tag: string)
    ensures Render(Whitespace("    ")) == "    " && Render(Whitespace("\n")) == "\n"
    ensures Render(StartElement(tag)) == "<" + tag + ">" && Render(EndElement(tag)) == "</" + tag + ">"
  {
  }

  lemma Concat(w: string, o: string, m: string, c: string, n: string, tag: string, f: string)
    requires w == "    " && n == "\n"
    requires o == "<" + tag + ">" && m == "\n" + f + "    " && c == "</" + tag + ">"
    ensures w + o + m + c + n == OpenLine(tag) + f + CloseLine(tag)
  {
  }

  // ---------------------------------------------------------------------------
  // Parsing what the serialiser writes gives the configuration back
  // ---------------------------------------------------------------------------

  /** A configuration whose texts the reader reports as `Characters`. */
  predicate Readable(c: ModsConfig) {
    (c.version.Some? ==> !Blank(c.version.value) && MarkupFree(c.version.value))
    && (forall i :: 0 <= i < |c.activeMods| ==> !Blank(c.activeMods[i]) && MarkupFree(c.activeMods[i]))
    && (forall i :: 0 <= i < |c.knownExpansions| ==> !Blank(c.knownExpansions[i]) && MarkupFree(c.knownExpansions[i]))
  }

  /** Files every text of `items` under the list section `s`, in order. */
  function FileAll(c: ModsConfig, s: Section, items: seq<string>): (r: ModsConfig)
    requires s != Version
    ensures s == ActiveMods ==> r == c.(activeMods := c.activeMods + items)
    ensures s == KnownExpansions ==> r == c.(knownExpansions := c.knownExpansions + items)
  {
    match s
    case ActiveMods => c.(activeMods := c.activeMods + items)
    case KnownExpansions => c.(knownExpansions := c.knownExpansions + items)
  }

  lemma FileAllCons(c: ModsConfig, s: Section, items: seq<string>)
    requires s != Version && items != []
    ensures FileAll(File(c, s, items[0]), s, items[1..]) == FileAll(c, s, items)
  {
    assert [items[0]] + items[1..] == items;
    if s == ActiveMods {
      assert c.activeMods + [items[0]] + items[1..] == c.activeMods + items;
    } else {
      assert c.knownExpansions + [items[0]] + items[1..] == c.knownExpansions + items;
    }
  }

  /** One `<li>` line inside a section files its text there. */
  lemma LiRound(c: ModsConfig, s: Section, x: string)
    requires !Blank(x) && MarkupFree(x)
    ensures RunFrom(Ok(Parsing(c, Some(s))), LiEvents(x, 2)) == Ok(Parsing(File(c, s, x), Some(s)))
  {
    var r := Ok(Parsing(c, Some(s)));
    RunFive(r, Whitespace(Helpers.Indent(2)), StartElement("li"), [Characters(x)], EndElement("li"), Whitespace("\n"));
    assert SectionOf("li").None?;
    RunOne(r, Characters(x));
  }

  /** The `<li>` lines of a list section append their items to it, in order. */
  lemma {:induction false} ListRound(c: ModsConfig, s: Section, items: seq<string>)
    requires s != Version
    requires forall i :: 0 <= i < |items| ==> !Blank(items[i]) && MarkupFree(items[i])
    ensures RunFrom(Ok(Parsing(c, Some(s))), ListEvents(items, 2)) == Ok(Parsing(FileAll(c, s, items), Some(s)))
    decreases |items|
  {
    if items == [] {
      assert c.activeMods + [] == c.activeMods;
      assert c.knownExpansions + [] == c.knownExpansions;
    } else {
      RunFromAppend(Ok(Parsing(c, Some(s))), LiEvents(items[0], 2), ListEvents(items[1..], 2));
      LiRound(c, s, items[0]);
      ListRound(File(c, s, items[0]), s, items[1..]);
      FileAllCons(c, s, items);
    }
  }

  lemma BlockRound(c: ModsConfig, tag: string, s: Section, items: seq<string>)
    requires SectionOf(tag) == Some(s) && s != Version
    requires forall i :: 0 <= i < |items| ==> !Blank(items[i]) && MarkupFree(items[i])
    ensures RunFrom(Ok(Parsing(c, None)), BlockEvents(tag, items)) == Ok(Parsing(FileAll(c, s, items), None))
  {
    if items == [] {
      assert c.activeMods + [] == c.activeMods;
      assert c.knownExpansions + [] == c.knownExpansions;
    } else {
      var r := Ok(Parsing(c, None));
      var list := ListEvents(items, 2);
      RunFive(r, Whitespace("    "), StartElement(tag), BlockBody(items), EndElement(tag), Whitespace("\n"));
      var inside := Ok(Parsing(c, Some(s)));
      assert Then(Then(r, Whitespace("    ")), StartElement(tag)) == inside;
      RunFromAppend(inside, [Whitespace("\n")] + list, [Whitespace("    ")]);
      RunFromAppend(inside, [Whitespace("\n")], list);
      RunOne(inside, Whitespace("\n"));
      ListRound(c, s, items);
      RunOne(Ok(Parsing(FileAll(c, s, items), Some(s))), Whitespace("    "));
    }
  }

  lemma VersionRound(c: ModsConfig, v: Option<string>)
    requires v.Some? ==> !Blank(v.value) && MarkupFree(v.value)
    ensures RunFrom(Ok(Parsing(c, None)), VersionEvents(v)) ==
            Ok(Parsing(if v.Some? then c.(version := v) else c, None))
  {
    if v.Some? {
      var r := Ok(Parsing(c, None));
      RunFive(r, Whitespace("    "), StartElement("version"), [Characters(v.value)], EndElement("version"), Whitespace("\n"));
      RunOne(Ok(Parsing(c, Some(Version))), Characters(v.value));
    }
  }

  /** Serialising and then parsing gives back every field of the configuration. */
  lemma RoundTrip(c: ModsConfig)
    requires Readable(c)
    ensures ParseEvents(ConfigEvents(c)) == Ok(c)
  {
    RunFromAppend(Ok(Start), HeadEvents + BodyEvents(c), TailEvents);
    RunFromAppend(Ok(Start), HeadEvents, BodyEvents(c));
    HeadRound();
    BodyRound(c);
    RunTwo(Ok(Parsing(c, None)), EndElement("ModsConfigData"), EndDocument);
  }

  /**
   * An item holding markup is not readable: written unescaped, it would read back as
   * two items, which is what `Readable` keeps out of the round trip.
   */
  lemma MarkupItemNotReadable()
    ensures !Readable(ModsConfig(None, ["a</li>\n        <li>b"], []))
  {
    var c := ModsConfig(None, ["a</li>\n        <li>b"], []);
    assert c.activeMods[0][1] == '<';
  }

  lemma BodyRound(c: ModsConfig)
    requires Readable(c)
    ensures RunFrom(Ok(Start), BodyEvents(c)) == Ok(Parsing(c, None))
  {
    var v := VersionEvents(c.version);
    var am := BlockEvents("activeMods", c.activeMods);
    var ke := BlockEvents("knownExpansions", c.knownExpansions);
    RunFromAppend(Ok(Start), v + am, ke);
    RunFromAppend(Ok(Start), v, am);
    var c1 := EmptyConfig.(version := c.version);
    VersionRound(EmptyConfig, c.version);
    var c2 := c1.(activeMods := c.activeMods);
    BlockRound(c1, "activeMods", ActiveMods, c.activeMods);
    assert [] + c.activeMods == c.activeMods;
    BlockRound(c2, "knownExpansions", KnownExpansions, c.knownExpansions);
    assert [] + c.knownExpansions == c.knownExpansions;
  }

  /** The document start and the root element leave the parser where it began. */
  lemma HeadRound()
    ensures RunFrom(Ok(Start), HeadEvents) == Ok(Start)
  {
    HeadFrame();
    RunFive(Ok(Start), StartDocument, Whitespace("\n"), [], StartElement("ModsConfigData"), Whitespace("\n"));
    assert SectionOf("ModsConfigData").None?;
  }
}
