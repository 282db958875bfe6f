/**
 * The XML parsers work on the event stream of a pull reader (xml-rs's
 * `EventReader`); tokenising bytes into events is not part of this model, so
 * every parser here takes the events themselves.
 */
module Xml {

  /**
   * One event of the reader. `Whitespace` is text made only of XML
   * whitespace, which the reader reports apart from `Characters`; `Other`
   * stands for comments, processing instructions and the like; `Malformed`
   * stands for the reader returning an error instead of an event.
   */
  datatype XmlEvent =
    | StartDocument
    | StartElement(name: string)
    | EndElement(name: string)
    | Characters(text: string)
    | Whitespace(text: string)
    | EndDocument
    | Other
    | Malformed

  /** `xml::reader::Error`. */
  datatype XmlError = ReaderError

  /** The XML declaration the serialisers write. */
  const Declaration: string := "<?xml version=\"1.0\" encoding=\"utf-8\"?>"

  /** The text an event was read from, for the events the serialisers write. */
  function Render(e: XmlEvent): string {
    match e
    case StartDocument => Declaration
    case StartElement(n) => "<" + n + ">"
    case EndElement(n) => "</" + n + ">"
    case Characters(t) => t
    case Whitespace(t) => t
    case _ => ""
  }

  /** The text of a whole event sequence. */
  function RenderAll(es: seq<XmlEvent>): (r: string)
    ensures es == [] ==> r == []
  {
    if es == [] then [] else Render(es[0]) + RenderAll(es[1..])
  }

  /** Rendering distributes over concatenation. */
  lemma {:induction false} RenderAllAppend(a: seq<XmlEvent>, b: seq<XmlEvent>)
    ensures RenderAll(a + b) == RenderAll(a) + RenderAll(b)
    decreases |a|
  {
    if a != [] {
      assert (a + b)[1..] == a[1..] + b;
      RenderAllAppend(a[1..], b);
    } else {
      assert a + b == b;
    }
  }

  /** XML whitespace: space, tab, carriage return and line feed. */
  predicate IsXmlSpace(c: char) { c == ' ' || c == '\t' || c == '\r' || c == '\n' }

  /** Text that is empty or only whitespace: the reader does not report it as `Characters`. */
  predicate Blank(t: string) {
    forall i :: 0 <= i < |t| ==> IsXmlSpace(t[i])
  }

  /**
   * A character the reader returns unchanged inside text: a character XML 1.0 allows,
   * other than the start of a tag (`<`), the start of an entity reference (`&`) and the
   * carriage return (which the reader normalises to a line feed).
   */
  predicate IsPlainTextChar(c: char) {
    c != '<' && c != '&' && c != '\r'
    && (c == '\t' || c == '\n' || (0x20 <= c as int && c as int != 0xFFFE && c as int != 0xFFFF))
  }

  /** Text the reader reports verbatim: every character is plain. */
  predicate MarkupFree(t: string) {
    forall i :: 0 <= i < |t| ==> IsPlainTextChar(t[i])
  }

  /**
   * The event the reader gives for the text `t` between two tags, if any. For text that
   * is not `MarkupFree` the reader would report further tags, decoded entities or
   * normalised line ends; that tokenising is not modelled, and only the rendering of the
   * events is promised then.
   */
  function TextEvents(t: string): (es: seq<XmlEvent>)
    ensures RenderAll(es) == t
    ensures Blank(t) ==> es == [] || es == [Whitespace(t)]
    ensures !Blank(t) && MarkupFree(t) ==> es == [Characters(t)]
  {
    if t == [] then [] else if Blank(t) then [Whitespace(t)] else [Characters(t)]
  }
}
