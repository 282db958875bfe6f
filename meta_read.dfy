/**
 * `ModMetaData::read`: parses a mod's `About.xml` and then adds the implicit
 * `loadAfter` entries. Reading the file is not modelled: the method receives
 * the path and the reader's events for the file's contents.
 */
module MetaRead {
  import opened Common
  import opened ModMeta
  import opened Xml
  import About

  /**
   * A reader error is passed on; otherwise the parsed metadata gets its path
   * and the implicit entries, every other field being what the file says.
   */
  method Read(path: string, es: seq<XmlEvent>) returns (r: Result<ModMetaData, XmlError>)
    ensures r.Err? <==> About.StopIndex(es) < |es| && es[About.StopIndex(es)].Malformed?
    ensures r.Ok? ==> var parsed := About.AboutOf(es);
      && r.value == parsed.(path := Some(path), loadAfter := r.value.loadAfter)
      && r.value.loadAfter == Some(Elems(parsed.loadAfter) + Implicit(parsed))
  {
    var parsed := About.ParseAbout(es);
    if parsed.Err? {
      return Err(parsed.error);
    }
    var mmd := AddImplicitLoadAfter(parsed.value, path);
    return Ok(mmd);
  }
}
