/**
 * The INI reader used for the launcher's `config.ini`: it yields one
 * key/value pair per call, skipping blank lines and comments and
 * remembering the most recent `[section]` header. The input is the text's
 * lines; reading them from a file is not modelled.
 */
module Ini {
  import opened Common
  import opened Strings

  datatype IniKeyValuePair = IniKeyValuePair(section: Option<string>, key: string, value: string)

  /** Only the syntax error is modelled; the other variants come from opening the file. */
  datatype IniError = InvalidData(message: string)

  const MissingEquals: string := "Expected `=` sign when parsing line of INI file, found none."

  /** A blank line or a comment: under three bytes, whitespace only, or starting with `;`. */
  predicate Skipped(line: string) {
    Utf8Len(line) < 3 || AllWhitespace(line) || StartsWith(line, ";")
  }

  /** A section header: the trimmed line starts with `[`. */
  predicate IsHeader(line: string) {
    StartsWith(Trim(line), "[")
  }

  /** A header line holds a `[`, since its trimmed text starts with one. */
  lemma HeaderHasOpen(line: string)
    requires IsHeader(line)
    ensures '[' in line
  {
    var t := TrimStart(line);
    var r := TrimEnd(t);
    assert Trim(line) == r;
    assert r[0] == '[';
    assert t[0] == r[0];
    assert line[|line| - |t|] == t[0];
  }

  /** A header that can be read: a `]` follows its first `[` (otherwise the reader panics). */
  predicate HeaderClosed(line: string) {
    match Find(line, '[')
    case None => false
    case Some(i) => ']' in line[i + 1..]
  }

  /** The name a header sets: the text between its first `[` and the next `]`. */
  function SectionName(line: string): string
    requires HeaderClosed(line)
  {
    var a := Find(line, '[').value;
    var rest := line[a + 1..];
    rest[..Find(rest, ']').value]
  }

  /** The name lies between the line's first `[` and the first `]` after it. */
  lemma SectionNameMeaning(line: string)
    requires HeaderClosed(line)
    ensures exists a, b :: 0 <= a < b < |line| && line[a] == '[' && '[' !in line[..a]
              && line[b] == ']' && ']' !in line[a + 1..b] && SectionName(line) == line[a + 1..b]
  {
    var a := Find(line, '[').value;
    var rest := line[a + 1..];
    var c := Find(rest, ']').value;
    var b := a + 1 + c;
    assert line[b] == ']';
    assert line[a + 1..b] == rest[..c];
  }

  /** The text before the first `=` of a line and everything after it, untrimmed. */
  function Halves(line: string): Option<(string, string)> {
    var parts := Split(line, '=');
    if |parts| < 2 then None else Some((parts[0], Join(parts[1..], '=')))
  }

  /** The key and value of a line: the text before its first `=` and everything after it, both trimmed. */
  function KeyValue(line: string): Option<(string, string)> {
    match Halves(line)
    case None => None
    case Some((key, value)) => Some((Trim(key), Trim(value)))
  }

  /**
   * A line has a key and value exactly when it has an `=`; the key is the
   * trimmed text before the first `=` and the value the trimmed text after
   * it, which may itself contain `=`.
   */
  lemma KeyValueMeaning(line: string)
    ensures KeyValue(line).None? <==> '=' !in line
    ensures '=' in line ==>
              var i := Find(line, '=').value;
              KeyValue(line) == Some((Trim(line[..i]), Trim(line[i + 1..])))
  {
    SplitSingleIffAbsent(line, '=');
    if '=' in line {
      HalvesAt(line);
    }
  }

  lemma HalvesAt(line: string)
    requires '=' in line
    ensures var i := Find(line, '=').value;
      Halves(line) == Some((line[..i], line[i + 1..]))
  {
    SplitTailJoin(line, '=');
  }

  /** What the reader makes of one line. A header's name is `None` when the header cannot be read. */
  datatype LineKind = Ignored | Header(name: Option<string>) | Entry(kv: Option<(string, string)>)

  function Classify(line: string): (k: LineKind)
    ensures k.Ignored? <==> Skipped(line)
    ensures k.Header? <==> !Skipped(line) && IsHeader(line)
    ensures k.Header? ==> (k.name.Some? <==> HeaderClosed(line))
  {
    if Skipped(line) then Ignored
    else if IsHeader(line) then Header(if HeaderClosed(line) then Some(SectionName(line)) else None)
    else Entry(KeyValue(line))
  }

  /** The kinds of the lines, in order. */
  function Kinds(lines: seq<string>): (ks: seq<LineKind>)
    ensures |ks| == |lines|
    ensures forall k :: 0 <= k < |lines| ==> ks[k] == Classify(lines[k])
  {
    if lines == [] then [] else [Classify(lines[0])] + Kinds(lines[1..])
  }

  /** What a key/value line yields under `section`. */
  function Emit(section: Option<string>, kv: Option<(string, string)>): Result<IniKeyValuePair, IniError> {
    match kv
    case None => Err(InvalidData(MissingEquals))
    case Some((key, value)) => Ok(IniKeyValuePair(section, key, value))
  }

  /** Every header the reader reaches before a key/value line can be read (otherwise it panics). */
  predicate CanScan(ks: seq<LineKind>) {
    forall k :: 0 <= k < |ks| && ks[k] == Header(None) ==> exists j :: 0 <= j < k && ks[j].Entry?
  }

  /** No header among `ks` is unreadable. */
  predicate Readable(ks: seq<LineKind>) {
    forall k :: 0 <= k < |ks| ==> ks[k] != Header(None)
  }

  /** The section after reading `ks`: the name of the last header among them. */
  function SectionAfter(section: Option<string>, ks: seq<LineKind>): Option<string>
    requires Readable(ks)
    decreases |ks|
  {
    if ks == [] then section
    else SectionAfter(if ks[0].Header? then ks[0].name else section, ks[1..])
  }

  /** The section after `ks + [k]` is the one after `ks`, or the name `k` sets. */
  lemma {:induction false} SectionAfterSnoc(section: Option<string>, ks: seq<LineKind>, k: LineKind)
    requires Readable(ks + [k])
    ensures Readable(ks)
    ensures SectionAfter(section, ks + [k]) == if k.Header? then k.name else SectionAfter(section, ks)
    decreases |ks|
  {
    assert forall j :: 0 <= j < |ks| ==> (ks + [k])[j] == ks[j];
    if ks != [] {
      assert (ks + [k])[1..] == ks[1..] + [k];
      SectionAfterSnoc(if ks[0].Header? then ks[0].name else section, ks[1..], k);
    }
  }

  /** Where one call leaves the reader: its section, how many lines it read, and what it yields. */
  datatype Step = Step(section: Option<string>, consumed: nat, item: Option<Result<IniKeyValuePair, IniError>>)

  /**
   * One call of `next` from `section` over lines of kinds `ks`: blank lines,
   * comments and headers are read until a key/value line, which is read and
   * yielded under the section then current; when the lines run out it
   * yields nothing.
   */
  function NextOver(section: Option<string>, ks: seq<LineKind>): (st: Step)
    requires CanScan(ks)
    ensures st.consumed <= |ks|
    ensures st.item.None? ==> st.consumed == |ks| && forall k :: 0 <= k < |ks| ==> !ks[k].Entry?
    ensures st.item.Some? ==>
              && 0 < st.consumed && ks[st.consumed - 1].Entry?
              && st.item == Some(Emit(st.section, ks[st.consumed - 1].kv))
              && forall j :: 0 <= j < st.consumed - 1 ==> !ks[j].Entry?
    ensures Readable(ks[..st.consumed])
    ensures st.section == SectionAfter(section, ks[..st.consumed])
  {
    NextFrom(section, ks, 0)
  }

  /** `NextOver` continued from line `i`, with `section` the section after `ks[..i]`. */
  function NextFrom(section: Option<string>, ks: seq<LineKind>, i: nat): (st: Step)
    requires i <= |ks| && CanScan(ks)
    requires forall j :: 0 <= j < i ==> !ks[j].Entry?
    ensures i <= st.consumed <= |ks|
    ensures st.item.None? ==> st.consumed == |ks| && forall k :: 0 <= k < |ks| ==> !ks[k].Entry?
    ensures st.item.Some? ==>
              && i < st.consumed && ks[st.consumed - 1].Entry?
              && st.item == Some(Emit(st.section, ks[st.consumed - 1].kv))
              && forall j :: 0 <= j < st.consumed - 1 ==> !ks[j].Entry?
    ensures Readable(ks[i..st.consumed])
    ensures st.section == SectionAfter(section, ks[i..st.consumed])
    decreases |ks| - i
  {
    if i == |ks| then Step(section, i, None)
    else match ks[i]
      case Ignored =>
        var st := NextFrom(section, ks, i + 1);
        assert ks[i..st.consumed][1..] == ks[i + 1..st.consumed];
        st
      case Header(name) =>
        var st := NextFrom(name, ks, i + 1);
        assert ks[i..st.consumed][1..] == ks[i + 1..st.consumed];
        st
      case Entry(kv) =>
        assert ks[i..i + 1][1..] == [];
        Step(section, i + 1, Some(Emit(section, kv)))
  }

  /**
   * A yielded pair carries the section after every line read so far: the
   * name of the last header before it, or the reader's earlier section when
   * there was none in between.
   */
  lemma PairCarriesSection(section: Option<string>, ks: seq<LineKind>)
    requires CanScan(ks)
    requires NextOver(section, ks).item.Some? && NextOver(section, ks).item.value.Ok?
    ensures var st := NextOver(section, ks);
      && st.item.value.value.section == st.section
      && ((forall k :: 0 <= k < st.consumed ==> !ks[k].Header?) ==> st.section == section)
  {
    var st := NextOver(section, ks);
    if forall k :: 0 <= k < st.consumed ==> !ks[k].Header? {
      NoHeaderKeepsSection(section, ks[..st.consumed]);
    }
  }

  lemma {:induction false} NoHeaderKeepsSection(section: Option<string>, ks: seq<LineKind>)
    requires forall k :: 0 <= k < |ks| ==> !ks[k].Header?
    ensures Readable(ks)
    ensures SectionAfter(section, ks) == section
  {
    if ks != [] {
      NoHeaderKeepsSection(section, ks[1..]);
    }
  }

  /** The reader over the lines of an INI text. */
  class IniReader {
    /** The lines not read yet. */
    var lines: seq<string>
    /** The most recent section header, if any. */
    var section: Option<string>

    constructor (lines: seq<string>)
      ensures this.lines == lines && section == None
    {
      this.lines := lines;
      section := None;
    }

    /** `Iterator::next`: the next pair, a syntax error, or `None` at the end of the text. */
    method Next() returns (r: Option<Result<IniKeyValuePair, IniError>>)
      requires CanScan(Kinds(lines))
      modifies this
      ensures var st := NextOver(old(section), Kinds(old(lines)));
        && r == st.item && section == st.section && lines == old(lines)[st.consumed..]
    {
      ghost var all := lines;
      ghost var ks := Kinds(lines);
      ghost var i := 0;
      while lines != []
        invariant i <= |all| && lines == all[i..]
        invariant forall j :: 0 <= j < i ==> !ks[j].Entry?
        invariant NextFrom(section, ks, i) == NextOver(old(section), ks)
        decreases |lines|
      {
        var line := lines[0];
        lines := lines[1..];
        var kind := Classify(line);
        assert kind == ks[i];
        i := i + 1;
        match kind
        case Ignored =>
        case Header(name) =>
          section := name;
        case Entry(kv) =>
          return Some(Emit(section, kv));
      }
      return None;
    }
  }

  /** An empty text yields nothing. */
  lemma EmptyTextEnds()
    ensures NextOver(None, Kinds([])).item == None
  {
  }

  lemma FindEquals()
    ensures Find("a = b", '=') == Some(2)
  {
    assert "a = b"[1..] == " = b";
    assert " = b"[1..] == "= b";
  }

  lemma TrimmedKey()
    ensures Trim("a ") == "a"
  {
    assert TrimStart("a ") == "a ";
    assert IsWhitespace(' ');
    assert "a "[..1] == "a";
    assert TrimEnd("a") == "a";
  }

  lemma TrimmedValue()
    ensures Trim(" b") == "b"
  {
    var s := " b";
    assert s[0] == ' ' && IsWhitespace(s[0]);
    assert s[1..] == "b";
    assert TrimStart(s) == "b";
    assert TrimEnd("b") == "b";
  }

  lemma PairHalves()
    ensures "a = b"[..2] == "a " && "a = b"[2 + 1..] == " b"
  {
  }

  lemma PairNotHeader()
    ensures !IsHeader("a = b")
  {
    var line := "a = b";
    assert !IsWhitespace(line[0]);
    assert TrimStart(line) == line;
    var r := TrimEnd(line);
    assert Trim(line) == r;
    assert r == [] || r[0] == 'a';
  }

  /** The line `a = b` of the tests is the pair `a`, `b`. */
  lemma ClassifyPair()
    ensures Classify("a = b") == Entry(Some(("a", "b")))
  {
    var line := "a = b";
    assert Utf8Len(line) >= |line| by {
      Utf8LenBounds(line);
    }
    assert !AllWhitespace(line) by {
      assert !IsWhitespace(line[0]);
    }
    assert !StartsWith(line, ";");
    PairNotHeader();
    KeyValueMeaning(line);
    FindEquals();
    PairHalves();
    TrimmedKey();
    TrimmedValue();
  }

  /** A first line with a key and value is yielded at once, under the reader's section. */
  lemma FirstLineYields(section: Option<string>, key: string, value: string, ks: seq<LineKind>)
    requires |ks| > 0 && ks[0] == Entry(Some((key, value)))
    ensures NextOver(section, ks) == Step(section, 1, Some(Ok(IniKeyValuePair(section, key, value))))
  {
    assert CanScan(ks);
  }
}
