/**
 * The small helpers of the serialisers: removing a UTF-8 byte-order mark and
 * writing a list as indented `<li>` lines.
 */
module Helpers {

  /** The UTF-8 byte-order mark. */
  const Bom: seq<bv8> := [239, 187, 191]

  /**
   * `strip_bom`: drops the byte-order mark when the bytes start with it. The
   * source indexes the first three bytes unconditionally and panics on a
   * shorter input, hence the precondition.
   */
  function StripBom(bytes: seq<bv8>): (r: seq<bv8>)
    requires |bytes| >= 3
    ensures bytes == (if Bom <= bytes then Bom else []) + r
  {
    if bytes[..3] == Bom then bytes[3..] else bytes
  }

  /** Stripping undoes prefixing a byte-order mark. */
  lemma StripBomAfterBom(body: seq<bv8>)
    ensures StripBom(Bom + body) == body
  {
    assert (Bom + body)[..3] == Bom;
    assert (Bom + body)[3..] == body;
  }

  /** Bytes that do not start with the mark come back unchanged. */
  lemma StripBomKeeps(bytes: seq<bv8>)
    requires |bytes| >= 3 && bytes[0] != 239
    ensures StripBom(bytes) == bytes
  {
    assert !(Bom <= bytes);
  }

  /** `"    ".repeat(level)`. */
  function Indent(level: nat): (s: string)
    ensures |s| == 4 * level
    ensures forall i :: 0 <= i < |s| ==> s[i] == ' '
  {
    if level == 0 then "" else "    " + Indent(level - 1)
  }

  /** One line of `fold_lis`. */
  function Li(item: string, level: nat): string {
    Indent(level) + "<li>" + item + "</li>\n"
  }

  /** `fold_lis(items, level)`: the items' lines, appended in order to an empty string. */
  function FoldLis(items: seq<string>, level: nat): (r: string)
    ensures items == [] ==> r == ""
  {
    if items == [] then ""
    else FoldLis(items[..|items| - 1], level) + Li(items[|items| - 1], level)
  }

  /** The lines of two lists written one after the other are the lines of their concatenation. */
  lemma {:induction false} FoldLisAppend(a: seq<string>, b: seq<string>, level: nat)
    ensures FoldLis(a + b, level) == FoldLis(a, level) + FoldLis(b, level)
    decreases |b|
  {
    if b == [] {
      assert a + b == a;
    } else {
      var b', last := b[..|b| - 1], b[|b| - 1];
      assert (a + b)[..|a + b| - 1] == a + b';
      assert (a + b)[|a + b| - 1] == last;
      assert FoldLis(a + b, level) == FoldLis(a + b', level) + Li(last, level);
      FoldLisAppend(a, b', level);
      var x, y, z := FoldLis(a, level), FoldLis(b', level), Li(last, level);
      assert FoldLis(b, level) == y + z;
      assert (x + y) + z == x + (y + z);
    }
  }

  /** Each item gives exactly its own line, first item first. */
  lemma FoldLisCons(x: string, rest: seq<string>, level: nat)
    ensures FoldLis([x] + rest, level) == Li(x, level) + FoldLis(rest, level)
  {
    FoldLisAppend([x], rest, level);
    assert [x][..0] == [];
  }
}
