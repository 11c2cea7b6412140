/**
 * The markdown-link text both versions of the formatter produce: a label (its `text`)
 * and a URI rendered as `[label](uri)`, the book prefix that only the first
 * range of a reference carries, and the version suffix that only the last
 * range carries.
 */
module LinkText {

  datatype Link = Link(text: string, uri: string)

  /**
   * `md` is the markdown link of `l`: `[`, the text, `](`, the URI and `)`,
   * and nothing else.
   */
  ghost predicate IsMarkdownLink(md: string, l: Link) {
    |md| == |l.text| + |l.uri| + 4 &&
    md[0] == '[' && md[1..1 + |l.text|] == l.text && md[1 + |l.text|..3 + |l.text|] == "](" &&
    md[|l.text| + 3..|md| - 1] == l.uri && md[|md| - 1] == ')'
  }

  /** `[label](uri)`. */
  function Render(l: Link): (r: string)
    ensures IsMarkdownLink(r, l)
  {
    "[" + l.text + "](" + l.uri + ")"
  }

  /** Rendering is injective: the label and the URI can be read back from the link text. */
  lemma RenderInjective(a: Link, b: Link)
    requires |a.text| == |b.text|
    requires Render(a) == Render(b)
    ensures a == b
  {
    assert a.text == Render(a)[1..1 + |a.text|];
    assert a.uri == Render(a)[|a.text| + 3..|Render(a)| - 1];
  }

  /** `ix === 0 ? book + ' ' : ''`: the book name is written only before the first range. */
  function BookPrefix(ix: nat, book: string): (r: string)
    ensures ix == 0 ==> r == book + " "
    ensures ix != 0 ==> r == ""
  {
    if ix == 0 then book + " " else ""
  }

  /**
   * The version suffix of a label: only the last of `count` ranges carries it,
   * and only when the version is not the default one.
   */
  function VersionSuffix(ix: nat, count: nat, version: string, defaultVersion: string): (r: string)
    ensures r != "" <==> ix == count - 1 && version != defaultVersion
    ensures r != "" ==> r == " " + version
  {
    if ix == count - 1 then (if version != defaultVersion then " " + version else "") else ""
  }
}
