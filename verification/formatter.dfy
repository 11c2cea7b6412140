/**
 * The current link formatter of the plugin (src/main.ts): one reference,
 * already parsed by an external Bible-reference parser, becomes one markdown
 * link per verse range, joined with ", ". Two URI template dialects exist:
 * the default one, whose `{{verse}}` placeholder receives book, chapter and
 * verse range at once, and the Olive Tree one with separate `{{book}}`,
 * `{{chapter}}` and `{{verse}}` placeholders.
 */
module Formatter {
  import opened Optional
  import opened Chars
  import opened JsString
  import opened Decimal
  import opened LinkText
  import opened Settings

  /** One chapter-and-verse range of a parsed reference. */
  datatype BibleRange = BibleRange(chapter: nat, fromVerse: nat, toVerse: nat)

  /** The parser yields either one version name or a non-empty list of them. */
  type VersionList = v: seq<string> | |v| > 0 witness [""]

  datatype Version = Single(name: string) | Many(names: VersionList)

  /** What the external reference parser hands to the formatter. */
  datatype ParsedReference = ParsedReference(bookName: string, ranges: seq<BibleRange>, version: Version)

  /** The two URI template dialects. */
  datatype TemplateKind = DefaultTemplate | OliveTreeTemplate

  /**
   * The dialect of a link template: Olive Tree exactly when the template
   * contains the plain words `book`, `chapter` and `verse` somewhere, in any
   * order and not necessarily inside `{{…}}`.
   */
  function KindOf(linkTemplate: string): (k: TemplateKind)
    ensures k == OliveTreeTemplate <==>
      Occurs(linkTemplate, "book") && Occurs(linkTemplate, "chapter") && Occurs(linkTemplate, "verse")
  {
    if Includes(linkTemplate, "book") && Includes(linkTemplate, "chapter") && Includes(linkTemplate, "verse")
    then OliveTreeTemplate
    else DefaultTemplate
  }

  /** The version that stands for the whole reference: the first one of a list. */
  function FirstVersion(v: Version): (name: string)
    ensures v.Single? ==> name == v.name
    ensures v.Many? ==> name in v.names && name == v.names[0]
  {
    match v
    case Single(name) => name
    case Many(names) => names[0]
  }

  /** What replaces white space in URIs: `+`, or `encodeURIComponent(' ')`. */
  function SpaceChar(encodeSpacesToPlus: bool): (c: string) {
    if encodeSpacesToPlus then "+" else "%20"
  }

  /**
   * The book name as it goes into a URI: every maximal white-space run
   * replaced by the space character, all other characters kept.
   */
  function BookUri(bookName: string, encodeSpacesToPlus: bool): (r: string)
    ensures NoneOf(r, IsSpace)
    ensures NoneOf(bookName, IsSpace) ==> r == bookName
    ensures forall k :: 0 <= k < |r| ==> r[k] in bookName || r[k] in SpaceChar(encodeSpacesToPlus)
  {
    ReplaceSpaceRuns(bookName, SpaceChar(encodeSpacesToPlus))
  }

  /** `${from}${to}` of the default dialect: the first verse, then `-last` for a real range. */
  function VerseSpan(range: BibleRange): (span: string) {
    NatToString(range.fromVerse) +
    (if range.fromVerse == range.toVerse then "" else "-" + NatToString(range.toVerse))
  }

  /** The chapter-and-verse part of a label: the Olive Tree dialect shows only the first verse. */
  function RangeText(kind: TemplateKind, range: BibleRange): (text: string) {
    match kind
    case DefaultTemplate => NatToString(range.chapter) + ":" + VerseSpan(range)
    case OliveTreeTemplate => NatToString(range.chapter) + ":" + NatToString(range.fromVerse)
  }

  /**
   * The URI of one range: the template with its placeholders replaced, first
   * occurrences only. A template holding none of its dialect's placeholders
   * (say `…?q={{ verse }}` or `…/{id}`) is the URI as it stands.
   */
  function RangeUri(ref: ParsedReference, range: BibleRange, linkTemplate: string, encodeSpacesToPlus: bool): (uri: string)
    ensures !Occurs(linkTemplate, "{{verse}}") && !Occurs(linkTemplate, "{{version}}") &&
            (KindOf(linkTemplate) == OliveTreeTemplate ==>
               !Occurs(linkTemplate, "{{book}}") && !Occurs(linkTemplate, "{{chapter}}"))
            ==> uri == linkTemplate
  {
    var bookUri := BookUri(ref.bookName, encodeSpacesToPlus);
    var version := FirstVersion(ref.version);
    match KindOf(linkTemplate)
    case DefaultTemplate =>
      var verse := bookUri + SpaceChar(encodeSpacesToPlus) + NatToString(range.chapter) + "." + VerseSpan(range);
      Replace(Replace(linkTemplate, "{{verse}}", verse), "{{version}}", version)
    case OliveTreeTemplate =>
      var withBook := Replace(linkTemplate, "{{book}}", bookUri);
      var withChapter := Replace(withBook, "{{chapter}}", NatToString(range.chapter));
      var withVerse := Replace(withChapter, "{{verse}}", NatToString(range.fromVerse));
      Replace(withVerse, "{{version}}", version)
  }

  /**
   * The label of one range: the book prefix, then a space (written
   * unconditionally, so the first label has two spaces after the book and
   * the others start with one), the range text and the version suffix.
   */
  function Label(ref: ParsedReference, range: BibleRange, ix: nat, defaultVersion: string, kind: TemplateKind): (caption: string)
    ensures var tail := RangeText(kind, range) + VersionSuffix(ix, |ref.ranges|, FirstVersion(ref.version), defaultVersion);
      (ix == 0 ==> caption == ref.bookName + " " + " " + tail) && (ix != 0 ==> caption == " " + tail)
  {
    var rt, v := RangeText(kind, range), VersionSuffix(ix, |ref.ranges|, FirstVersion(ref.version), defaultVersion);
    if ix == 0 then FirstLabel(ref.bookName, rt, v); BookPrefix(ix, ref.bookName) + " " + rt + v
    else LaterLabel(rt, v); BookPrefix(ix, ref.bookName) + " " + rt + v
  }

  /** `formatVerseRange` as a label and a URI. */
  function FormatLink(ref: ParsedReference, range: BibleRange, ix: nat, defaultVersion: string,
                      linkTemplate: string, encodeSpacesToPlus: bool): (link: Link)
  {
    Link(Label(ref, range, ix, defaultVersion, KindOf(linkTemplate)),
         RangeUri(ref, range, linkTemplate, encodeSpacesToPlus))
  }

  /**
   * `formatVerseRange`: the rendered markdown link of one range, which shows
   * the label between the brackets and links to the URI between the
   * parentheses.
   */
  function FormatVerseRange(ref: ParsedReference, range: BibleRange, ix: nat, defaultVersion: string,
                            linkTemplate: string, encodeSpacesToPlus: bool): (md: string)
    ensures IsMarkdownLink(md, FormatLink(ref, range, ix, defaultVersion, linkTemplate, encodeSpacesToPlus))
  {
    var link := FormatLink(ref, range, ix, defaultVersion, linkTemplate, encodeSpacesToPlus);
    Render(link)
  }

  /** `ranges.map((range, ix) => formatVerseRange(...))`: one link per range, in order. */
  function RangeLinks(ref: ParsedReference, settings: PluginSettings): (links: seq<string>)
    ensures |links| == |ref.ranges|
    ensures forall ix :: 0 <= ix < |links| ==>
      links[ix] == Render(FormatLink(ref, ref.ranges[ix], ix, settings.defaultVersion,
                                     settings.linkTemplate, settings.encodeSpacesToPlus))
  {
    seq(|ref.ranges|, ix requires 0 <= ix < |ref.ranges| =>
      FormatVerseRange(ref, ref.ranges[ix], ix, settings.defaultVersion,
                       settings.linkTemplate, settings.encodeSpacesToPlus))
  }

  /** The text that replaces the selection: the links joined with ", ". */
  function ReplacementText(ref: ParsedReference, settings: PluginSettings): (r: string)
    ensures r == "" <==> |ref.ranges| == 0
  {
    var links := RangeLinks(ref, settings);
    assert |links| > 0 ==> links[0] <= Join(links, ", ");
    Join(links, ", ")
  }

  // ---------------------------------------------------------------------
  // Properties of the formatter
  // ---------------------------------------------------------------------

  /** The first label: the book and two spaces, then the range text and suffix as one tail. */
  lemma FirstLabel(book: string, rt: string, v: string)
    ensures book + " " + " " + rt + v == book + " " + " " + (rt + v)
  {
  }

  /** The later label: the empty book prefix drops out and the space leads the range text. */
  lemma LaterLabel(rt: string, v: string)
    ensures "" + " " + rt + v == " " + (rt + v)
  {
  }

  /**
   * The label ends in " <version>" exactly for the last range and only when
   * the reference's first version differs from the default version.
   */
  lemma VersionOnlyOnLast(ref: ParsedReference, range: BibleRange, ix: nat, defaultVersion: string, kind: TemplateKind)
    ensures var l := Label(ref, range, ix, defaultVersion, kind);
      var head := BookPrefix(ix, ref.bookName) + " " + RangeText(kind, range);
      var v := FirstVersion(ref.version);
      (ix == |ref.ranges| - 1 && v != defaultVersion ==> l == head + " " + v) &&
      (ix != |ref.ranges| - 1 || v == defaultVersion ==> l == head)
  {
  }

  /** The URI-only space setting never changes a label. */
  lemma SpaceSettingKeepsLabel(ref: ParsedReference, range: BibleRange, ix: nat, defaultVersion: string,
                               linkTemplate: string)
    ensures FormatLink(ref, range, ix, defaultVersion, linkTemplate, true).text ==
            FormatLink(ref, range, ix, defaultVersion, linkTemplate, false).text
  {
  }

  /** The default dialect shows `-toVerse` exactly when the range spans more than one verse. */
  lemma DefaultHyphenIffRange(range: BibleRange)
    ensures '-' in RangeText(DefaultTemplate, range) <==> range.fromVerse != range.toVerse
  {
    var c, f := NatToString(range.chapter), NatToString(range.fromVerse);
    assert '-' !in c && '-' !in f;
    if range.fromVerse != range.toVerse {
      var s := RangeText(DefaultTemplate, range);
      assert s[|c| + 1 + |f|] == '-';
    }
  }

  /**
   * Reads `chapter:from[-to]` back into a range; a missing `-to` means a
   * single verse.
   */
  function DecodeRangeText(s: string): (r: Option<BibleRange>) {
    match IndexOf(s, ":")
    case None => None
    case Some(i) =>
      var rest := s[i + 1..];
      var (from, to) := match IndexOf(rest, "-")
                        case None => (rest, rest)
                        case Some(j) => (rest[..j], rest[j + 1..]);
      if IsDigits(s[..i]) && IsDigits(from) && IsDigits(to)
      then Some(BibleRange(ParseDigits(s[..i]), ParseDigits(from), ParseDigits(to)))
      else None
  }

  /** The default dialect's range text keeps the whole range: it decodes back to it. */
  lemma DefaultRangeTextRoundTrip(range: BibleRange)
    ensures DecodeRangeText(RangeText(DefaultTemplate, range)) == Some(range)
  {
    var c := NatToString(range.chapter);
    ColonSplits(c, VerseSpan(range));
    VerseSpanDecodes(range);
  }

  /** A colon-free head before the first `:` is found again, with the text after it. */
  lemma ColonSplits(c: string, rest: string)
    requires ':' !in c
    ensures var s := c + ":" + rest;
      IndexOf(s, ":") == Some(|c|) && s[..|c|] == c && s[|c| + 1..] == rest
  {
    var s := c + ":" + rest;
    FirstAfterPrefix(c, ":", rest);
    IndexOfIsFirst(s, ":", |c|);
    assert s[..|c|] == c;
    assert s[|c| + 1..] == rest;
  }

  /** The verse span splits at its hyphen, if any, into the verses it was printed from. */
  lemma VerseSpanDecodes(range: BibleRange)
    ensures var span := VerseSpan(range);
      match IndexOf(span, "-")
      case None => range.fromVerse == range.toVerse && span == NatToString(range.fromVerse)
      case Some(j) => span[..j] == NatToString(range.fromVerse) && span[j + 1..] == NatToString(range.toVerse)
  {
    var f := NatToString(range.fromVerse);
    if range.fromVerse == range.toVerse {
      assert VerseSpan(range) == f;
      AbsentLead(f, "-");
    } else {
      var t := NatToString(range.toVerse);
      assert VerseSpan(range) == f + "-" + t;
      FirstAfterPrefix(f, "-", t);
      IndexOfIsFirst(f + "-" + t, "-", |f|);
      assert (f + "-" + t)[..|f|] == f;
      assert (f + "-" + t)[|f| + 1..] == t;
    }
  }

  /**
   * In the default dialect the label tells ranges apart: two ranges at the
   * same position of the same reference get the same label only when they
   * are the same range.
   */
  lemma DefaultLabelInjective(ref: ParsedReference, r1: BibleRange, r2: BibleRange, ix: nat, defaultVersion: string)
    requires Label(ref, r1, ix, defaultVersion, DefaultTemplate) == Label(ref, r2, ix, defaultVersion, DefaultTemplate)
    ensures r1 == r2
  {
    var p := BookPrefix(ix, ref.bookName) + " ";
    var v := VersionSuffix(ix, |ref.ranges|, FirstVersion(ref.version), defaultVersion);
    var t1, t2 := RangeText(DefaultTemplate, r1), RangeText(DefaultTemplate, r2);
    CancelAround(p, t1, t2, v);
    DefaultRangeTextRoundTrip(r1);
    DefaultRangeTextRoundTrip(r2);
  }

  /** Equal texts with the same prefix and suffix have equal middles. */
  lemma CancelAround(p: string, x: string, y: string, v: string)
    requires p + x + v == p + y + v
    ensures x == y
  {
    var n := |p + x + v|;
    assert x == (p + x + v)[|p|..n - |v|];
    assert y == (p + y + v)[|p|..n - |v|];
  }

  /**
   * The Olive Tree dialect's range text loses the end of the range: it
   * decodes to the single first verse.
   */
  lemma OliveTreeRangeTextDropsEnd(range: BibleRange)
    ensures DecodeRangeText(RangeText(OliveTreeTemplate, range)) ==
            Some(BibleRange(range.chapter, range.fromVerse, range.fromVerse))
  {
    var c, f := NatToString(range.chapter), NatToString(range.fromVerse);
    ColonSplits(c, f);
    AbsentLead(f, "-");
  }

  /** In the Olive Tree dialect nothing of the output depends on `toVerse`. */
  lemma OliveTreeIgnoresToVerse(ref: ParsedReference, chapter: nat, fromVerse: nat, to1: nat, to2: nat,
                                ix: nat, defaultVersion: string, linkTemplate: string, encodeSpacesToPlus: bool)
    requires KindOf(linkTemplate) == OliveTreeTemplate
    ensures FormatLink(ref, BibleRange(chapter, fromVerse, to1), ix, defaultVersion, linkTemplate, encodeSpacesToPlus) ==
            FormatLink(ref, BibleRange(chapter, fromVerse, to2), ix, defaultVersion, linkTemplate, encodeSpacesToPlus)
  {
  }

  /** Characters that the formatter never puts into a URI on its own. */
  lemma BookUriAvoids(bookName: string, encodeSpacesToPlus: bool, c: char)
    requires c !in bookName && c != '+' && c != '%' && c != '2' && c != '0'
    ensures c !in BookUri(bookName, encodeSpacesToPlus)
  {
  }

  /** The default dialect's `{{verse}}` value brings in no `{` or `$` that the book name lacks. */
  lemma VerseValueAvoids(bookName: string, range: BibleRange, encodeSpacesToPlus: bool, c: char)
    requires c == '{' || c == '$'
    requires c !in bookName
    ensures c !in BookUri(bookName, encodeSpacesToPlus) + SpaceChar(encodeSpacesToPlus) +
                  NatToString(range.chapter) + "." + VerseSpan(range)
  {
    BookUriAvoids(bookName, encodeSpacesToPlus, c);
    NumberAvoids(range.chapter, c);
    SpanAvoids(range, c);
    assert c !in SpaceChar(encodeSpacesToPlus);
  }

  /** The verse span holds digits and at most a `-`. */
  lemma SpanAvoids(range: BibleRange, c: char)
    requires !IsDigit(c) && c != '-'
    ensures c !in VerseSpan(range)
  {
    NumberAvoids(range.fromVerse, c);
    NumberAvoids(range.toVerse, c);
  }

  /** A number's text holds only digits. */
  lemma NumberAvoids(n: nat, c: char)
    requires !IsDigit(c)
    ensures c !in NatToString(n)
  {
  }

  /** A concatenation regrouped: the five parts of a default-dialect verse placeholder value. */
  lemma Regroup(a: string, x1: string, x2: string, x3: string, x4: string, x5: string, b: string, y: string, c: string)
    ensures a + (x1 + x2 + x3 + x4 + x5) + b + y + c == a + x1 + x2 + x3 + x4 + x5 + b + y + c
  {
  }

  /**
   * A default-dialect template `a{{verse}}b{{version}}c`, whose literal parts
   * hold no `{`: `{{verse}}` becomes book URI, space character, chapter, `.`
   * and verse span; `{{version}}` becomes the first version; the literal
   * parts stay as they are.
   */
  lemma DefaultTemplateUri(ref: ParsedReference, range: BibleRange, a: string, b: string, c: string,
                           encodeSpacesToPlus: bool)
    requires '{' !in a && '{' !in b
    requires '{' !in ref.bookName && '$' !in ref.bookName && '$' !in FirstVersion(ref.version)
    requires KindOf(a + "{{verse}}" + b + "{{version}}" + c) == DefaultTemplate
    ensures RangeUri(ref, range, a + "{{verse}}" + b + "{{version}}" + c, encodeSpacesToPlus) ==
      a + BookUri(ref.bookName, encodeSpacesToPlus) + SpaceChar(encodeSpacesToPlus) +
      NatToString(range.chapter) + "." + VerseSpan(range) + b + FirstVersion(ref.version) + c
  {
    var bookUri, sp := BookUri(ref.bookName, encodeSpacesToPlus), SpaceChar(encodeSpacesToPlus);
    var ch, span := NatToString(range.chapter), VerseSpan(range);
    var verse := bookUri + sp + ch + "." + span;
    VerseValueAvoids(ref.bookName, range, encodeSpacesToPlus, '{');
    VerseValueAvoids(ref.bookName, range, encodeSpacesToPlus, '$');
    ReplaceTwo(a, "{{verse}}", b, "{{version}}", c, verse, FirstVersion(ref.version));
    Regroup(a, bookUri, sp, ch, ".", span, b, FirstVersion(ref.version), c);
  }

  /**
   * An Olive Tree template `a{{book}}b{{chapter}}c{{verse}}d{{version}}e`,
   * whose literal parts hold no `{`, is always recognised as Olive Tree, and
   * each placeholder receives its own value: the book URI, the chapter, the
   * FIRST verse only, and the first version.
   */
  lemma OliveTreeTemplateUri(ref: ParsedReference, range: BibleRange, a: string, b: string, c: string,
                             d: string, e: string, encodeSpacesToPlus: bool)
    requires '{' !in a && '{' !in b && '{' !in c && '{' !in d
    requires '{' !in ref.bookName && '$' !in ref.bookName && '$' !in FirstVersion(ref.version)
    ensures var t := a + "{{book}}" + b + "{{chapter}}" + c + "{{verse}}" + d + "{{version}}" + e;
      KindOf(t) == OliveTreeTemplate &&
      RangeUri(ref, range, t, encodeSpacesToPlus) ==
        a + BookUri(ref.bookName, encodeSpacesToPlus) + b + NatToString(range.chapter) + c +
        NatToString(range.fromVerse) + d + FirstVersion(ref.version) + e
  {
    var t := a + "{{book}}" + b + "{{chapter}}" + c + "{{verse}}" + d + "{{version}}" + e;
    OliveTreeMarkers(a, b, c, d, e);
    var bookUri := BookUri(ref.bookName, encodeSpacesToPlus);
    var ch, fv := NatToString(range.chapter), NatToString(range.fromVerse);
    BookUriAvoids(ref.bookName, encodeSpacesToPlus, '{');
    BookUriAvoids(ref.bookName, encodeSpacesToPlus, '$');
    assert '$' !in ch && '{' !in ch && '$' !in fv && '{' !in fv;
    ReplaceFour(a, "{{book}}", b, "{{chapter}}", c, "{{verse}}", d, "{{version}}", e,
                bookUri, ch, fv, FirstVersion(ref.version));
  }

  /** A template holding the four Olive Tree placeholders contains the three marker words. */
  lemma OliveTreeMarkers(a: string, b: string, c: string, d: string, e: string)
    ensures KindOf(a + "{{book}}" + b + "{{chapter}}" + c + "{{verse}}" + d + "{{version}}" + e) == OliveTreeTemplate
  {
    var t := a + "{{book}}" + b + "{{chapter}}" + c + "{{verse}}" + d + "{{version}}" + e;
    assert OccursAt(t, "book", |a| + 2);
    assert OccursAt(t, "chapter", |a| + 8 + |b| + 2);
    assert OccursAt(t, "verse", |a| + 8 + |b| + 11 + |c| + 2);
  }

  /** With no ranges there is nothing to link; with one range the text is that single link. */
  lemma ReplacementTextShape(ref: ParsedReference, settings: PluginSettings)
    ensures |ref.ranges| == 0 ==> ReplacementText(ref, settings) == ""
    ensures |ref.ranges| == 1 ==>
      ReplacementText(ref, settings) ==
        Render(FormatLink(ref, ref.ranges[0], 0, settings.defaultVersion, settings.linkTemplate,
                          settings.encodeSpacesToPlus))
  {
  }

  /**
   * With more than one range, the text is the links of all but the last
   * range, then ", ", then the last range's link.
   */
  lemma ReplacementTextLastLink(ref: ParsedReference, settings: PluginSettings)
    requires |ref.ranges| >= 2
    ensures var links := RangeLinks(ref, settings);
      ReplacementText(ref, settings) == Join(links[..|links| - 1], ", ") + ", " + links[|links| - 1]
  {
    JoinSnoc(RangeLinks(ref, settings), ", ");
  }

  /** With the default settings (an empty template) every link has an empty URI. */
  lemma DefaultSettingsEmptyUris(ref: ParsedReference, range: BibleRange, ix: nat)
    ensures FormatLink(ref, range, ix, DefaultSettings.defaultVersion, DefaultSettings.linkTemplate,
                       DefaultSettings.encodeSpacesToPlus).uri == ""
  {
  }
}
