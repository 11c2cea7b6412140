/**
 * The legacy link formatter of the plugin (main.ts, `formatVerseRange` and
 * the command that maps it over the ranges of `verseToLink`). Its template
 * has a single `{{verse}}` placeholder, which receives the book and the
 * range together, and an optional `{{version}}` placeholder.
 */
module LegacyFormatter {
  import opened Chars
  import opened JsString
  import opened LinkText
  import opened LegacyParser

  /** The legacy settings record. */
  datatype LegacySettings = LegacySettings(defaultVersion: string, linkTemplate: string)

  /** The values used for every setting the user has not saved. */
  const DefaultLegacySettings := LegacySettings("default", "")

  /** `${book}+`.replace(' ', '+'): a `+` appended, then the FIRST space turned into `+`. */
  function BookUri(book: string): (uri: string) {
    Replace(book + "+", " ", "+")
  }

  /** `range.replace(':', '.')`: only the FIRST colon becomes a dot. */
  function RangeUri(range: string): (uri: string) {
    Replace(range, ":", ".")
  }

  /**
   * `linkTemplate.replace('{{verse}}', …).replace('{{version}}', …)`: the
   * first `{{verse}}` and then the first `{{version}}` replaced. A template
   * without either placeholder (say `…?q={{ verse }}` or `…/{id}`) is the
   * URI as it stands.
   */
  function FillTemplate(linkTemplate: string, verse: string, version: string): (uri: string)
    ensures !Occurs(linkTemplate, "{{verse}}") && !Occurs(linkTemplate, "{{version}}") ==> uri == linkTemplate
  {
    Replace(Replace(linkTemplate, "{{verse}}", verse), "{{version}}", version)
  }

  /**
   * The label of one range: the book names it only on the first range, the
   * raw range text follows, and " <version>" ends it only on the last range
   * when the version is not the default one.
   */
  function Label(ref: VerseRef, range: string, ix: nat, defaultVersion: string): (text: string)
    ensures var suffix := if ix == |ref.ranges| - 1 && ref.version != defaultVersion then " " + ref.version else "";
      (ix == 0 ==> text == ref.book + " " + range + suffix) && (ix != 0 ==> text == range + suffix)
  {
    BookPrefix(ix, ref.book) + range + VersionSuffix(ix, |ref.ranges|, ref.version, defaultVersion)
  }

  /**
   * `formatVerseRange` as a label and a URI: the URI is the template filled
   * with the book and range URIs and the version.
   */
  function FormatLink(ref: VerseRef, range: string, ix: nat, defaultVersion: string, linkTemplate: string): (link: Link) {
    Link(Label(ref, range, ix, defaultVersion), FillTemplate(linkTemplate, BookUri(ref.book) + RangeUri(range), ref.version))
  }

  /**
   * `formatVerseRange`: the rendered markdown link of one range, which shows
   * the label between the brackets and links to the URI between the
   * parentheses.
   */
  function FormatVerseRange(ref: VerseRef, range: string, ix: nat, defaultVersion: string, linkTemplate: string): (md: string)
    ensures IsMarkdownLink(md, FormatLink(ref, range, ix, defaultVersion, linkTemplate))
  {
    Render(FormatLink(ref, range, ix, defaultVersion, linkTemplate))
  }

  /** `ranges.map((range, ix) => formatVerseRange(...))`: one link per range, in order. */
  function RangeLinks(ref: VerseRef, settings: LegacySettings): (links: seq<string>)
    ensures |links| == |ref.ranges|
    ensures forall ix :: 0 <= ix < |links| ==>
      links[ix] == Render(FormatLink(ref, ref.ranges[ix], ix, settings.defaultVersion, settings.linkTemplate))
  {
    seq(|ref.ranges|, ix requires 0 <= ix < |ref.ranges| =>
      FormatVerseRange(ref, ref.ranges[ix], ix, settings.defaultVersion, settings.linkTemplate))
  }

  /**
   * The text that replaces the selection: the links of the parsed selection
   * joined with ", ", empty exactly when the selection does not match.
   */
  function LinkToVerse(selection: string, settings: LegacySettings): (r: string)
    ensures r == "" <==> !HasHead(selection)
  {
    var links := RangeLinks(VerseToLink(selection, settings.defaultVersion), settings);
    assert |links| > 0 ==> links[0] <= Join(links, ", ");
    Join(links, ", ")
  }

  // ---------------------------------------------------------------------
  // Properties of the legacy formatter
  // ---------------------------------------------------------------------

  /**
   * The book URI is the book with `+` appended and its first space, if any,
   * turned into `+`; later spaces stay.
   */
  lemma BookUriShape(book: string)
    ensures ' ' !in book ==> BookUri(book) == book + "+"
    ensures forall i :: FirstOccurrence(book, " ", i) ==> BookUri(book) == book[..i] + "+" + book[i + 1..] + "+"
  {
    if ' ' !in book {
      ReplaceAbsent(book + "+", " ", "+");
    }
    forall i | FirstOccurrence(book, " ", i)
      ensures BookUri(book) == book[..i] + "+" + book[i + 1..] + "+"
    {
      var s := book + "+";
      assert s[..i] == book[..i];
      assert s[i + 1..] == book[i + 1..] + "+";
      assert FirstOccurrence(s, " ", i) by {
        forall j | 0 <= j < i ensures !OccursAt(s, " ", j) {
          assert !OccursAt(book, " ", j);
          assert s[j..j + 1] == book[j..j + 1];
        }
        assert s[i..i + 1] == book[i..i + 1];
      }
      ReplaceFirst(s, " ", "+", i);
    }
  }

  /** For every book `verseToLink` produces, the book URI has no space left in it. */
  lemma ParsedBookUriHasNoSpace(selection: string, defaultVersion: string)
    ensures ' ' !in BookUri(VerseToLink(selection, defaultVersion).book)
  {
    var book := VerseToLink(selection, defaultVersion).book;
    BookUriShape(book);
    if !HasHead(selection) {
      assert book == "";
    } else if IsWord(book) {
      WordHasNoSpace(book);
    } else {
      var n :| NumberedBook(book, n);
      NumberedBookUri(book, n);
    }
  }

  /** Word characters and digits are never spaces. */
  lemma WordHasNoSpace(w: string)
    requires All(w, IsWordChar)
    ensures ' ' !in w
  {
    forall j | 0 <= j < |w| ensures w[j] != ' ' {
      ClassesNest(w[j]);
    }
  }

  /** A numbered book such as `1 John` becomes `1+John+`. */
  lemma NumberedBookUri(book: string, n: int)
    requires NumberedBook(book, n)
    ensures BookUri(book) == book[..n] + "+" + book[n + 1..] + "+"
    ensures ' ' !in BookUri(book)
  {
    assert FirstOccurrence(book, " ", n) by {
      assert book[n..n + 1] == " ";
      forall j | 0 <= j < n ensures !OccursAt(book, " ", j) {
        assert book[..n][j] == book[j];
        ClassesNest(book[j]);
      }
    }
    BookUriShape(book);
    assert All(book[..n], IsWordChar) by {
      forall j | 0 <= j < n ensures IsWordChar(book[..n][j]) {
        ClassesNest(book[..n][j]);
      }
    }
    WordHasNoSpace(book[..n]);
    WordHasNoSpace(book[n + 1..]);
  }

  /** Only the first colon of a range becomes a dot; the rest of the range text is kept. */
  lemma RangeUriShape(range: string)
    ensures ':' !in range ==> RangeUri(range) == range
    ensures forall i :: FirstOccurrence(range, ":", i) ==> RangeUri(range) == range[..i] + "." + range[i + 1..]
  {
    if ':' !in range {
      ReplaceAbsent(range, ":", ".");
    }
    forall i | FirstOccurrence(range, ":", i)
      ensures RangeUri(range) == range[..i] + "." + range[i + 1..]
    {
      ReplaceFirst(range, ":", ".", i);
    }
  }

  /** A cross-chapter range keeps its second colon in the URI. */
  lemma CrossChapterRangeUri()
    ensures RangeUri("3:16-4:2") == "3.16-4:2"
  {
    assert "3:16-4:2" == "3" + ":" + "16-4:2";
    assert "3.16-4:2" == "3" + "." + "16-4:2";
    RangeUriAfterChapter("3", "16-4:2");
  }

  /** After a colon-free chapter, the colon that follows it is the one turned into a dot. */
  lemma RangeUriAfterChapter(chapter: string, rest: string)
    requires ':' !in chapter
    ensures RangeUri(chapter + ":" + rest) == chapter + "." + rest
  {
    ReplaceAfterPrefix(chapter, ":", rest, ".");
  }

  /**
   * A template `a{{verse}}b{{version}}c` whose literal parts hold no `{`:
   * the book URI and range URI go where `{{verse}}` was, the version where
   * `{{version}}` was, and every other character of the template stays.
   */
  lemma TemplateUri(ref: VerseRef, range: string, ix: nat, defaultVersion: string, a: string, b: string, c: string)
    requires '{' !in a && '{' !in b
    requires '{' !in ref.book && '$' !in ref.book && '{' !in range && '$' !in range && '$' !in ref.version
    ensures FormatLink(ref, range, ix, defaultVersion, a + "{{verse}}" + b + "{{version}}" + c).uri ==
            a + (BookUri(ref.book) + RangeUri(range)) + b + ref.version + c
  {
    var verse := BookUri(ref.book) + RangeUri(range);
    UriAvoids(ref.book, range, '{');
    UriAvoids(ref.book, range, '$');
    ReplaceTwo(a, "{{verse}}", b, "{{version}}", c, verse, ref.version);
  }

  /** Replacing spaces and colons brings no `{` or `$` into the `{{verse}}` value. */
  lemma UriAvoids(book: string, range: string, ch: char)
    requires ch == '{' || ch == '$'
    requires ch !in book && ch !in range
    ensures ch !in BookUri(book) + RangeUri(range)
  {
    BookUriAvoids(book, ch);
    RangeUriAvoids(range, ch);
  }

  lemma BookUriAvoids(book: string, ch: char)
    requires ch != ' ' && ch != '+' && ch !in book
    ensures ch !in BookUri(book)
  {
    BookUriShape(book);
    if ' ' in book {
      var i := FirstIndex(book, ' ');
      FirstIndexOccurs(book, ' ');
      SliceAvoids(book, i, ch);
    }
  }

  lemma RangeUriAvoids(range: string, ch: char)
    requires ch != ':' && ch != '.' && ch !in range
    ensures ch !in RangeUri(range)
  {
    RangeUriShape(range);
    if ':' in range {
      var i := FirstIndex(range, ':');
      FirstIndexOccurs(range, ':');
      SliceAvoids(range, i, ch);
    }
  }

  /** The pieces around position `i` hold no character the whole string lacks. */
  lemma SliceAvoids(s: string, i: nat, ch: char)
    requires i < |s| && ch !in s
    ensures ch !in s[..i] && ch !in s[i + 1..]
  {
    assert s == s[..i] + [s[i]] + s[i + 1..];
  }

  /** The first `c` in `s` is the leftmost occurrence of the one-character pattern `[c]`. */
  lemma FirstIndexOccurs(s: string, c: char)
    requires c in s
    ensures FirstOccurrence(s, [c], FirstIndex(s, c))
  {
    var i := FirstIndex(s, c);
    assert s[i..i + 1] == [s[i]];
    forall j | 0 <= j < i ensures !OccursAt(s, [c], j) {
      assert s[j..j + 1] == [s[j]];
    }
  }

  /** The position of the first `c` in `s`. */
  function FirstIndex(s: string, c: char): (i: nat)
    requires c in s
    ensures i < |s| && s[i] == c
    ensures forall j :: 0 <= j < i ==> s[j] != c
  {
    if s[0] == c then 0 else 1 + FirstIndex(s[1..], c)
  }

  /** A matched selection gives one link per scanned range, joined with ", ". */
  lemma LinkCount(selection: string, settings: LegacySettings)
    requires HasHead(selection)
    ensures var ref := VerseToLink(selection, settings.defaultVersion);
      |RangeLinks(ref, settings)| == |ref.ranges| > 0 &&
      LinkToVerse(selection, settings) == Join(RangeLinks(ref, settings), ", ")
  {
  }
}
