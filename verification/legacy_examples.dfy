/**
 * Worked inputs for the legacy parser and formatter (main.ts), proved for
 * the exact strings: the reference `John 3:16-18, 4:1 NIV`, a book token
 * glued to its chapter, a numbered book, and a selection that is not a
 * reference. Each step is its own small lemma.
 */
module LegacyExamples {
  import opened Optional
  import opened Chars
  import opened JsString
  import opened LinkText
  import opened LegacyParser
  import opened LegacyFormatter

  const Sample := "John 3:16-18, 4:1 NIV"

  /** The text of the search link in front of the reference, and the template built from it. */
  const SearchPrefix := "https://www.biblegateway.com/" + "passage/?search="

  const GatewayTemplate := SearchPrefix + "{{verse}}" + "&version=" + "{{version}}" + ""

  // ---------------------------------------------------------------------
  // John 3:16-18, 4:1 NIV
  // ---------------------------------------------------------------------

  lemma SampleRuns()
    ensures RunEnd(Sample, 0, IsDigit) == 0
    ensures RunEnd(Sample, 0, IsWordChar) == 4
  {
    RunEndAt(Sample, 0, 0, IsDigit);
    RunEndAt(Sample, 0, 4, IsWordChar);
  }

  lemma SampleHead()
    ensures MatchHead(Sample) == Some(Head(0, 0, 4, 5))
  {
    SampleRuns();
    assert RunEnd(Sample, 0, IsSpace) == 0;
    assert IsSpace(Sample[4]) && IsDigit(Sample[5]);
  }

  lemma SampleTokens()
    ensures IsRangeToken("3:16-18") && IsRangeToken("4:1")
  {
    assert IsPoint("3:16") by { assert PointSplit("3:16", 1); }
    assert IsPoint("18");
    assert "3:16-18"[..4] == "3:16";
    assert "3:16-18"[5..] == "18";
    assert RangeSplit("3:16-18", 4);
    assert PointSplit("4:1", 1);
  }

  lemma SampleSlices()
    ensures |Sample| == 21 && Sample[5..12] == "3:16-18" && Sample[14..17] == "4:1"
    ensures Ends(Sample[12]) && Ends(Sample[17])
  {
  }

  lemma SampleFirstRange()
    ensures RangeEnd(Sample, 5) == 12
  {
    SampleTokens();
    SampleSlices();
    RangeGreedy(Sample, 5, 12);
  }

  lemma SampleSecondRange()
    ensures RunEnd(Sample, 13, IsSpace) == 14
    ensures RangeEnd(Sample, 14) == 17
  {
    SampleTokens();
    SampleSlices();
    RunEndAt(Sample, 13, 14, IsSpace);
    RangeGreedy(Sample, 14, 17);
  }

  lemma SampleGroupChars()
    ensures |Sample| == 21 && Sample[12] == ',' && IsDigit(Sample[14]) && Sample[17] == ' '
  {
  }

  lemma SampleGroup()
    ensures GroupEnd(Sample, 5) == 17
  {
    SampleFirstRange();
    SampleSecondRange();
    SampleGroupChars();
    assert GroupEnd(Sample, 14) == 17;
  }

  lemma SampleUnits()
    ensures Units(["3:16-18", "4:1"], [", ", ""]) == "3:16-18, 4:1"
  {
    var tokens, seps := ["3:16-18", "4:1"], [", ", ""];
    assert tokens[1..] == ["4:1"] && seps[1..] == [""];
    assert Units(["4:1"], [""]) == "4:1" + "" + Units([], []);
  }

  lemma SampleScan()
    ensures ScanRanges("3:16-18, 4:1") == ["3:16-18", "4:1"]
  {
    SampleTokens();
    SampleUnits();
    assert Ends(',');
    ScanUnits(["3:16-18", "4:1"], [", ", ""]);
  }

  lemma SampleRanges()
    ensures ScanRanges(Sample[5..17]) == ["3:16-18", "4:1"]
  {
    assert Sample[5..17] == "3:16-18, 4:1";
    SampleScan();
  }

  lemma SampleVersion()
    ensures TrailingWord(Sample, 17) == Some("NIV")
  {
    RunEndAt(Sample, 17, 18, IsSpace);
    RunEndAt(Sample, 18, 21, IsWordChar);
    assert Sample[18..21] == "NIV";
  }

  /** Two comma-separated ranges sharing one book and one trailing version. */
  lemma SampleParse()
    ensures VerseToLink(Sample, "ESV") == VerseRef("John", ["3:16-18", "4:1"], "NIV")
  {
    SampleHead();
    SampleGroup();
    SampleRanges();
    SampleVersion();
    assert Sample[0..4] == "John";
  }

  lemma SampleBookUri()
    ensures BookUri("John") == "John+"
  {
    BookUriShape("John");
  }

  lemma SampleRangeSplits()
    ensures "3:16-18" == "3" + ":" + "16-18" && "3.16-18" == "3" + "." + "16-18"
    ensures "4:1" == "4" + ":" + "1" && "4.1" == "4" + "." + "1"
  {
  }

  lemma SampleRangeUris()
    ensures RangeUri("3:16-18") == "3.16-18" && RangeUri("4:1") == "4.1"
  {
    SampleRangeSplits();
    RangeUriAfterChapter("3", "16-18");
    RangeUriAfterChapter("4", "1");
  }

  lemma GatewayParts()
    ensures '{' !in SearchPrefix && '{' !in "&version="
  {
  }

  lemma SampleParts()
    ensures '{' !in "John" && '$' !in "John" && '$' !in "NIV"
    ensures '{' !in "3:16-18" && '$' !in "3:16-18" && '{' !in "4:1" && '$' !in "4:1"
  {
  }

  lemma SampleUri(range: string, ix: nat)
    requires range == "3:16-18" || range == "4:1"
    ensures FormatLink(VerseRef("John", ["3:16-18", "4:1"], "NIV"), range, ix, "ESV", GatewayTemplate).uri ==
      SearchPrefix + (BookUri("John") + RangeUri(range)) + "&version=" + "NIV" + ""
  {
    GatewayParts();
    SampleParts();
    TemplateUri(VerseRef("John", ["3:16-18", "4:1"], "NIV"), range, ix, "ESV", SearchPrefix, "&version=", "");
  }

  /** The sample URI regrouped as the search prefix followed by its query text. */
  lemma Reassociate(p: string, a: string, b: string, c: string, d: string)
    ensures p + (a + b) + c + d + "" == p + (a + b + c + d)
  {
  }

  /** The query text of each sample link, spelled out as one literal. */
  lemma SampleQueries()
    ensures "John+" + "3.16-18" + "&version=" + "NIV" == "John+3.16-18&version=NIV"
    ensures "John+" + "4.1" + "&version=" + "NIV" == "John+4.1&version=NIV"
  {
  }

  lemma JoinPair(x: string, y: string, sep: string)
    ensures Join([x, y], sep) == x + sep + y
  {
    assert [x, y][1..] == [y];
  }

  lemma SampleLabels()
    ensures BookPrefix(0, "John") + "3:16-18" + VersionSuffix(0, 2, "NIV", "ESV") == "John 3:16-18"
    ensures BookPrefix(1, "John") + "4:1" + VersionSuffix(1, 2, "NIV", "ESV") == "4:1 NIV"
  {
  }

  lemma SampleFirstUri()
    ensures FormatLink(VerseRef("John", ["3:16-18", "4:1"], "NIV"), "3:16-18", 0, "ESV", GatewayTemplate).uri ==
      SearchPrefix + "John+3.16-18&version=NIV"
  {
    SampleBookUri();
    SampleRangeUris();
    SampleUri("3:16-18", 0);
    SampleQueries();
    Reassociate(SearchPrefix, "John+", "3.16-18", "&version=", "NIV");
  }

  lemma SampleSecondUri()
    ensures FormatLink(VerseRef("John", ["3:16-18", "4:1"], "NIV"), "4:1", 1, "ESV", GatewayTemplate).uri ==
      SearchPrefix + "John+4.1&version=NIV"
  {
    SampleBookUri();
    SampleRangeUris();
    SampleUri("4:1", 1);
    SampleQueries();
    Reassociate(SearchPrefix, "John+", "4.1", "&version=", "NIV");
  }

  lemma SampleLinkList()
    ensures RangeLinks(VerseRef("John", ["3:16-18", "4:1"], "NIV"), LegacySettings("ESV", GatewayTemplate)) ==
      [Render(Link("John 3:16-18", SearchPrefix + "John+3.16-18&version=NIV")),
       Render(Link("4:1 NIV", SearchPrefix + "John+4.1&version=NIV"))]
  {
    SampleLabels();
    SampleFirstUri();
    SampleSecondUri();
  }

  /**
   * The whole command on the sample: the book only in the first label, the
   * version only in the last, the first colon of each range turned into a dot.
   */
  lemma SampleLinks()
    ensures LinkToVerse(Sample, LegacySettings("ESV", GatewayTemplate)) ==
      Render(Link("John 3:16-18", SearchPrefix + "John+3.16-18&version=NIV")) + ", " +
      Render(Link("4:1 NIV", SearchPrefix + "John+4.1&version=NIV"))
  {
    SampleParse();
    SampleLinkList();
    JoinPair(Render(Link("John 3:16-18", SearchPrefix + "John+3.16-18&version=NIV")),
             Render(Link("4:1 NIV", SearchPrefix + "John+4.1&version=NIV")), ", ");
  }

  // ---------------------------------------------------------------------
  // John3:16
  // ---------------------------------------------------------------------

  lemma GluedRuns()
    ensures RunEnd("John3:16", 0, IsDigit) == 0
    ensures RunEnd("John3:16", 0, IsWordChar) == 5
  {
    RunEndAt("John3:16", 0, 0, IsDigit);
    RunEndAt("John3:16", 0, 5, IsWordChar);
  }

  lemma GluedHead()
    ensures MatchHead("John3:16") == Some(Head(0, 0, 4, 4))
  {
    var s := "John3:16";
    GluedRuns();
    assert RunEnd(s, 0, IsSpace) == 0;
    assert !IsSpace(s[5]);
    assert LastDigit(s, 1, 5) == Some(4);
  }

  lemma GluedGroup()
    ensures GroupEnd("John3:16", 4) == 8
    ensures ScanRanges("John3:16"[4..8]) == ["3:16"]
  {
    var s := "John3:16";
    assert IsRangeToken("3:16") by { assert PointSplit("3:16", 1); }
    assert s[4..8] == "3:16";
    RangeGreedy(s, 4, 8);
    assert "3:16" == Units(["3:16"], [""]);
    ScanUnits(["3:16"], [""]);
  }

  /** `\w+` gives back the digits glued to a book name: `John3:16` is book `John`, range `3:16`. */
  lemma GluedChapter()
    ensures VerseToLink("John3:16", "ESV") == VerseRef("John", ["3:16"], "ESV")
  {
    GluedHead();
    GluedGroup();
    assert TrailingWord("John3:16", 8) == None;
    assert "John3:16"[0..4] == "John";
  }

  // ---------------------------------------------------------------------
  // 1 John 3:16
  // ---------------------------------------------------------------------

  lemma NumberedRuns()
    ensures RunEnd("1 John 3:16", 0, IsDigit) == 1
    ensures RunEnd("1 John 3:16", 1, IsSpace) == 2
    ensures RunEnd("1 John 3:16", 2, IsWordChar) == 6
  {
    var s := "1 John 3:16";
    RunEndAt(s, 0, 1, IsDigit);
    RunEndAt(s, 1, 2, IsSpace);
    RunEndAt(s, 2, 6, IsWordChar);
  }

  lemma NumberedHead()
    ensures MatchHead("1 John 3:16") == Some(Head(1, 2, 6, 7))
  {
    var s := "1 John 3:16";
    NumberedRuns();
    assert IsSpace(s[6]) && IsDigit(s[7]);
  }

  lemma NumberedGroup()
    ensures GroupEnd("1 John 3:16", 7) == 11
    ensures ScanRanges("1 John 3:16"[7..11]) == ["3:16"]
  {
    var s := "1 John 3:16";
    assert IsRangeToken("3:16") by { assert PointSplit("3:16", 1); }
    assert s[7..11] == "3:16";
    RangeGreedy(s, 7, 11);
    assert "3:16" == Units(["3:16"], [""]);
    ScanUnits(["3:16"], [""]);
  }

  lemma NumberedBookText()
    ensures "1 John 3:16"[..1] + " " + "1 John 3:16"[2..6] == "1 John"
  {
  }

  /** A leading numeral joins the book with one space. */
  lemma NumberedBookSample()
    ensures VerseToLink("1 John 3:16", "ESV") == VerseRef("1 John", ["3:16"], "ESV")
  {
    NumberedHead();
    NumberedGroup();
    NumberedBookText();
    assert TrailingWord("1 John 3:16", 11) == None;
  }

  // ---------------------------------------------------------------------
  // John 3:16:5
  // ---------------------------------------------------------------------

  lemma ColonTailRuns()
    ensures RunEnd("John 3:16:5", 0, IsDigit) == 0
    ensures RunEnd("John 3:16:5", 0, IsWordChar) == 4
    ensures RunEnd("John 3:16:5", 5, IsDigit) == 6
    ensures RunEnd("John 3:16:5", 7, IsDigit) == 9
  {
    var s := "John 3:16:5";
    RunEndAt(s, 0, 0, IsDigit);
    RunEndAt(s, 0, 4, IsWordChar);
    RunEndAt(s, 5, 6, IsDigit);
    RunEndAt(s, 7, 9, IsDigit);
  }

  lemma ColonTailTrail()
    ensures TrailingWord("John 3:16:5", 9) == None
  {
    var s := "John 3:16:5";
    RunEndAt(s, 9, 9, IsSpace);
    RunEndAt(s, 9, 9, IsWordChar);
  }

  lemma ColonTailHead()
    ensures MatchHead("John 3:16:5") == Some(Head(0, 0, 4, 5))
  {
    var s := "John 3:16:5";
    ColonTailRuns();
    assert IsSpace(s[4]) && IsDigit(s[5]);
  }

  lemma ColonTailGroup()
    ensures GroupEnd("John 3:16:5", 5) == 9
    ensures ScanRanges("John 3:16:5"[5..9]) == ["3:16"]
  {
    var s := "John 3:16:5";
    ColonTailRuns();
    assert IsVerseSep(s[6]) && IsDigit(s[7]);
    assert PointEnd(s, 5) == 9;
    assert RangeEnd(s, 5) == 9;
    assert UnitEnd(s, 5) == 9;
    assert IsRangeToken("3:16") by { assert PointSplit("3:16", 1); }
    assert s[5..9] == "3:16";
    assert "3:16"[0..4] == "3:16";
    assert "3:16" == Units(["3:16"], [""]);
    ScanUnits(["3:16"], [""]);
  }

  /**
   * A second `:` right after a range ends the range group: the regex keeps
   * `3:16`, and the `:5` after it is neither a range nor a version.
   */
  lemma ColonAfterRange()
    ensures VerseToLink("John 3:16:5", "ESV") == VerseRef("John", ["3:16"], "ESV")
  {
    ColonTailHead();
    ColonTailGroup();
    ColonTailTrail();
    assert "John 3:16:5"[0..4] == "John";
  }

  // ---------------------------------------------------------------------
  // hello world
  // ---------------------------------------------------------------------

  lemma WordRuns()
    ensures RunEnd("hello world", 0, IsDigit) == 0
    ensures RunEnd("hello world", 0, IsWordChar) == 5
  {
    RunEndAt("hello world", 0, 0, IsDigit);
    RunEndAt("hello world", 0, 5, IsWordChar);
  }

  /** Text without a chapter after its first word is not a reference: the command writes nothing. */
  lemma NotAReference()
    ensures VerseToLink("hello world", "ESV") == VerseRef("", [], "ESV")
    ensures LinkToVerse("hello world", DefaultLegacySettings) == ""
  {
    var s := "hello world";
    WordRuns();
    assert !IsDigit(s[6]);
    assert LastDigit(s, 1, 5) == None;
    assert MatchHead(s) == None;
  }
}
