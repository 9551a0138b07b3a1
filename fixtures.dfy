/** Concrete cases: the ToC that create_dummy_pdf.py writes into its
    ten-page sample document, a pair of entries on the same page, and titles
    that show what the sanitizer keeps. */
module Fixtures {
  import opened Sanitizer
  import opened Naming
  import opened Splitter

  /** The sample ToC: two chapters around a section, and a third chapter. */
  function DummyToc(): seq<TocEntry> {
    [TocEntry(1, "Chapter 1", 1), TocEntry(2, "Section 1.1", 2),
     TocEntry(1, "Chapter 2", 4), TocEntry(1, "Chapter 3", 8)]
  }

  /** Every entry of the sample is used, whatever its level: Chapter 1 keeps
      only its first page, because Section 1.1 starts on the second. */
  lemma DummyTocRanges()
    ensures Sections(DummyToc(), 10) ==
      [Section(1, "Chapter 1", 0, 0), Section(2, "Section 1.1", 1, 2),
       Section(3, "Chapter 2", 3, 6), Section(4, "Chapter 3", 7, 9)]
  {
  }

  /** A title without illegal characters and without surrounding whitespace
      only has its spaces replaced. */
  lemma SanitizeCleanTitle(t: string, r: string)
    requires forall k :: 0 <= k < |t| ==> !IsIllegal(t[k])
    requires t == [] || (!IsWhitespace(t[0]) && !IsWhitespace(t[|t| - 1]))
    requires |r| == |t|
    requires forall k :: 0 <= k < |t| ==> r[k] == if t[k] == ' ' then '_' else t[k]
    ensures SanitizeFilename(t) == r
  {
    RemoveIllegalKeepsLegal(t);
    StripSurrounded([], t, []);
    assert [] + t + [] == t;
  }

  /** `001_Chapter_1.pdf` is assembled from the id `001` and the title `Chapter_1`. */
  lemma ChapterFileParts(id: nat, title: string)
    requires FormatId(id) == "001" && SanitizeFilename(title) == "Chapter_1"
    ensures OutputFilename(id, title) == "001_Chapter_1.pdf"
  {
  }

  /** `002_Section_1.1.pdf` is assembled from the id `002` and the title `Section_1.1`. */
  lemma SectionFileParts(id: nat, title: string)
    requires FormatId(id) == "002" && SanitizeFilename(title) == "Section_1.1"
    ensures OutputFilename(id, title) == "002_Section_1.1.pdf"
  {
  }

  lemma FirstId()
    ensures FormatId(1) == "001"
  {
    assert Decimal(1) == "1" && ZeroPad("1", 3) == "001";
  }

  lemma SecondId()
    ensures FormatId(2) == "002"
  {
    assert Decimal(2) == "2" && ZeroPad("2", 3) == "002";
  }

  lemma ChapterTitle()
    ensures SanitizeFilename("Chapter 1") == "Chapter_1"
  {
    SanitizeCleanTitle("Chapter 1", "Chapter_1");
  }

  lemma SectionTitle()
    ensures SanitizeFilename("Section 1.1") == "Section_1.1"
  {
    SanitizeCleanTitle("Section 1.1", "Section_1.1");
  }

  /** The first section of the sample is saved as `001_Chapter_1.pdf`. */
  lemma FirstChapterFilename()
    ensures Section(1, "Chapter 1", 0, 0).Filename() == "001_Chapter_1.pdf"
  {
    FirstId();
    ChapterTitle();
    ChapterFileParts(1, "Chapter 1");
  }

  /** The second section of the sample is saved as `002_Section_1.1.pdf`. */
  lemma FirstSectionFilename()
    ensures Section(2, "Section 1.1", 1, 2).Filename() == "002_Section_1.1.pdf"
  {
    SecondId();
    SectionTitle();
    SectionFileParts(2, "Section 1.1");
  }

  /** Two entries on the same page: the first is skipped, the second covers
      the whole document, and its id stays 2. */
  lemma SamePageEntries()
    ensures Sections([TocEntry(1, "A", 1), TocEntry(1, "B", 1)], 5) == [Section(2, "B", 0, 4)]
  {
    var toc := [TocEntry(1, "A", 1), TocEntry(1, "B", 1)];
    assert Partition(toc, 5, 1) == [];
    assert Partition(toc, 5, 2) == [Section(2, "B", 0, 4)];
  }

  /** A run of spaces is not collapsed: each space becomes its own underscore. */
  lemma SpaceRunKept()
    ensures SanitizeFilename("a  b") == "a__b"
  {
    SanitizeCleanTitle("a  b", "a__b");
  }

  /** Whitespace other than the space character survives inside a title. */
  lemma InnerTabKept()
    ensures SanitizeFilename("a\tb") == "a\tb"
  {
    SanitizeCleanTitle("a\tb", "a\tb");
  }

  /** A title whose middle part filters to a clean string `r`, surrounded by
      whitespace and illegal characters, sanitizes to `r`. */
  lemma SanitizeAround(a: string, m: string, b: string, s: string, r: string)
    requires s == a + m + b
    requires forall k :: 0 <= k < |a| ==> IsWhitespace(a[k]) || IsIllegal(a[k])
    requires forall k :: 0 <= k < |b| ==> IsWhitespace(b[k]) || IsIllegal(b[k])
    requires RemoveIllegal(m) == r
    requires forall k :: 0 <= k < |r| ==> r[k] != ' '
    requires r == [] || (!IsWhitespace(r[0]) && !IsWhitespace(r[|r| - 1]))
    ensures SanitizeFilename(s) == r
  {
    SanitizeKeepsMiddle(a, m, b);
    ReplaceSpacesKeepsSpaceless(r);
  }

  /** Illegal characters are deleted before the ends are stripped, so the
      spaces they shielded are stripped too: `": a :"` becomes `"a"`. */
  lemma IllegalBeforeStrip()
    ensures SanitizeFilename(": a :") == "a"
  {
    SanitizeAround(": ", "a", " :", ": a :", "a");
  }

  /** The opposite order would keep those spaces: stripping `": a :"` first
      leaves it whole, and the later steps give `"_a_"`. */
  lemma StripFirstKeepsSpaces()
    ensures ReplaceSpaces(RemoveIllegal(Strip(": a :"))) == "_a_"
  {
    assert TrimLeft(": a :") == ": a :";
    assert TrimRight(": a :") == ": a :";
  }
}
