/** The ToC-to-page-range partitioner of pdf_splitter.py (`split_pdf_by_toc`),
    without the PDF library and the filesystem: every ToC entry, in order,
    becomes the inclusive 0-based page range from its own start page to the
    page before the next entry's start page (the last entry runs to the end of
    the document); the range is clamped to the document and skipped when it
    comes out empty. */
module Splitter {
  import opened Naming

  /** One entry of the flat ToC: nesting level, title and 1-based start page. */
  datatype TocEntry = TocEntry(level: int, title: string, startPage: int)

  /** One emitted section: the 1-based position of its entry in the ToC, its
      title, and the inclusive 0-based range of pages copied for it. */
  datatype Section = Section(id: nat, title: string, startIdx: int, endIdx: int) {
    /** The file the section is saved to. */
    function Filename(): string {
      OutputFilename(id, title)
    }
  }

  datatype SplitError = NoTableOfContents

  datatype Result<T> = Ok(value: T) | Err(error: SplitError)

  // ---------------------------------------------------------------------------
  // The computation for one entry, as specification functions.

  /** 0-based index of the entry's own start page, before clamping. */
  function RawStart(toc: seq<TocEntry>, i: nat): int
    requires i < |toc|
  {
    toc[i].startPage - 1
  }

  /** 0-based index of the entry's last page, before clamping: the page before
      the next entry starts, or the document's last page for the last entry. */
  function RawEnd(toc: seq<TocEntry>, totalPages: nat, i: nat): int
    requires i < |toc|
  {
    if i < |toc| - 1 then toc[i + 1].startPage - 2 else totalPages - 1
  }

  function ClampStart(x: int): int {
    if x < 0 then 0 else x
  }

  function ClampEnd(x: int, totalPages: nat): int {
    if x >= totalPages then totalPages - 1 else x
  }

  /** Entry `i` yields a section when its clamped range is not empty. */
  predicate Emitted(toc: seq<TocEntry>, totalPages: nat, i: nat)
    requires i < |toc|
  {
    ClampStart(RawStart(toc, i)) <= ClampEnd(RawEnd(toc, totalPages, i), totalPages)
  }

  function SectionOf(toc: seq<TocEntry>, totalPages: nat, i: nat): Section
    requires i < |toc|
  {
    Section(i + 1, toc[i].title, ClampStart(RawStart(toc, i)), ClampEnd(RawEnd(toc, totalPages, i), totalPages))
  }

  /** The sections emitted by the first `n` iterations of the loop. */
  function Partition(toc: seq<TocEntry>, totalPages: nat, n: nat): seq<Section>
    requires n <= |toc|
  {
    if n == 0 then []
    else Partition(toc, totalPages, n - 1) +
         (if Emitted(toc, totalPages, n - 1) then [SectionOf(toc, totalPages, n - 1)] else [])
  }

  /** All sections the loop emits. */
  function Sections(toc: seq<TocEntry>, totalPages: nat): seq<Section> {
    Partition(toc, totalPages, |toc|)
  }

  /** Section `s` is the one entry `i` yields. */
  predicate ListsEntry(s: seq<Section>, i: nat) {
    exists k :: 0 <= k < |s| && s[k].id == i + 1
  }

  // ---------------------------------------------------------------------------
  // The loop.

  /** The ToC check and the loop of `split_pdf_by_toc`: an empty ToC is an
      error; otherwise the sections to extract, in ToC order. */
  method SplitPdfByToc(toc: seq<TocEntry>, totalPages: nat) returns (r: Result<seq<Section>>)
    ensures r.Err? <==> toc == []
    ensures r.Ok? ==> r.value == Sections(toc, totalPages)
  {
    if toc == [] {
      return Err(NoTableOfContents);
    }
    var sections: seq<Section> := [];
    for i := 0 to |toc|
      invariant sections == Partition(toc, totalPages, i)
    {
      var startPageIdx := toc[i].startPage - 1;
      var endPageIdx;
      if i < |toc| - 1 {
        endPageIdx := toc[i + 1].startPage - 2;
      } else {
        endPageIdx := totalPages - 1;
      }
      if startPageIdx < 0 {
        startPageIdx := 0;
      }
      if endPageIdx >= totalPages {
        endPageIdx := totalPages - 1;
      }
      if startPageIdx > endPageIdx {
        continue;
      }
      sections := sections + [Section(i + 1, toc[i].title, startPageIdx, endPageIdx)];
    }
    return Ok(sections);
  }

  // ---------------------------------------------------------------------------
  // What the emitted sections are.

  /** One more iteration appends at most the section of the entry it handles. */
  lemma PartitionStep(toc: seq<TocEntry>, totalPages: nat, n: nat)
    requires 0 < n <= |toc|
    ensures var p, q := Partition(toc, totalPages, n), Partition(toc, totalPages, n - 1);
      |p| == |q| + (if Emitted(toc, totalPages, n - 1) then 1 else 0) &&
      (forall k :: 0 <= k < |q| ==> p[k] == q[k]) &&
      (Emitted(toc, totalPages, n - 1) ==> p[|q|] == SectionOf(toc, totalPages, n - 1))
  {
  }

  /** After `n` iterations each section is the one its entry yields, for an
      emitted entry among the first `n`. */
  lemma {:induction false} PartitionSound(toc: seq<TocEntry>, totalPages: nat, n: nat)
    requires n <= |toc|
    ensures var p := Partition(toc, totalPages, n);
      forall k :: 0 <= k < |p| ==>
        1 <= p[k].id <= n && Emitted(toc, totalPages, p[k].id - 1) &&
        p[k] == SectionOf(toc, totalPages, p[k].id - 1)
  {
    if n > 0 {
      PartitionSound(toc, totalPages, n - 1);
      PartitionStep(toc, totalPages, n);
    }
  }

  /** After `n` iterations the ids are strictly increasing. */
  lemma {:induction false} PartitionOrdered(toc: seq<TocEntry>, totalPages: nat, n: nat)
    requires n <= |toc|
    ensures var p := Partition(toc, totalPages, n);
      forall k, l :: 0 <= k < l < |p| ==> p[k].id < p[l].id
  {
    if n > 0 {
      PartitionOrdered(toc, totalPages, n - 1);
      PartitionSound(toc, totalPages, n - 1);
      PartitionStep(toc, totalPages, n);
    }
  }

  /** After `n` iterations an entry among the first `n` is listed exactly when
      it is emitted. */
  lemma {:induction false} PartitionComplete(toc: seq<TocEntry>, totalPages: nat, n: nat)
    requires n <= |toc|
    ensures var p := Partition(toc, totalPages, n);
      forall i :: 0 <= i < n ==> (ListsEntry(p, i) <==> Emitted(toc, totalPages, i))
  {
    if n > 0 {
      PartitionComplete(toc, totalPages, n - 1);
      PartitionSound(toc, totalPages, n - 1);
      PartitionStep(toc, totalPages, n);
      var q := Partition(toc, totalPages, n - 1);
      var p := Partition(toc, totalPages, n);
      forall i | 0 <= i < n ensures ListsEntry(p, i) <==> Emitted(toc, totalPages, i) {
        if ListsEntry(p, i) {
          var k :| 0 <= k < |p| && p[k].id == i + 1;
          if k < |q| {
            assert q[k].id == i + 1;
            assert ListsEntry(q, i);
          }
        }
        if Emitted(toc, totalPages, i) {
          if i < n - 1 {
            var k :| 0 <= k < |q| && q[k].id == i + 1;
            assert p[k].id == i + 1;
          } else {
            assert p[|q|].id == i + 1;
          }
        }
      }
    }
  }

  /** Every emitted range lies inside the document and is not empty, and every
      id is a position in the ToC. */
  lemma SectionsWithinDocument(toc: seq<TocEntry>, totalPages: nat)
    ensures var p := Sections(toc, totalPages);
      forall k :: 0 <= k < |p| ==>
        1 <= p[k].id <= |toc| && 0 <= p[k].startIdx <= p[k].endIdx <= totalPages - 1
  {
    PartitionSound(toc, totalPages, |toc|);
    assert Sections(toc, totalPages) == Partition(toc, totalPages, |toc|);
  }

  /** Each section carries the title of the ToC entry at position `id`, starts
      at that entry's start page minus one, raised to 0, and ends one page
      before the following entry's start page minus one (or at the last page
      for the last entry), lowered to the last page. */
  lemma SectionsFollowToc(toc: seq<TocEntry>, totalPages: nat)
    ensures var p := Sections(toc, totalPages);
      forall k :: 0 <= k < |p| ==>
        var j := p[k].id - 1;
        0 <= j < |toc| &&
        p[k].title == toc[j].title &&
        p[k].startIdx == (if toc[j].startPage - 1 < 0 then 0 else toc[j].startPage - 1) &&
        var e := if j < |toc| - 1 then toc[j + 1].startPage - 2 else totalPages - 1;
        p[k].endIdx == (if e >= totalPages then totalPages - 1 else e)
  {
    PartitionSound(toc, totalPages, |toc|);
    assert Sections(toc, totalPages) == Partition(toc, totalPages, |toc|);
  }

  /** Ids are strictly increasing: sections come out in ToC order, and the ids
      are the entries' positions, not renumbered after skipped entries. */
  lemma SectionsInTocOrder(toc: seq<TocEntry>, totalPages: nat)
    ensures var p := Sections(toc, totalPages);
      forall k, l :: 0 <= k < l < |p| ==> p[k].id < p[l].id
  {
    PartitionOrdered(toc, totalPages, |toc|);
    assert Sections(toc, totalPages) == Partition(toc, totalPages, |toc|);
  }

  /** An entry is emitted exactly when its clamped range is not empty; a
      skipped entry raises no error, it only leaves its id unused. */
  lemma EmittedIffRangeNotEmpty(toc: seq<TocEntry>, totalPages: nat, i: nat)
    requires i < |toc|
    ensures ListsEntry(Sections(toc, totalPages), i) <==>
      var st := toc[i].startPage - 1;
      var e := if i < |toc| - 1 then toc[i + 1].startPage - 2 else totalPages - 1;
      (if st < 0 then 0 else st) <= (if e >= totalPages then totalPages - 1 else e)
  {
    PartitionComplete(toc, totalPages, |toc|);
    assert Sections(toc, totalPages) == Partition(toc, totalPages, |toc|);
  }

  /** An entry that starts on the same page as its successor is skipped. */
  lemma SameStartPageSkipped(toc: seq<TocEntry>, totalPages: nat, i: nat)
    requires i < |toc| - 1 && toc[i].startPage == toc[i + 1].startPage
    ensures !ListsEntry(Sections(toc, totalPages), i)
  {
    PartitionComplete(toc, totalPages, |toc|);
    assert Sections(toc, totalPages) == Partition(toc, totalPages, |toc|);
  }

  /** Two sections from adjacent ToC entries follow each other in the output
      and meet exactly: when the second entry's start page is at least 1, the
      first section ends on the page just before the second begins, with no
      gap and no overlap. */
  lemma AdjacentSectionsMeet(toc: seq<TocEntry>, totalPages: nat, i: nat)
    requires i + 1 < |toc| && toc[i + 1].startPage >= 1
    ensures var p := Sections(toc, totalPages);
      forall k, l :: 0 <= k < |p| && 0 <= l < |p| && p[k].id == i + 1 && p[l].id == i + 2 ==>
        l == k + 1 && p[k].endIdx + 1 == p[l].startIdx
  {
    PartitionSound(toc, totalPages, |toc|);
    PartitionOrdered(toc, totalPages, |toc|);
    assert Sections(toc, totalPages) == Partition(toc, totalPages, |toc|);
    var p := Sections(toc, totalPages);
    forall k, l | 0 <= k < |p| && 0 <= l < |p| && p[k].id == i + 1 && p[l].id == i + 2
      ensures l == k + 1 && p[k].endIdx + 1 == p[l].startIdx
    {
      IdsSpread(toc, totalPages, k, l);
    }
  }

  /** Ids grow at least as fast as positions in the output. */
  lemma {:induction false} IdsSpread(toc: seq<TocEntry>, totalPages: nat, k: nat, l: nat)
    requires k <= l < |Sections(toc, totalPages)|
    ensures var p := Sections(toc, totalPages); p[l].id >= p[k].id + (l - k)
  {
    if k < l {
      IdsSpread(toc, totalPages, k, l - 1);
      SectionsInTocOrder(toc, totalPages);
    }
  }

  /** With start pages that never decrease, the sections are pairwise
      disjoint and in page order. */
  lemma SectionsDisjoint(toc: seq<TocEntry>, totalPages: nat)
    requires forall i, j :: 0 <= i < j < |toc| ==> toc[i].startPage <= toc[j].startPage
    ensures var p := Sections(toc, totalPages);
      forall k, l :: 0 <= k < l < |p| ==> p[k].endIdx < p[l].startIdx
  {
    PartitionSound(toc, totalPages, |toc|);
    PartitionOrdered(toc, totalPages, |toc|);
    assert Sections(toc, totalPages) == Partition(toc, totalPages, |toc|);
    var p := Sections(toc, totalPages);
    forall k, l | 0 <= k < l < |p| ensures p[k].endIdx < p[l].startIdx {
      var a, b := p[k].id - 1, p[l].id - 1;
      assert a < b;
      assert p[k].endIdx <= toc[a + 1].startPage - 2;
      assert toc[a + 1].startPage <= toc[b].startPage;
    }
  }

  /** A ToC whose first entry starts on page 1 and whose start pages strictly
      increase up to at most the page count tiles the whole document: every
      entry is emitted, the first section starts at page index 0, the last
      ends at the last page, and each section ends just before the next one
      begins. */
  lemma SectionsCoverDocument(toc: seq<TocEntry>, totalPages: nat)
    requires toc != [] && toc[0].startPage == 1
    requires forall i :: 0 <= i < |toc| - 1 ==> toc[i].startPage < toc[i + 1].startPage
    requires toc[|toc| - 1].startPage <= totalPages
    ensures var p := Sections(toc, totalPages);
      |p| == |toc| &&
      (forall k :: 0 <= k < |p| ==> p[k].id == k + 1) &&
      p[0].startIdx == 0 && p[|p| - 1].endIdx == totalPages - 1 &&
      forall k :: 0 <= k < |p| - 1 ==> p[k].endIdx + 1 == p[k + 1].startIdx
  {
    AllEmitted(toc, totalPages, |toc|);
    assert Sections(toc, totalPages) == Partition(toc, totalPages, |toc|);
    var p := Sections(toc, totalPages);
    forall k | 0 <= k < |p| - 1 ensures p[k].endIdx + 1 == p[k + 1].startIdx {
      StartPagesIncrease(toc, 0, k + 1);
      StartPagesIncrease(toc, k + 1, |toc| - 1);
    }
  }

  lemma {:induction false} AllEmitted(toc: seq<TocEntry>, totalPages: nat, n: nat)
    requires n <= |toc| && toc != [] && toc[0].startPage == 1
    requires forall i :: 0 <= i < |toc| - 1 ==> toc[i].startPage < toc[i + 1].startPage
    requires toc[|toc| - 1].startPage <= totalPages
    ensures var p := Partition(toc, totalPages, n);
      |p| == n && forall k :: 0 <= k < n ==> p[k] == SectionOf(toc, totalPages, k)
  {
    if n > 0 {
      AllEmitted(toc, totalPages, n - 1);
      StartPagesIncrease(toc, n - 1, |toc| - 1);
      StartPagesIncrease(toc, 0, n - 1);
    }
  }

  lemma {:induction false} StartPagesIncrease(toc: seq<TocEntry>, i: nat, j: nat)
    requires i <= j < |toc|
    requires forall m :: 0 <= m < |toc| - 1 ==> toc[m].startPage < toc[m + 1].startPage
    ensures toc[i].startPage + (j - i) <= toc[j].startPage
  {
    if i < j {
      StartPagesIncrease(toc, i, j - 1);
    }
  }

  /** No two emitted sections are saved under the same file name. */
  lemma FilenamesDistinct(toc: seq<TocEntry>, totalPages: nat)
    ensures var p := Sections(toc, totalPages);
      forall k, l :: 0 <= k < l < |p| ==> p[k].Filename() != p[l].Filename()
  {
    SectionsInTocOrder(toc, totalPages);
    var p := Sections(toc, totalPages);
    forall k, l | 0 <= k < l < |p| ensures p[k].Filename() != p[l].Filename() {
      OutputFilenameInjective(p[k].id, p[k].title, p[l].id, p[l].title);
    }
  }
}
