# PDF splitter by table of contents — a Dafny model

`pdf_splitter.py` splits a PDF into one file per entry of its table of
contents (ToC). This project models the two parts of that script that hold
logic, with the PDF library and the filesystem taken out:

- **The partitioner.** This is the loop of `split_pdf_by_toc`. It takes the
  flat ToC, a list of `(level, title, start_page)` entries with 1-based start
  pages, and the document's page count. For each entry at position `i` it
  computes an inclusive 0-based page range:
  - the range starts at `start_page - 1`;
  - it ends at the next entry's `start_page - 2`, or at the last page for the
    last entry;
  - the start is raised to 0 and the end is lowered to the last page;
  - an entry whose range is then empty is skipped without an error.

  Every surviving entry keeps the id `i + 1`. Ids are not renumbered after a
  skipped entry. An empty ToC is an error. The model is the method
  `Splitter.SplitPdfByToc`. It has the same loop, the same reassignments and
  the same `continue`, and it is proved equal to the specification function
  `Splitter.Sections`. The lemmas in `Splitter` say what those sections are.
- **The filename sanitizer** (`sanitize_filename`). It deletes the nine
  characters `\ / * ? : " < > |`, then strips leading and trailing whitespace
  (Python's `str.isspace` set), then replaces each space character with `_`.
  It is modelled as pure functions in `Sanitizer`. `Naming` adds the output
  name `"{id:03d}_{sanitized title}.pdf"`.

`Fixtures` checks the ToC that `create_dummy_pdf.py` writes into its ten-page
sample, plus a few titles.

Files: `sanitizer.dfy` (module `Sanitizer`), `naming.dfy` (`Naming`),
`splitter.dfy` (`Splitter`), `fixtures.dfy` (`Fixtures`).

Two consequences of the code are worth stating:
- Every space gets its own underscore, so a run of spaces gives a run of
  underscores; tabs and newlines inside a title stay as they are
  (`SpaceRunKept`, `InnerTabKept`).
- Every ToC entry is used and its `level` is never read, so the id of a
  section is the position of its entry in the full ToC plus one.

## Model

| member | source | states |
|---|---|---|
| `Sanitizer.RemoveIllegal` | pdf_splitter.py:11 | the result is no longer than the input and contains none of the nine illegal characters |
| `Sanitizer.RemoveIllegalMembers` | pdf_splitter.py:11 | a character occurs in the result exactly when it occurs in the input and is not illegal |
| `Sanitizer.RemoveIllegalAppend` | pdf_splitter.py:11 | filtering a concatenation is the concatenation of the filtered halves; this is the "order is kept" property |
| `Sanitizer.RemoveIllegalKeepsLegal` | pdf_splitter.py:11 | a string with no illegal character passes through the filter unchanged |
| `Sanitizer.TrimLeft` | pdf_splitter.py:13 | the result is a suffix of the input, everything cut off is whitespace, and the result does not start with whitespace |
| `Sanitizer.TrimRight` | pdf_splitter.py:13 | the result is a prefix of the input, everything cut off is whitespace, and the result does not end with whitespace |
| `Sanitizer.Strip` | pdf_splitter.py:13 | the stripped string is no longer than the input and neither starts nor ends with whitespace |
| `Sanitizer.StripSurrounded` | pdf_splitter.py:13 | for any whitespace put around a string that neither starts nor ends with whitespace, stripping gives that string back |
| `Sanitizer.ReplaceSpaces` | pdf_splitter.py:13 | the length is kept; each space becomes `_`; every other character, tabs and newlines included, stays in place |
| `Sanitizer.ReplaceSpacesKeepsSpaceless` | pdf_splitter.py:13 | a string without spaces is unchanged by the replacement |
| `Sanitizer.SanitizeFilename` | pdf_splitter.py:6-14 | the output has no illegal characters and no spaces, has no leading or trailing whitespace, and is no longer than the title |
| `Sanitizer.SanitizeKeepsMiddle` | pdf_splitter.py:11-13 | for a title `a + m + b` whose ends `a` and `b` are whitespace or illegal characters, and where the legal characters of `m` neither start nor end with whitespace, the output is the legal characters of `m` in their original order, with each space turned into `_` |
| `Sanitizer.SanitizeBlank` | pdf_splitter.py:6-14 | a title made only of whitespace and illegal characters sanitizes to the empty string |
| `Sanitizer.SanitizeIdempotent` | pdf_splitter.py:6-14 | sanitizing twice gives the same result as sanitizing once |
| `Naming.FormatId` | pdf_splitter.py:101 | `03d` gives only digits, at least three of them, exactly three for ids below 1000, no leading zero for ids of 100 or more, and the digits denote the id |
| `Naming.IdOfOutputFilename` | pdf_splitter.py:101 | the id can be read back from the leading digits of the output file name |
| `Naming.OutputFilenameInjective` | pdf_splitter.py:101 | different ids always give different file names, whatever the titles |
| `Naming.OutputFilenameIsSafe` | pdf_splitter.py:100-102 | the file name contains no illegal character (so no slash or backslash) and no space, so joining it to the output directory names a file directly inside that directory |
| `Naming.OutputFilenameShape` | pdf_splitter.py:101 | the file name starts with the formatted id and ends in `.pdf` |
| `Splitter.SplitPdfByToc` | pdf_splitter.py:30-101 | an empty ToC gives the no-ToC error and nothing else does; otherwise the loop's output is exactly the sections of `Sections` |
| `Splitter.PartitionSound` | pdf_splitter.py:44-101 | after any number of iterations, each emitted section is the start/end/title/id computed for an entry among those iterations, and that entry's range was not empty |
| `Splitter.PartitionOrdered` | pdf_splitter.py:44-101 | after any number of iterations, the ids emitted so far are strictly increasing |
| `Splitter.PartitionComplete` | pdf_splitter.py:80-92 | after any number of iterations, an entry among them is listed exactly when its clamped range is not empty |
| `Splitter.SectionsWithinDocument` | pdf_splitter.py:86-92 | every emitted section satisfies `0 <= start <= end <= total_pages - 1`, and its id is between 1 and the ToC length |
| `Splitter.SectionsFollowToc` | pdf_splitter.py:60-88 | each section has the title of ToC entry `id - 1`; its start is that entry's `start_page - 1` raised to 0; its end is the next entry's `start_page - 2` (or `total_pages - 1` for the last entry) lowered to `total_pages - 1` |
| `Splitter.SectionsInTocOrder` | pdf_splitter.py:44-101 | the ids are strictly increasing: sections come out in ToC order and ids are not renumbered |
| `Splitter.IdsSpread` | pdf_splitter.py:44-101 | ids grow at least as fast as positions in the output, so skipped entries leave holes in the id sequence |
| `Splitter.EmittedIffRangeNotEmpty` | pdf_splitter.py:86-92 | an entry appears in the output if and only if its clamped start is at most its clamped end |
| `Splitter.SameStartPageSkipped` | pdf_splitter.py:76-92 | an entry that starts on the same page as its successor does not appear in the output |
| `Splitter.AdjacentSectionsMeet` | pdf_splitter.py:71-76 | when entries `i` and `i + 1` are both emitted and the second starts on page 1 or later, they are consecutive in the output and the first ends exactly one page before the second begins |
| `Splitter.SectionsDisjoint` | pdf_splitter.py:63-78 | when start pages never decrease, all emitted ranges are pairwise disjoint and in page order |
| `Splitter.SectionsCoverDocument` | pdf_splitter.py:60-88 | when the first entry starts on page 1, start pages strictly increase and the last is at most the page count, every entry is emitted with id equal to its position plus one, and the ranges tile pages `0 .. total_pages - 1` without gaps |
| `Splitter.FilenamesDistinct` | pdf_splitter.py:100-104 | no two emitted sections are saved under the same file name |
| `Fixtures.DummyTocRanges` | create_dummy_pdf.py:14-19 | the sample ToC with 10 pages gives Chapter 1: 0–0, Section 1.1: 1–2, Chapter 2: 3–6, Chapter 3: 7–9, with ids 1 to 4 |
| `Fixtures.SamePageEntries` | pdf_splitter.py:76-92 | two entries on page 1 of a 5-page document give only the second one, with id 2 and range 0–4 |
| `Fixtures.FirstChapterFilename` | pdf_splitter.py:100-101 | section 1 "Chapter 1" is saved as `001_Chapter_1.pdf` |
| `Fixtures.FirstSectionFilename` | pdf_splitter.py:100-101 | section 2 "Section 1.1" is saved as `002_Section_1.1.pdf` |
| `Fixtures.SpaceRunKept` | pdf_splitter.py:13 | `"a  b"` becomes `"a__b"`: a run of spaces is not collapsed |
| `Fixtures.InnerTabKept` | pdf_splitter.py:13 | a tab inside a title survives |
| `Fixtures.IllegalBeforeStrip` | pdf_splitter.py:11-13 | `": a :"` becomes `"a"`: illegal characters are deleted before stripping, so the spaces they shielded are stripped too |
| `Fixtures.StripFirstKeepsSpaces` | pdf_splitter.py:11-13 | with stripping done first, `": a :"` would become `"_a_"`, so the order of the steps matters |

## Left out

- PyMuPDF calls are not modelled: `fitz.open`, `get_toc`, `page_count`, `insert_pdf`, `save` and `close`. Their PDF semantics are not visible. The ToC and the page count are inputs to `SplitPdfByToc`, and each emitted section is what the loop passes to `insert_pdf` (its page range) and to `save` (`Section.Filename`).
- The input-file check and the open error (pdf_splitter.py:20-28), creation of the output directory (37-38) and `os.path.join` (102) are filesystem I/O and are not modelled.
- All `print` diagnostics are left out, including "Skipping empty section", "Extracting" and "Done!".
- The `if start_page_idx > end_page_idx: pass` block at pdf_splitter.py:80-84 has no effect, so it has no counterpart.
- `main` and argparse (pdf_splitter.py:110-117) are command-line plumbing.
- `create_dummy_pdf.py` is used only for its ToC literal. The rest of it builds a PDF through PyMuPDF.
- The regular-expression engine is not modelled. The substitution at line 11 is modelled as a character filter over its nine-character class.
- The entry's `level` is carried in `TocEntry` but never read, as in the source.
- Failures inside the PDF library part-way through the loop are not modelled. In the source they end the run with an exception.
