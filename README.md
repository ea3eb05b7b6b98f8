# Citation-tagged document ingestion, modelled in Dafny

This project models `process_uploaded_files` from `core/file_processing.py`, the
ingestion step of a meeting-document analysis tool. The routine takes the uploaded
files (standalone PDFs and ZIP archives of PDFs) and builds one string. In that
string, the text of every page is wrapped in a citation block:

```
\n\n--- START BRON: <label> (Pagina <n>) ---\n<page text>\n--- EINDE BRON: <label> (Pagina <n>) ---\n
```

The label is the upload's name for a standalone PDF. For a PDF inside a ZIP it is
`"<archive name> -> <member name>"`. The page number is the page's 1-based position
in its PDF.

## How the model is organised

- `text.dfy` (module `Text`): decimal rendering of page numbers (Python's `str(int)`)
  and its inverse, ASCII lower-casing, `startswith`/`endswith`.
- `documents.dfy` (module `Documents`): the inputs. PDF parsing and ZIP decompression
  are foreign libraries, so each input says what those libraries would make of its
  bytes.
  - A `Pdf` is either `Malformed` (the reader raises) or a sequence of page outcomes.
    Each outcome is either the extracted text (a string, or `None`) or an
    `ExtractionError`.
  - A `Zip` is either `BadZip` or its members in listing order.
  - A member has a name, an `isDir` flag, a `readable` flag (whether opening and
    reading it succeeds) and the PDF its bytes would give.
  - An `Upload` has a name, a media type (any string), and both readings of its
    bytes. The media type decides which reading is used.
- `citation_format.dfy` (module `CitationFormat`): the marker strings, the block for
  one cited page, and `Render`, which concatenates blocks. A marker parser shows that
  each marker can be read back.
- `ingestion.dfy` (module `Ingestion`): the specification as pure recursive functions.
  `Citations` gives the cited pages, in order, as `(label, page, text)` records.
  `AnnotatedText` is the string the routine returns.
- `file_processing.dfy` (module `FileProcessing`): the routine itself. It is
  imperative: an accumulator string is appended to in a loop over uploads, a loop
  over archive members and a loop over pages. Each method is proved equal to the
  specification.
  - An exception raised in the Python routine becomes a `break` out of the loop it cuts short.
  - The page loop appears twice in `process_uploaded_files`, once for standalone PDFs and once
    for nested ones. Here it is one method, `AppendPdfPages`.
- `ingestion_properties.dfy` (module `IngestionProperties`): lemmas about the
  specification.
- `citation_uniqueness.dfy` (module `CitationUniqueness`): when a marker names exactly
  one page, and the inputs for which it does not.

Behaviour of the code that the model keeps as written:

- The archive filter is only "not a directory, and the lower-cased name ends in
  `.pdf`". It has no rule for macOS metadata folders, so `__MACOSX/._a.pdf` is
  opened and read like any other member.
- A page is skipped only when its text is empty or `None`. A page holding only
  blanks is cited.
- A page whose extraction raises ends that PDF. The pages before it stay in the
  output and the pages after it are not read.
- A member that cannot be opened or read raises outside the inner `try`. It ends
  the whole archive, but not the later uploads.
- Dispatch compares the media type with exactly `application/pdf` and
  `application/zip`. Any other type contributes nothing, including other spellings
  of a ZIP type.
- Labels are not made unique across files. Two uploads with the same name, two
  members of one archive with the same stored name, or a standalone PDF named
  `z.zip -> a.pdf` next to member `a.pdf` of an archive `z.zip` all produce the
  same marker for their first pages, as long as both first pages have text. Markers
  are unique whenever the labels of the files read are pairwise distinct
  (`CitationsUnique`). That condition is sufficient, not necessary: a second
  upload with a repeated name that cites nothing causes no clash.
- Page text is pasted in verbatim, between the markers. Text that itself contains an
  end marker followed by a start marker forges a block boundary. Then two different
  lists of citations, even with distinct labels, give the same output string
  (`RenderNotInjective`). Each marker reads back on its own (`MarkerRoundTrip`), but the
  output as a whole does not determine its blocks.

## Model

| member | source | states |
|---|---|---|
| FileProcessing.ProcessUploadedFiles | core/file_processing.py:7-59 | The returned string is `AnnotatedText` of the input: empty for a missing or empty upload list, otherwise the rendered citations of all uploads in input order |
| FileProcessing.AppendUpload | core/file_processing.py:17-56 | The accumulator keeps what it held and gains exactly the upload's citations: the PDF reading for `application/pdf`, the archive reading for `application/zip`, nothing for any other type or when the archive cannot be opened |
| FileProcessing.AppendPdfPages | core/file_processing.py:24-30 | The accumulator keeps what it held and gains exactly the blocks of the PDF's cited pages; a malformed PDF adds nothing |
| FileProcessing.AppendArchivePdfs | core/file_processing.py:33-53 | The accumulator keeps what it held and gains exactly the citations of the archive's members as the specification selects them (filter, member order, read failure ending the archive) |
| Ingestion.PageCitations | core/file_processing.py:25-30 | Every citation from a page loop carries the loop's label, a page number past the starting index and no greater than the page count, and non-empty text |
| Ingestion.PdfCitations | core/file_processing.py:24-30 | A PDF the reader rejects adds nothing (the exception reaches the handler at line 55, or line 52 for a nested PDF); otherwise the page loop from the first page; it has no contract of its own, and `PdfCitationsExactly` and `PdfCitationsSource` state its properties |
| Ingestion.ZipCitations | core/file_processing.py:33 | An archive that cannot be opened adds nothing; otherwise its members' citations; it has no contract of its own, and `EntryCitations` and `NoEligibleEntries` state its properties |
| Ingestion.Citations | core/file_processing.py:16-56 | The upload loop: each upload's citations, in input order; it has no contract of its own, and `CitationsAppend`, `UnsupportedUploadIgnored` and `CitationSources` state its properties |
| Documents.Truthy | core/file_processing.py:27 | The test `if page_text:` (also line 47): the text is present and non-empty; it has no contract of its own, and `WhitespacePageCited` shows that a blank page passes |
| Text.AsciiLower | core/file_processing.py:35 | `.lower()` on the member name, restricted to ASCII; it has no contract of its own, and `LowerSuffixIsPdf` states what the filter then tests |
| Ingestion.IsEligible | core/file_processing.py:35 | A member passes the filter only if it is not a directory and its name ends in `.pdf` in some letter case |
| Ingestion.NestedSource | core/file_processing.py:48 | A nested PDF's label starts with the archive's name and ends with the member's stored name, with the four characters ` -> ` between them |
| Ingestion.EntryCitations | core/file_processing.py:34-53 | Every citation from an archive's members has a label that starts with the archive's name and continues past ` -> `, a page number of at least 1 and non-empty text |
| Ingestion.UploadCitations | core/file_processing.py:23-32 | An upload of any other media type contributes nothing; every citation has a page of at least 1 and non-empty text; a standalone PDF's citations carry the upload's name |
| Ingestion.AnnotatedText | core/file_processing.py:12-14 | The returned string (the accumulator returned at line 59) is empty exactly when the list is missing or no page of any upload is cited |
| CitationFormat.Block | core/file_processing.py:28-30 | A block is longer than its page text plus both marker prefixes, so it is never empty, even for an empty text |
| CitationFormat.StartMarker | core/file_processing.py:28 | The start marker, `Marker` with the `\n\n--- START BRON: ` prefix (also line 49 for nested PDFs); it has no contract of its own, and `MarkerRoundTrip` states that it reads back |
| CitationFormat.EndMarker | core/file_processing.py:30 | The end marker, `Marker` with the `\n--- EINDE BRON: ` prefix (also line 51 for nested PDFs); it has no contract of its own, and `MarkerRoundTrip` states that it reads back |
| CitationFormat.Render | core/file_processing.py:28-30 | The repeated `full_text +=`: the blocks of the citations, concatenated in order; it has no contract of its own, and `RenderAppend`, `RenderEmpty` and `RenderNotInjective` state its properties |
| CitationFormat.RenderNotInjective | core/file_processing.py:29 | Page text holding an end marker followed by a start marker moves a block boundary: two different citation lists with distinct labels render to the same string |
| CitationFormat.MarkerRoundTrip | core/file_processing.py:28-30 | A start or end marker parses back to the label and page number it was written with, whatever characters the label contains |
| CitationFormat.BlockMarkersAgree | core/file_processing.py:28-30 | A block's start and end markers both parse to the citation's own label and page, and the text between them is the page text |
| CitationFormat.RenderAppend | core/file_processing.py:28-30 | Appending blocks one after another: the rendering of two citation lists is the concatenation of their renderings |
| CitationFormat.RenderEmpty | core/file_processing.py:12-30 | The output is empty exactly when no page is cited, because every block is non-empty |
| Text.NatToString | core/file_processing.py:28 | The page number `page_num + 1` is written as a non-empty run of decimal digits with no leading zero unless it is 0 |
| CitationFormat.Marker | core/file_processing.py:28-30 | A marker line is the fixed prefix, the label, ` (Pagina `, the page number in decimal and `) ---` with a newline; it has no contract of its own, and `MarkerRoundTrip` states that it reads back |
| Text.NatToStringRoundTrip | core/file_processing.py:28 | The decimal page number in a marker reads back as the number itself |
| Text.LowerSuffixIsPdf | core/file_processing.py:35 | The lower-cased name ends in `.pdf` exactly when its last four characters are `.`, `p`/`P`, `d`/`D`, `f`/`F` |
| IngestionProperties.PageCitationsSound | core/file_processing.py:25-30 | Every citation from a PDF carries the PDF's label, a page number equal to its page's 1-based position, and exactly that page's non-empty text; no page before it raised |
| IngestionProperties.PageCitationsComplete | core/file_processing.py:25-30 | Every page with non-empty text that comes before any raising page is cited under its own position |
| IngestionProperties.PdfCitationsExactly | core/file_processing.py:24-30 | A citation is in a PDF's output if and only if its page is non-empty, comes before the first raising page and carries that page's position, so skipped pages leave gaps in the numbering |
| IngestionProperties.PageCitationsAscending | core/file_processing.py:25 | Pages of a PDF are cited in strictly ascending page order |
| IngestionProperties.PagesAfterErrorDropped | core/file_processing.py:25-56 | When a page raises, the PDF's output is that of the pages before it: those blocks are kept, later pages contribute nothing |
| IngestionProperties.AllPagesCited | core/file_processing.py:25-30 | A PDF whose N pages all have text yields N citations with pages 1..N in order, each under the PDF's label |
| IngestionProperties.WhitespacePageCited | core/file_processing.py:26-27 | Only `None` or empty text is skipped: a page of blanks is cited, and the page after a skipped page keeps its number |
| IngestionProperties.EligibleIff | core/file_processing.py:35 | A member is read if and only if it is not a directory and its name ends in `.pdf` in any letter case |
| IngestionProperties.MacMetadataMemberIsEligible | core/file_processing.py:34-36 | A member named `__MACOSX/._a.pdf` passes the filter: no rule excludes macOS metadata folders |
| IngestionProperties.IneligibleEntriesIgnored | core/file_processing.py:34-36 | Removing every member that fails the filter leaves the archive's output unchanged: such members are never opened |
| IngestionProperties.NoEligibleEntries | core/file_processing.py:34-36 | An archive with no eligible member contributes nothing |
| IngestionProperties.EntryCitationsAppend | core/file_processing.py:34-53 | Until a member read fails, members contribute independently and in listing order |
| IngestionProperties.NestedPdfIsolated | core/file_processing.py:43-53 | A readable nested PDF adds its own citations (none when malformed, the pages before the failure when a page raises), and the members after it are still processed |
| IngestionProperties.EntryReadFailureEndsArchive | core/file_processing.py:41-56 | An eligible member that cannot be read ends the archive: nothing after it in that archive is cited |
| IngestionProperties.EntryCitationsSources | core/file_processing.py:45-51 | Every citation from an archive comes from one of its eligible, readable members, under the label `"<archive> -> <member>"` |
| IngestionProperties.PdfCitationsSource | core/file_processing.py:24-30 | Every citation from a PDF carries the label it was read under, a page number of at least 1 and non-empty text |
| IngestionProperties.CitationsAppend | core/file_processing.py:16-56 | Uploads contribute independently and in input order, so a failing upload affects only its own contribution |
| IngestionProperties.UnsupportedUploadIgnored | core/file_processing.py:23-32 | An upload of any media type other than `application/pdf` or `application/zip` contributes nothing, and processing continues |
| IngestionProperties.AnnotatedTextAppend | core/file_processing.py:16-59 | The output for a list of uploads is the output for its first part followed by the output for the rest |
| IngestionProperties.CitationSources | core/file_processing.py:17-51 | Every citation names either a PDF upload, or an eligible member of a ZIP upload as `"<archive> -> <member>"`; its page is at least 1 and its text non-empty |
| IngestionProperties.TwoPageReport | core/file_processing.py:23-30 | A two-page `report.pdf` yields exactly two blocks, pages 1 and 2, in the literal marker format |
| CitationUniqueness.SameNameUploadsCollide | core/file_processing.py:17-30 | Two PDF uploads with the same name whose first pages have text produce two citations with the same label and page |
| CitationUniqueness.SameNameMembersCollide | core/file_processing.py:34-51 | Two readable members of one archive with the same stored name produce two citations with the same label and page |
| CitationUniqueness.NestedLabelCollides | core/file_processing.py:28-51 | A standalone PDF named `"<archive> -> <member>"` and that member of the archive produce two citations with the same label and page |
| CitationUniqueness.PdfUnique | core/file_processing.py:25-30 | Within one PDF no two citations share a page number |
| CitationUniqueness.EntryUnique | core/file_processing.py:34-53 | When the labels of an archive's read members are distinct, no two of its citations share label and page |
| CitationUniqueness.CitationsUnique | core/file_processing.py:16-56 | When the labels of all files read are pairwise distinct, no two citations in the output share label and page |

## Left out

- Progress and warning messages (`st.write`, `st.warning`, `st.error`) are user-interface output. They are not modelled, and neither is the exception text they show.
- PDF text extraction (PyPDF2) and ZIP decompression (`zipfile`) are foreign libraries. They are represented by their outcomes on each input, as described above.
- `uploaded_file.seek(0)` and `uploaded_file.read()` are not modelled separately. A failure to read a ZIP upload's bytes counts as `BadZip`.
- Member reads: a failure of `zf.open` and a failure of `read` are one flag, `readable`, because both escape to the same handler.
- Python's `str.lower()` is modelled as ASCII lower-casing. Non-ASCII characters are left as they are. No non-ASCII character lower-cases to one of `.`, `p`, `d`, `f`, so the filter gives the same result.
- A `None` page text and an empty one are both skipped, as Python truthiness makes them. Any other non-string value `extract_text` might return is not modelled.
- Nothing of `app.py`, `core/analysis.py`, `core/output.py` or `core/auth.py` is part of this model. They hold the web UI, the page scraper (network), the hosted language-model call, report rendering (markdown library and clock) and the password gate.
