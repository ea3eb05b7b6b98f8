/**
 * What `process_uploaded_files` produces, as pure recursive functions: which
 * pages end up cited (traversal order, the ZIP entry filter, and where an
 * exception cuts a loop short) and, through `Render`, the resulting string.
 */
module Ingestion {
  import opened Text
  import opened Documents
  import opened CitationFormat

  /**
   * Citations from the pages of one PDF, from 0-based index `i` on. A page
   * whose text is falsy is skipped without renumbering later pages; a page
   * whose extraction raises ends the loop, keeping what came before.
   */
  function PageCitations(source: string, pages: seq<PageOutcome>, i: nat): (r: seq<Citation>)
    ensures forall k :: 0 <= k < |r| ==> r[k].source == source && i < r[k].page <= |pages| && r[k].text != []
    decreases |pages| - i
  {
    if i >= |pages| then []
    else match pages[i]
      case ExtractionError => []
      case Extracted(t) =>
        (if Truthy(t) then [Citation(source, i + 1, t.value)] else []) + PageCitations(source, pages, i + 1)
  }

  function PdfCitations(source: string, pdf: Pdf): seq<Citation> {
    match pdf
    case Malformed => []
    case Pdf(pages) => PageCitations(source, pages, 0)
  }

  /** The filter applied to each archive member before it is read. */
  function IsEligible(e: ZipEntry): (eligible: bool)
    ensures eligible ==> !e.isDir && HasPdfExtension(e.filename)
  {
    LowerSuffixIsPdf(e.filename);
    !e.isDir && EndsWith(AsciiLower(e.filename), ".pdf")
  }

  /** An eligible member whose bytes cannot be read: the exception leaves the archive loop. */
  predicate AbortsArchive(e: ZipEntry) {
    IsEligible(e) && !e.readable
  }

  /** The label of a nested PDF: the archive's name, " -> ", the member's stored name. */
  function NestedSource(zipName: string, entryName: string): (nested: string)
    ensures |nested| == |zipName| + 4 + |entryName|
    ensures nested[..|zipName|] == zipName && nested[|nested| - |entryName|..] == entryName
    ensures nested[|zipName|..|zipName| + 4] == " -> "
  {
    zipName + " -> " + entryName
  }

  /** Citations from archive members in listing order. */
  function EntryCitations(zipName: string, entries: seq<ZipEntry>): (r: seq<Citation>)
    ensures forall k :: 0 <= k < |r| ==>
      |zipName| + 4 < |r[k].source| && r[k].source[..|zipName|] == zipName && r[k].page >= 1 && r[k].text != []
  {
    if entries == [] then []
    else
      var e := entries[0];
      if !IsEligible(e) then EntryCitations(zipName, entries[1..])
      else if !e.readable then []
      else
        var nested := NestedSource(zipName, e.filename);
        var head := PdfCitations(nested, e.pdf);
        var tail := EntryCitations(zipName, entries[1..]);
        assert forall k :: 0 <= k < |head| ==> head[k].source == nested && head[k].page >= 1 && head[k].text != [];
        head + tail
  }

  lemma EntryCitationsFrom(zipName: string, entries: seq<ZipEntry>, j: nat)
    requires j < |entries|
    ensures var e := entries[j];
      EntryCitations(zipName, entries[j..])
      == if !IsEligible(e) then EntryCitations(zipName, entries[j + 1..])
         else if !e.readable then []
         else PdfCitations(NestedSource(zipName, e.filename), e.pdf) + EntryCitations(zipName, entries[j + 1..])
  {
    assert entries[j..][1..] == entries[j + 1..];
  }

  function ZipCitations(zipName: string, zip: Zip): seq<Citation> {
    match zip
    case BadZip => []
    case Zip(entries) => EntryCitations(zipName, entries)
  }

  /** Dispatch on the declared media type; any other type contributes nothing. */
  function UploadCitations(u: Upload): (r: seq<Citation>)
    ensures u.mimeType != PdfType && u.mimeType != ZipType ==> r == []
    ensures forall k :: 0 <= k < |r| ==> r[k].page >= 1 && r[k].text != []
    ensures u.mimeType == PdfType ==> forall k :: 0 <= k < |r| ==> r[k].source == u.name
  {
    if u.mimeType == PdfType then PdfCitations(u.name, u.asPdf)
    else if u.mimeType == ZipType then ZipCitations(u.name, u.asZip)
    else []
  }

  /** Citations from all uploads, in input order. */
  function Citations(uploads: seq<Upload>): seq<Citation> {
    if uploads == [] then [] else UploadCitations(uploads[0]) + Citations(uploads[1..])
  }

  lemma CitationsFrom(uploads: seq<Upload>, i: nat)
    requires i < |uploads|
    ensures Citations(uploads[i..]) == UploadCitations(uploads[i]) + Citations(uploads[i + 1..])
  {
    assert uploads[i..][1..] == uploads[i + 1..];
  }

  /** The string the routine returns; `None` stands for a missing upload list. */
  function AnnotatedText(uploadedFiles: Option<seq<Upload>>): (r: string)
    ensures r == "" <==> uploadedFiles.None? || Citations(uploadedFiles.value) == []
  {
    match uploadedFiles
    case None => ""
    case Some(uploads) =>
      RenderEmpty(Citations(uploads));
      Render(Citations(uploads))
  }
}
