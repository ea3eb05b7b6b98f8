/**
 * The ingestion routine itself: one accumulator string, appended to page by
 * page while walking the uploads, the pages of each PDF and the members of
 * each ZIP archive. Each exception raised in the Python routine becomes an early exit
 * from the loop it cuts short; what was appended before it stays.
 */
module FileProcessing {
  import opened Text
  import opened Documents
  import opened CitationFormat
  import opened Ingestion

  /**
   * The page loop (it occurs twice in `process_uploaded_files`, for standalone and for
   * nested PDFs): appends a citation block for every page with truthy text,
   * numbered by its 1-based position, until the end or the first page whose
   * extraction raises.
   */
  method AppendPdfPages(fullText: string, source: string, pdf: Pdf) returns (r: string)
    ensures r == fullText + Render(PdfCitations(source, pdf))
  {
    r := fullText;
    match pdf
    case Malformed =>
      // the reader raises before any page is read
    case Pdf(pages) =>
      var pageNum := 0;
      while pageNum < |pages|
        invariant pageNum <= |pages|
        invariant r + Render(PageCitations(source, pages, pageNum)) == fullText + Render(PageCitations(source, pages, 0))
      {
        var outcome := pages[pageNum];
        if outcome.ExtractionError? {
          break;
        }
        var pageText := outcome.text;
        if Truthy(pageText) {
          assert PageCitations(source, pages, pageNum)
              == [Citation(source, pageNum + 1, pageText.value)] + PageCitations(source, pages, pageNum + 1);
          AppendBlock(r, Citation(source, pageNum + 1, pageText.value), PageCitations(source, pages, pageNum + 1));
          r := r + StartMarker(source, pageNum + 1);
          r := r + pageText.value;
          r := r + EndMarker(source, pageNum + 1);
        } else {
          assert PageCitations(source, pages, pageNum) == PageCitations(source, pages, pageNum + 1);
        }
        pageNum := pageNum + 1;
      }
  }

  /** One pass of the upload loop: the accumulator takes this upload's text, the rest is still to come. */
  lemma UploadStep(fullText: string, uploads: seq<Upload>, i: nat)
    requires i < |uploads|
    ensures fullText + Render(Citations(uploads[i..]))
         == (fullText + Render(UploadCitations(uploads[i]))) + Render(Citations(uploads[i + 1..]))
  {
    var here := UploadCitations(uploads[i]);
    var later := Citations(uploads[i + 1..]);
    CitationsFrom(uploads, i);
    RenderAppend(here, later);
    assert fullText + (Render(here) + Render(later)) == (fullText + Render(here)) + Render(later);
  }

  /** One pass of the member loop over an eligible, readable member. */
  lemma EntryStep(r: string, zipName: string, entries: seq<ZipEntry>, j: nat)
    requires j < |entries| && IsEligible(entries[j]) && entries[j].readable
    ensures var e := entries[j];
      r + Render(EntryCitations(zipName, entries[j..]))
      == (r + Render(PdfCitations(NestedSource(zipName, e.filename), e.pdf))) + Render(EntryCitations(zipName, entries[j + 1..]))
  {
    var e := entries[j];
    EntryCitationsFrom(zipName, entries, j);
    RenderAppend(PdfCitations(NestedSource(zipName, e.filename), e.pdf), EntryCitations(zipName, entries[j + 1..]));
  }

  /**
   * The loop over the members of one opened archive, in listing order:
   * members that are directories or whose lower-cased name does not end in
   * ".pdf" are skipped; a member that cannot be read ends the loop (the
   * exception escapes to the per-upload handler); a nested PDF that fails
   * ends only its own page loop (the inner handler catches it).
   */
  method AppendArchivePdfs(fullText: string, filename: string, entries: seq<ZipEntry>) returns (r: string)
    ensures r == fullText + Render(EntryCitations(filename, entries))
  {
    r := fullText;
    var j := 0;
    while j < |entries|
      invariant j <= |entries|
      invariant r + Render(EntryCitations(filename, entries[j..])) == fullText + Render(EntryCitations(filename, entries))
    {
      var info := entries[j];
      if info.isDir || !EndsWith(AsciiLower(info.filename), ".pdf") {
        EntryCitationsFrom(filename, entries, j);
        j := j + 1;
        continue;
      }
      if !info.readable {
        // opening or reading the member raises outside the inner handler
        EntryCitationsFrom(filename, entries, j);
        break;
      }
      var internalFilename := info.filename;
      EntryStep(r, filename, entries, j);
      r := AppendPdfPages(r, filename + " -> " + internalFilename, info.pdf);
      j := j + 1;
    }
  }

  /**
   * The body of the upload loop: dispatch on the declared media type. An
   * exception while reading the upload (a malformed PDF, a bad archive, an
   * unreadable member) is caught by the per-upload handler, so it ends only
   * this upload's contribution; any other media type contributes nothing.
   */
  method AppendUpload(fullText: string, uploadedFile: Upload) returns (r: string)
    ensures r == fullText + Render(UploadCitations(uploadedFile))
  {
    r := fullText;
    var filename := uploadedFile.name;
    if uploadedFile.mimeType == PdfType {
      r := AppendPdfPages(r, filename, uploadedFile.asPdf);
    } else if uploadedFile.mimeType == ZipType {
      match uploadedFile.asZip
      case BadZip =>
        // opening the archive raises; the upload contributes nothing
      case Zip(entries) =>
        r := AppendArchivePdfs(r, filename, entries);
    }
  }

  /**
   * `process_uploaded_files`: a missing or empty list gives the empty
   * string; otherwise the uploads are handled one after another, each
   * appending its own citation blocks.
   */
  method ProcessUploadedFiles(uploadedFiles: Option<seq<Upload>>) returns (fullText: string)
    ensures fullText == AnnotatedText(uploadedFiles)
    ensures uploadedFiles.None? || uploadedFiles == Some([]) ==> fullText == ""
  {
    fullText := "";
    if uploadedFiles.None? || uploadedFiles.value == [] {
      return "";
    }
    var uploads := uploadedFiles.value;
    for i := 0 to |uploads|
      invariant fullText + Render(Citations(uploads[i..])) == Render(Citations(uploads))
    {
      UploadStep(fullText, uploads, i);
      fullText := AppendUpload(fullText, uploads[i]);
    }
    assert uploads[|uploads|..] == [];
  }
}
