/**
 * What the ingestion routine guarantees about its output, stated over the
 * specification in module Ingestion: which pages are cited and under which
 * number, which archive members are read, the order of the blocks, and how
 * far each kind of failure reaches.
 */
module IngestionProperties {
  import opened Text
  import opened Documents
  import opened CitationFormat
  import opened Ingestion

  // ---------------------------------------------------------------- pages

  /** No page from index `i` up to (not including) `k` raises on extraction. */
  predicate NoErrorBetween(pages: seq<PageOutcome>, i: nat, k: nat)
    requires k <= |pages|
  {
    forall j :: i <= j < k ==> pages[j].Extracted?
  }

  /**
   * Every citation taken from a PDF carries the PDF's label, the 1-based
   * position of its page, and exactly that page's (non-empty) text; no page
   * before it raised.
   */
  lemma {:induction false} PageCitationsSound(source: string, pages: seq<PageOutcome>, i: nat)
    ensures forall c :: c in PageCitations(source, pages, i) ==>
      c.source == source && i < c.page <= |pages| &&
      pages[c.page - 1] == Extracted(Some(c.text)) && c.text != [] &&
      NoErrorBetween(pages, i, c.page)
    decreases |pages| - i
  {
    if i < |pages| && pages[i].Extracted? {
      PageCitationsSound(source, pages, i + 1);
    }
  }

  /** Every page with truthy text that the loop reaches is cited, under its own position. */
  lemma {:induction false} PageCitationsComplete(source: string, pages: seq<PageOutcome>, i: nat, k: nat)
    requires i <= k < |pages| && NoErrorBetween(pages, i, k)
    requires pages[k].Extracted? && Truthy(pages[k].text)
    ensures Citation(source, k + 1, pages[k].text.value) in PageCitations(source, pages, i)
    decreases k - i
  {
    if i < k {
      PageCitationsComplete(source, pages, i + 1, k);
    }
  }

  /**
   * Exactly which pages of a parsed PDF are cited: those with non-empty text
   * that come before the first page whose extraction raises, each numbered by
   * its position, so an empty page leaves a gap in the numbering.
   */
  lemma PdfCitationsExactly(source: string, pages: seq<PageOutcome>, c: Citation)
    ensures c in PdfCitations(source, Pdf(pages)) <==>
      c.source == source && 1 <= c.page <= |pages| && NoErrorBetween(pages, 0, c.page) &&
      pages[c.page - 1] == Extracted(Some(c.text)) && c.text != []
  {
    PageCitationsSound(source, pages, 0);
    if c.source == source && 1 <= c.page <= |pages| && NoErrorBetween(pages, 0, c.page) &&
       pages[c.page - 1] == Extracted(Some(c.text)) && c.text != [] {
      PageCitationsComplete(source, pages, 0, c.page - 1);
    }
  }

  /** Pages are cited in ascending page order, each after the index the loop started from. */
  lemma {:induction false} PageCitationsAscending(source: string, pages: seq<PageOutcome>, i: nat)
    ensures forall b :: 0 <= b < |PageCitations(source, pages, i)| ==> PageCitations(source, pages, i)[b].page > i
    ensures forall a, b :: 0 <= a < b < |PageCitations(source, pages, i)| ==>
      PageCitations(source, pages, i)[a].page < PageCitations(source, pages, i)[b].page
    decreases |pages| - i
  {
    if i < |pages| && pages[i].Extracted? {
      PageCitationsAscending(source, pages, i + 1);
      var rest := PageCitations(source, pages, i + 1);
      assert forall b :: 0 <= b < |rest| ==> rest[b].page > i + 1;
      if Truthy(pages[i].text) {
        assert PageCitations(source, pages, i) == [Citation(source, i + 1, pages[i].text.value)] + rest;
      } else {
        assert PageCitations(source, pages, i) == rest;
      }
    }
  }

  /**
   * A page whose extraction raises ends the PDF: what precedes it is cited
   * as if the PDF stopped there, and nothing after it is.
   */
  lemma {:induction false} PagesAfterErrorDropped(source: string, pages: seq<PageOutcome>, k: nat, i: nat)
    requires i <= k < |pages| && pages[k] == ExtractionError
    ensures PageCitations(source, pages, i) == PageCitations(source, pages[..k], i)
    decreases k - i
  {
    if i < k {
      PagesAfterErrorDropped(source, pages, k, i + 1);
      assert pages[..k][i] == pages[i];
    }
  }

  /** The text a page yields, or "" when it yields none. */
  function TextOf(p: PageOutcome): string {
    if p.Extracted? && p.text.Some? then p.text.value else ""
  }

  /** A PDF whose every page has non-empty text yields one citation per page, numbered 1..N. */
  lemma {:induction false} AllPagesCited(source: string, pages: seq<PageOutcome>, i: nat)
    requires i <= |pages|
    requires forall k :: 0 <= k < |pages| ==> pages[k].Extracted? && Truthy(pages[k].text)
    ensures PageCitations(source, pages, i)
         == seq(|pages| - i, k requires 0 <= k < |pages| - i => Citation(source, i + k + 1, TextOf(pages[i + k])))
    decreases |pages| - i
  {
    if i < |pages| {
      AllPagesCited(source, pages, i + 1);
    }
  }

  // ---------------------------------------------------------------- archives

  /** The member filter, stated character by character. */
  lemma EligibleIff(e: ZipEntry)
    ensures IsEligible(e) <==> !e.isDir && HasPdfExtension(e.filename)
  {
    LowerSuffixIsPdf(e.filename);
  }

  /** The filter has no rule for macOS metadata folders: such a member is read like any other. */
  lemma MacMetadataMemberIsEligible(readable: bool, pdf: Pdf)
    ensures IsEligible(ZipEntry("__MACOSX/._a.pdf", false, readable, pdf))
  {
    LowerSuffixIsPdf("__MACOSX/._a.pdf");
  }

  function EligibleOnly(entries: seq<ZipEntry>): (r: seq<ZipEntry>)
    ensures forall e :: e in r ==> IsEligible(e) && e in entries
  {
    if entries == [] then []
    else (if IsEligible(entries[0]) then [entries[0]] else []) + EligibleOnly(entries[1..])
  }

  /** Members that fail the filter contribute nothing, and are never opened. */
  lemma {:induction false} IneligibleEntriesIgnored(zipName: string, entries: seq<ZipEntry>)
    ensures EntryCitations(zipName, entries) == EntryCitations(zipName, EligibleOnly(entries))
  {
    if entries != [] {
      IneligibleEntriesIgnored(zipName, entries[1..]);
      if IsEligible(entries[0]) {
        assert EligibleOnly(entries)[0] == entries[0];
        assert EligibleOnly(entries)[1..] == EligibleOnly(entries[1..]);
      } else {
        assert EligibleOnly(entries) == EligibleOnly(entries[1..]);
      }
    }
  }

  /** An archive with no eligible member contributes nothing. */
  lemma {:induction false} NoEligibleEntries(zipName: string, entries: seq<ZipEntry>)
    requires forall e :: e in entries ==> !IsEligible(e)
    ensures EntryCitations(zipName, entries) == []
  {
    if entries != [] {
      assert entries[0] in entries;
      assert forall e :: e in entries[1..] ==> e in entries;
      NoEligibleEntries(zipName, entries[1..]);
    }
  }

  /** As long as no member aborts the archive, members contribute independently, in listing order. */
  lemma {:induction false} EntryCitationsAppend(zipName: string, es1: seq<ZipEntry>, es2: seq<ZipEntry>)
    requires forall e :: e in es1 ==> !AbortsArchive(e)
    ensures EntryCitations(zipName, es1 + es2) == EntryCitations(zipName, es1) + EntryCitations(zipName, es2)
    decreases |es1|
  {
    if es1 == [] {
      assert es1 + es2 == es2;
    } else {
      assert (es1 + es2)[0] == es1[0];
      assert (es1 + es2)[1..] == es1[1..] + es2;
      assert es1[0] in es1;
      EntryCitationsAppend(zipName, es1[1..], es2);
    }
  }

  /**
   * A readable nested PDF contributes its own citations (none if it is
   * malformed, the pages before the failure if a page raises) and the
   * members after it are still read.
   */
  lemma NestedPdfIsolated(zipName: string, es1: seq<ZipEntry>, e: ZipEntry, es2: seq<ZipEntry>)
    requires forall x :: x in es1 ==> !AbortsArchive(x)
    requires IsEligible(e) && e.readable
    ensures EntryCitations(zipName, es1 + [e] + es2)
         == EntryCitations(zipName, es1) + PdfCitations(NestedSource(zipName, e.filename), e.pdf) + EntryCitations(zipName, es2)
  {
    EntryCitationsAppend(zipName, es1, [e] + es2);
    assert es1 + [e] + es2 == es1 + ([e] + es2);
    assert ([e] + es2)[1..] == es2;
  }

  /** A member that cannot be read ends the archive: nothing after it is cited. */
  lemma EntryReadFailureEndsArchive(zipName: string, es1: seq<ZipEntry>, e: ZipEntry, es2: seq<ZipEntry>)
    requires forall x :: x in es1 ==> !AbortsArchive(x)
    requires AbortsArchive(e)
    ensures EntryCitations(zipName, es1 + [e] + es2) == EntryCitations(zipName, es1)
  {
    EntryCitationsAppend(zipName, es1, [e] + es2);
    assert es1 + [e] + es2 == es1 + ([e] + es2);
  }

  /** Every citation from an archive comes from one of its eligible, readable members, under that member's label. */
  lemma {:induction false} EntryCitationsSources(zipName: string, entries: seq<ZipEntry>)
    ensures forall c :: c in EntryCitations(zipName, entries) ==>
      exists e :: e in entries && IsEligible(e) && e.readable &&
        c in PdfCitations(NestedSource(zipName, e.filename), e.pdf)
  {
    if entries != [] {
      EntryCitationsSources(zipName, entries[1..]);
      assert forall e :: e in entries[1..] ==> e in entries;
      assert entries[0] in entries;
    }
  }

  /** Every citation from a PDF carries the label it was read under, a page number from 1 and non-empty text. */
  lemma PdfCitationsSource(source: string, pdf: Pdf)
    ensures forall c :: c in PdfCitations(source, pdf) ==> c.source == source && c.page >= 1 && c.text != []
  {
    if pdf.Pdf? {
      PageCitationsSound(source, pdf.pages, 0);
    }
  }

  // ---------------------------------------------------------------- uploads

  /** Uploads contribute independently, in input order: a failing upload affects only itself. */
  lemma {:induction false} CitationsAppend(us1: seq<Upload>, us2: seq<Upload>)
    ensures Citations(us1 + us2) == Citations(us1) + Citations(us2)
    decreases |us1|
  {
    if us1 == [] {
      assert us1 + us2 == us2;
    } else {
      assert (us1 + us2)[0] == us1[0];
      assert (us1 + us2)[1..] == us1[1..] + us2;
      CitationsAppend(us1[1..], us2);
    }
  }

  /** An upload of any other media type is passed over and processing continues. */
  lemma UnsupportedUploadIgnored(us1: seq<Upload>, u: Upload, us2: seq<Upload>)
    requires u.mimeType != PdfType && u.mimeType != ZipType
    ensures Citations(us1 + [u] + us2) == Citations(us1 + us2)
  {
    assert us1 + [u] + us2 == us1 + ([u] + us2);
    CitationsAppend(us1, [u] + us2);
    assert ([u] + us2)[1..] == us2;
    assert Citations([u] + us2) == Citations(us2);
    CitationsAppend(us1, us2);
  }

  /** The output is the concatenation of each upload's own output, in input order. */
  lemma AnnotatedTextAppend(us1: seq<Upload>, us2: seq<Upload>)
    ensures AnnotatedText(Some(us1 + us2)) == AnnotatedText(Some(us1)) + AnnotatedText(Some(us2))
  {
    CitationsAppend(us1, us2);
    RenderAppend(Citations(us1), Citations(us2));
  }

  /**
   * Every citation in the output names either a PDF upload, or an eligible
   * member of a ZIP upload as "<archive> -> <member>"; its page number is at
   * least 1 and its text non-empty.
   */
  lemma {:induction false} CitationSources(uploads: seq<Upload>)
    ensures forall c :: c in Citations(uploads) ==>
      c.page >= 1 && c.text != [] &&
      exists u :: u in uploads &&
        ((u.mimeType == PdfType && c.source == u.name) ||
         (u.mimeType == ZipType && u.asZip.Zip? &&
          exists e :: e in u.asZip.entries && IsEligible(e) && c.source == NestedSource(u.name, e.filename)))
  {
    if uploads != [] {
      var u := uploads[0];
      CitationSources(uploads[1..]);
      assert forall x :: x in uploads[1..] ==> x in uploads;
      assert u in uploads;
      if u.mimeType == PdfType {
        PdfCitationsSource(u.name, u.asPdf);
      } else if u.mimeType == ZipType && u.asZip.Zip? {
        EntryCitationsSources(u.name, u.asZip.entries);
        forall e | e in u.asZip.entries
          ensures forall c :: c in PdfCitations(NestedSource(u.name, e.filename), e.pdf) ==>
            c.source == NestedSource(u.name, e.filename) && c.page >= 1 && c.text != []
        {
          PdfCitationsSource(NestedSource(u.name, e.filename), e.pdf);
        }
      }
    }
  }

  // ---------------------------------------------------------------- examples

  lemma ReportMarkers1()
    ensures StartMarker("report.pdf", 1) == "\n\n--- START BRON: report.pdf (Pagina 1) ---\n"
    ensures EndMarker("report.pdf", 1) == "\n--- EINDE BRON: report.pdf (Pagina 1) ---\n"
  {
    assert NatToString(1) == "1";
  }

  /** The block of page 1 of "report.pdf", spelled out. */
  lemma ReportFirstBlock(text: string)
    ensures Block(Citation("report.pdf", 1, text))
         == "\n\n--- START BRON: report.pdf (Pagina 1) ---\n" + text + "\n--- EINDE BRON: report.pdf (Pagina 1) ---\n"
  {
    ReportMarkers1();
  }

  lemma ReportMarkers2()
    ensures StartMarker("report.pdf", 2) == "\n\n--- START BRON: report.pdf (Pagina 2) ---\n"
    ensures EndMarker("report.pdf", 2) == "\n--- EINDE BRON: report.pdf (Pagina 2) ---\n"
  {
    assert NatToString(2) == "2";
  }

  /** The block of page 2 of "report.pdf", spelled out. */
  lemma ReportSecondBlock(text: string)
    ensures Block(Citation("report.pdf", 2, text))
         == "\n\n--- START BRON: report.pdf (Pagina 2) ---\n" + text + "\n--- EINDE BRON: report.pdf (Pagina 2) ---\n"
  {
    ReportMarkers2();
  }

  lemma TwoPageCitations(first: string, second: string, zip: Zip)
    requires first != [] && second != []
    ensures Citations([Upload("report.pdf", "application/pdf", Pdf([Extracted(Some(first)), Extracted(Some(second))]), zip)])
         == [Citation("report.pdf", 1, first), Citation("report.pdf", 2, second)]
  {
    var pages := [Extracted(Some(first)), Extracted(Some(second))];
    var u := Upload("report.pdf", "application/pdf", Pdf(pages), zip);
    var c1, c2 := Citation("report.pdf", 1, first), Citation("report.pdf", 2, second);
    assert PageCitations("report.pdf", pages, 2) == [];
    assert PageCitations("report.pdf", pages, 1) == [c2];
    assert PageCitations("report.pdf", pages, 0) == [c1, c2];
  }

  /** A two-page "report.pdf" gives two blocks, pages 1 and 2, in the literal marker format. */
  lemma TwoPageReport(first: string, second: string, zip: Zip)
    requires first != [] && second != []
    ensures AnnotatedText(Some([Upload("report.pdf", "application/pdf", Pdf([Extracted(Some(first)), Extracted(Some(second))]), zip)]))
         == ("\n\n--- START BRON: report.pdf (Pagina 1) ---\n" + first + "\n--- EINDE BRON: report.pdf (Pagina 1) ---\n")
          + ("\n\n--- START BRON: report.pdf (Pagina 2) ---\n" + second + "\n--- EINDE BRON: report.pdf (Pagina 2) ---\n")
  {
    var c1, c2 := Citation("report.pdf", 1, first), Citation("report.pdf", 2, second);
    TwoPageCitations(first, second, zip);
    RenderSingle(c2, []);
    RenderSingle(c1, [c2]);
    assert [c1] + [c2] == [c1, c2];
    assert Render([c1, c2]) == Block(c1) + Block(c2);
    ReportFirstBlock(first);
    ReportSecondBlock(second);
  }

  /** Only empty or missing text is skipped: a page of blanks is cited. */
  lemma WhitespacePageCited(source: string)
    ensures PdfCitations(source, Pdf([Extracted(None), Extracted(Some(" ")), Extracted(Some(""))]))
         == [Citation(source, 2, " ")]
  {
  }
}
