/**
 * What the ingestion routine sees of its inputs. PDF parsing and ZIP
 * decompression happen in foreign libraries; they are represented here by
 * the outcome each library call would have on the given bytes.
 */
module Documents {

  datatype Option<T> = None | Some(value: T)

  /** The outcome of `page.extract_text()` for one page, in page order. */
  datatype PageOutcome =
    | Extracted(text: Option<string>)  // a string, or None
    | ExtractionError                  // extraction raises

  /** What `PdfReader(stream)` makes of a byte stream. */
  datatype Pdf =
    | Malformed                        // the reader raises on construction
    | Pdf(pages: seq<PageOutcome>)

  /**
   * One member of `zf.infolist()`: its stored name, whether `is_dir()` holds,
   * whether `zf.open(...).read()` succeeds, and what the PDF reader makes of
   * the bytes it would read. `is_dir()` holds exactly when the stored name
   * ends in '/', so a member flagged as a directory whose name ends in
   * ".pdf" does not occur: the directory test never rejects a member that
   * the ".pdf" test would accept.
   */
  datatype ZipEntry = ZipEntry(filename: string, isDir: bool, readable: bool, pdf: Pdf)

  /** What `zipfile.ZipFile(...)` makes of an upload's bytes. */
  datatype Zip =
    | BadZip                           // opening the archive raises
    | Zip(entries: seq<ZipEntry>)

  /**
   * One uploaded file: its name, its declared media type (any string), and
   * the two ways its bytes can be read, of which the media type selects one.
   */
  datatype Upload = Upload(name: string, mimeType: string, asPdf: Pdf, asZip: Zip)

  const PdfType: string := "application/pdf"
  const ZipType: string := "application/zip"

  /** Python truthiness of the value `extract_text()` returned. */
  predicate Truthy(t: Option<string>) {
    t.Some? && t.value != []
  }
}
