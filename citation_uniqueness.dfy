/**
 * When a marker identifies exactly one page. The routine does not make
 * labels unique: two uploads with the same name, two archive members with
 * the same stored name, or a standalone upload whose name happens to read
 * "<archive> -> <member>" all produce repeated markers. What it does give
 * is the converse: when the labels of the files read are pairwise
 * distinct, no two citations share a label and a page number.
 */
module CitationUniqueness {
  import opened Documents
  import opened CitationFormat
  import opened Ingestion
  import opened IngestionProperties

  /** No two citations carry the same label and page, so every marker names one page. */
  predicate MarkersUnique(cs: seq<Citation>) {
    forall a, b :: 0 <= a < b < |cs| ==> cs[a].source != cs[b].source || cs[a].page != cs[b].page
  }

  predicate Distinct(labels: seq<string>) {
    forall a, b :: 0 <= a < b < |labels| ==> labels[a] != labels[b]
  }

  /** The labels under which an archive's members are read, in listing order, up to the first unreadable one. */
  function EntryLabels(zipName: string, entries: seq<ZipEntry>): seq<string> {
    if entries == [] then []
    else
      var e := entries[0];
      if !IsEligible(e) then EntryLabels(zipName, entries[1..])
      else if !e.readable then []
      else [NestedSource(zipName, e.filename)] + EntryLabels(zipName, entries[1..])
  }

  /** The labels under which one upload's PDFs are read. */
  function UploadLabels(u: Upload): seq<string> {
    if u.mimeType == PdfType then [u.name]
    else if u.mimeType == ZipType && u.asZip.Zip? then EntryLabels(u.name, u.asZip.entries)
    else []
  }

  /** The labels of all files read, in the order they are read. */
  function FileLabels(uploads: seq<Upload>): seq<string> {
    if uploads == [] then [] else UploadLabels(uploads[0]) + FileLabels(uploads[1..])
  }

  // ------------------------------------------------------------ collisions

  /** Two PDF uploads of the same name: the first page of each is cited under the same marker. */
  lemma SameNameUploadsCollide(u: Upload, v: Upload)
    requires u.mimeType == PdfType && v.mimeType == PdfType && u.name == v.name
    requires u.asPdf.Pdf? && |u.asPdf.pages| > 0 && u.asPdf.pages[0].Extracted? && Truthy(u.asPdf.pages[0].text)
    requires v.asPdf.Pdf? && |v.asPdf.pages| > 0 && v.asPdf.pages[0].Extracted? && Truthy(v.asPdf.pages[0].text)
    ensures !MarkersUnique(Citations([u, v]))
  {
    var cu := UploadCitations(u);
    var cv := UploadCitations(v);
    assert cu[0] == Citation(u.name, 1, u.asPdf.pages[0].text.value);
    assert cv[0] == Citation(v.name, 1, v.asPdf.pages[0].text.value);
    assert [u, v][1..] == [v];
    assert Citations([v]) == cv + Citations([]);
    var cs := Citations([u, v]);
    assert cs == cu + cv;
    assert cs[0] == cu[0] && cs[|cu|] == cv[0];
  }

  /** Two readable members with the same stored name in one archive: their first pages share a marker. */
  lemma SameNameMembersCollide(zipName: string, e: ZipEntry, f: ZipEntry)
    requires IsEligible(e) && e.readable && IsEligible(f) && f.readable && e.filename == f.filename
    requires e.pdf.Pdf? && |e.pdf.pages| > 0 && e.pdf.pages[0].Extracted? && Truthy(e.pdf.pages[0].text)
    requires f.pdf.Pdf? && |f.pdf.pages| > 0 && f.pdf.pages[0].Extracted? && Truthy(f.pdf.pages[0].text)
    ensures !MarkersUnique(EntryCitations(zipName, [e, f]))
  {
    var ce := PdfCitations(NestedSource(zipName, e.filename), e.pdf);
    var cf := PdfCitations(NestedSource(zipName, f.filename), f.pdf);
    assert ce[0].page == 1 && cf[0].page == 1;
    assert [e, f][1..] == [f];
    assert EntryCitations(zipName, [f]) == cf + EntryCitations(zipName, []);
    var cs := EntryCitations(zipName, [e, f]);
    assert cs == ce + cf;
    assert cs[0] == ce[0] && cs[|ce|] == cf[0];
  }

  /**
   * A standalone PDF named "z.zip -> a.pdf" and the member "a.pdf" of an
   * archive uploaded as "z.zip": both first pages are cited under the same marker.
   */
  lemma NestedLabelCollides(p: Upload, z: Upload, e: ZipEntry)
    requires p.mimeType == PdfType && z.mimeType == ZipType && z.asZip == Zip([e])
    requires IsEligible(e) && e.readable && p.name == NestedSource(z.name, e.filename)
    requires p.asPdf.Pdf? && |p.asPdf.pages| > 0 && p.asPdf.pages[0].Extracted? && Truthy(p.asPdf.pages[0].text)
    requires e.pdf.Pdf? && |e.pdf.pages| > 0 && e.pdf.pages[0].Extracted? && Truthy(e.pdf.pages[0].text)
    ensures !MarkersUnique(Citations([p, z]))
  {
    var cp := UploadCitations(p);
    var ce := PdfCitations(NestedSource(z.name, e.filename), e.pdf);
    assert cp[0].page == 1 && ce[0].page == 1;
    assert [e][1..] == [];
    assert UploadCitations(z) == ce + EntryCitations(z.name, []);
    assert [p, z][1..] == [z];
    assert Citations([z]) == ce + Citations([]);
    var cs := Citations([p, z]);
    assert cs == cp + ce;
    assert cs[0] == cp[0] && cs[|cp|] == ce[0];
  }

  // ------------------------------------------------------------ uniqueness

  lemma DistinctSplit(a: seq<string>, b: seq<string>)
    requires Distinct(a + b)
    ensures Distinct(a) && Distinct(b)
    ensures forall i, j :: 0 <= i < |a| && 0 <= j < |b| ==> a[i] != b[j]
  {
    forall i, j | 0 <= i < |a| && 0 <= j < |b|
      ensures a[i] != b[j]
    {
      assert (a + b)[i] == a[i] && (a + b)[|a| + j] == b[j];
    }
    forall i, j | 0 <= i < j < |b|
      ensures b[i] != b[j]
    {
      assert (a + b)[|a| + i] == b[i] && (a + b)[|a| + j] == b[j];
    }
    forall i, j | 0 <= i < j < |a|
      ensures a[i] != a[j]
    {
      assert (a + b)[i] == a[i] && (a + b)[j] == a[j];
    }
  }

  /** Two unique runs of citations whose labels never meet stay unique when joined. */
  lemma UniqueAppend(a: seq<Citation>, b: seq<Citation>)
    requires MarkersUnique(a) && MarkersUnique(b)
    requires forall i, j :: 0 <= i < |a| && 0 <= j < |b| ==> a[i].source != b[j].source
    ensures MarkersUnique(a + b)
  {
    var ab := a + b;
    forall x, y | 0 <= x < y < |ab|
      ensures ab[x].source != ab[y].source || ab[x].page != ab[y].page
    {
      if y < |a| {
        assert ab[x] == a[x] && ab[y] == a[y];
      } else if x < |a| {
        assert ab[x] == a[x] && ab[y] == b[y - |a|];
      } else {
        assert ab[x] == b[x - |a|] && ab[y] == b[y - |a|];
      }
    }
  }

  /** Labels drawn from two label lists: joined citations draw from the joined lists. */
  lemma SourcesInAppend(a: seq<Citation>, b: seq<Citation>, la: seq<string>, lb: seq<string>)
    requires forall k :: 0 <= k < |a| ==> a[k].source in la
    requires forall k :: 0 <= k < |b| ==> b[k].source in lb
    ensures forall k :: 0 <= k < |a + b| ==> (a + b)[k].source in la + lb
  {
    forall k | 0 <= k < |a + b|
      ensures (a + b)[k].source in la + lb
    {
      if k < |a| {
        assert (a + b)[k] == a[k];
      } else {
        assert (a + b)[k] == b[k - |a|];
      }
    }
  }

  /** Unique runs labelled from two lists with no label in common stay unique when joined. */
  lemma JoinUnique(a: seq<Citation>, b: seq<Citation>, la: seq<string>, lb: seq<string>)
    requires MarkersUnique(a) && MarkersUnique(b) && Distinct(la + lb)
    requires forall k :: 0 <= k < |a| ==> a[k].source in la
    requires forall k :: 0 <= k < |b| ==> b[k].source in lb
    ensures MarkersUnique(a + b)
  {
    DistinctSplit(la, lb);
    forall i, j | 0 <= i < |a| && 0 <= j < |b|
      ensures a[i].source != b[j].source
    {
      var x :| 0 <= x < |la| && la[x] == a[i].source;
      var y :| 0 <= y < |lb| && lb[y] == b[j].source;
    }
    UniqueAppend(a, b);
  }

  /** Within one PDF every page is cited at most once. */
  lemma PdfUnique(source: string, pdf: Pdf)
    ensures MarkersUnique(PdfCitations(source, pdf))
  {
    if pdf.Pdf? {
      PageCitationsAscending(source, pdf.pages, 0);
    }
  }

  /** Every citation from a nested PDF carries that PDF's own label. */
  lemma NestedSourcesIn(nested: string, pdf: Pdf)
    ensures forall k :: 0 <= k < |PdfCitations(nested, pdf)| ==> PdfCitations(nested, pdf)[k].source in [nested]
  {
  }

  /** Every citation from an archive is labelled with one of the archive's read labels. */
  lemma {:induction false} EntrySourcesIn(zipName: string, entries: seq<ZipEntry>)
    ensures forall k :: 0 <= k < |EntryCitations(zipName, entries)| ==>
      EntryCitations(zipName, entries)[k].source in EntryLabels(zipName, entries)
  {
    if entries != [] {
      var e := entries[0];
      var rest := entries[1..];
      EntrySourcesIn(zipName, rest);
      if IsEligible(e) && e.readable {
        var nested := NestedSource(zipName, e.filename);
        NestedSourcesIn(nested, e.pdf);
        SourcesInAppend(PdfCitations(nested, e.pdf), EntryCitations(zipName, rest), [nested], EntryLabels(zipName, rest));
      }
    }
  }

  /** An archive whose read labels are distinct cites every page of its members at most once. */
  lemma {:induction false} EntryUnique(zipName: string, entries: seq<ZipEntry>)
    requires Distinct(EntryLabels(zipName, entries))
    ensures MarkersUnique(EntryCitations(zipName, entries))
  {
    if entries != [] {
      var e := entries[0];
      var rest := entries[1..];
      if !IsEligible(e) {
        EntryUnique(zipName, rest);
      } else if e.readable {
        var nested := NestedSource(zipName, e.filename);
        DistinctSplit([nested], EntryLabels(zipName, rest));
        EntryUnique(zipName, rest);
        EntrySourcesIn(zipName, rest);
        PdfUnique(nested, e.pdf);
        NestedSourcesIn(nested, e.pdf);
        JoinUnique(PdfCitations(nested, e.pdf), EntryCitations(zipName, rest), [nested], EntryLabels(zipName, rest));
      }
    }
  }

  /** Every citation from one upload is labelled with one of its read labels. */
  lemma UploadSourcesIn(u: Upload)
    ensures forall k :: 0 <= k < |UploadCitations(u)| ==> UploadCitations(u)[k].source in UploadLabels(u)
  {
    if u.mimeType != PdfType && u.mimeType == ZipType && u.asZip.Zip? {
      EntrySourcesIn(u.name, u.asZip.entries);
    }
  }

  lemma {:induction false} FileSourcesIn(uploads: seq<Upload>)
    ensures forall k :: 0 <= k < |Citations(uploads)| ==> Citations(uploads)[k].source in FileLabels(uploads)
  {
    if uploads != [] {
      UploadSourcesIn(uploads[0]);
      FileSourcesIn(uploads[1..]);
      SourcesInAppend(UploadCitations(uploads[0]), Citations(uploads[1..]), UploadLabels(uploads[0]), FileLabels(uploads[1..]));
    }
  }

  lemma UploadUnique(u: Upload)
    requires Distinct(UploadLabels(u))
    ensures MarkersUnique(UploadCitations(u))
  {
    if u.mimeType == PdfType {
      PdfUnique(u.name, u.asPdf);
    } else if u.mimeType == ZipType && u.asZip.Zip? {
      EntryUnique(u.name, u.asZip.entries);
    }
  }

  /**
   * When the labels of all files read are pairwise distinct, no two
   * citations in the output share a label and a page number.
   */
  lemma {:induction false} CitationsUnique(uploads: seq<Upload>)
    requires Distinct(FileLabels(uploads))
    ensures MarkersUnique(Citations(uploads))
  {
    if uploads != [] {
      var u := uploads[0];
      var rest := uploads[1..];
      DistinctSplit(UploadLabels(u), FileLabels(rest));
      UploadUnique(u);
      CitationsUnique(rest);
      UploadSourcesIn(u);
      FileSourcesIn(rest);
      JoinUnique(UploadCitations(u), Citations(rest), UploadLabels(u), FileLabels(rest));
    }
  }
}
