/** The two entry points of the program, `PDFProcessor.clean_pdf` in app.py
    and `PDFProcessor.clean_and_reconstruct` in processor.py, and the naming
    half of the upload handler that calls the first. Each builds the target
    pages and then sets the document's title and producer. Opening,
    saving and closing documents are the library's business and are not
    modelled: the source pages come in as values and the target document
    goes out as one. */
module Pipeline {
  import opened Optional
  import opened Text
  import opened Layout
  import opened Insertion
  import opened Rebuild
  import opened Names

  /** The producer written into every output (app.py:47, processor.py:41). */
  const Producer: string := "InkSaver SaaS"

  /** `custom_name`'s default in app.py:12. */
  const DefaultCustomName: string := "documento_limpio"

  /** `output_name`'s default in processor.py:18. */
  const DefaultOutputName: string := "documento_limpio.pdf"

  /** The extension the processor removes from titles. */
  const PdfExtension: string := ".pdf"

  datatype Metadata = Metadata(title: string, producer: string)

  datatype TargetDoc = TargetDoc(pages: seq<TargetPage>, metadata: Metadata)

  /** app.py:45-48: the title is the name exactly as given. */
  function AppMetadata(customName: string): (m: Metadata)
    ensures m.title == customName && m.producer == Producer
  {
    Metadata(customName, Producer)
  }

  /** processor.py:39-42: the title is the name with every ".pdf" removed. */
  function ProcessorMetadata(outputName: string): (m: Metadata)
    ensures m.producer == Producer
    ensures !Contains(outputName, PdfExtension) ==> m.title == outputName
    ensures Contains(outputName, PdfExtension) ==> |m.title| <= |outputName| - |PdfExtension|
  {
    Metadata(RemoveAll(outputName, PdfExtension), Producer)
  }

  /** ".pdf" cannot overlap itself: its first character occurs nowhere else. */
  lemma PdfExtensionBorderFree()
    ensures BorderFree(PdfExtension)
  {
    forall k | 0 < k < |PdfExtension|
      ensures PdfExtension[k..] != PdfExtension[..|PdfExtension| - k]
    {
      assert PdfExtension[..|PdfExtension| - k][0] == '.';
      assert PdfExtension[k..][0] != '.';
    }
  }

  /** A title given as "name.pdf", with no ".pdf" inside "name", comes out as
      "name": the processor strips the file extension. */
  lemma ProcessorTitleDropsExtension(name: string)
    requires !Contains(name, PdfExtension)
    ensures ProcessorMetadata(name + PdfExtension).title == name
  {
    PdfExtensionBorderFree();
    RemoveAppended(name, PdfExtension);
  }

  /** Every ".pdf" goes, wherever it stands: the title of `a + ".pdf" + b`
      is `a` followed by the title of `b`, whenever the first ".pdf" is the
      one after `a`. */
  lemma ProcessorTitleDropsEach(a: string, b: string)
    requires !Contains(a + ".pd", PdfExtension)
    ensures ProcessorMetadata(a + PdfExtension + b).title == a + ProcessorMetadata(b).title
  {
    assert PdfExtension[..|PdfExtension| - 1] == ".pd";
    RemoveAllSplice(a, PdfExtension, b);
  }

  /** `replace` removes every occurrence, not only a trailing one. */
  lemma ProcessorTitleDropsInnerOccurrences(name: string)
    requires name == "a.pdf.b.pdf"
    ensures ProcessorMetadata(name).title == "a.b"
  {
    var tail := name[1..];
    assert name[0] != '.';
    assert !OccursAt(name, PdfExtension, 0);
    assert OccursAt(tail, PdfExtension, 0);
    var last := tail[4..];
    assert last == ".b" + PdfExtension;
    assert !Contains(".b", PdfExtension);
    ProcessorTitleDropsExtension(".b");
    assert RemoveAll(tail, PdfExtension) == ".b";
    assert RemoveAll(name, PdfExtension) == [name[0]] + ".b";
  }

  /** `replace` is a single pass: removing an inner ".pdf" can join two
      pieces into a new ".pdf", which stays in the title. */
  lemma ProcessorTitleCanStillContainExtension(name: string)
    requires name == ".p.pdfdf"
    ensures ProcessorMetadata(name).title == PdfExtension
    ensures Contains(ProcessorMetadata(name).title, PdfExtension)
  {
    assert name[2] == '.';
    assert !OccursAt(name, PdfExtension, 0);
    var rest := name[1..];
    assert rest[0] != '.';
    assert !OccursAt(rest, PdfExtension, 0);
    var rest2 := rest[1..];
    assert OccursAt(rest2, PdfExtension, 0);
    var df := rest2[4..];
    assert df == "df";
    AvoidingCharAvoidsPattern(df, PdfExtension, 0);
    assert RemoveAll(rest2, PdfExtension) == df;
    assert RemoveAll(rest, PdfExtension) == [rest[0]] + df;
    assert RemoveAll(name, PdfExtension) == [name[0]] + [rest[0]] + df;
    assert [name[0]] + [rest[0]] + df == PdfExtension;
    assert OccursAt(PdfExtension, PdfExtension, 0);
  }

  /** Both entry points title a document "documento_limpio" by default. */
  lemma DefaultTitlesAgree()
    ensures ProcessorMetadata(DefaultOutputName).title == AppMetadata(DefaultCustomName).title
  {
    assert DefaultOutputName == DefaultCustomName + PdfExtension;
    AvoidingCharAvoidsPattern(DefaultCustomName, PdfExtension, 0);
    ProcessorTitleDropsExtension(DefaultCustomName);
  }

  /** app.py's `clean_pdf`: rebuild every page, giving up on a span after one
      failed insertion, then title the document with the name as given. */
  method CleanPdf(ok: Oracle, source: seq<SourcePage>, customName: string) returns (doc: TargetDoc)
    ensures doc.pages == RebuildPages(SingleTry, ok, source)
    ensures |doc.pages| == |source|
    ensures doc.metadata.title == customName && doc.metadata.producer == Producer
  {
    var pages := RebuildPagesLoop(SingleTry, ok, source);
    doc := TargetDoc(pages, AppMetadata(customName));
  }

  /** processor.py's `clean_and_reconstruct`: rebuild every page, retrying a
      failed span once in "sans-serif", then title the document with the name
      stripped of ".pdf". */
  method CleanAndReconstruct(ok: Oracle, source: seq<SourcePage>, outputName: string) returns (doc: TargetDoc)
    ensures doc.pages == RebuildPages(RetryOnce, ok, source)
    ensures |doc.pages| == |source|
    ensures doc.metadata == ProcessorMetadata(outputName)
  {
    var pages := RebuildPagesLoop(RetryOnce, ok, source);
    doc := TargetDoc(pages, ProcessorMetadata(outputName));
  }

  /** The upload handler's core (app.py:71-84): name the output, rebuild the
      document titled with the safe name, offer it as "<safe name>.pdf". */
  method ProcessUpload(ok: Oracle, source: seq<SourcePage>, field: Option<string>, filename: string)
    returns (naming: Naming, doc: TargetDoc)
    ensures naming == NameUpload(field, filename)
    ensures AllSafe(doc.metadata.title) && IsTrimmed(doc.metadata.title)
    ensures naming.downloadName == doc.metadata.title + PdfExtension
    ensures doc.pages == RebuildPages(SingleTry, ok, source)
    ensures |doc.pages| == |source|
    ensures doc.metadata.producer == Producer
  {
    naming := NameUpload(field, filename);
    doc := CleanPdf(ok, source, naming.safeName);
  }

  /** A name of safe characters, with ".pdf" appended, is titled by the
      processor as the bare name: a safe name has no '.' for ".pdf" to match. */
  lemma SafeNameTitledAlike(safe: string)
    requires AllSafe(safe)
    ensures ProcessorMetadata(safe + PdfExtension).title == AppMetadata(safe).title
  {
    assert forall i :: 0 <= i < |safe| ==> IsSafeChar(safe[i]);
    AvoidingCharAvoidsPattern(safe, PdfExtension, 0);
    ProcessorTitleDropsExtension(safe);
  }

  /** The download name, given to processor.py's entry point, yields the same
      title app.py writes. */
  lemma DownloadNameTitlesAlike(field: Option<string>, filename: string)
    ensures var naming := NameUpload(field, filename);
      ProcessorMetadata(naming.downloadName).title == AppMetadata(naming.safeName).title
  {
    var naming := NameUpload(field, filename);
    SafeNameTitledAlike(naming.safeName);
  }
}
