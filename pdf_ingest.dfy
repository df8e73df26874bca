/**
 * The page selection and document mapping of the PDF ingester
 * (`get_documents_from_pdf`), and the accumulation of documents across the
 * files of one batch (`load_and_store_to_vector_batch`).
 *
 * Reading the configuration file and loading a PDF are I/O: the parsed
 * configuration is a map from file name to its entry, and the PDF loader is
 * a function from file name to the pages it yields.
 */
module PdfIngest {
  import opened Wrappers

  /** One page as the PDF loader returns it: zero-based `page`, the page
   *  text, and the optional printed `page_label`. */
  datatype LoadedPage = LoadedPage(page: int, content: string, pageLabel: Option<string>)

  /** One file's entry in the configuration. */
  datatype PdfConfig = PdfConfig(title: string, author: string, skipPages: seq<int>)

  /** The document handed to the index: the page text and its metadata. */
  datatype Document = Document(text: string, source: string, author: string, pageLabel: string, rawPageNo: int)

  /** The label recorded for a page that has none. */
  const MissingLabel := "na"

  function MissingConfig(fileName: string): string {
    "missing configuration for file " + fileName
  }

  // ---------------------------------------------------------------------
  // The page filter
  // ---------------------------------------------------------------------

  /** A page is kept when its one-based number is not listed in the
   *  configuration and it is not the first page. */
  predicate Kept(p: LoadedPage, skipPages: seq<int>) {
    p.page + 1 !in skipPages && p.page != 0
  }

  /** The filtered list, in loader order. */
  function KeptPages(pages: seq<LoadedPage>, skipPages: seq<int>): (kept: seq<LoadedPage>)
    ensures |kept| <= |pages|
    ensures forall p :: p in kept <==> p in pages && Kept(p, skipPages)
  {
    if |pages| == 0 then []
    else (if Kept(pages[0], skipPages) then [pages[0]] else []) + KeptPages(pages[1..], skipPages)
  }

  /** Filtering a concatenation filters each part and keeps them in order. */
  lemma {:induction false} KeptPagesAppend(a: seq<LoadedPage>, b: seq<LoadedPage>, skipPages: seq<int>)
    ensures KeptPages(a + b, skipPages) == KeptPages(a, skipPages) + KeptPages(b, skipPages)
  {
    if |a| > 0 {
      assert (a + b)[1..] == a[1..] + b;
      KeptPagesAppend(a[1..], b, skipPages);
    } else {
      assert a + b == b;
    }
  }

  /** Every kept page occurs in the output as often as in the input; every
   *  dropped page does not occur at all. */
  lemma {:induction false} KeptPagesCount(pages: seq<LoadedPage>, skipPages: seq<int>, p: LoadedPage)
    ensures multiset(KeptPages(pages, skipPages))[p] ==
      (if Kept(p, skipPages) then multiset(pages)[p] else 0)
  {
    if |pages| > 0 {
      KeptPagesCount(pages[1..], skipPages, p);
      assert pages == [pages[0]] + pages[1..];
    }
  }

  // ---------------------------------------------------------------------
  // The document mapping
  // ---------------------------------------------------------------------

  /** The document of one kept page: its text, with the configured title
   *  and author, its label and its raw page number as metadata. */
  function ToDocument(p: LoadedPage, config: PdfConfig): Document {
    Document(p.content, config.title, config.author, p.pageLabel.GetOr(MissingLabel), p.page)
  }

  /** The documents of one loaded file: one per kept page, in page order. */
  function DocumentsOf(pages: seq<LoadedPage>, config: PdfConfig): (docs: seq<Document>)
    ensures |docs| == |KeptPages(pages, config.skipPages)|
  {
    if |pages| == 0 then []
    else
      (if Kept(pages[0], config.skipPages) then [ToDocument(pages[0], config)] else [])
      + DocumentsOf(pages[1..], config)
  }

  /**
   * The i-th document is built from the i-th kept page: text and raw page
   * number from the page, source and author from the configuration, the
   * page label from the page or "na".
   */
  lemma {:induction false} DocumentsFollowKeptPages(pages: seq<LoadedPage>, config: PdfConfig, i: nat)
    requires i < |DocumentsOf(pages, config)|
    ensures var p := KeptPages(pages, config.skipPages)[i];
      var d := DocumentsOf(pages, config)[i];
      && d.text == p.content
      && d.rawPageNo == p.page
      && d.source == config.title
      && d.author == config.author
      && (p.pageLabel.Some? ==> d.pageLabel == p.pageLabel.value)
      && (p.pageLabel.None? ==> d.pageLabel == MissingLabel)
  {
    if Kept(pages[0], config.skipPages) {
      if i > 0 {
        DocumentsFollowKeptPages(pages[1..], config, i - 1);
      }
    } else {
      DocumentsFollowKeptPages(pages[1..], config, i);
    }
  }

  /** Document extraction of a concatenation concatenates, in order. */
  lemma {:induction false} DocumentsOfAppend(a: seq<LoadedPage>, b: seq<LoadedPage>, config: PdfConfig)
    ensures DocumentsOf(a + b, config) == DocumentsOf(a, config) + DocumentsOf(b, config)
  {
    if |a| > 0 {
      assert (a + b)[1..] == a[1..] + b;
      DocumentsOfAppend(a[1..], b, config);
    } else {
      assert a + b == b;
    }
  }

  /** No document comes from the first page or from a listed page. */
  lemma {:induction false} NoDocumentFromDroppedPage(pages: seq<LoadedPage>, config: PdfConfig, d: Document)
    requires d in DocumentsOf(pages, config)
    ensures d.rawPageNo != 0
    ensures d.rawPageNo + 1 !in config.skipPages
    ensures exists p :: p in pages && Kept(p, config.skipPages) && d == ToDocument(p, config)
  {
    if d != ToDocument(pages[0], config) || !Kept(pages[0], config.skipPages) {
      NoDocumentFromDroppedPage(pages[1..], config, d);
    }
  }

  /** Every page past the first whose number is not listed yields its document. */
  lemma {:induction false} KeptPageYieldsDocument(pages: seq<LoadedPage>, config: PdfConfig, p: LoadedPage)
    requires p in pages && p.page != 0 && p.page + 1 !in config.skipPages
    ensures ToDocument(p, config) in DocumentsOf(pages, config)
  {
    if pages[0] != p {
      KeptPageYieldsDocument(pages[1..], config, p);
    }
  }

  /** `get_documents_from_pdf`: the configuration lookup, then filter and map. */
  function DocumentsFromPdf(config: map<string, PdfConfig>, fileName: string, pages: seq<LoadedPage>)
    : (r: Result<seq<Document>, string>)
    ensures r.Failure? <==> fileName !in config
    ensures r.Failure? ==> r.error == MissingConfig(fileName)
    ensures r.Success? ==> |r.value| == |KeptPages(pages, config[fileName].skipPages)|
  {
    if fileName in config then Success(DocumentsOf(pages, config[fileName]))
    else Failure(MissingConfig(fileName))
  }

  /** The cover page and a listed page are dropped; a page without a label gets "na". */
  lemma CoverAndListedPagesAreDropped()
    ensures DocumentsOf(
      [LoadedPage(0, "cover", Some("i")), LoadedPage(1, "contents", Some("ii")), LoadedPage(2, "body", None)],
      PdfConfig("Guide", "Ann", [2]))
      == [Document("body", "Guide", "Ann", "na", 2)]
  {
  }

  // ---------------------------------------------------------------------
  // The batch
  // ---------------------------------------------------------------------

  /** The documents of the given files, concatenated in list order. */
  function BatchDocuments(config: map<string, PdfConfig>, load: string -> seq<LoadedPage>, files: seq<string>)
    : seq<Document>
    requires forall f :: f in files ==> f in config
  {
    if |files| == 0 then []
    else
      var last := files[|files| - 1];
      BatchDocuments(config, load, files[..|files| - 1]) + DocumentsOf(load(last), config[last])
  }

  /** Batches compose by concatenation: no file is deduplicated or reordered. */
  lemma {:induction false} BatchDocumentsAppend(
    config: map<string, PdfConfig>, load: string -> seq<LoadedPage>, a: seq<string>, b: seq<string>)
    requires forall f :: f in a + b ==> f in config
    ensures BatchDocuments(config, load, a + b) == BatchDocuments(config, load, a) + BatchDocuments(config, load, b)
  {
    if |b| == 0 {
      assert a + b == a;
    } else {
      var last := b[|b| - 1];
      assert (a + b)[..|a + b| - 1] == a + b[..|b| - 1];
      BatchDocumentsAppend(config, load, a, b[..|b| - 1]);
    }
  }

  /** A file listed twice contributes its documents twice. */
  lemma RepeatedFileIsIngestedTwice(config: map<string, PdfConfig>, load: string -> seq<LoadedPage>, f: string)
    requires f in config
    ensures BatchDocuments(config, load, [f, f]) == DocumentsOf(load(f), config[f]) + DocumentsOf(load(f), config[f])
  {
    assert [f] + [f] == [f, f];
    assert [f][..0] == [];
    BatchDocumentsAppend(config, load, [f], [f]);
  }

  /**
   * The batch loop: the documents of each file are appended, in list order,
   * to one list. The batch succeeds exactly when every file is configured, and then holds
   * every file's documents in list order; otherwise it fails with the error
   * of the first file that is not configured.
   */
  method CollectDocuments(config: map<string, PdfConfig>, load: string -> seq<LoadedPage>, files: seq<string>)
    returns (r: Result<seq<Document>, string>)
    ensures r.Success? <==> forall f :: f in files ==> f in config
    ensures r.Success? ==> r.value == BatchDocuments(config, load, files)
    ensures r.Failure? ==>
      (exists i :: 0 <= i < |files| && files[i] !in config &&
        (forall j :: 0 <= j < i ==> files[j] in config) && r.error == MissingConfig(files[i]))
  {
    var documents: seq<Document> := [];
    var i := 0;
    while i < |files|
      invariant 0 <= i <= |files|
      invariant forall j :: 0 <= j < i ==> files[j] in config
      invariant documents == BatchDocuments(config, load, files[..i])
    {
      var fileName := files[i];
      var got := DocumentsFromPdf(config, fileName, load(fileName));
      if got.Failure? {
        return Failure(got.error);
      }
      assert files[..i + 1][..i] == files[..i];
      documents := documents + got.value;
      i := i + 1;
    }
    assert files[..i] == files;
    r := Success(documents);
  }
}
