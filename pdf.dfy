/**
 The ingestion pipeline: the directory of PDF files is processed once,
 page by page; each page's text is normalised, cut into overlapping chunks,
 each chunk is sent to the embedding model, and every chunk whose embedding
 is non-empty is added to the collection.

 The collaborators are values: a PDF file is what opening it yields (a
 failure, or the list of its pages, each extracted or failing), a directory
 is the list of its entries, and the embedding model is a function from text
 to an embedding or a failure. An exception raised while a page is processed
 is one of those failures.
 */
module Ingestion {
  import opened Text
  import opened ChunkIds
  import opened Chunking
  import opened Store

  /** The answer of the embedding service for one text: a vector (maybe empty), or an exception. */
  datatype Embedding = Vector(values: seq<real>) | EmbeddingFailed

  /** `page.get_text()`: the page's text, or an exception. */
  datatype PageText = Extracted(text: string) | ExtractionError

  /** `fitz.open(path)`: an exception, or the document's pages in order. */
  datatype PdfDocument = Unopenable | Opened(pages: seq<PageText>)

  /** An entry of the resource directory and the file it names. */
  datatype DirEntry = DirEntry(name: string, file: PdfDocument)

  const DefaultChunkSize: nat := 3000
  const DefaultOverlap: nat := 500
  const PdfExtension := ".pdf"

  // ---------------------------------------------------------------------------
  // What processing a page, a file and a directory does
  // ---------------------------------------------------------------------------

  /** The records the chunk loop adds from `start` on: one per chunk whose
      embedding is a non-empty vector, stopping at the first failing call.
      The id carries the next chunk's start, as the loop computes it after
      moving `start` on. */
  function ChunkRecordsFrom(docName: string, pageNumber: nat, text: string, chunkSize: nat, overlap: nat,
                            embed: string -> Embedding, start: nat): seq<Record>
    requires overlap < chunkSize
    decreases |text| - start
  {
    if start >= |text| then []
    else
      var chunk := ChunkFrom(text, chunkSize, start);
      var next := start + chunkSize - overlap;
      match embed(chunk)
      case EmbeddingFailed => []
      case Vector(v) =>
        var rest := ChunkRecordsFrom(docName, pageNumber, text, chunkSize, overlap, embed, next);
        if |v| > 0 then [Record(ChunkId(docName, pageNumber, next), chunk, ChunkMetadata(docName, pageNumber), v)] + rest
        else rest
  }

  /** How many times the chunk loop calls the embedding model from `start` on:
      once per chunk, up to and including the first failing call. */
  function ChunkCallsFrom(text: string, chunkSize: nat, overlap: nat, embed: string -> Embedding,
                          start: nat): nat
    requires overlap < chunkSize
    decreases |text| - start
  {
    if start >= |text| then 0
    else if embed(ChunkFrom(text, chunkSize, start)).EmbeddingFailed? then 1
    else 1 + ChunkCallsFrom(text, chunkSize, overlap, embed, start + chunkSize - overlap)
  }

  /** The records page `pageIndex` (0-based) adds. */
  function PageRecords(docName: string, pageIndex: nat, page: PageText, chunkSize: nat, overlap: nat,
                       embed: string -> Embedding): seq<Record>
    requires overlap < chunkSize
  {
    match page
    case ExtractionError => []
    case Extracted(t) =>
      if Strip(t) == [] then []
      else ChunkRecordsFrom(docName, pageIndex + 1, Normalize(t), chunkSize, overlap, embed, 0)
  }

  /** How many times processing a page calls the embedding model. */
  function PageCalls(page: PageText, chunkSize: nat, overlap: nat, embed: string -> Embedding): nat
    requires overlap < chunkSize
  {
    match page
    case ExtractionError => 0
    case Extracted(t) =>
      if Strip(t) == [] then 0 else ChunkCallsFrom(Normalize(t), chunkSize, overlap, embed, 0)
  }

  /** The records the first `n` pages add, in page order. */
  function PagesRecords(docName: string, pages: seq<PageText>, n: nat, chunkSize: nat, overlap: nat,
                        embed: string -> Embedding): seq<Record>
    requires overlap < chunkSize && n <= |pages|
  {
    if n == 0 then []
    else PagesRecords(docName, pages, n - 1, chunkSize, overlap, embed)
         + PageRecords(docName, n - 1, pages[n - 1], chunkSize, overlap, embed)
  }

  function PagesCalls(pages: seq<PageText>, n: nat, chunkSize: nat, overlap: nat, embed: string -> Embedding): nat
    requires overlap < chunkSize && n <= |pages|
  {
    if n == 0 then 0
    else PagesCalls(pages, n - 1, chunkSize, overlap, embed) + PageCalls(pages[n - 1], chunkSize, overlap, embed)
  }

  /** The records one PDF file adds: none when it cannot be opened. */
  function PdfRecords(docName: string, file: PdfDocument, chunkSize: nat, overlap: nat,
                      embed: string -> Embedding): seq<Record>
    requires overlap < chunkSize
  {
    match file
    case Unopenable => []
    case Opened(pages) => PagesRecords(docName, pages, |pages|, chunkSize, overlap, embed)
  }

  function PdfCalls(file: PdfDocument, chunkSize: nat, overlap: nat, embed: string -> Embedding): nat
    requires overlap < chunkSize
  {
    match file
    case Unopenable => 0
    case Opened(pages) => PagesCalls(pages, |pages|, chunkSize, overlap, embed)
  }

  /** Whether ingestion hands a directory entry to page processing. */
  predicate IsPdfName(name: string) {
    EndsWith(name, PdfExtension)
  }

  function FileRecords(resourcePath: string, entry: DirEntry, embed: string -> Embedding): seq<Record> {
    if IsPdfName(entry.name) then
      PdfRecords(LastSegment(Join(resourcePath, entry.name)), entry.file, DefaultChunkSize, DefaultOverlap, embed)
    else []
  }

  function FileCalls(entry: DirEntry, embed: string -> Embedding): nat {
    if IsPdfName(entry.name) then PdfCalls(entry.file, DefaultChunkSize, DefaultOverlap, embed) else 0
  }

  /** The records a first run over the first `n` entries of the directory listing adds, entry by entry. */
  function IngestRecords(resourcePath: string, listing: seq<DirEntry>, n: nat, embed: string -> Embedding): seq<Record>
    requires n <= |listing|
  {
    if n == 0 then []
    else IngestRecords(resourcePath, listing, n - 1, embed) + FileRecords(resourcePath, listing[n - 1], embed)
  }

  function IngestCalls(listing: seq<DirEntry>, n: nat, embed: string -> Embedding): nat
    requires n <= |listing|
  {
    if n == 0 then 0 else IngestCalls(listing, n - 1, embed) + FileCalls(listing[n - 1], embed)
  }

  lemma ConcatAssoc<T>(a: seq<T>, b: seq<T>, c: seq<T>)
    ensures a + b + c == a + (b + c)
  {
  }

  lemma ConcatEmpty<T>(a: seq<T>)
    ensures a + [] == a
  {
  }

  /** One iteration of the chunk loop whose embedding call fails: nothing more is added. */
  lemma ChunkStepFails(docName: string, pageNumber: nat, text: string, chunkSize: nat, overlap: nat,
                       embed: string -> Embedding, start: nat)
    requires overlap < chunkSize && start < |text|
    requires embed(ChunkFrom(text, chunkSize, start)).EmbeddingFailed?
    ensures ChunkRecordsFrom(docName, pageNumber, text, chunkSize, overlap, embed, start) == []
    ensures ChunkCallsFrom(text, chunkSize, overlap, embed, start) == 1
  {
  }

  /** One iteration of the chunk loop whose embedding call answers `v` for
      `chunk`: the chunk's record (when `v` is non-empty), then what the loop
      adds from the next start. */
  lemma ChunkStepEmbeds(docName: string, pageNumber: nat, text: string, chunkSize: nat, overlap: nat,
                        embed: string -> Embedding, start: nat, chunk: string, next: nat, v: seq<real>)
    requires overlap < chunkSize && start < |text|
    requires chunk == ChunkFrom(text, chunkSize, start) && next == start + chunkSize - overlap
    requires embed(chunk) == Vector(v)
    ensures |v| > 0 ==>
              ChunkRecordsFrom(docName, pageNumber, text, chunkSize, overlap, embed, start) ==
              [Record(ChunkId(docName, pageNumber, next), chunk, ChunkMetadata(docName, pageNumber), v)]
              + ChunkRecordsFrom(docName, pageNumber, text, chunkSize, overlap, embed, next)
    ensures |v| == 0 ==>
              ChunkRecordsFrom(docName, pageNumber, text, chunkSize, overlap, embed, start) ==
              ChunkRecordsFrom(docName, pageNumber, text, chunkSize, overlap, embed, next)
    ensures ChunkCallsFrom(text, chunkSize, overlap, embed, start) ==
            1 + ChunkCallsFrom(text, chunkSize, overlap, embed, next)
  {
  }

  /** Page `n` of the file extends what the first `n` pages add.
      The longer prefix's length `n1` (that is, `n + 1`) is a parameter so that
      callers state the step with the very term their own goal mentions. */
  lemma PagesStep(docName: string, pages: seq<PageText>, n: nat, n1: nat, chunkSize: nat, overlap: nat,
                  embed: string -> Embedding)
    requires overlap < chunkSize && n < |pages| && n1 == n + 1
    ensures PagesRecords(docName, pages, n1, chunkSize, overlap, embed) ==
            PagesRecords(docName, pages, n, chunkSize, overlap, embed)
            + PageRecords(docName, n, pages[n], chunkSize, overlap, embed)
    ensures PagesCalls(pages, n1, chunkSize, overlap, embed) ==
            PagesCalls(pages, n, chunkSize, overlap, embed) + PageCalls(pages[n], chunkSize, overlap, embed)
  {
  }

  /** A page whose text was read and is not blank adds what the chunk loop adds
      from its normalised text. */
  lemma PageOfText(docName: string, pageIndex: nat, page: PageText, text: string, chunkSize: nat, overlap: nat,
                   embed: string -> Embedding)
    requires overlap < chunkSize
    requires page.Extracted? && Strip(page.text) != [] && text == Normalize(page.text)
    ensures PageRecords(docName, pageIndex, page, chunkSize, overlap, embed) ==
            ChunkRecordsFrom(docName, pageIndex + 1, text, chunkSize, overlap, embed, 0)
    ensures PageCalls(page, chunkSize, overlap, embed) == ChunkCallsFrom(text, chunkSize, overlap, embed, 0)
  {
  }

  /** A page that cannot be read, or whose text is blank, adds nothing and calls nothing. */
  lemma PageSkipped(docName: string, pageIndex: nat, page: PageText, chunkSize: nat, overlap: nat,
                    embed: string -> Embedding)
    requires overlap < chunkSize
    requires !(page.Extracted? && Strip(page.text) != [])
    ensures PageRecords(docName, pageIndex, page, chunkSize, overlap, embed) == []
    ensures PageCalls(page, chunkSize, overlap, embed) == 0
  {
  }

  /** Entry `n` of the listing extends what the first `n` entries add.
      The longer prefix's length `n1` (that is, `n + 1`) is a parameter so that
      callers state the step with the very term their own goal mentions. */
  lemma IngestStep(resourcePath: string, listing: seq<DirEntry>, n: nat, n1: nat, embed: string -> Embedding)
    requires n < |listing| && n1 == n + 1
    ensures IngestRecords(resourcePath, listing, n1, embed) ==
            IngestRecords(resourcePath, listing, n, embed) + FileRecords(resourcePath, listing[n], embed)
    ensures IngestCalls(listing, n1, embed) == IngestCalls(listing, n, embed) + FileCalls(listing[n], embed)
  {
  }

  // ---------------------------------------------------------------------------
  // The pipeline object
  // ---------------------------------------------------------------------------

  class Pdf {
    /** The embedding model (`ollama.embeddings(model='nomic-embed-text', ...)`). */
    const embedder: string -> Embedding
    var vectorStorePath: string
    var vectorStore: Collection
    /** How many times the embedding model has been called so far. */
    ghost var embedCalls: nat

    /** Opens the collection persisted under `vectorStorePath` (given here as
        `collection`) and, if it is empty, fills it from the directory listing. */
    constructor (resourcePath: string, listing: seq<DirEntry>, vectorStorePath: string,
                 collection: Collection, embedder: string -> Embedding)
      modifies collection
      ensures this.embedder == embedder && this.vectorStorePath == vectorStorePath
      ensures vectorStore == collection
      ensures old(collection.Count()) == 0 ==>
                collection.records == IngestRecords(resourcePath, listing, |listing|, embedder) &&
                embedCalls == IngestCalls(listing, |listing|, embedder)
      ensures old(collection.Count()) != 0 ==>
                collection.records == old(collection.records) && embedCalls == 0
    {
      this.embedder := embedder;
      this.vectorStorePath := vectorStorePath;
      this.vectorStore := collection;
      this.embedCalls := 0;
      new;
      var c := InitializeVectorStore(resourcePath, listing, collection);
      vectorStore := c;
    }

    /** `_initialize_vector_store`: a collection that already holds records is
        returned untouched; an empty one gets every `.pdf` entry of the listing. */
    method InitializeVectorStore(resourcePath: string, listing: seq<DirEntry>, collection: Collection)
      returns (c: Collection)
      modifies this`embedCalls, collection
      ensures c == collection
      ensures old(collection.Count()) == 0 ==>
                collection.records == IngestRecords(resourcePath, listing, |listing|, embedder) &&
                embedCalls == old(embedCalls) + IngestCalls(listing, |listing|, embedder)
      ensures old(collection.Count()) != 0 ==>
                collection.records == old(collection.records) && embedCalls == old(embedCalls)
    {
      if collection.Count() == 0 {
        var i := 0;
        while i < |listing|
          invariant i <= |listing|
          invariant collection.records == IngestRecords(resourcePath, listing, i, embedder)
          invariant embedCalls == old(embedCalls) + IngestCalls(listing, i, embedder)
        {
          ghost var recordsSoFar, done := collection.records, i;
          var filename := listing[i].name;
          if EndsWith(filename, PdfExtension) {
            var pdfPath := Join(resourcePath, filename);
            ProcessPdfPageByPage(pdfPath, listing[i].file, collection);
          } else {
            ConcatEmpty(recordsSoFar);
          }
          i := i + 1;
          IngestStep(resourcePath, listing, done, i, embedder);
        }
      }
      c := collection;
    }

    /** The body of the page loop once the page's text is normalised: the
        chunk loop, where each chunk is embedded and, when its vector is
        non-empty, added; a failing embedding call ends the page. */
    method ChunkAndEmbedPage(pdfName: string, pageNumber: nat, text: string, collection: Collection,
                             chunkSize: nat, overlap: nat)
      requires overlap < chunkSize
      modifies this`embedCalls, collection
      ensures collection.records ==
                old(collection.records) + ChunkRecordsFrom(pdfName, pageNumber, text, chunkSize, overlap, embedder, 0)
      ensures embedCalls == old(embedCalls) + ChunkCallsFrom(text, chunkSize, overlap, embedder, 0)
    {
      var start: nat := 0;
      while start < |text|
        invariant collection.records + ChunkRecordsFrom(pdfName, pageNumber, text, chunkSize, overlap, embedder, start)
                  == old(collection.records) + ChunkRecordsFrom(pdfName, pageNumber, text, chunkSize, overlap, embedder, 0)
        invariant embedCalls + ChunkCallsFrom(text, chunkSize, overlap, embedder, start)
                  == old(embedCalls) + ChunkCallsFrom(text, chunkSize, overlap, embedder, 0)
        decreases |text| - start
      {
        ghost var recordsSoFar := collection.records;
        var end := start + chunkSize;
        var chunk := text[start..Min(end, |text|)];
        assert chunk == ChunkFrom(text, chunkSize, start);
        ghost var chunkStart := start;
        start := end - overlap;
        var chunkId := ChunkId(pdfName, pageNumber, start);
        embedCalls := embedCalls + 1;
        var embedding := embedder(chunk);
        // an exception from the embedding call abandons the rest of the page
        if embedding.EmbeddingFailed? {
          ChunkStepFails(pdfName, pageNumber, text, chunkSize, overlap, embedder, chunkStart);
          ConcatEmpty(collection.records);
          break;
        }
        ChunkStepEmbeds(pdfName, pageNumber, text, chunkSize, overlap, embedder, chunkStart, chunk, start, embedding.values);
        if |embedding.values| > 0 {
          var r := Record(chunkId, chunk, ChunkMetadata(pdfName, pageNumber), embedding.values);
          collection.Add(r);
          ConcatAssoc(recordsSoFar, [r], ChunkRecordsFrom(pdfName, pageNumber, text, chunkSize, overlap, embedder, start));
        }
      }
    }

    /** One iteration of the page loop of `process_pdf_page_by_page`: a page
        whose text cannot be read, or is blank, is skipped; otherwise its
        normalised text goes through the chunk loop. */
    method ProcessPage(pdfName: string, pageIndex: nat, page: PageText, collection: Collection,
                       chunkSize: nat, overlap: nat)
      requires overlap < chunkSize
      modifies this`embedCalls, collection
      ensures collection.records ==
                old(collection.records) + PageRecords(pdfName, pageIndex, page, chunkSize, overlap, embedder)
      ensures embedCalls == old(embedCalls) + PageCalls(page, chunkSize, overlap, embedder)
    {
      // an exception while reading the page abandons the page
      if page.Extracted? && Strip(page.text) != [] {
        var text := Normalize(page.text);
        PageOfText(pdfName, pageIndex, page, text, chunkSize, overlap, embedder);
        ChunkAndEmbedPage(pdfName, pageIndex + 1, text, collection, chunkSize, overlap);
      } else {
        PageSkipped(pdfName, pageIndex, page, chunkSize, overlap, embedder);
        ConcatEmpty(collection.records);
      }
    }

    /** `process_pdf_page_by_page`: the records of every page of the file, in
        page order; a file that cannot be opened adds nothing, and a failure
        inside a page ends that page only. */
    method ProcessPdfPageByPage(pdfPath: string, file: PdfDocument, collection: Collection,
                                chunkSize: nat := DefaultChunkSize, overlap: nat := DefaultOverlap)
      requires overlap < chunkSize
      modifies this`embedCalls, collection
      ensures collection.records ==
                old(collection.records) + PdfRecords(LastSegment(pdfPath), file, chunkSize, overlap, embedder)
      ensures embedCalls == old(embedCalls) + PdfCalls(file, chunkSize, overlap, embedder)
    {
      var pdfName := LastSegment(pdfPath);
      if file.Unopenable? {
        ConcatEmpty(collection.records);
        return;
      }
      var pages := file.pages;
      var pageNumber := 0;
      while pageNumber < |pages|
        invariant pageNumber <= |pages|
        invariant collection.records ==
                    old(collection.records) + PagesRecords(pdfName, pages, pageNumber, chunkSize, overlap, embedder)
        invariant embedCalls == old(embedCalls) + PagesCalls(pages, pageNumber, chunkSize, overlap, embedder)
      {
        ghost var done := pageNumber;
        ProcessPage(pdfName, pageNumber, pages[pageNumber], collection, chunkSize, overlap);
        ConcatAssoc(old(collection.records), PagesRecords(pdfName, pages, pageNumber, chunkSize, overlap, embedder),
                    PageRecords(pdfName, pageNumber, pages[pageNumber], chunkSize, overlap, embedder));
        pageNumber := pageNumber + 1;
        PagesStep(pdfName, pages, done, pageNumber, chunkSize, overlap, embedder);
      }
    }
  }
}
