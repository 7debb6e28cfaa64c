# PDF retrieval chatbot: ingestion and query reshaping, in Dafny

This project models the core of a small retrieval-augmented chatbot. It covers two parts.

Ingestion (`app/src/pdf.py`), on the first run only:
- Every `.pdf` file of a resource directory is opened and read page by page.
- Each page's text is normalised: newlines become spaces, and surrounding whitespace is stripped.
- The text is cut into overlapping chunks of `chunk_size` characters (default 3000), each starting `chunk_size - overlap` characters (default 500 overlap) after the previous one.
- Each chunk is sent to an embedding model.
- Each chunk whose embedding is non-empty is added to a vector-store collection. It is stored under the identifier `<file>_page<n>_chunk<offset>` with the metadata `{doc_name, page_number}`.

The query endpoint (`query_llm` in `app/src/main.py`):
- It flattens the nested metadata lists of a retrieval result.
- It maps each item to a `(doc_name, page)` entry.
- It returns the generated answer and the retrieved documents unchanged.
- Any exception becomes a single HTTP 500 error whose detail is `"An error occurred: "` followed by the exception's message.

Files:

- `text.dfy` (module `Text`): Python's `str.strip`, `str.replace('\n', ' ')`, `str.endswith`, `os.path.join` and `path.split("/")[-1]`.
- `ids.dfy` (modules `Decimal`, `ChunkIds`): `str(n)` for naturals, the chunk identifier, and a parser that reads an identifier back.
- `chunking.dfy` (module `Chunking`): the chunks the `while start < len(text)` loop cuts, with their closed form, count, coverage and overlap.
- `store.dfy` (module `Store`): the collection, as a class whose record list is appended to.
- `pdf.dfy` (module `Ingestion`): the `Pdf` class. Its constructor, `_initialize_vector_store` and `process_pdf_page_by_page` are imperative methods with the source's loops. Each is proved against a specification function that says, page by page and chunk by chunk, which records are added and how many times the embedding model is called.
- `ingestion_props.dfy` (module `IngestionProperties`): properties of those specification functions. They cover:
  - the shape of each stored record, and which chunk of the page it holds;
  - distinct identifiers within a page, a document and the whole directory;
  - bounds on embedding calls;
  - containment of a failing page.
- `query.dfy` (module `Query`): the reshaping done by `query_llm`, as pure functions with an error result.

The outside world is passed in as values:
- A PDF file is what `fitz.open` yields: a failure, or its pages, each either extracted text or an extraction failure.
- The resource directory is the list `os.listdir` returns, with each entry's file.
- The embedding model is a function from text to a vector or a failure. A ghost counter in the `Pdf` object counts its calls.
- An exception raised inside a page is one of these failures. The model ends that page, as the per-page `try`/`except` does.

The loop produces `ceil(L / (chunk_size - overlap))` chunks for a normalised page of length `L`. The seemingly natural count `ceil((L - overlap) / (chunk_size - overlap))` disagrees with it whenever the last step leaves a tail no longer than the overlap. For example, a 15-character page with chunk size 10 and overlap 3 gives three chunks, the last being `"o"`, where that formula predicts two. `Chunking.FifteenCharacterPage` and `Chunking.TrailingChunkInsidePrevious` state this behaviour of the loop.

## Model

| member | source | states |
|---|---|---|
| Text.Strip | app/src/pdf.py:119-122 | `strip()` keeps one contiguous slice of the text. Everything before and after that slice is whitespace. The result is empty exactly when the text is all whitespace; otherwise it starts and ends with a non-whitespace character. |
| Text.ReplaceNewlines | app/src/pdf.py:122 | `replace('\n', ' ')` keeps the length, turns every newline into a space and leaves every other character unchanged. |
| Text.NormalizeSpec | app/src/pdf.py:119-122 | Normalised page text has no newline and no leading or trailing whitespace. It is empty exactly when the blank-page test skips the page. |
| Text.LastSegment | app/src/pdf.py:104 | `pdf_path.split("/")[-1]` is a suffix of the path containing no `/`. |
| Text.LastSegmentFollowsSlash | app/src/pdf.py:104 | Unless it is the whole path, the last segment is preceded by a `/`. |
| Text.LastSegmentAfterSlash | app/src/pdf.py:104 | A slash-free name after a prefix ending in `/` (or after nothing) is the last segment. |
| Text.LastSegmentOfJoin | app/src/pdf.py:104 | The document name taken from `os.path.join(resource_path, filename)` is the file name itself, for any slash-free file name. |
| Decimal.Digits | app/src/pdf.py:133 | `str(n)` is non-empty, all ASCII digits, and has no leading zero unless `n` is 0. |
| Decimal.DigitsRoundTrip | app/src/pdf.py:133 | Reading the digits of `str(n)` gives back `n`. |
| ChunkIds.ChunkIdRoundTrip | app/src/pdf.py:133 | The identifier `f"{pdf_name}_page{p}_chunk{start}"` reads back as the same name, page and offset, for every document name. |
| ChunkIds.ChunkIdInjective | app/src/pdf.py:133 | Two identifiers are equal only when name, page and offset are all equal. |
| Chunking.Step | app/src/pdf.py:127-129 | When the overlap is smaller than the chunk size, `start` advances by a positive step of at most `chunk_size`. |
| Chunking.ChunksFromLength | app/src/pdf.py:126-129 | From `start`, the loop cuts the least number of chunks whose steps reach the end of the text. |
| Chunking.ChunkCountIsCeiling | app/src/pdf.py:126-129 | The count formula is the ceiling of the text length over the step. |
| Chunking.ChunksCount | app/src/pdf.py:126-129 | A page of length `L` gives `ceil(L / (chunk_size - overlap))` chunks. |
| Chunking.ChunksFromAt | app/src/pdf.py:126-129 | Chunk `k` from `start` is `text[start + k*step : start + k*step + chunk_size]` and starts inside the text. |
| Chunking.ChunkAt | app/src/pdf.py:126-129 | Chunk `k` of a page is the slice starting at `k*step`. |
| Chunking.ChunksClosedForm | app/src/pdf.py:126-129 | Chunk `k` is `text[k*S : min(k*S + chunk_size, L)]`, with `S = chunk_size - overlap`. |
| Chunking.ChunkLength | app/src/pdf.py:128 | Every chunk has between 1 and `chunk_size` characters. |
| Chunking.ChunksCover | app/src/pdf.py:126-129 | Every character of the page lies in chunk `i / S`, at position `i - (i / S)*S`. |
| Chunking.ChunkFromOverlap | app/src/pdf.py:128-129 | A chunk's tail after one step is a prefix of the next chunk. When the chunk is full, that tail is exactly `overlap` characters long. |
| Chunking.ChunksOverlap | app/src/pdf.py:128-129 | Consecutive chunks overlap: chunk `k` from position `S` on is a prefix of chunk `k+1`, and it has `overlap` characters when chunk `k` is full. |
| Chunking.FifteenCharacterPage | app/src/pdf.py:126-129 | With 15 characters, chunk size 10 and overlap 3, the chunks are `"abcdefghij"`, `"hijklmno"` and `"o"`. |
| Chunking.ChunkFromInsidePrevious | app/src/pdf.py:126-129 | A chunk that runs to the end of the text equals the previous chunk's tail exactly when it is no longer than the overlap. |
| Chunking.TrailingChunkInsidePrevious | app/src/pdf.py:126-129 | The last chunk lies entirely inside the one before it exactly when it is no longer than the overlap. |
| Chunking.LoopDivergesWithoutProgress | app/src/pdf.py:127-129 | Nothing checks `overlap < chunk_size`. When it fails, `start` never becomes positive, so a non-empty page never leaves the loop. |
| Store.Collection.constructor | app/src/pdf.py:71-75 | A collection loaded from its persist directory holds exactly the persisted records. |
| Store.Collection.Add | app/src/pdf.py:142-150 | `collection.add` of one chunk appends exactly that record. |
| Ingestion.Pdf.constructor | app/src/pdf.py:11-21 | The object keeps its store path and collection. An empty collection receives every record of every `.pdf` entry of the listing. A non-empty one is left unchanged and the embedding model is never called. |
| Ingestion.Pdf.InitializeVectorStore | app/src/pdf.py:45-57 | Ingestion runs only when `count()` is 0, over the listing in order and only for names ending in `.pdf`. Otherwise the collection and the call count are unchanged. |
| Ingestion.Pdf.ProcessPdfPageByPage | app/src/pdf.py:93-156 | The file's records are appended page by page under the name after the last `/`. A file that cannot be opened adds nothing. |
| Ingestion.Pdf.ProcessPage | app/src/pdf.py:114-154 | One page loop iteration appends that page's records, or nothing for a failed or blank page. |
| Ingestion.Pdf.ChunkAndEmbedPage | app/src/pdf.py:123-150 | The chunk loop appends, in order, one record per chunk with a non-empty vector. It calls the model once per chunk until the first failure. |
| IngestionProperties.StoredOffsetsIncrease | app/src/pdf.py:129-133 | The offsets written into a page's identifiers lie past the loop's start and at most one step past the text. They strictly increase. |
| IngestionProperties.ChunkRecordsAt | app/src/pdf.py:126-150 | Record `i` of a page carries the `i`-th stored offset in its identifier: the start of the chunk after the one it holds. Its document is the chunk starting one step before that offset, and its metadata is `{doc_name, page_number}`. Its embedding is the non-empty vector the model returned for that document. |
| IngestionProperties.ChunkIdsDistinct | app/src/pdf.py:133 | The identifiers stored for one page are pairwise distinct. |
| IngestionProperties.StoredAtKeyed | app/src/pdf.py:133-147 | A record stored for an offset has an identifier that parses back to its document name and page number, and its metadata names the same. |
| IngestionProperties.ChunkRecordsKeyed | app/src/pdf.py:126-150 | The chunk loop over a page's text stores records keyed to the document and the page, with non-empty embeddings and distinct identifiers. |
| IngestionProperties.ChunkRecordsOfChunks | app/src/pdf.py:126-150 | Record `i` of the chunk loop from `start` belongs to chunk `k`, the `i`-th stored position among the chunks the loop cuts. Its document is chunk `k`, its identifier carries `start + (k + 1) * (chunk_size - overlap)`, its metadata is `{doc_name, page_number}`, and its embedding is the non-empty vector the model returned for chunk `k`. |
| IngestionProperties.StoredIndicesAscending | app/src/pdf.py:126-150 | The stored chunk positions are positions of actual chunks, in strictly increasing order, so records follow chunk order. |
| IngestionProperties.StoredIndicesExact | app/src/pdf.py:126-154 | A chunk gets a record exactly when its own call and every earlier call on the page answered, and its own vector is non-empty. |
| IngestionProperties.AllEmbeddedRecords | app/src/pdf.py:126-150 | When every chunk embeds to a non-empty vector, the loop stores one record per chunk, in order. Record `k` holds chunk `k` under the identifier offset `start + (k + 1) * (chunk_size - overlap)`. |
| IngestionProperties.PageRecordsOfChunks | app/src/pdf.py:114-150 | On a readable, non-blank page with index `p`, each record is that of a chunk `k` of the normalised text's chunks. It holds that chunk under `"{name}_page{p+1}_chunk{(k+1)*(chunk_size-overlap)}"`. When every chunk embeds, record `k` is chunk `k`'s. |
| IngestionProperties.ChunkCallsBounded | app/src/pdf.py:126-154 | The model is called at most once per chunk, and at least once on non-empty text. There is at most one record per call. Every call before the last one answered, so the loop stops at the first failing call; an early stop means the last call failed. When no call fails, there is one call per chunk. When every chunk embeds to a non-empty vector, calls, records and chunks are equal in number. |
| IngestionProperties.ExampleChunkIds | app/src/pdf.py:133 | The identifiers for page 1 of `doc.pdf` at offsets 7, 14 and 21 are `doc.pdf_page1_chunk7`, `doc.pdf_page1_chunk14` and `doc.pdf_page1_chunk21`. |
| IngestionProperties.ExampleChunkRecords | app/src/pdf.py:126-150 | On the 15-character page, chunk size 10 and overlap 3, with a model that always answers, three records are stored: the chunks `"abcdefghij"`, `"hijklmno"` and `"o"`. |
| IngestionProperties.FifteenCharacterPageIds | app/src/pdf.py:129-133 | In that example, the identifiers carry 7, 14 and 21, the start of the chunk after each. The last is past the end of the text. |
| IngestionProperties.PageCallsBounded | app/src/pdf.py:119-140 | A page makes no call exactly when its text cannot be read or is blank. Otherwise it makes at most `ceil(L / S)` calls and stores at most one record per call. |
| IngestionProperties.PageRecordsKeyed | app/src/pdf.py:132-150 | Every record of page index `p` parses back to the document name and page `p + 1`, carries the same metadata and a non-empty embedding. The page's identifiers are distinct. |
| IngestionProperties.PagesRecordsKeyed | app/src/pdf.py:114-150 | The first `n` pages store records keyed to the document and to pages 1 to `n`, with pairwise distinct identifiers. |
| IngestionProperties.PagesRecordsSplit | app/src/pdf.py:114-154 | The records of the first `n` pages are those of the first `lo` pages followed by those of pages `lo` to `n - 1`. |
| IngestionProperties.PagesRecordsFromAgree | app/src/pdf.py:114-154 | What pages `lo` to `n - 1` store depends on those pages only. |
| IngestionProperties.PageFailureContained | app/src/pdf.py:114-154 | Whatever page `k` yields (an extraction error, a failing embedding call part-way), only page `k`'s records change. The pages before and after store the same records. |
| IngestionProperties.PdfRecordsKeyed | app/src/pdf.py:104-111 | A document's records are keyed to its name and its pages, with distinct identifiers. A document that cannot be opened stores none. |
| IngestionProperties.FileRecordsKeyed | app/src/pdf.py:49-53 | An entry whose name does not end in `.pdf` stores nothing. A `.pdf` entry's records all carry its file name, with distinct identifiers. |
| IngestionProperties.IngestRecordsKeyed | app/src/pdf.py:45-53 | A first run over distinct, slash-free file names stores only records of `.pdf` entries. Each record is keyed to its file name and to a page from 1 on, and no two records share an identifier. |
| Query.Flatten | app/src/main.py:56 | The flattened metadata list is as long as the sublists together. |
| Query.FlattenAppend | app/src/main.py:56 | Flattening is concatenation: flattening two runs of sublists is flattening each and concatenating. |
| Query.FlattenAt | app/src/main.py:56 | Item `j` of sublist `i` sits at position (lengths of sublists before `i`) + `j`, so order is kept and nothing is dropped. |
| Query.ToMetadata | app/src/main.py:59-62 | An item converts exactly when it has a string `doc_name` and an integer `page_number`, giving `(doc_name, page_number)`. A missing `doc_name` raises that `KeyError` first, then a missing `page_number`. Otherwise the error is a validation error naming one or two fields. |
| Query.MapMetadata | app/src/main.py:59-62 | The comprehension succeeds exactly when every item converts. It then yields one entry per item, pointwise and in order. |
| Query.MapMetadataFirstError | app/src/main.py:59-68 | When item `k` is the first that fails, the comprehension raises that item's error. |
| Query.StoredMetadataReadsBack | app/src/main.py:60 | Metadata as ingestion stores it converts back to the same document name and page number. |
| Query.QueryLlm | app/src/main.py:49-68 | A response is returned exactly when retrieval, generation and every metadata item succeed. Its answer is the generator's output, its `paragraph` is `documents` unchanged, and its metadata has one entry per flattened item. Otherwise the result is status 500 with a detail starting `"An error occurred: "`. |
| Query.ResponseMetadataAt | app/src/main.py:56-65 | In a response, the entry for item `j` of result list `i` carries that item's `doc_name` and `page_number`, at its flattened position. |
| Query.ErrorDetail | app/src/main.py:49-68 | The error is retrieval's if retrieval fails, else generation's, else that of the first metadata item that fails. The detail is `"An error occurred: "` followed by that exception's message, and there is no partial response. |
| Query.StoredMetadataAnswers | app/src/main.py:56-65 | When every retrieved item was written by ingestion and retrieval and generation succeed, the response lists each item's document name and page in order. |
| IngestionProperties.StoredAtCons | app/src/pdf.py:126-150 | Prepending a stored record and its offset keeps records and offsets in step. |
| IngestionProperties.DistinctConcat | app/src/pdf.py:142-150 | Appending identifier-distinct batches that share no identifier keeps the collection identifier-distinct. |
| IngestionProperties.NextPageRecords | app/src/pdf.py:114-150 | Records of pages 1 to `m`, followed by those of page `m + 1`, keep identifiers distinct and stay within pages 1 to `m + 1`. |
| IngestionProperties.DisjointDocuments | app/src/pdf.py:49-53 | Records of disjoint sets of documents, each identifier-distinct, are identifier-distinct together. |
| IngestionProperties.PdfNamesStep | app/src/pdf.py:49-50 | One more listing entry adds its name to the processed names exactly when it ends in `.pdf`. |
| Ingestion.ChunkStepFails | app/src/pdf.py:140-154 | An embedding call that raises ends the page's chunk loop after one call and no record. |
| Ingestion.ChunkStepEmbeds | app/src/pdf.py:126-150 | A successful call stores the chunk under the identifier carrying the next start when the vector is non-empty, and stores nothing when it is empty. Either way the loop goes on at the next start. |
| Ingestion.PageOfText | app/src/pdf.py:119-126 | A readable, non-blank page is processed as its normalised text, with page number index + 1. |
| Ingestion.PageSkipped | app/src/pdf.py:115-120 | A page whose text cannot be read, or that is blank, adds no record and makes no call. |

## Left out

- Chroma itself is not modelled: persistence, similarity search, and what `add` does with an identifier already present. The collection is an append log. An `add` that raises inside a page is not modelled either.
- `query_chroma`, `initialize_collection`'s client set-up, `generate_embedding_with_ollama`'s HTTP call and `Llm.generate_answer` are outside the model. They appear as parameters: the embedding function, the retrieval and generation outcomes, and the collection handed in.
- `app/src/eval.py` and the `Llm` class are not part of this model.
- Directory creation (`os.makedirs`), logging (`print`) and `pdf_document.close()` have no effect on the modelled state and are left out.
- Ingestion.Pdf.InitializeVectorStore: the listing is always given, so a failing `os.listdir(resource_path)` (a missing or unreadable resource directory) is not modelled. In the source, when the collection is empty, that exception leaves `__init__`, and `Pdf()` at module load of `app/src/main.py` raises. A constructor that fails has no counterpart in the model, which always yields an object.
- The order of `os.listdir` is arbitrary in Python. The model takes the listing in whatever order it is given.
- Embedding vectors are sequences of `real`. Floating-point values and the model's numerics are not modelled.
- The embedding model is a pure function of the chunk text. A transient failure is not modelled: the same text (a boilerplate page that repeats, say) answers identically on every call, whereas the service could answer once and fail on another call.
- Ingestion.Pdf.ProcessPdfPageByPage: requires `overlap < chunk_size`. The source does not check this. With `overlap >= chunk_size` its loop never terminates on a non-empty page, which `Chunking.LoopDivergesWithoutProgress` states.
- IngestionProperties.IngestRecordsKeyed: assumes distinct, slash-free entry names, as a directory listing provides. A name containing `/` would make `os.path.join` and the split disagree.
- Query.ToMetadata: accepts only a string `doc_name` and an integer `page_number`. The response model's lax coercions (numeric strings, whole floats, booleans to `int`) are not modelled.
- Query.QueryLlm: the text of a validation error is modelled only by its first line (`"N validation error(s) for Metadata"`), not pydantic's per-field detail lines.
- Query.QueryLlm: the retrieval result is a record with `documents` and `metadatas`. A result dictionary missing either key is not modelled.
