/**
 The query endpoint's reshaping of a retrieval result into a response: the
 nested `metadatas` list is flattened, each item becomes a `(doc_name, page)`
 entry, `documents` is passed through as `paragraph`, and any exception on
 the way becomes a single HTTP 500 error whose detail embeds its message.

 Retrieval and answer generation are calls into code outside the endpoint;
 they are parameters here, each returning either a value or the exception
 it raised.
 */
module Query {
  import opened Decimal
  import opened Store

  /** A value in a metadata dictionary as the vector store hands it back:
      a string, an integer, or anything else (a float, a boolean, `None`). */
  datatype MetaValue = Str(s: string) | Whole(n: int) | OtherValue

  type MetaItem = map<string, MetaValue>

  /** The exceptions the endpoint can meet: a missing dictionary key, a
      metadata item the response model rejects (naming the fields it rejects),
      or one raised by retrieval or generation, carrying its message. */
  datatype Error = KeyMissing(key: string) | ValidationFailed(fields: seq<string>) | Raised(message: string)

  datatype Outcome<T> = Ok(value: T) | Failed(error: Error)

  /** What retrieval returns: the matched chunks and their metadata, one list per query text. */
  datatype QueryContext = QueryContext(documents: seq<seq<string>>, metadatas: seq<seq<MetaItem>>)

  /** One entry of the response's `metadata` list. */
  datatype Metadata = Metadata(docName: string, page: int)

  datatype QueryResponse = QueryResponse(answer: string, metadata: seq<Metadata>, paragraph: seq<seq<string>>)

  /** What the endpoint produces: a response body, or an HTTP error with a status and a detail. */
  datatype HttpResult = Response(body: QueryResponse) | HttpError(status: int, detail: string)

  const ErrorStatus := 500
  const ErrorPrefix := "An error occurred: "

  /** `str(e)` of each exception: a `KeyError` prints its key in quotes, a
      validation error starts with how many fields failed. */
  function Describe(e: Error): string {
    match e
    case KeyMissing(key) => "'" + key + "'"
    case ValidationFailed(fields) =>
      Digits(|fields|) + (if |fields| == 1 then " validation error" else " validation errors") + " for Metadata"
    case Raised(message) => message
  }

  // ---------------------------------------------------------------------------
  // Flattening
  // ---------------------------------------------------------------------------

  function SumLengths<T>(xss: seq<seq<T>>): nat {
    if xss == [] then 0 else |xss[0]| + SumLengths(xss[1..])
  }

  /** `[item for sublist in xss for item in sublist]`. */
  function Flatten<T>(xss: seq<seq<T>>): (r: seq<T>)
    ensures |r| == SumLengths(xss)
  {
    if xss == [] then [] else xss[0] + Flatten(xss[1..])
  }

  /** Flattening two runs of sublists is flattening each and concatenating. */
  lemma {:induction false} FlattenAppend<T>(a: seq<seq<T>>, b: seq<seq<T>>)
    ensures Flatten(a + b) == Flatten(a) + Flatten(b)
  {
    if a == [] {
      assert a + b == b;
    } else {
      assert (a + b)[0] == a[0] && (a + b)[1..] == a[1..] + b;
      FlattenAppend(a[1..], b);
      assert a[0] + (Flatten(a[1..]) + Flatten(b)) == (a[0] + Flatten(a[1..])) + Flatten(b);
    }
  }

  /** Item `j` of sublist `i` sits in the flattened list right after the
      items of the sublists before `i`. */
  lemma {:induction false} FlattenAt<T>(xss: seq<seq<T>>, i: nat, j: nat)
    requires i < |xss| && j < |xss[i]|
    ensures SumLengths(xss[..i]) + j < |Flatten(xss)|
    ensures Flatten(xss)[SumLengths(xss[..i]) + j] == xss[i][j]
  {
    if i == 0 {
      assert xss[..0] == [];
    } else {
      var tail := xss[1..];
      FlattenAt(tail, i - 1, j);
      assert xss[..i][1..] == tail[..i - 1];
    }
  }

  // ---------------------------------------------------------------------------
  // Mapping metadata items
  // ---------------------------------------------------------------------------

  /** `Metadata(doc_name=item['doc_name'], page=item['page_number'])`: both
      lookups happen first, `doc_name`'s before `page_number`'s; then the
      model rejects a `doc_name` that is not a string and a `page` that is
      not an integer, naming every field it rejects. */
  function ToMetadata(item: MetaItem): (r: Outcome<Metadata>)
    ensures r.Ok? <==>
            "doc_name" in item && "page_number" in item && item["doc_name"].Str? && item["page_number"].Whole?
    ensures r.Ok? ==> r.value == Metadata(item["doc_name"].s, item["page_number"].n)
    ensures "doc_name" !in item ==> r == Failed(KeyMissing("doc_name"))
    ensures "doc_name" in item && "page_number" !in item ==> r == Failed(KeyMissing("page_number"))
    ensures r.Failed? && "doc_name" in item && "page_number" in item ==>
              r.error.ValidationFailed? && 1 <= |r.error.fields| <= 2
  {
    if "doc_name" !in item then Failed(KeyMissing("doc_name"))
    else if "page_number" !in item then Failed(KeyMissing("page_number"))
    else
      var docName, page := item["doc_name"], item["page_number"];
      var rejected := (if docName.Str? then [] else ["doc_name"]) + (if page.Whole? then [] else ["page"]);
      if rejected == [] then Ok(Metadata(docName.s, page.n)) else Failed(ValidationFailed(rejected))
  }

  /** The comprehension over the flattened items: every item converted in
      order, or the first failure. */
  function MapMetadata(items: seq<MetaItem>): (r: Outcome<seq<Metadata>>)
    ensures r.Ok? <==> forall i :: 0 <= i < |items| ==> ToMetadata(items[i]).Ok?
    ensures r.Ok? ==> |r.value| == |items| && forall i :: 0 <= i < |items| ==> r.value[i] == ToMetadata(items[i]).value
  {
    if items == [] then Ok([])
    else
      match ToMetadata(items[0])
      case Failed(e) => Failed(e)
      case Ok(m) =>
        match MapMetadata(items[1..])
        case Failed(e) => Failed(e)
        case Ok(ms) => Ok([m] + ms)
  }

  /** When item `k` is the first that does not convert, the comprehension
      raises that item's error. */
  lemma {:induction false} MapMetadataFirstError(items: seq<MetaItem>, k: nat)
    requires k < |items| && ToMetadata(items[k]).Failed?
    requires forall i :: 0 <= i < k ==> ToMetadata(items[i]).Ok?
    ensures MapMetadata(items) == Failed(ToMetadata(items[k]).error)
  {
    if k > 0 {
      var tail := items[1..];
      assert tail[k - 1] == items[k];
      forall i | 0 <= i < k - 1
        ensures ToMetadata(tail[i]).Ok?
      {
        assert tail[i] == items[i + 1];
      }
      MapMetadataFirstError(tail, k - 1);
    }
  }

  /** The dictionary ingestion stores as a chunk's metadata. */
  function StoredItem(m: ChunkMetadata): MetaItem {
    map["doc_name" := Str(m.docName), "page_number" := Whole(m.pageNumber)]
  }

  /** Metadata as ingestion stores it always converts, to the same document
      name and page number. */
  lemma StoredMetadataReadsBack(m: ChunkMetadata)
    ensures ToMetadata(StoredItem(m)) == Ok(Metadata(m.docName, m.pageNumber))
  {
    var item := StoredItem(m);
    assert "doc_name" in item && "page_number" in item;
  }

  // ---------------------------------------------------------------------------
  // The endpoint
  // ---------------------------------------------------------------------------

  /** `query_llm`: retrieve, generate, flatten, map, assemble; any exception
      becomes status 500 with `"An error occurred: "` and its message. */
  function QueryLlm(query: string, retrieve: string -> Outcome<QueryContext>,
                    generate: (string, QueryContext) -> Outcome<string>): (r: HttpResult)
    ensures r.Response? <==>
            retrieve(query).Ok? && generate(query, retrieve(query).value).Ok? &&
            forall i :: 0 <= i < |Flatten(retrieve(query).value.metadatas)| ==>
              ToMetadata(Flatten(retrieve(query).value.metadatas)[i]).Ok?
    ensures r.Response? ==>
            var context := retrieve(query).value;
            r.body.answer == generate(query, context).value && r.body.paragraph == context.documents &&
            |r.body.metadata| == SumLengths(context.metadatas)
    ensures r.HttpError? ==> r.status == ErrorStatus && |ErrorPrefix| <= |r.detail| && r.detail[..|ErrorPrefix|] == ErrorPrefix
  {
    match retrieve(query)
    case Failed(e) => HttpError(ErrorStatus, ErrorPrefix + Describe(e))
    case Ok(context) =>
      match generate(query, context)
      case Failed(e) => HttpError(ErrorStatus, ErrorPrefix + Describe(e))
      case Ok(answer) =>
        var flattened := Flatten(context.metadatas);
        match MapMetadata(flattened)
        case Failed(e) => HttpError(ErrorStatus, ErrorPrefix + Describe(e))
        case Ok(metadataList) => Response(QueryResponse(answer, metadataList, context.documents))
  }

  /** In a response, the entry for item `j` of result list `i` carries that
      item's `doc_name` and `page_number`, at its place in the flattened order. */
  lemma ResponseMetadataAt(query: string, retrieve: string -> Outcome<QueryContext>,
                           generate: (string, QueryContext) -> Outcome<string>, i: nat, j: nat)
    requires QueryLlm(query, retrieve, generate).Response?
    requires i < |retrieve(query).value.metadatas| && j < |retrieve(query).value.metadatas[i]|
    ensures var metadatas := retrieve(query).value.metadatas;
            var item := metadatas[i][j];
            var k := SumLengths(metadatas[..i]) + j;
            "doc_name" in item && "page_number" in item && item["doc_name"].Str? && item["page_number"].Whole? &&
            k < |QueryLlm(query, retrieve, generate).body.metadata| &&
            QueryLlm(query, retrieve, generate).body.metadata[k] ==
              Metadata(item["doc_name"].s, item["page_number"].n)
  {
    var metadatas := retrieve(query).value.metadatas;
    var flattened := Flatten(metadatas);
    FlattenAt(metadatas, i, j);
    var k := SumLengths(metadatas[..i]) + j;
    assert flattened[k] == metadatas[i][j];
    assert ToMetadata(flattened[k]).Ok?;
  }

  /** Which exception reaches the client: retrieval's, else generation's,
      else the first metadata item's that does not convert; there is no
      partial response. */
  lemma ErrorDetail(query: string, retrieve: string -> Outcome<QueryContext>,
                    generate: (string, QueryContext) -> Outcome<string>, k: nat)
    ensures retrieve(query).Failed? ==>
              QueryLlm(query, retrieve, generate) == HttpError(500, ErrorPrefix + Describe(retrieve(query).error))
    ensures retrieve(query).Ok? && generate(query, retrieve(query).value).Failed? ==>
              QueryLlm(query, retrieve, generate) ==
                HttpError(500, ErrorPrefix + Describe(generate(query, retrieve(query).value).error))
    ensures retrieve(query).Ok? && generate(query, retrieve(query).value).Ok? ==>
              var items := Flatten(retrieve(query).value.metadatas);
              k < |items| && ToMetadata(items[k]).Failed? && (forall i :: 0 <= i < k ==> ToMetadata(items[i]).Ok?) ==>
                QueryLlm(query, retrieve, generate) == HttpError(500, ErrorPrefix + Describe(ToMetadata(items[k]).error))
  {
    if retrieve(query).Ok? && generate(query, retrieve(query).value).Ok? {
      var items := Flatten(retrieve(query).value.metadatas);
      if k < |items| && ToMetadata(items[k]).Failed? && (forall i :: 0 <= i < k ==> ToMetadata(items[i]).Ok?) {
        MapMetadataFirstError(items, k);
      }
    }
  }

  /** A store whose every metadata item was written by ingestion never makes
      the endpoint fail on metadata: with retrieval and generation
      succeeding, the response lists each item's document name and page. */
  lemma StoredMetadataAnswers(query: string, retrieve: string -> Outcome<QueryContext>,
                              generate: (string, QueryContext) -> Outcome<string>, stored: seq<ChunkMetadata>)
    requires retrieve(query).Ok? && generate(query, retrieve(query).value).Ok?
    requires Flatten(retrieve(query).value.metadatas) == seq(|stored|, i requires 0 <= i < |stored| => StoredItem(stored[i]))
    ensures var r := QueryLlm(query, retrieve, generate);
            r.Response? && |r.body.metadata| == |stored| &&
            forall i :: 0 <= i < |stored| ==> r.body.metadata[i] == Metadata(stored[i].docName, stored[i].pageNumber)
  {
    var items := Flatten(retrieve(query).value.metadatas);
    forall i | 0 <= i < |items|
      ensures ToMetadata(items[i]) == Ok(Metadata(stored[i].docName, stored[i].pageNumber))
    {
      StoredMetadataReadsBack(stored[i]);
    }
  }
}
