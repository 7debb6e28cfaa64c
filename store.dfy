/**
 The vector-store collection the ingestion code writes to, seen only
 through what the code uses: `count()` and `add(...)` of one record at a time.
 Chroma's own behaviour (similarity search, duplicate identifiers,
 persistence) is not part of this model; the collection is an append log.
 */
module Store {

  /** The metadata stored with a chunk: `{"doc_name": ..., "page_number": ...}`. */
  datatype ChunkMetadata = ChunkMetadata(docName: string, pageNumber: nat)

  /** One `collection.add(documents=[...], metadatas=[...], ids=[...], embeddings=[...])`. */
  datatype Record = Record(id: string, document: string, metadata: ChunkMetadata, embedding: seq<real>)

  class Collection {
    /** Every record added so far, oldest first. */
    var records: seq<Record>

    /** A collection as the client loads it from its persist directory. */
    constructor (persisted: seq<Record>)
      ensures records == persisted
    {
      records := persisted;
    }

    function Count(): nat
      reads this
    {
      |records|
    }

    method Add(r: Record)
      modifies this
      ensures records == old(records) + [r]
    {
      records := records + [r];
    }
  }
}
