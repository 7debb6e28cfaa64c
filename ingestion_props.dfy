/**
 What a first ingestion run stores: the shape of every record, the
 identifiers being pairwise distinct, and how many times the embedding model
 is called.
 */
module IngestionProperties {
  import opened Text
  import opened Decimal
  import opened ChunkIds
  import opened Chunking
  import opened Store
  import opened Ingestion

  // ---------------------------------------------------------------------------
  // One page: the chunk loop
  // ---------------------------------------------------------------------------

  /** No two records share an identifier. */
  predicate DistinctIds(rs: seq<Record>) {
    forall i, j :: 0 <= i < j < |rs| ==> rs[i].id != rs[j].id
  }

  /** The offsets the chunk loop from `start` writes into the identifiers of
      the records it stores: the start of the chunk after each stored one. */
  function StoredOffsetsFrom(text: string, chunkSize: nat, overlap: nat, embed: string -> Embedding,
                             start: nat): seq<nat>
    requires overlap < chunkSize
    decreases |text| - start
  {
    if start >= |text| then []
    else
      var next := start + chunkSize - overlap;
      match embed(ChunkFrom(text, chunkSize, start))
      case EmbeddingFailed => []
      case Vector(v) =>
        var rest := StoredOffsetsFrom(text, chunkSize, overlap, embed, next);
        if |v| > 0 then [next] + rest else rest
  }

  /** Offsets strictly above `start` and below `bound`, in increasing order. */
  predicate IncreasingBetween(offs: seq<nat>, start: nat, bound: nat) {
    (forall i :: 0 <= i < |offs| ==> start < offs[i] < bound) &&
    (forall i, j :: 0 <= i < j < |offs| ==> offs[i] < offs[j])
  }

  /** Putting an offset in front of larger ones keeps them increasing. */
  lemma IncreasingCons(offs: seq<nat>, next: nat, start: nat, bound: nat)
    requires start < next < bound && IncreasingBetween(offs, next, bound)
    ensures IncreasingBetween([next] + offs, start, bound)
  {
    var all := [next] + offs;
    forall i | 0 < i < |all|
      ensures all[i] == offs[i - 1]
    {
    }
  }

  /** The stored offsets lie past `start`, each at most one step past the end
      of the text, and strictly increase. */
  lemma {:induction false} StoredOffsetsIncrease(text: string, chunkSize: nat, overlap: nat,
                                                 embed: string -> Embedding, start: nat)
    requires overlap < chunkSize
    ensures IncreasingBetween(StoredOffsetsFrom(text, chunkSize, overlap, embed, start), start,
                              |text| + Step(chunkSize, overlap))
    decreases |text| - start
  {
    if start < |text| {
      var next := start + chunkSize - overlap;
      var bound := |text| + Step(chunkSize, overlap);
      var rest := StoredOffsetsFrom(text, chunkSize, overlap, embed, next);
      match embed(ChunkFrom(text, chunkSize, start))
      case EmbeddingFailed =>
      case Vector(v) =>
        StoredOffsetsIncrease(text, chunkSize, overlap, embed, next);
        if |v| > 0 {
          IncreasingCons(rest, next, start, bound);
        } else {
          IncreasingWeaken(rest, next, start, bound);
        }
    }
  }

  /** Offsets above `next` are above any smaller `start`. */
  lemma IncreasingWeaken(offs: seq<nat>, next: nat, start: nat, bound: nat)
    requires start < next && IncreasingBetween(offs, next, bound)
    ensures IncreasingBetween(offs, start, bound)
  {
  }

  /** `r` is the record the chunk loop stores for the chunk one step before
      `offset`: its identifier carries `offset`, its document is that chunk,
      its metadata names the document and page, and its embedding is the
      non-empty vector the model returned for the chunk. */
  predicate StoredAt(r: Record, docName: string, pageNumber: nat, text: string, chunkSize: nat, overlap: nat,
                     embed: string -> Embedding, offset: nat)
    requires overlap < chunkSize
  {
    var s := Step(chunkSize, overlap);
    s <= offset <= |text| + s &&
    r.id == ChunkId(docName, pageNumber, offset) &&
    r.document == ChunkFrom(text, chunkSize, offset - s) &&
    r.metadata == ChunkMetadata(docName, pageNumber) &&
    r.embedding != [] && embed(r.document) == Vector(r.embedding)
  }

  /** Prepending a stored record and its offset keeps records and offsets in step. */
  lemma StoredAtCons(r: Record, rest: seq<Record>, offset: nat, restOffs: seq<nat>, docName: string,
                     pageNumber: nat, text: string, chunkSize: nat, overlap: nat, embed: string -> Embedding)
    requires overlap < chunkSize && |rest| == |restOffs|
    requires StoredAt(r, docName, pageNumber, text, chunkSize, overlap, embed, offset)
    requires forall i :: 0 <= i < |rest| ==>
               StoredAt(rest[i], docName, pageNumber, text, chunkSize, overlap, embed, restOffs[i])
    ensures var rs, offs := [r] + rest, [offset] + restOffs;
            forall i :: 0 <= i < |rs| ==> StoredAt(rs[i], docName, pageNumber, text, chunkSize, overlap, embed, offs[i])
  {
    var rs, offs := [r] + rest, [offset] + restOffs;
    forall i | 0 < i < |rs|
      ensures StoredAt(rs[i], docName, pageNumber, text, chunkSize, overlap, embed, offs[i])
    {
      assert rs[i] == rest[i - 1] && offs[i] == restOffs[i - 1];
    }
  }

  /** Record `i` of the chunk loop from `start` is the one stored for stored
      offset `i`. */
  lemma {:induction false} ChunkRecordsAt(docName: string, pageNumber: nat, text: string, chunkSize: nat,
                                          overlap: nat, embed: string -> Embedding, start: nat)
    requires overlap < chunkSize
    ensures var rs := ChunkRecordsFrom(docName, pageNumber, text, chunkSize, overlap, embed, start);
            var offs := StoredOffsetsFrom(text, chunkSize, overlap, embed, start);
            |rs| == |offs| &&
            forall i :: 0 <= i < |rs| ==> StoredAt(rs[i], docName, pageNumber, text, chunkSize, overlap, embed, offs[i])
    decreases |text| - start
  {
    var rs := ChunkRecordsFrom(docName, pageNumber, text, chunkSize, overlap, embed, start);
    var offs := StoredOffsetsFrom(text, chunkSize, overlap, embed, start);
    if start < |text| {
      var chunk, next := ChunkFrom(text, chunkSize, start), start + chunkSize - overlap;
      var rest := ChunkRecordsFrom(docName, pageNumber, text, chunkSize, overlap, embed, next);
      var restOffs := StoredOffsetsFrom(text, chunkSize, overlap, embed, next);
      match embed(chunk)
      case EmbeddingFailed =>
        ChunkStepFails(docName, pageNumber, text, chunkSize, overlap, embed, start);
        assert offs == [];
      case Vector(v) =>
        ChunkStepEmbeds(docName, pageNumber, text, chunkSize, overlap, embed, start, chunk, next, v);
        ChunkRecordsAt(docName, pageNumber, text, chunkSize, overlap, embed, next);
        assert var rs2 := ChunkRecordsFrom(docName, pageNumber, text, chunkSize, overlap, embed, next);
               var offs2 := StoredOffsetsFrom(text, chunkSize, overlap, embed, next);
               |rs2| == |offs2| &&
               forall i :: 0 <= i < |rs2| ==> StoredAt(rs2[i], docName, pageNumber, text, chunkSize, overlap, embed, offs2[i]);
        if |v| > 0 {
          var r := Record(ChunkId(docName, pageNumber, next), chunk, ChunkMetadata(docName, pageNumber), v);
          assert rs == [r] + rest && offs == [next] + restOffs;
          StoredAtCons(r, rest, next, restOffs, docName, pageNumber, text, chunkSize, overlap, embed);
        } else {
          assert rs == rest && offs == restOffs;
        }
    }
  }

  /** The records one page's chunk loop stores have pairwise distinct identifiers. */
  lemma ChunkIdsDistinct(docName: string, pageNumber: nat, text: string, chunkSize: nat, overlap: nat,
                         embed: string -> Embedding, start: nat)
    requires overlap < chunkSize
    ensures DistinctIds(ChunkRecordsFrom(docName, pageNumber, text, chunkSize, overlap, embed, start))
  {
    var rs := ChunkRecordsFrom(docName, pageNumber, text, chunkSize, overlap, embed, start);
    var offs := StoredOffsetsFrom(text, chunkSize, overlap, embed, start);
    ChunkRecordsAt(docName, pageNumber, text, chunkSize, overlap, embed, start);
    StoredOffsetsIncrease(text, chunkSize, overlap, embed, start);
    assert IncreasingBetween(offs, start, |text| + Step(chunkSize, overlap));
    forall i, j | 0 <= i < j < |rs|
      ensures rs[i].id != rs[j].id
    {
      if rs[i].id == rs[j].id {
        ChunkIdInjective(ChunkKey(docName, pageNumber, offs[i]), ChunkKey(docName, pageNumber, offs[j]));
        assert false;
      }
    }
  }

  /** Every chunk's embedding is a non-empty vector. */
  predicate AllEmbedded(chunks: seq<string>, embed: string -> Embedding) {
    forall k :: 0 <= k < |chunks| ==> embed(chunks[k]).Vector? && embed(chunks[k]).values != []
  }

  /** The chunk loop from `start` calls the model at most once per chunk and
      at least once when any text is left; it stores at most one record per
      call; every call but the last one answered, so the loop stops at the
      first failing call; when it stops early, the last call failed; when no
      call fails, it calls once per chunk; and when every chunk embeds to a
      non-empty vector, it also stores once per chunk. */
  lemma {:induction false} ChunkCallsBounded(docName: string, pageNumber: nat, text: string, chunkSize: nat,
                                             overlap: nat, embed: string -> Embedding, start: nat)
    requires overlap < chunkSize
    ensures var calls := ChunkCallsFrom(text, chunkSize, overlap, embed, start);
            var rs := ChunkRecordsFrom(docName, pageNumber, text, chunkSize, overlap, embed, start);
            var cs := ChunksFrom(text, chunkSize, overlap, start);
            |rs| <= calls <= |cs| && (start < |text| ==> 1 <= calls) &&
            (calls < |cs| ==> 1 <= calls && embed(cs[calls - 1]).EmbeddingFailed?) &&
            (forall j :: 0 <= j < calls - 1 ==> embed(cs[j]).Vector?) &&
            ((forall j :: 0 <= j < |cs| ==> embed(cs[j]).Vector?) ==> calls == |cs|) &&
            (AllEmbedded(cs, embed) ==> |rs| == calls == |cs|)
    decreases |text| - start
  {
    if start < |text| {
      var chunk, next := ChunkFrom(text, chunkSize, start), start + chunkSize - overlap;
      var cs := ChunksFrom(text, chunkSize, overlap, start);
      var restChunks := ChunksFrom(text, chunkSize, overlap, next);
      assert cs == [chunk] + restChunks;
      assert cs[0] == chunk;
      match embed(chunk)
      case EmbeddingFailed =>
        ChunkStepFails(docName, pageNumber, text, chunkSize, overlap, embed, start);
        assert !AllEmbedded(cs, embed);
      case Vector(v) =>
        ChunkStepEmbeds(docName, pageNumber, text, chunkSize, overlap, embed, start, chunk, next, v);
        ChunkCallsBounded(docName, pageNumber, text, chunkSize, overlap, embed, next);
        var restCalls := ChunkCallsFrom(text, chunkSize, overlap, embed, next);
        if restCalls < |restChunks| {
          assert cs[restCalls + 1 - 1] == restChunks[restCalls - 1];
        }
        forall j | 1 <= j < restCalls
          ensures embed(cs[j]).Vector?
        {
          assert cs[j] == restChunks[j - 1];
        }
        if forall j :: 0 <= j < |cs| ==> embed(cs[j]).Vector? {
          forall k | 0 <= k < |restChunks|
            ensures embed(restChunks[k]).Vector?
          {
            assert restChunks[k] == cs[k + 1];
          }
        }
        if AllEmbedded(cs, embed) {
          forall k | 0 <= k < |restChunks|
            ensures embed(restChunks[k]).Vector? && embed(restChunks[k]).values != []
          {
            assert restChunks[k] == cs[k + 1];
          }
          assert cs[0] == chunk;
        }
    }
  }

  // ---------------------------------------------------------------------------
  // Records and chunk positions
  // ---------------------------------------------------------------------------

  /** The positions, among the chunks `cs` from position `k` on, whose record
      the chunk loop stores: each chunk whose call answers a non-empty vector,
      up to the first call that fails. */
  function StoredIndices(cs: seq<string>, embed: string -> Embedding, k: nat): seq<nat>
    decreases |cs| - k
  {
    if k >= |cs| then []
    else
      match embed(cs[k])
      case EmbeddingFailed => []
      case Vector(v) => (if |v| > 0 then [k] else []) + StoredIndices(cs, embed, k + 1)
  }

  /** Every position one further on. */
  function Shifted(ks: seq<nat>): (r: seq<nat>)
    ensures |r| == |ks| && forall i :: 0 <= i < |ks| ==> r[i] == ks[i] + 1
  {
    seq(|ks|, i requires 0 <= i < |ks| => ks[i] + 1)
  }

  /** Every call for chunks `k` to `m` answered. */
  predicate AnsweredUpTo(cs: seq<string>, embed: string -> Embedding, k: nat, m: nat)
    requires m < |cs|
  {
    forall j :: k <= j <= m ==> embed(cs[j]).Vector?
  }

  /** Positions in `[lo, hi)`, in strictly increasing order. */
  predicate AscendingIn(ks: seq<nat>, lo: nat, hi: nat) {
    (forall i :: 0 <= i < |ks| ==> lo <= ks[i] < hi) &&
    (forall i, j :: 0 <= i < j < |ks| ==> ks[i] < ks[j])
  }

  /** Putting `k` in front of larger positions keeps them ascending. */
  lemma AscendingCons(ks: seq<nat>, k: nat, hi: nat)
    requires k < hi && AscendingIn(ks, k + 1, hi)
    ensures AscendingIn([k] + ks, k, hi) && AscendingIn(ks, k, hi)
  {
    var all := [k] + ks;
    forall i | 0 < i < |all|
      ensures all[i] == ks[i - 1]
    {
    }
  }

  /** The stored positions lie in `[k, |cs|)` and strictly increase. */
  lemma {:induction false} StoredIndicesAscending(cs: seq<string>, embed: string -> Embedding, k: nat)
    ensures AscendingIn(StoredIndices(cs, embed, k), k, |cs|)
    decreases |cs| - k
  {
    if k < |cs| {
      match embed(cs[k])
      case EmbeddingFailed =>
      case Vector(v) =>
        StoredIndicesAscending(cs, embed, k + 1);
        var rest := StoredIndices(cs, embed, k + 1);
        AscendingCons(rest, k, |cs|);
        if |v| == 0 {
          assert [] + rest == rest;
        }
    }
  }

  /** The stored positions are exactly the chunks whose call, and every call
      before it, answered, with a non-empty vector for the chunk itself. */
  lemma {:induction false} StoredIndicesExact(cs: seq<string>, embed: string -> Embedding, k: nat)
    ensures forall m :: k <= m < |cs| ==>
              (m in StoredIndices(cs, embed, k) <==>
               AnsweredUpTo(cs, embed, k, m) && embed(cs[m]).Vector? && embed(cs[m]).values != [])
    decreases |cs| - k
  {
    if k < |cs| {
      var ks := StoredIndices(cs, embed, k);
      match embed(cs[k])
      case EmbeddingFailed =>
        forall m | k <= m < |cs|
          ensures !AnsweredUpTo(cs, embed, k, m)
        {
          assert !embed(cs[k]).Vector?;
        }
      case Vector(v) =>
        StoredIndicesExact(cs, embed, k + 1);
        StoredIndicesAscending(cs, embed, k + 1);
        var rest := StoredIndices(cs, embed, k + 1);
        var head: seq<nat> := if |v| > 0 then [k] else [];
        assert ks == head + rest;
        assert k !in rest;
        forall m | k < m < |cs|
          ensures AnsweredUpTo(cs, embed, k, m) <==> AnsweredUpTo(cs, embed, k + 1, m)
        {
        }
    }
  }

  /** Putting a chunk in front moves every stored position one further on. */
  lemma {:induction false} StoredIndicesCons(c: string, cs: seq<string>, embed: string -> Embedding, k: nat)
    ensures StoredIndices([c] + cs, embed, k + 1) == Shifted(StoredIndices(cs, embed, k))
    decreases |cs| - k
  {
    var all := [c] + cs;
    if k < |cs| {
      assert all[k + 1] == cs[k];
      match embed(cs[k])
      case EmbeddingFailed =>
      case Vector(v) =>
        StoredIndicesCons(c, cs, embed, k + 1);
        var rest := StoredIndices(cs, embed, k + 1);
        if |v| > 0 {
          assert Shifted([k] + rest) == [k + 1] + Shifted(rest);
        } else {
          assert [] + rest == rest;
        }
    }
  }

  /** `r` is the record the chunk loop from `start` stores for chunk `k` of
      `cs`: its identifier carries the start of chunk `k + 1`, its document is
      chunk `k`, its metadata names the document and page, and its embedding is
      the non-empty vector the model returned for chunk `k`. */
  predicate RecordOfChunk(r: Record, docName: string, pageNumber: nat, cs: seq<string>,
                          embed: string -> Embedding, start: nat, step: nat, k: nat)
  {
    k < |cs| &&
    r.id == ChunkId(docName, pageNumber, start + (k + 1) * step) &&
    r.document == cs[k] &&
    r.metadata == ChunkMetadata(docName, pageNumber) &&
    r.embedding != [] && embed(cs[k]) == Vector(r.embedding)
  }

  /** A record of chunk `k` of the loop from the next start is the record of
      chunk `k + 1` of the loop one step earlier. */
  lemma RecordOfChunkShift(r: Record, docName: string, pageNumber: nat, c: string, cs: seq<string>,
                           embed: string -> Embedding, start: nat, next: nat, step: nat, k: nat)
    requires next == start + step
    requires RecordOfChunk(r, docName, pageNumber, cs, embed, next, step, k)
    ensures RecordOfChunk(r, docName, pageNumber, [c] + cs, embed, start, step, k + 1)
  {
    MulSucc(k + 1, step);
    assert ([c] + cs)[k + 1] == cs[k];
  }

  /** Record `i` of the chunk loop from `start` is the record of chunk
      `StoredIndices(cs)[i]` of the chunks `cs` that loop cuts: it carries that
      chunk as its document, and the identifier offset `start + (k + 1) * S`. */
  lemma {:induction false} ChunkRecordsOfChunks(docName: string, pageNumber: nat, text: string, chunkSize: nat,
                                                overlap: nat, embed: string -> Embedding, start: nat)
    requires overlap < chunkSize
    ensures var cs := ChunksFrom(text, chunkSize, overlap, start);
            var rs := ChunkRecordsFrom(docName, pageNumber, text, chunkSize, overlap, embed, start);
            var ks := StoredIndices(cs, embed, 0);
            |rs| == |ks| &&
            forall i :: 0 <= i < |rs| ==>
              RecordOfChunk(rs[i], docName, pageNumber, cs, embed, start, Step(chunkSize, overlap), ks[i])
    decreases |text| - start
  {
    if start < |text| {
      var step := Step(chunkSize, overlap);
      var chunk, next := ChunkFrom(text, chunkSize, start), start + chunkSize - overlap;
      var cs := ChunksFrom(text, chunkSize, overlap, start);
      var restChunks := ChunksFrom(text, chunkSize, overlap, next);
      var rs := ChunkRecordsFrom(docName, pageNumber, text, chunkSize, overlap, embed, start);
      var ks := StoredIndices(cs, embed, 0);
      assert cs == [chunk] + restChunks && cs[0] == chunk;
      match embed(chunk)
      case EmbeddingFailed =>
        ChunkStepFails(docName, pageNumber, text, chunkSize, overlap, embed, start);
        assert ks == [];
      case Vector(v) =>
        ChunkStepEmbeds(docName, pageNumber, text, chunkSize, overlap, embed, start, chunk, next, v);
        ChunkRecordsOfChunks(docName, pageNumber, text, chunkSize, overlap, embed, next);
        var rest := ChunkRecordsFrom(docName, pageNumber, text, chunkSize, overlap, embed, next);
        var restKs := StoredIndices(restChunks, embed, 0);
        StoredIndicesCons(chunk, restChunks, embed, 0);
        var r := Record(ChunkId(docName, pageNumber, next), chunk, ChunkMetadata(docName, pageNumber), v);
        var head: seq<Record> := if |v| > 0 then [r] else [];
        var headKs: seq<nat> := if |v| > 0 then [0] else [];
        assert rs == head + rest;
        assert ks == headKs + StoredIndices(cs, embed, 1);
        RecordsOfChunksCons(rs, rest, ks, restKs, docName, pageNumber, chunk, restChunks, embed, start, next, step, v);
    }
  }

  /** One answered call of the chunk loop: its record (when the vector is
      non-empty) for chunk 0, then the records of the loop from the next start,
      each one chunk further on. */
  lemma RecordsOfChunksCons(rs: seq<Record>, rest: seq<Record>, ks: seq<nat>, restKs: seq<nat>, docName: string,
                            pageNumber: nat, chunk: string, restChunks: seq<string>, embed: string -> Embedding,
                            start: nat, next: nat, step: nat, v: seq<real>)
    requires next == start + step && embed(chunk) == Vector(v)
    requires |rest| == |restKs|
    requires forall i :: 0 <= i < |rest| ==>
               RecordOfChunk(rest[i], docName, pageNumber, restChunks, embed, next, step, restKs[i])
    requires rs == (if |v| > 0 then [Record(ChunkId(docName, pageNumber, next), chunk,
                                            ChunkMetadata(docName, pageNumber), v)] else []) + rest
    requires ks == (if |v| > 0 then [0] else []) + Shifted(restKs)
    ensures |rs| == |ks|
    ensures forall i :: 0 <= i < |rs| ==>
              RecordOfChunk(rs[i], docName, pageNumber, [chunk] + restChunks, embed, start, step, ks[i])
  {
    var cs := [chunk] + restChunks;
    var d := if |v| > 0 then 1 else 0;
    forall i | d <= i < |rs|
      ensures RecordOfChunk(rs[i], docName, pageNumber, cs, embed, start, step, ks[i])
    {
      assert rs[i] == rest[i - d] && ks[i] == restKs[i - d] + 1;
      RecordOfChunkShift(rest[i - d], docName, pageNumber, chunk, restChunks, embed, start, next, step,
                         restKs[i - d]);
    }
    if |v| > 0 {
      assert cs[0] == chunk && (0 + 1) * step == step;
      assert RecordOfChunk(rs[0], docName, pageNumber, cs, embed, start, step, ks[0]);
    }
  }

  /** When every chunk embeds to a non-empty vector, every position from `k`
      on is stored, in order. */
  lemma {:induction false} StoredIndicesAll(cs: seq<string>, embed: string -> Embedding, k: nat)
    requires AllEmbedded(cs, embed) && k <= |cs|
    ensures var ks := StoredIndices(cs, embed, k);
            |ks| == |cs| - k && forall i :: 0 <= i < |ks| ==> ks[i] == k + i
    decreases |cs| - k
  {
    if k < |cs| {
      StoredIndicesAll(cs, embed, k + 1);
      var rest := StoredIndices(cs, embed, k + 1);
      assert embed(cs[k]).Vector? && embed(cs[k]).values != [];
      assert StoredIndices(cs, embed, k) == [k] + rest;
    }
  }

  /** When every chunk embeds to a non-empty vector, the loop from `start`
      stores one record per chunk, in order: record `k` holds chunk `k` under
      the identifier offset `start + (k + 1) * S`. */
  lemma AllEmbeddedRecords(docName: string, pageNumber: nat, text: string, chunkSize: nat, overlap: nat,
                           embed: string -> Embedding, start: nat)
    requires overlap < chunkSize
    ensures var cs := ChunksFrom(text, chunkSize, overlap, start);
            var rs := ChunkRecordsFrom(docName, pageNumber, text, chunkSize, overlap, embed, start);
            AllEmbedded(cs, embed) ==>
              |rs| == |cs| &&
              forall k :: 0 <= k < |cs| ==>
                RecordOfChunk(rs[k], docName, pageNumber, cs, embed, start, Step(chunkSize, overlap), k)
  {
    var cs := ChunksFrom(text, chunkSize, overlap, start);
    ChunkRecordsOfChunks(docName, pageNumber, text, chunkSize, overlap, embed, start);
    if AllEmbedded(cs, embed) {
      StoredIndicesAll(cs, embed, 0);
    }
  }

  /** On a readable, non-blank page with index `p`, record `i` is the record
      of chunk `StoredIndices(cs)[i]` of the normalised text's chunks `cs`,
      under page number `p + 1` and identifier offset `(k + 1) * S`; when
      every chunk embeds, record `k` is that of chunk `k`. */
  lemma PageRecordsOfChunks(docName: string, pageIndex: nat, page: PageText, chunkSize: nat, overlap: nat,
                            embed: string -> Embedding)
    requires overlap < chunkSize && page.Extracted? && Strip(page.text) != []
    ensures var cs := Chunks(Normalize(page.text), chunkSize, overlap);
            var rs := PageRecords(docName, pageIndex, page, chunkSize, overlap, embed);
            var ks := StoredIndices(cs, embed, 0);
            |rs| == |ks| &&
            (forall i :: 0 <= i < |rs| ==>
               RecordOfChunk(rs[i], docName, pageIndex + 1, cs, embed, 0, Step(chunkSize, overlap), ks[i])) &&
            (AllEmbedded(cs, embed) ==>
               |rs| == |cs| &&
               forall k :: 0 <= k < |cs| ==>
                 RecordOfChunk(rs[k], docName, pageIndex + 1, cs, embed, 0, Step(chunkSize, overlap), k))
  {
    var text := Normalize(page.text);
    PageOfText(docName, pageIndex, page, text, chunkSize, overlap, embed);
    ChunkRecordsOfChunks(docName, pageIndex + 1, text, chunkSize, overlap, embed, 0);
    AllEmbeddedRecords(docName, pageIndex + 1, text, chunkSize, overlap, embed, 0);
  }

  /** The identifiers of page 1 of `doc.pdf` at offsets 7, 14 and 21. */
  lemma ExampleChunkIds()
    ensures ChunkId("doc.pdf", 1, 7) == "doc.pdf_page1_chunk7"
    ensures ChunkId("doc.pdf", 1, 14) == "doc.pdf_page1_chunk14"
    ensures ChunkId("doc.pdf", 1, 21) == "doc.pdf_page1_chunk21"
  {
    assert Digits(1) == "1" && Digits(7) == "7";
    assert Digits(14) == Digits(1) + "4" && Digits(21) == "2" + "1";
  }

  /** The records the chunk loop stores for a 15-character page with chunk
      size 10 and overlap 3, with a model that always answers. */
  lemma ExampleChunkRecords(embed: string -> Embedding)
    requires forall t :: embed(t) == Vector([1.0])
    ensures var meta := ChunkMetadata("doc.pdf", 1);
            ChunkRecordsFrom("doc.pdf", 1, "abcdefghijklmno", 10, 3, embed, 0) ==
            [Record(ChunkId("doc.pdf", 1, 7), "abcdefghij", meta, [1.0]),
             Record(ChunkId("doc.pdf", 1, 14), "hijklmno", meta, [1.0]),
             Record(ChunkId("doc.pdf", 1, 21), "o", meta, [1.0])]
  {
    var t := "abcdefghijklmno";
    assert |t| == 15 && t[0..10] == "abcdefghij" && t[7..15] == "hijklmno" && t[14..15] == "o";
    ChunkStepEmbeds("doc.pdf", 1, t, 10, 3, embed, 14, "o", 21, [1.0]);
    ChunkStepEmbeds("doc.pdf", 1, t, 10, 3, embed, 7, "hijklmno", 14, [1.0]);
    ChunkStepEmbeds("doc.pdf", 1, t, 10, 3, embed, 0, "abcdefghij", 7, [1.0]);
  }

  /** Page 1 of `doc.pdf` holding a 15-character text, chunk size 10 and
      overlap 3, with a model that always answers: three records, whose
      identifiers carry 7, 14 and 21, the start of the chunk after each. */
  lemma FifteenCharacterPageIds(embed: string -> Embedding)
    requires forall t :: embed(t) == Vector([1.0])
    ensures var rs := ChunkRecordsFrom("doc.pdf", 1, "abcdefghijklmno", 10, 3, embed, 0);
            |rs| == 3 &&
            rs[0].id == "doc.pdf_page1_chunk7" && rs[0].document == "abcdefghij" &&
            rs[1].id == "doc.pdf_page1_chunk14" && rs[1].document == "hijklmno" &&
            rs[2].id == "doc.pdf_page1_chunk21" && rs[2].document == "o"
  {
    ExampleChunkRecords(embed);
    ExampleChunkIds();
  }

  /** A page the loop skips (extraction failed, or only whitespace) costs no
      call; any other page costs at least one and at most one per chunk of its
      normalised text, and stores at most one record per call. */
  lemma PageCallsBounded(docName: string, pageIndex: nat, page: PageText, chunkSize: nat, overlap: nat,
                         embed: string -> Embedding)
    requires overlap < chunkSize
    ensures var calls := PageCalls(page, chunkSize, overlap, embed);
            |PageRecords(docName, pageIndex, page, chunkSize, overlap, embed)| <= calls &&
            (calls == 0 <==> page.ExtractionError? || Strip(page.text) == []) &&
            (page.Extracted? ==> calls <= ChunkCount(|Normalize(page.text)|, chunkSize, overlap))
  {
    if page.Extracted? {
      var text := Normalize(page.text);
      NormalizeSpec(page.text);
      ChunkCallsBounded(docName, pageIndex + 1, text, chunkSize, overlap, embed, 0);
      ChunksCount(text, chunkSize, overlap);
      if Strip(page.text) == [] {
        assert text == [];
      }
    }
  }

  // ---------------------------------------------------------------------------
  // Pages, documents and the directory
  // ---------------------------------------------------------------------------

  /** Joining two identifier-distinct lists that share no identifier keeps them distinct. */
  lemma DistinctConcat(a: seq<Record>, b: seq<Record>)
    requires DistinctIds(a) && DistinctIds(b)
    requires forall i, j :: 0 <= i < |a| && 0 <= j < |b| ==> a[i].id != b[j].id
    ensures DistinctIds(a + b)
  {
    var ab := a + b;
    forall i, j | 0 <= i < j < |ab|
      ensures ab[i].id != ab[j].id
    {
      if j < |a| {
        assert ab[i] == a[i] && ab[j] == a[j];
      } else if i < |a| {
        assert ab[i] == a[i] && ab[j] == b[j - |a|];
      } else {
        assert ab[i] == b[i - |a|] && ab[j] == b[j - |a|];
      }
    }
  }

  /** `r`'s identifier reads back as document `docName`, page `pageNumber`,
      its metadata says the same, and its embedding is non-empty. */
  predicate KeyedTo(r: Record, docName: string, pageNumber: nat) {
    var key := ParseChunkId(r.id);
    key.Some? && key.value.docName == docName && key.value.pageNumber == pageNumber &&
    r.metadata == ChunkMetadata(docName, pageNumber) && r.embedding != []
  }

  /** Every record a page stores is keyed to the document and the page's
      1-based number; no two share an identifier. */
  lemma PageRecordsKeyed(docName: string, pageIndex: nat, pageNumber: nat, page: PageText, chunkSize: nat,
                         overlap: nat, embed: string -> Embedding)
    requires overlap < chunkSize && pageNumber == pageIndex + 1
    ensures var rs := PageRecords(docName, pageIndex, page, chunkSize, overlap, embed);
            DistinctIds(rs) && forall i :: 0 <= i < |rs| ==> KeyedTo(rs[i], docName, pageNumber)
  {
    if page.Extracted? && Strip(page.text) != [] {
      var text := Normalize(page.text);
      PageOfText(docName, pageIndex, page, text, chunkSize, overlap, embed);
      ChunkRecordsKeyed(docName, pageNumber, text, chunkSize, overlap, embed);
    } else {
      PageSkipped(docName, pageIndex, page, chunkSize, overlap, embed);
    }
  }

  /** A record stored for an offset reads back as its document and page. */
  lemma StoredAtKeyed(r: Record, docName: string, pageNumber: nat, text: string, chunkSize: nat, overlap: nat,
                      embed: string -> Embedding, offset: nat)
    requires overlap < chunkSize
    requires StoredAt(r, docName, pageNumber, text, chunkSize, overlap, embed, offset)
    ensures KeyedTo(r, docName, pageNumber)
  {
    ChunkIdRoundTrip(docName, pageNumber, offset);
  }

  /** The chunk loop over a page's text stores records keyed to the document
      and the page, with pairwise distinct identifiers. */
  lemma ChunkRecordsKeyed(docName: string, pageNumber: nat, text: string, chunkSize: nat, overlap: nat,
                          embed: string -> Embedding)
    requires overlap < chunkSize
    ensures var rs := ChunkRecordsFrom(docName, pageNumber, text, chunkSize, overlap, embed, 0);
            DistinctIds(rs) && forall i :: 0 <= i < |rs| ==> KeyedTo(rs[i], docName, pageNumber)
  {
    var rs := ChunkRecordsFrom(docName, pageNumber, text, chunkSize, overlap, embed, 0);
    var offs := StoredOffsetsFrom(text, chunkSize, overlap, embed, 0);
    ChunkRecordsAt(docName, pageNumber, text, chunkSize, overlap, embed, 0);
    ChunkIdsDistinct(docName, pageNumber, text, chunkSize, overlap, embed, 0);
    forall i | 0 <= i < |rs|
      ensures KeyedTo(rs[i], docName, pageNumber)
    {
      StoredAtKeyed(rs[i], docName, pageNumber, text, chunkSize, overlap, embed, offs[i]);
    }
  }

  /** `r`'s identifier reads back as document `docName` and a page between 1
      and `pageCount`, its metadata names the same document and page, and its
      embedding is non-empty. */
  predicate InDocument(r: Record, docName: string, pageCount: nat) {
    var key := ParseChunkId(r.id);
    key.Some? && key.value.docName == docName && 1 <= key.value.pageNumber <= pageCount &&
    r.metadata == ChunkMetadata(docName, key.value.pageNumber) && r.embedding != []
  }

  /** Records of the first `m` pages followed by records of page `m + 1`
      keep identifiers distinct and all lie within the first `m + 1` pages.
      The longer length `n` (that is, `m + 1`) is a parameter so that callers
      state the step with the very term their own goal mentions. */
  lemma NextPageRecords(a: seq<Record>, b: seq<Record>, docName: string, m: nat, n: nat)
    requires n == m + 1
    requires DistinctIds(a) && forall i :: 0 <= i < |a| ==> InDocument(a[i], docName, m)
    requires DistinctIds(b) && forall j :: 0 <= j < |b| ==> KeyedTo(b[j], docName, n)
    ensures DistinctIds(a + b) && forall i :: 0 <= i < |a + b| ==> InDocument((a + b)[i], docName, n)
  {
    forall i, j | 0 <= i < |a| && 0 <= j < |b|
      ensures a[i].id != b[j].id
    {
      assert InDocument(a[i], docName, m) && KeyedTo(b[j], docName, n);
    }
    DistinctConcat(a, b);
    var rs := a + b;
    forall i | 0 <= i < |rs|
      ensures InDocument(rs[i], docName, n)
    {
      if i < |a| {
        assert rs[i] == a[i];
      } else {
        assert rs[i] == b[i - |a|];
      }
    }
  }

  /** The first `n` pages of a document store records keyed to the document
      and to pages 1 to `n`, with pairwise distinct identifiers. */
  lemma {:induction false} PagesRecordsKeyed(docName: string, pages: seq<PageText>, n: nat, chunkSize: nat,
                                             overlap: nat, embed: string -> Embedding)
    requires overlap < chunkSize && n <= |pages|
    ensures var rs := PagesRecords(docName, pages, n, chunkSize, overlap, embed);
            DistinctIds(rs) && forall i :: 0 <= i < |rs| ==> InDocument(rs[i], docName, n)
  {
    if n > 0 {
      var m := n - 1;
      PagesRecordsKeyed(docName, pages, m, chunkSize, overlap, embed);
      PageRecordsKeyed(docName, m, n, pages[m], chunkSize, overlap, embed);
      NextPageRecords(PagesRecords(docName, pages, m, chunkSize, overlap, embed),
                      PageRecords(docName, m, pages[m], chunkSize, overlap, embed), docName, m, n);
      PagesStep(docName, pages, m, n, chunkSize, overlap, embed);
    }
  }

  /** The records pages `lo` to `n - 1` add, in page order. */
  function PagesRecordsFrom(docName: string, pages: seq<PageText>, lo: nat, n: nat, chunkSize: nat, overlap: nat,
                            embed: string -> Embedding): seq<Record>
    requires overlap < chunkSize && lo <= n <= |pages|
    decreases n - lo
  {
    if n == lo then []
    else PagesRecordsFrom(docName, pages, lo, n - 1, chunkSize, overlap, embed)
         + PageRecords(docName, n - 1, pages[n - 1], chunkSize, overlap, embed)
  }

  /** The records of the first `n` pages are those of the first `lo` pages
      followed by those of pages `lo` to `n - 1`. */
  lemma {:induction false} PagesRecordsSplit(docName: string, pages: seq<PageText>, lo: nat, n: nat,
                                             chunkSize: nat, overlap: nat, embed: string -> Embedding)
    requires overlap < chunkSize && lo <= n <= |pages|
    ensures PagesRecords(docName, pages, n, chunkSize, overlap, embed) ==
            PagesRecords(docName, pages, lo, chunkSize, overlap, embed) +
            PagesRecordsFrom(docName, pages, lo, n, chunkSize, overlap, embed)
    decreases n - lo
  {
    if n == lo {
      ConcatEmpty(PagesRecords(docName, pages, lo, chunkSize, overlap, embed));
    } else {
      var m := n - 1;
      PagesRecordsSplit(docName, pages, lo, m, chunkSize, overlap, embed);
      PagesStep(docName, pages, m, n, chunkSize, overlap, embed);
      ConcatAssoc(PagesRecords(docName, pages, lo, chunkSize, overlap, embed),
                  PagesRecordsFrom(docName, pages, lo, m, chunkSize, overlap, embed),
                  PageRecords(docName, m, pages[m], chunkSize, overlap, embed));
    }
  }

  /** The records pages `lo` to `n - 1` add depend on those pages only. */
  lemma {:induction false} PagesRecordsFromAgree(docName: string, pages: seq<PageText>, pages2: seq<PageText>,
                                                 lo: nat, n: nat, chunkSize: nat, overlap: nat,
                                                 embed: string -> Embedding)
    requires overlap < chunkSize && lo <= n <= |pages| && |pages2| == |pages|
    requires forall i :: lo <= i < n ==> pages[i] == pages2[i]
    ensures PagesRecordsFrom(docName, pages, lo, n, chunkSize, overlap, embed) ==
            PagesRecordsFrom(docName, pages2, lo, n, chunkSize, overlap, embed)
    decreases n - lo
  {
    if n > lo {
      PagesRecordsFromAgree(docName, pages, pages2, lo, n - 1, chunkSize, overlap, embed);
    }
  }

  /** Whatever happens on page `k` (text that cannot be extracted, an
      embedding call that fails part-way) changes only the records of page
      `k`: the pages before and after it store the same records as before. */
  lemma PageFailureContained(docName: string, pages: seq<PageText>, k: nat, other: PageText, n: nat,
                             chunkSize: nat, overlap: nat, embed: string -> Embedding)
    requires overlap < chunkSize && k < n <= |pages|
    ensures var changed := pages[k := other];
            var before := PagesRecords(docName, pages, k, chunkSize, overlap, embed);
            var after := PagesRecordsFrom(docName, pages, k + 1, n, chunkSize, overlap, embed);
            PagesRecords(docName, pages, n, chunkSize, overlap, embed) ==
              before + PageRecords(docName, k, pages[k], chunkSize, overlap, embed) + after &&
            PagesRecords(docName, changed, n, chunkSize, overlap, embed) ==
              before + PageRecords(docName, k, other, chunkSize, overlap, embed) + after
  {
    var changed := pages[k := other];
    var k1 := k + 1;
    PagesRecordsSplit(docName, pages, k1, n, chunkSize, overlap, embed);
    PagesRecordsSplit(docName, changed, k1, n, chunkSize, overlap, embed);
    PagesStep(docName, pages, k, k1, chunkSize, overlap, embed);
    PagesStep(docName, changed, k, k1, chunkSize, overlap, embed);
    PagesRecordsSplit(docName, pages, 0, k, chunkSize, overlap, embed);
    PagesRecordsSplit(docName, changed, 0, k, chunkSize, overlap, embed);
    PagesRecordsFromAgree(docName, pages, changed, 0, k, chunkSize, overlap, embed);
    PagesRecordsFromAgree(docName, pages, changed, k1, n, chunkSize, overlap, embed);
  }

  /** A document stores records keyed to its name and its pages, with
      pairwise distinct identifiers; one that cannot be opened stores none. */
  lemma PdfRecordsKeyed(docName: string, file: PdfDocument, chunkSize: nat, overlap: nat,
                        embed: string -> Embedding)
    requires overlap < chunkSize
    ensures var rs := PdfRecords(docName, file, chunkSize, overlap, embed);
            DistinctIds(rs) &&
            (file.Unopenable? ==> rs == []) &&
            (file.Opened? ==> forall i :: 0 <= i < |rs| ==> InDocument(rs[i], docName, |file.pages|))
  {
    if file.Opened? {
      PagesRecordsKeyed(docName, file.pages, |file.pages|, chunkSize, overlap, embed);
    }
  }

  /** The names of the entries among the first `n` of the listing that
      ingestion treats as PDF files. */
  function PdfNames(listing: seq<DirEntry>, n: nat): set<string>
    requires n <= |listing|
  {
    set i | 0 <= i < n && IsPdfName(listing[i].name) :: listing[i].name
  }

  /** `r`'s identifier reads back as one of `names` and a page from 1 on, its
      metadata names the same document and page, and its embedding is non-empty. */
  predicate FromDocuments(r: Record, names: set<string>) {
    var key := ParseChunkId(r.id);
    key.Some? && key.value.docName in names && 1 <= key.value.pageNumber &&
    r.metadata == ChunkMetadata(key.value.docName, key.value.pageNumber) && r.embedding != []
  }

  /** One more listing entry adds its name to the PDF names exactly when it
      ends in `.pdf`; with distinct names it was not among them before.
      The longer length `n` (that is, `m + 1`) is a parameter so that callers
      state the step with the very term their own goal mentions. */
  lemma PdfNamesStep(listing: seq<DirEntry>, m: nat, n: nat)
    requires n == m + 1 && n <= |listing|
    requires forall i, j :: 0 <= i < j < |listing| ==> listing[i].name != listing[j].name
    ensures PdfNames(listing, n) ==
            PdfNames(listing, m) + (if IsPdfName(listing[m].name) then {listing[m].name} else {})
    ensures listing[m].name !in PdfNames(listing, m)
  {
  }

  /** Records from two disjoint sets of documents, each without repeated
      identifiers, have no repeated identifier together. */
  lemma DisjointDocuments(a: seq<Record>, b: seq<Record>, namesA: set<string>, namesB: set<string>)
    requires namesA !! namesB
    requires DistinctIds(a) && forall i :: 0 <= i < |a| ==> FromDocuments(a[i], namesA)
    requires DistinctIds(b) && forall j :: 0 <= j < |b| ==> FromDocuments(b[j], namesB)
    ensures DistinctIds(a + b) && forall i :: 0 <= i < |a + b| ==> FromDocuments((a + b)[i], namesA + namesB)
  {
    forall i, j | 0 <= i < |a| && 0 <= j < |b|
      ensures a[i].id != b[j].id
    {
      assert FromDocuments(a[i], namesA) && FromDocuments(b[j], namesB);
    }
    DistinctConcat(a, b);
    var rs := a + b;
    forall i | 0 <= i < |rs|
      ensures FromDocuments(rs[i], namesA + namesB)
    {
      if i < |a| {
        assert rs[i] == a[i] && FromDocuments(a[i], namesA);
      } else {
        assert rs[i] == b[i - |a|] && FromDocuments(b[i - |a|], namesB);
      }
    }
  }

  /** A directory entry stores records only when its name ends in `.pdf`, all
      keyed to that name, with pairwise distinct identifiers. */
  lemma FileRecordsKeyed(resourcePath: string, entry: DirEntry, embed: string -> Embedding)
    requires '/' !in entry.name
    ensures var rs := FileRecords(resourcePath, entry, embed);
            DistinctIds(rs) && (!IsPdfName(entry.name) ==> rs == []) &&
            forall i :: 0 <= i < |rs| ==> FromDocuments(rs[i], {entry.name})
  {
    if IsPdfName(entry.name) {
      var rs := FileRecords(resourcePath, entry, embed);
      LastSegmentOfJoin(resourcePath, entry.name);
      PdfRecordsKeyed(entry.name, entry.file, DefaultChunkSize, DefaultOverlap, embed);
      forall i | 0 <= i < |rs|
        ensures FromDocuments(rs[i], {entry.name})
      {
        assert InDocument(rs[i], entry.name, |entry.file.pages|);
      }
    }
  }

  /** A first run over the first `n` entries of a listing of distinct,
      slash-free names stores only records of the PDF entries among them,
      each keyed to its file name and a page number from 1 on, and no two
      records share an identifier. */
  lemma {:induction false} IngestRecordsKeyed(resourcePath: string, listing: seq<DirEntry>, n: nat,
                                              embed: string -> Embedding)
    requires n <= |listing|
    requires forall i :: 0 <= i < |listing| ==> '/' !in listing[i].name
    requires forall i, j :: 0 <= i < j < |listing| ==> listing[i].name != listing[j].name
    ensures var rs := IngestRecords(resourcePath, listing, n, embed);
            DistinctIds(rs) && forall i :: 0 <= i < |rs| ==> FromDocuments(rs[i], PdfNames(listing, n))
  {
    if n > 0 {
      var m := n - 1;
      var entry := listing[m];
      var a := IngestRecords(resourcePath, listing, m, embed);
      var b := FileRecords(resourcePath, entry, embed);
      IngestRecordsKeyed(resourcePath, listing, m, embed);
      FileRecordsKeyed(resourcePath, entry, embed);
      PdfNamesStep(listing, m, n);
      IngestStep(resourcePath, listing, m, n, embed);
      if IsPdfName(entry.name) {
        DisjointDocuments(a, b, PdfNames(listing, m), {entry.name});
      } else {
        DisjointDocuments(a, b, PdfNames(listing, m), {});
      }
    }
  }
}
