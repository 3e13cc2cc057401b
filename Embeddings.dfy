/**
 * The embedding stage `embed_chunks`: for each chunk record, in order, one
 * request to the embedding service with the record's content, and one output
 * record carrying the vector, the content and the metadata. The service is a
 * parameter: `None` stands for a request that raises.
 */
module Embeddings {
  import opened Errors
  import opened Ingestion

  /** A vector from the embedding model; its values are never inspected. */
  type Embedding = seq<real>

  /** One element of the list `embed_chunks` returns: `{embedding, content, metadata}`. */
  datatype EmbeddedChunk = EmbeddedChunk(embedding: Embedding, content: string, metadata: Metadata)

  /**
   * The reference definition: embed the first record, then the rest; the
   * first failing request aborts the whole call.
   */
  function EmbedAll(chunks: seq<ChunkRecord>, generate: string -> Option<Embedding>): Result<seq<EmbeddedChunk>>
    decreases |chunks|
  {
    if chunks == [] then Ok([])
    else match generate(chunks[0].content)
      case None => Err(EmbeddingError(chunks[0].content))
      case Some(v) =>
        match EmbedAll(chunks[1..], generate)
        case Err(e) => Err(e)
        case Ok(rest) => Ok([EmbeddedChunk(v, chunks[0].content, chunks[0].metadata)] + rest)
  }

  /**
   * `embed_chunks`. Besides the result, the ghost `requests` records the texts sent to
   * the service, in the order they were sent.
   */
  method EmbedChunks(chunks: seq<ChunkRecord>, generate: string -> Option<Embedding>)
    returns (r: Result<seq<EmbeddedChunk>>, ghost requests: seq<string>)
    ensures r == EmbedAll(chunks, generate)
    ensures |requests| <= |chunks|
    ensures forall i :: 0 <= i < |requests| ==> requests[i] == chunks[i].content
    ensures r.Ok? ==> |requests| == |chunks|
    ensures r.Err? ==> |requests| > 0 && generate(requests[|requests| - 1]).None?
    ensures forall i :: 0 <= i < |requests| - 1 ==> generate(requests[i]).Some?
    ensures r.Ok? ==> forall i :: 0 <= i < |requests| ==> generate(requests[i]).Some?
  {
    var embedded: seq<EmbeddedChunk> := [];
    requests := [];
    var i := 0;
    assert chunks[i..] == chunks;
    PrependNothing(EmbedAll(chunks, generate));
    while i < |chunks|
      invariant i <= |chunks|
      invariant requests == ContentsOf(chunks[..i])
      invariant forall k :: 0 <= k < i ==> generate(chunks[k].content).Some?
      invariant Prepend(embedded, EmbedAll(chunks[i..], generate)) == EmbedAll(chunks, generate)
    {
      assert chunks[i..][0] == chunks[i] && chunks[i..][1..] == chunks[i + 1..];
      assert chunks[..i + 1] == chunks[..i] + [chunks[i]];
      var content := chunks[i].content;
      var metadata := chunks[i].metadata;
      requests := requests + [content];
      var embedding := generate(content);
      if embedding.None? {
        return Err(EmbeddingError(content)), requests;
      }
      PrependAssoc(embedded, [EmbeddedChunk(embedding.value, content, metadata)], EmbedAll(chunks[i + 1..], generate));
      embedded := embedded + [EmbeddedChunk(embedding.value, content, metadata)];
      i := i + 1;
    }
    assert chunks[i..] == [] && chunks[..i] == chunks;
    assert embedded + [] == embedded;
    return Ok(embedded), requests;
  }

  /** The contents of a list of chunk records. */
  function ContentsOf(chunks: seq<ChunkRecord>): (texts: seq<string>)
    ensures |texts| == |chunks|
    ensures forall i :: 0 <= i < |chunks| ==> texts[i] == chunks[i].content
  {
    seq(|chunks|, i requires 0 <= i < |chunks| => chunks[i].content)
  }

  /**
   * On success: one output per input, in the same position, with the same
   * content and metadata and the service's vector for that content; no
   * reordering, skipping or deduplication.
   */
  lemma {:induction false} EmbedAllPreserves(chunks: seq<ChunkRecord>, generate: string -> Option<Embedding>)
    requires EmbedAll(chunks, generate).Ok?
    ensures var out := EmbedAll(chunks, generate).value;
            && |out| == |chunks|
            && forall i :: 0 <= i < |chunks| ==>
                 && out[i].content == chunks[i].content
                 && out[i].metadata == chunks[i].metadata
                 && generate(chunks[i].content) == Some(out[i].embedding)
    decreases |chunks|
  {
    if chunks != [] {
      EmbedAllPreserves(chunks[1..], generate);
    }
  }

  /** The call succeeds exactly when every request succeeds. */
  lemma {:induction false} EmbedAllOkIff(chunks: seq<ChunkRecord>, generate: string -> Option<Embedding>)
    ensures EmbedAll(chunks, generate).Ok?
            <==> forall i :: 0 <= i < |chunks| ==> generate(chunks[i].content).Some?
    decreases |chunks|
  {
    if chunks != [] {
      EmbedAllOkIff(chunks[1..], generate);
      assert forall i :: 1 <= i < |chunks| ==> chunks[1..][i - 1] == chunks[i];
    }
  }

  /**
   * Failure propagation: the first failing request aborts the call with an
   * error for that content and no partial list.
   */
  lemma {:induction false} EmbedAllFailsAtFirst(chunks: seq<ChunkRecord>, generate: string -> Option<Embedding>, j: nat)
    requires j < |chunks| && generate(chunks[j].content).None?
    requires forall i :: 0 <= i < j ==> generate(chunks[i].content).Some?
    ensures EmbedAll(chunks, generate) == Err(EmbeddingError(chunks[j].content))
    decreases j
  {
    if j > 0 {
      EmbedAllFailsAtFirst(chunks[1..], generate, j - 1);
    }
  }
}
