/**
 * The document walker `ingest_pdfs`: for every name in the directory listing
 * that ends in ".pdf", extract its text, segment it with the configured
 * strategy and emit one record per chunk, tagged with the file name and the
 * chunk's position in that file. The directory listing is a parameter (in the
 * order the file system gives it) and so is the PDF reader.
 */
module Ingestion {
  import opened Errors
  import opened Chunking
  import Windowing

  /** The chunker defaults, which the strategy dispatch always uses. */
  const CHUNK_SIZE: nat := 500
  const CHUNK_OVERLAP: int := 50

  /** The `metadata` dictionary; `chunkIndex` is the key spelled "chunk index". */
  datatype Metadata = Metadata(title: string, chunkIndex: nat)

  /** One element of the list `ingest_pdfs` returns: `{content, metadata}`. */
  datatype ChunkRecord = ChunkRecord(content: string, metadata: Metadata)

  /** `file_name.endswith(".pdf")`, case-sensitive. */
  predicate IsPdf(name: string) {
    |name| >= 4 && name[|name| - 4..] == ".pdf"
  }

  /**
   * The `match chunking_type` dispatch: the token chunker for "tokens", the
   * word chunker for "words", ValueError for anything else.
   */
  function Segment(chunkingType: string, text: string,
                   encode: string -> seq<int>, decode: seq<int> -> string): (r: Result<seq<string>>)
    ensures r.Err? <==> chunkingType != "tokens" && chunkingType != "words"
    ensures r.Err? ==> r.error == InvalidChunkingType(chunkingType)
  {
    if chunkingType == "tokens" then TokenChunks(text, CHUNK_SIZE, CHUNK_OVERLAP, encode, decode)
    else if chunkingType == "words" then WordChunks(text, CHUNK_SIZE)
    else Err(InvalidChunkingType(chunkingType))
  }

  /** The records of one file: chunk k becomes `{chunks[k], {name, k}}`. */
  function FileRecords(name: string, chunks: seq<string>): seq<ChunkRecord> {
    seq(|chunks|, k requires 0 <= k < |chunks| => ChunkRecord(chunks[k], Metadata(name, k)))
  }

  /** Running two listings one after the other: the first error wins. */
  function Chain(first: Result<seq<ChunkRecord>>, second: Result<seq<ChunkRecord>>): Result<seq<ChunkRecord>> {
    match first
    case Ok(recs) => Prepend(recs, second)
    case Err(e) => Err(e)
  }

  /**
   * The reference definition of `ingest_pdfs` over a listing: skip non-PDF
   * names; for a PDF, extraction first (its failure aborts), then the
   * dispatch (whose failure aborts), then this file's records followed by
   * those of the rest of the listing.
   */
  function Ingest(names: seq<string>, chunkingType: string, extract: string -> Option<string>,
                  encode: string -> seq<int>, decode: seq<int> -> string): Result<seq<ChunkRecord>>
    decreases |names|
  {
    if names == [] then Ok([])
    else if !IsPdf(names[0]) then Ingest(names[1..], chunkingType, extract, encode, decode)
    else match extract(names[0])
      case None => Err(ExtractionError(names[0]))
      case Some(text) =>
        match Segment(chunkingType, text, encode, decode)
        case Err(e) => Err(e)
        case Ok(chunks) =>
          Prepend(FileRecords(names[0], chunks), Ingest(names[1..], chunkingType, extract, encode, decode))
  }

  /** `ingest_pdfs`: a loop over the listing, with a nested loop over one file's chunks. */
  method IngestPdfs(names: seq<string>, chunkingType: string, extract: string -> Option<string>,
                    encode: string -> seq<int>, decode: seq<int> -> string)
    returns (r: Result<seq<ChunkRecord>>)
    ensures r == Ingest(names, chunkingType, extract, encode, decode)
  {
    var allChunks: seq<ChunkRecord> := [];
    var i := 0;
    assert names[i..] == names;
    PrependNothing(Ingest(names, chunkingType, extract, encode, decode));
    while i < |names|
      invariant i <= |names|
      invariant Prepend(allChunks, Ingest(names[i..], chunkingType, extract, encode, decode))
                == Ingest(names, chunkingType, extract, encode, decode)
    {
      var fileName := names[i];
      assert names[i..][0] == fileName && names[i..][1..] == names[i + 1..];
      if IsPdf(fileName) {
        var extracted := extract(fileName);
        if extracted.None? {
          return Err(ExtractionError(fileName));
        }
        var text := extracted.value;
        var chunks: seq<string>;
        if chunkingType == "tokens" {
          var res := ChunkTextByTokens(text, CHUNK_SIZE, CHUNK_OVERLAP, encode, decode);
          chunks := res.value;
        } else if chunkingType == "words" {
          var res := ChunkTextByWords(text, CHUNK_SIZE);
          chunks := res.value;
        } else {
          return Err(InvalidChunkingType(chunkingType));
        }
        assert Segment(chunkingType, text, encode, decode) == Ok(chunks);
        PrependAssoc(allChunks, FileRecords(fileName, chunks),
                     Ingest(names[i + 1..], chunkingType, extract, encode, decode));
        allChunks := AppendFileRecords(allChunks, fileName, chunks);
      }
      i := i + 1;
    }
    assert names[i..] == [];
    assert allChunks + [] == allChunks;
    return Ok(allChunks);
  }

  /** The inner loop of `ingest_pdfs`: one record per chunk of a file, numbered from 0. */
  method AppendFileRecords(allChunks: seq<ChunkRecord>, fileName: string, chunks: seq<string>)
    returns (r: seq<ChunkRecord>)
    ensures r == allChunks + FileRecords(fileName, chunks)
  {
    r := allChunks;
    var idx := 0;
    while idx < |chunks|
      invariant idx <= |chunks|
      invariant r == allChunks + FileRecords(fileName, chunks[..idx])
    {
      assert FileRecords(fileName, chunks[..idx + 1])
             == FileRecords(fileName, chunks[..idx]) + [ChunkRecord(chunks[idx], Metadata(fileName, idx))];
      r := r + [ChunkRecord(chunks[idx], Metadata(fileName, idx))];
      idx := idx + 1;
    }
    assert chunks[..idx] == chunks;
  }

  /** The names of the listing that pass the ".pdf" filter, in listing order. */
  function PdfNames(names: seq<string>): seq<string> {
    if names == [] then []
    else if IsPdf(names[0]) then [names[0]] + PdfNames(names[1..])
    else PdfNames(names[1..])
  }

  /** Processing this file raises: its text cannot be extracted, or the dispatch rejects the strategy. */
  predicate FileFails(name: string, chunkingType: string, extract: string -> Option<string>,
                      encode: string -> seq<int>, decode: seq<int> -> string)
  {
    extract(name).None? || Segment(chunkingType, extract(name).value, encode, decode).Err?
  }

  /** Number of chunks a file contributes, zero when processing it raises. */
  function FileChunkCount(name: string, chunkingType: string, extract: string -> Option<string>,
                          encode: string -> seq<int>, decode: seq<int> -> string): nat
  {
    if !IsPdf(name) || FileFails(name, chunkingType, extract, encode, decode) then 0
    else |Segment(chunkingType, extract(name).value, encode, decode).value|
  }

  /** Sum of the per-file chunk counts over a listing. */
  function TotalChunkCount(names: seq<string>, chunkingType: string, extract: string -> Option<string>,
                           encode: string -> seq<int>, decode: seq<int> -> string): nat
    decreases |names|
  {
    if names == [] then 0
    else FileChunkCount(names[0], chunkingType, extract, encode, decode)
         + TotalChunkCount(names[1..], chunkingType, extract, encode, decode)
  }

  /** A record comes from a listed PDF: it is chunk number `chunkIndex` of that file's text. */
  predicate FromListedFile(rec: ChunkRecord, names: seq<string>, chunkingType: string,
                           extract: string -> Option<string>,
                           encode: string -> seq<int>, decode: seq<int> -> string)
  {
    var name := rec.metadata.title;
    && name in names
    && IsPdf(name)
    && extract(name).Some?
    && var segmented := Segment(chunkingType, extract(name).value, encode, decode);
    && segmented.Ok?
    && rec.metadata.chunkIndex < |segmented.value|
    && rec.content == segmented.value[rec.metadata.chunkIndex]
  }

  /**
   * Per-file numbering: a record with a non-zero index directly follows the
   * record of the same file with the index one lower, so every file's
   * records are numbered 0, 1, 2, ... in a contiguous run.
   */
  predicate NumberedRuns(recs: seq<ChunkRecord>) {
    forall j :: 0 <= j < |recs| && recs[j].metadata.chunkIndex > 0 ==>
      && j > 0
      && recs[j - 1].metadata.title == recs[j].metadata.title
      && recs[j - 1].metadata.chunkIndex + 1 == recs[j].metadata.chunkIndex
  }

  /**
   * The other direction: a record that is not the last of the `count(title)`
   * chunks of its file is directly followed by the record of the same file
   * with the next index, so no file's run stops short or repeats an index.
   */
  predicate NumberedOnward(recs: seq<ChunkRecord>, count: string -> nat) {
    forall j :: 0 <= j < |recs| && recs[j].metadata.chunkIndex + 1 < count(recs[j].metadata.title) ==>
      && j + 1 < |recs|
      && recs[j + 1].metadata == Metadata(recs[j].metadata.title, recs[j].metadata.chunkIndex + 1)
  }

  /** With no ".pdf" name in the listing the result is empty, whatever the strategy name. */
  lemma {:induction false} IngestNoPdf(names: seq<string>, chunkingType: string,
                                       extract: string -> Option<string>,
                                       encode: string -> seq<int>, decode: seq<int> -> string)
    requires forall i :: 0 <= i < |names| ==> !IsPdf(names[i])
    ensures Ingest(names, chunkingType, extract, encode, decode) == Ok([])
    decreases |names|
  {
    if names != [] {
      IngestNoPdf(names[1..], chunkingType, extract, encode, decode);
    }
  }

  /** Only the ".pdf" names matter: the listing and its PDF names give the same result. */
  lemma {:induction false} IngestFilter(names: seq<string>, chunkingType: string,
                                        extract: string -> Option<string>,
                                        encode: string -> seq<int>, decode: seq<int> -> string)
    ensures forall i :: 0 <= i < |PdfNames(names)| ==> IsPdf(PdfNames(names)[i])
    ensures Ingest(names, chunkingType, extract, encode, decode)
            == Ingest(PdfNames(names), chunkingType, extract, encode, decode)
    decreases |names|
  {
    if names != [] {
      IngestFilter(names[1..], chunkingType, extract, encode, decode);
      if IsPdf(names[0]) {
        var pdfs := PdfNames(names);
        assert pdfs[0] == names[0] && pdfs[1..] == PdfNames(names[1..]);
      }
    }
  }

  /**
   * Listing order is output order: the result for `a + b` is the records of
   * `a` followed by those of `b`, and an error in `a` stops before `b`.
   */
  lemma {:induction false} IngestAppend(a: seq<string>, b: seq<string>, chunkingType: string,
                                        extract: string -> Option<string>,
                                        encode: string -> seq<int>, decode: seq<int> -> string)
    ensures Ingest(a + b, chunkingType, extract, encode, decode)
            == Chain(Ingest(a, chunkingType, extract, encode, decode),
                     Ingest(b, chunkingType, extract, encode, decode))
    decreases |a|
  {
    var rb := Ingest(b, chunkingType, extract, encode, decode);
    if a == [] {
      assert a + b == b;
      PrependNothing(rb);
    } else {
      assert (a + b)[0] == a[0] && (a + b)[1..] == a[1..] + b;
      IngestAppend(a[1..], b, chunkingType, extract, encode, decode);
      var ra := Ingest(a[1..], chunkingType, extract, encode, decode);
      if IsPdf(a[0]) && extract(a[0]).Some? {
        var seg := Segment(chunkingType, extract(a[0]).value, encode, decode);
        if seg.Ok? && ra.Ok? {
          PrependAssoc(FileRecords(a[0], seg.value), ra.value, rb);
        }
      }
    }
  }

  /** One PDF that is processed without error yields exactly its records, numbered from 0. */
  lemma IngestSingleFile(name: string, chunkingType: string, extract: string -> Option<string>,
                         encode: string -> seq<int>, decode: seq<int> -> string)
    requires IsPdf(name)
    requires !FileFails(name, chunkingType, extract, encode, decode)
    ensures var chunks := Segment(chunkingType, extract(name).value, encode, decode).value;
            var r := Ingest([name], chunkingType, extract, encode, decode);
            && r.Ok?
            && |r.value| == |chunks|
            && forall k :: 0 <= k < |chunks| ==>
                 r.value[k].content == chunks[k] && r.value[k].metadata == Metadata(name, k)
  {
    var chunks := Segment(chunkingType, extract(name).value, encode, decode).value;
    assert [name][1..] == [];
    assert FileRecords(name, chunks) + [] == FileRecords(name, chunks);
  }

  /**
   * A PDF whose extracted text is empty contributes no records and no error,
   * for either strategy (for "tokens", given a tokenizer that encodes the
   * empty text to no tokens).
   */
  lemma EmptyPdfNoRecords(name: string, chunkingType: string, extract: string -> Option<string>,
                          encode: string -> seq<int>, decode: seq<int> -> string)
    requires IsPdf(name) && extract(name) == Some("")
    requires chunkingType == "tokens" || chunkingType == "words"
    requires chunkingType == "tokens" ==> encode("") == []
    ensures Ingest([name], chunkingType, extract, encode, decode) == Ok([])
  {
    var text := extract(name).value;
    if chunkingType == "tokens" {
      TokenChunksCount(text, CHUNK_SIZE, CHUNK_OVERLAP, encode, decode);
      assert Windowing.CeilDiv(0, CHUNK_SIZE - CHUNK_OVERLAP) == 0;
    } else {
      WordChunksCount(text, CHUNK_SIZE);
    }
    IngestSingleFile(name, chunkingType, extract, encode, decode);
  }

  /**
   * The first PDF whose processing raises decides the outcome: extraction
   * is tried before the strategy name is looked at, so an unreadable file
   * reports ExtractionError, a readable one InvalidChunkingType.
   */
  lemma {:induction false} IngestFailsAtFirst(names: seq<string>, j: nat, chunkingType: string,
                                              extract: string -> Option<string>,
                                              encode: string -> seq<int>, decode: seq<int> -> string)
    requires j < |names| && IsPdf(names[j])
    requires FileFails(names[j], chunkingType, extract, encode, decode)
    requires forall i :: 0 <= i < j && IsPdf(names[i]) ==> !FileFails(names[i], chunkingType, extract, encode, decode)
    ensures Ingest(names, chunkingType, extract, encode, decode)
            == Err(if extract(names[j]).None? then ExtractionError(names[j]) else InvalidChunkingType(chunkingType))
    decreases j
  {
    if j > 0 {
      IngestFailsAtFirst(names[1..], j - 1, chunkingType, extract, encode, decode);
    }
  }

  /** When no PDF's processing raises, the walk succeeds. */
  lemma {:induction false} IngestSucceeds(names: seq<string>, chunkingType: string,
                                          extract: string -> Option<string>,
                                          encode: string -> seq<int>, decode: seq<int> -> string)
    requires forall i :: 0 <= i < |names| && IsPdf(names[i]) ==> !FileFails(names[i], chunkingType, extract, encode, decode)
    ensures Ingest(names, chunkingType, extract, encode, decode).Ok?
    decreases |names|
  {
    if names != [] {
      IngestSucceeds(names[1..], chunkingType, extract, encode, decode);
    }
  }

  /**
   * An unknown strategy name raises exactly when the listing holds a ".pdf"
   * name, and then only after the first such file's text is extracted.
   */
  lemma InvalidChunkingTypeRaises(names: seq<string>, chunkingType: string,
                                  extract: string -> Option<string>,
                                  encode: string -> seq<int>, decode: seq<int> -> string)
    requires chunkingType != "tokens" && chunkingType != "words"
    ensures Ingest(names, chunkingType, extract, encode, decode).Err?
            <==> exists i :: 0 <= i < |names| && IsPdf(names[i])
    ensures forall j :: 0 <= j < |names| && IsPdf(names[j]) && (forall i :: 0 <= i < j ==> !IsPdf(names[i])) ==>
              Ingest(names, chunkingType, extract, encode, decode)
              == Err(if extract(names[j]).None? then ExtractionError(names[j]) else InvalidChunkingType(chunkingType))
  {
    forall j | 0 <= j < |names| && IsPdf(names[j]) && (forall i :: 0 <= i < j ==> !IsPdf(names[i]))
      ensures Ingest(names, chunkingType, extract, encode, decode)
              == Err(if extract(names[j]).None? then ExtractionError(names[j]) else InvalidChunkingType(chunkingType))
    {
      IngestFailsAtFirst(names, j, chunkingType, extract, encode, decode);
    }
    if exists i :: 0 <= i < |names| && IsPdf(names[i]) {
      var j := FirstPdf(names);
      IngestFailsAtFirst(names, j, chunkingType, extract, encode, decode);
    } else {
      IngestNoPdf(names, chunkingType, extract, encode, decode);
    }
  }

  /** Position of the first ".pdf" name in a listing that has one. */
  function FirstPdf(names: seq<string>): (j: nat)
    requires exists i :: 0 <= i < |names| && IsPdf(names[i])
    ensures j < |names| && IsPdf(names[j])
    ensures forall i :: 0 <= i < j ==> !IsPdf(names[i])
    decreases |names|
  {
    if IsPdf(names[0]) then 0
    else
      assert exists i :: 0 <= i < |names[1..]| && IsPdf(names[1..][i]) by {
        var i :| 0 <= i < |names| && IsPdf(names[i]);
        assert i > 0 && names[1..][i - 1] == names[i];
      }
      1 + FirstPdf(names[1..])
  }

  /** Every record is chunk `chunkIndex` of the listed PDF named by its title. */
  lemma {:induction false} IngestProvenance(names: seq<string>, chunkingType: string,
                                            extract: string -> Option<string>,
                                            encode: string -> seq<int>, decode: seq<int> -> string)
    requires Ingest(names, chunkingType, extract, encode, decode).Ok?
    ensures var recs := Ingest(names, chunkingType, extract, encode, decode).value;
            forall j :: 0 <= j < |recs| ==>
              FromListedFile(recs[j], names, chunkingType, extract, encode, decode)
    decreases |names|
  {
    if names != [] {
      var recs := Ingest(names, chunkingType, extract, encode, decode).value;
      IngestProvenance(names[1..], chunkingType, extract, encode, decode);
      var rest := Ingest(names[1..], chunkingType, extract, encode, decode).value;
      forall j | 0 <= j < |recs|
        ensures FromListedFile(recs[j], names, chunkingType, extract, encode, decode)
      {
        if IsPdf(names[0]) {
          var chunks := Segment(chunkingType, extract(names[0]).value, encode, decode).value;
          assert recs == FileRecords(names[0], chunks) + rest;
          if j < |chunks| {
            assert recs[j] == ChunkRecord(chunks[j], Metadata(names[0], j));
          } else {
            assert recs[j] == rest[j - |chunks|];
            FromListedTail(rest[j - |chunks|], names, chunkingType, extract, encode, decode);
          }
        } else {
          FromListedTail(rest[j], names, chunkingType, extract, encode, decode);
        }
      }
    }
  }

  lemma FromListedTail(rec: ChunkRecord, names: seq<string>, chunkingType: string,
                       extract: string -> Option<string>,
                       encode: string -> seq<int>, decode: seq<int> -> string)
    requires names != []
    requires FromListedFile(rec, names[1..], chunkingType, extract, encode, decode)
    ensures FromListedFile(rec, names, chunkingType, extract, encode, decode)
  {
    assert names == [names[0]] + names[1..];
  }

  lemma NumberedRunsAppend(name: string, chunks: seq<string>, rest: seq<ChunkRecord>)
    requires NumberedRuns(rest)
    ensures NumberedRuns(FileRecords(name, chunks) + rest)
  {
    var recs := FileRecords(name, chunks) + rest;
    forall j | 0 <= j < |recs| && recs[j].metadata.chunkIndex > 0
      ensures j > 0
      ensures recs[j - 1].metadata.title == recs[j].metadata.title
      ensures recs[j - 1].metadata.chunkIndex + 1 == recs[j].metadata.chunkIndex
    {
      if j >= |chunks| {
        assert recs[j] == rest[j - |chunks|];
        assert j - |chunks| > 0;
        assert recs[j - 1] == rest[j - 1 - |chunks|];
      }
    }
  }

  lemma NumberedOnwardAppend(name: string, chunks: seq<string>, rest: seq<ChunkRecord>, count: string -> nat)
    requires count(name) == |chunks|
    requires NumberedOnward(rest, count)
    ensures NumberedOnward(FileRecords(name, chunks) + rest, count)
  {
    var recs := FileRecords(name, chunks) + rest;
    forall j | 0 <= j < |recs| && recs[j].metadata.chunkIndex + 1 < count(recs[j].metadata.title)
      ensures j + 1 < |recs|
      ensures recs[j + 1].metadata == Metadata(recs[j].metadata.title, recs[j].metadata.chunkIndex + 1)
    {
      if j >= |chunks| {
        var k := j - |chunks|;
        assert recs[j] == rest[k];
        assert recs[j + 1] == rest[k + 1];
      } else {
        assert recs[j].metadata == Metadata(name, j);
        assert recs[j + 1] == ChunkRecord(chunks[j + 1], Metadata(name, j + 1));
      }
    }
  }

  /**
   * Chunk indices restart at 0 for every file and go up by one within a
   * file, through to the file's last chunk.
   */
  lemma {:induction false} IngestNumbering(names: seq<string>, chunkingType: string,
                                           extract: string -> Option<string>,
                                           encode: string -> seq<int>, decode: seq<int> -> string)
    requires Ingest(names, chunkingType, extract, encode, decode).Ok?
    ensures NumberedRuns(Ingest(names, chunkingType, extract, encode, decode).value)
    ensures NumberedOnward(Ingest(names, chunkingType, extract, encode, decode).value,
                           name => FileChunkCount(name, chunkingType, extract, encode, decode))
    decreases |names|
  {
    if names != [] {
      IngestNumbering(names[1..], chunkingType, extract, encode, decode);
      if IsPdf(names[0]) {
        var chunks := Segment(chunkingType, extract(names[0]).value, encode, decode).value;
        var rest := Ingest(names[1..], chunkingType, extract, encode, decode).value;
        NumberedRunsAppend(names[0], chunks, rest);
        NumberedOnwardAppend(names[0], chunks, rest,
                             name => FileChunkCount(name, chunkingType, extract, encode, decode));
      }
    }
  }

  /** The number of records is the sum of the per-file chunk counts. */
  lemma {:induction false} IngestCount(names: seq<string>, chunkingType: string,
                                       extract: string -> Option<string>,
                                       encode: string -> seq<int>, decode: seq<int> -> string)
    requires Ingest(names, chunkingType, extract, encode, decode).Ok?
    ensures |Ingest(names, chunkingType, extract, encode, decode).value|
            == TotalChunkCount(names, chunkingType, extract, encode, decode)
    decreases |names|
  {
    if names != [] {
      IngestCount(names[1..], chunkingType, extract, encode, decode);
    }
  }
}
