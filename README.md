# Chunking and embedding pipeline of a PDF retrieval system

This project models the core of a retrieval pipeline's ingestion stage.
The pipeline lists a data directory and picks the `.pdf` files. For each
one it extracts the text and cuts the text into chunks, using one of two
strategies. Each chunk becomes a record `{content, metadata: {title,
chunk index}}`. The embedding stage then sends each record's content to
an embedding service and attaches the returned vector.

- `Errors.dfy`: `Option`, `Result`, and the exceptions the core can raise:
  - `RangeStepZero` is `range()`'s ValueError for a zero step.
  - `InvalidChunkingType` is the dispatch's ValueError.
  - `ExtractionError` is a PDF reader failure.
  - `EmbeddingError` is a failed service call.
- `Words.dfy`: Python's `str.split()` with no separator and `" ".join(...)`.
  Whitespace is the set of characters for which `str.isspace()` holds.
- `Windowing.dfy`: `Windows(s, size, stride)`. It is the list
  `[s[i:i+size] for i in range(0, len(s), stride)]`, written as a recursive
  function. The lemmas give its length, each element, and how consecutive
  windows overlap or partition the input.
- `Chunking.dfy`: `chunk_text_by_words` and `chunk_text_by_tokens`.
  - Each is a method with the source's loop.
  - Each method is proved equal to a reference function: `WordChunks` or
    `TokenChunks`.
  - The properties of the chunkers are proved as lemmas about those
    functions.
- `Ingestion.dfy`: `ingest_pdfs`. It is a method with the source's two
  nested loops, proved equal to the recursive reference `Ingest`. The
  lemmas cover:
  - filtering;
  - the order of the listing;
  - which error a failing walk raises;
  - where each record comes from;
  - per-file numbering;
  - record counts.
- `Embeddings.dfy`: `embed_chunks`. It is a method with the source's loop,
  proved equal to the recursive reference `EmbedAll`. The method also keeps
  a ghost record of the texts it sent to the service, in order, so its
  contract can state the call sequence. The ghost record is not part of its
  output.

Calls into code outside the core are parameters of the model:
- the directory listing is a `seq<string>` in enumeration order;
- the PDF reader is `extract: string -> Option<string>`, where `None` means
  the reader raised;
- the tokenizer is `encode: string -> seq<int>` and
  `decode: seq<int> -> string`;
- the embedding call is `generate: string -> Option<seq<real>>`, where
  `None` means the request raised.

Nothing is assumed about these functions, except where a lemma states it
in its `requires`.

In some places the code and the stated design of the system differ. The
model follows the code:
- An overlap equal to the chunk size is not rejected as a configuration
  error. When `chunk_text_by_tokens` is called directly with such values, it
  first encodes the text (src/ingestion.py:42). Then `range()` is given a
  step of 0 and raises ValueError (src/ingestion.py:45; `TokenChunksStride`).
  `ingest_pdfs` itself always passes the defaults 500 and 50, so a file's
  text never reaches a zero stride.
- An overlap larger than the chunk size is not an error either. The stride is
  negative, the range is empty, and the text gives no chunks
  (`TokenChunksStride`).
- An unknown chunking type is not rejected before processing. It raises
  only when a `.pdf` name is reached, and only after that file's text has
  been extracted (`InvalidChunkingTypeRaises`). With no PDF in the
  listing it raises nothing (`IngestNoPdf`).
- The dispatch always calls the chunkers with their defaults (500, and
  overlap 50). The configured size is not passed through.

## Model

| member | source | states |
|---|---|---|
| Words.Split | src/ingestion.py:32 | the definition of `text.split()`: skip a run of whitespace, take the following maximal run of non-whitespace as a word, and repeat; its properties are the next four rows |
| Words.Join | src/ingestion.py:35 | the definition of `" ".join(words)`: the words with one space between neighbours; `SplitJoin` is its inverse property |
| Words.SplitWords | src/ingestion.py:32 | every piece `text.split()` returns is non-empty and contains no whitespace |
| Words.SplitEmptyIff | src/ingestion.py:32 | `text.split()` is empty exactly when every character of the text is whitespace |
| Words.SplitKeepsNonSpace | src/ingestion.py:32 | the words, concatenated, are exactly the text's non-whitespace characters in their original order |
| Words.SplitJoin | src/ingestion.py:32-35 | splitting `" ".join(words)` gives back `words` when every element is a word |
| Windowing.Windows | src/ingestion.py:34-35 | the definition of `[s[i:i+size] for i in range(0, len(s), stride)]` (with stride == size for the word chunker, and likewise at src/ingestion.py:45-46 for the token chunker); its properties are the next rows |
| Windowing.WindowIndexIff | src/ingestion.py:45 | window k exists exactly when k*stride < len(s), as for `range(0, len(s), stride)` |
| Windowing.WindowAt | src/ingestion.py:45-46 | window k starts inside the sequence and is `s[k*stride : k*stride+size]`, clipped to the sequence's length |
| Windowing.WindowsCount | src/ingestion.py:45 | there are ceil(len(s) / stride) windows |
| Windowing.WindowBounds | src/ingestion.py:46 | every window is non-empty and holds at most `size` elements |
| Windowing.WindowStarts | src/ingestion.py:45 | window starts strictly increase and all lie inside the sequence |
| Windowing.PartitionFlatten | src/ingestion.py:34-35 | with stride == size, the groups concatenated reproduce the sequence exactly: nothing is lost or repeated |
| Windowing.PartitionSizes | src/ingestion.py:34-35 | with stride == size, every group except the last is full, and the last holds between 1 and size elements |
| Windowing.WindowOverlap | src/ingestion.py:45-46 | when window k is full and stride < size, window k+1 exists and starts with the last size-stride elements of window k |
| Windowing.TrailingWindowInside | src/ingestion.py:45-46 | when window k already reaches the end, the next window is its suffix from `stride` onwards |
| Chunking.ChunkTextByWords | src/ingestion.py:29-37 | the loop's result is `WordChunks`: the space-joined consecutive groups of `chunk_size` words; a ValueError for size 0; no chunks for a negative size, because the range is empty |
| Chunking.ChunkTextByTokens | src/ingestion.py:39-49 | the loop's result is `TokenChunks`: the decoded windows of `encode(text)` at stride `chunk_size - chunk_overlap`; ValueError for stride 0; no chunks for a negative stride |
| Chunking.WordChunksCount | src/ingestion.py:32-36 | word chunking succeeds and gives ceil(W / chunk_size) chunks for W words, and none exactly when the text is all whitespace |
| Chunking.WordChunkSizes | src/ingestion.py:34-35 | chunk k splits back into words k*size up to (k+1)*size; every chunk but the last has exactly chunk_size words, and the last has 1 to chunk_size |
| Chunking.ChunkResplits | src/ingestion.py:35 | splitting chunk k again gives exactly word group k |
| Chunking.WordChunksRoundTrip | src/ingestion.py:32-36 | splitting every chunk and concatenating the results reproduces `text.split()` in order |
| Chunking.WordChunksOfFive | src/ingestion.py:32-36 | five words in chunks of 2 give "a b", "c d", "e" |
| Chunking.TokenChunksCount | src/ingestion.py:42-48 | for chunk_size > overlap >= 0 the chunks are the decoded windows, ceil(n / stride) of them for n tokens (none for no tokens) |
| Chunking.TokenChunkAt | src/ingestion.py:45-47 | chunk k is `decode(tokens[k*s : k*s+chunk_size])`, a non-empty slice of at most chunk_size tokens |
| Chunking.WordChunksStep | src/ingestion.py:34 | the word chunker raises exactly when chunk_size == 0, and a negative chunk_size gives no chunks |
| Chunking.TokenChunksStride | src/ingestion.py:45 | the call raises exactly when overlap == chunk_size, and an overlap above chunk_size gives no chunks |
| Chunking.TokenWindowOverlap | src/ingestion.py:45-46 | before decoding, window k+1 starts with the last `chunk_overlap` tokens of a full window k |
| Chunking.DefaultTrailingWindow | src/ingestion.py:45-46 | with the defaults 500 and 50, a 500-token text gives the windows [0,500) and [450,500) |
| Ingestion.IsPdf | src/ingestion.py:55 | the definition of `file_name.endswith(".pdf")`: case-sensitive, and the name must be at least four characters long; `IngestFilter` and `IngestNoPdf` state its effect on the walk |
| Ingestion.Segment | src/ingestion.py:61-67 | the dispatch fails exactly for a name other than "tokens" or "words", and then with InvalidChunkingType naming it |
| Ingestion.IngestPdfs | src/ingestion.py:51-77 | the nested loops compute `Ingest`: PDFs in listing order; extraction, dispatch, then one record per chunk; the first failure aborts |
| Ingestion.AppendFileRecords | src/ingestion.py:69-76 | the inner loop appends `{chunk k, {file name, k}}` for every chunk k, in order |
| Ingestion.IngestNoPdf | src/ingestion.py:54-55 | a listing with no ".pdf" name gives no records and no error, whatever the chunking type |
| Ingestion.IngestFilter | src/ingestion.py:54-55 | the result depends only on the ".pdf" names of the listing, in order |
| Ingestion.IngestAppend | src/ingestion.py:54-77 | the result for listing a+b is a's records followed by b's; an error in a stops before b |
| Ingestion.IngestSingleFile | src/ingestion.py:59-76 | a PDF processed without error yields exactly its chunks, numbered 0, 1, 2, … with its file name as title |
| Ingestion.EmptyPdfNoRecords | src/ingestion.py:59-76 | a PDF with empty extracted text gives no records and no error: for "words" always, and for "tokens" when the tokenizer encodes the empty text to no tokens |
| Ingestion.IngestFailsAtFirst | src/ingestion.py:59-67 | the first failing PDF decides the error: ExtractionError if its text cannot be read, else InvalidChunkingType |
| Ingestion.IngestSucceeds | src/ingestion.py:51-77 | when no PDF fails, the walk succeeds |
| Ingestion.InvalidChunkingTypeRaises | src/ingestion.py:61-67 | an unknown chunking type raises exactly when a ".pdf" name is listed; the first such file's extraction still runs first |
| Ingestion.IngestProvenance | src/ingestion.py:69-76 | every record is chunk `chunk index` of the text of the listed PDF named by its title |
| Ingestion.IngestNumbering | src/ingestion.py:69-76 | a record with a non-zero index directly follows the same file's record with the index one lower; a record that is not its file's last chunk is directly followed by the same file's record with the next index |
| Ingestion.IngestCount | src/ingestion.py:69-77 | the number of records is the sum of the files' chunk counts |
| Embeddings.EmbedChunks | src/embeddings.py:44-60 | the loop computes `EmbedAll`; a ghost trace of the requests shows the contents requested in input order, all of them on success, and nothing after the first failing request |
| Embeddings.EmbedAllPreserves | src/embeddings.py:48-58 | on success there is one output per input, in the same position, with the same content and metadata and the service's vector for that content |
| Embeddings.EmbedAllOkIff | src/embeddings.py:52 | the call succeeds exactly when every request succeeds |
| Embeddings.EmbedAllFailsAtFirst | src/embeddings.py:52 | the first failing request aborts the call with an error for that content and no partial list |

## Left out

- `extract_text_from_pdf` (src/ingestion.py:21-27) is part of the PDF reader, outside the core. The `extract` parameter stands for it.
- The tiktoken encoding and its `cl100k_base` tables are outside the core. They are the `encode`/`decode` parameters. No property of `decode(encode(text))` is assumed, so nothing is proved about overlap after chunks are re-encoded; `TokenWindowOverlap` states the overlap on token windows.
- `os.listdir` and `os.path.join` are outside the model. The listing is a parameter in enumeration order, so the model does not sort it and has no paths.
- The progress output (`print`, `tqdm`), the environment and client set-up in src/embeddings.py:13-31, and both `__main__` blocks are I/O, not modelled.
- `generate_embedding` (src/embeddings.py:36-42) is a network call. It is the `generate` parameter, a deterministic function per content. Vector values and their dimensionality are never inspected (floating point).
- ChunkTextByTokens: `chunk_size` is a `nat`; `chunk_overlap` is any integer. A negative chunk_size with a positive stride would slice `tokens[i:i+chunk_size]` with a negative end bound, which Python counts from the end of the list. That case is not modelled. The source only ever passes 500.
- `encode` is a total function. tiktoken's `encode` raises ValueError by default when the text contains a special-token string such as `<|endoftext|>`. The model cannot represent that failure, for either `ChunkTextByTokens` or the "tokens" path of `ingest_pdfs`.
- `str.isspace()` is modelled on code points; Unicode database updates beyond the listed whitespace characters are not tracked.
