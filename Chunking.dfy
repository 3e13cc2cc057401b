/**
 * The two segmentation strategies of the ingestion stage:
 * `chunk_text_by_words` (groups of `chunk_size` whitespace-separated words,
 * each re-joined with single spaces) and `chunk_text_by_tokens` (windows of
 * `chunk_size` token ids at a stride of `chunk_size - chunk_overlap`, each
 * decoded back to text). The tokenizer's `encode` and `decode` are parameters:
 * nothing is assumed about them.
 */
module Chunking {
  import opened Errors
  import opened Words
  import opened Windowing

  /**
   * The word chunker's result: one space-joined group per window of words.
   * A step of zero is `range`'s ValueError; a negative step is an empty
   * `range`, hence no chunks at all.
   */
  function WordChunks(text: string, chunkSize: int): Result<seq<string>> {
    if chunkSize == 0 then Err(RangeStepZero)
    else if chunkSize < 0 then Ok([])
    else
      var groups := Windows(Split(text), chunkSize, chunkSize);
      Ok(seq(|groups|, k requires 0 <= k < |groups| => Join(groups[k])))
  }

  /**
   * The token chunker's result. A stride of zero is `range`'s ValueError; a
   * negative stride is an empty `range`, hence no chunks at all.
   */
  function TokenChunks(text: string, chunkSize: nat, chunkOverlap: int,
                       encode: string -> seq<int>, decode: seq<int> -> string): Result<seq<string>>
  {
    var stride := chunkSize - chunkOverlap;
    if stride == 0 then Err(RangeStepZero)
    else if stride < 0 then Ok([])
    else Ok(DecodedWindows(encode(text), chunkSize, stride, decode))
  }

  /** Each token window decoded back to text. */
  function DecodedWindows(tokens: seq<int>, chunkSize: nat, stride: nat,
                          decode: seq<int> -> string): seq<string>
    requires stride > 0
  {
    var windows := Windows(tokens, chunkSize, stride);
    seq(|windows|, k requires 0 <= k < |windows| => decode(windows[k]))
  }

  /** `chunk_text_by_words`: loop over `range(0, len(words), chunk_size)`. */
  method ChunkTextByWords(text: string, chunkSize: int) returns (r: Result<seq<string>>)
    ensures r == WordChunks(text, chunkSize)
  {
    var words := Split(text);
    if chunkSize == 0 {
      return Err(RangeStepZero);
    }
    var chunks: seq<string> := [];
    if chunkSize < 0 {
      return Ok(chunks);
    }
    ghost var groups := Windows(words, chunkSize, chunkSize);
    var i := 0;
    while i < |words|
      invariant i == |chunks| * chunkSize
      invariant |chunks| <= |groups|
      invariant forall k :: 0 <= k < |chunks| ==> chunks[k] == Join(groups[k])
    {
      WindowIndexIff(words, chunkSize, chunkSize, |chunks|);
      WindowAt(words, chunkSize, chunkSize, |chunks|);
      MulSucc(|chunks|, chunkSize);
      chunks := chunks + [Join(words[i..Min(i + chunkSize, |words|)])];
      i := i + chunkSize;
    }
    WindowIndexIff(words, chunkSize, chunkSize, |chunks|);
    assert chunks == seq(|groups|, k requires 0 <= k < |groups| => Join(groups[k]));
    return Ok(chunks);
  }

  /** `chunk_text_by_tokens`: loop over `range(0, len(tokens), chunk_size - chunk_overlap)`. */
  method ChunkTextByTokens(text: string, chunkSize: nat, chunkOverlap: int,
                           encode: string -> seq<int>, decode: seq<int> -> string)
    returns (r: Result<seq<string>>)
    ensures r == TokenChunks(text, chunkSize, chunkOverlap, encode, decode)
  {
    var tokens := encode(text);
    var stride := chunkSize - chunkOverlap;
    if stride == 0 {
      return Err(RangeStepZero);
    }
    var chunks: seq<string> := [];
    if stride > 0 {
      ghost var windows := Windows(tokens, chunkSize, stride);
      var i := 0;
      while i < |tokens|
        invariant i == |chunks| * stride
        invariant |chunks| <= |windows|
        invariant forall k :: 0 <= k < |chunks| ==> chunks[k] == decode(windows[k])
      {
        WindowIndexIff(tokens, chunkSize, stride, |chunks|);
        WindowAt(tokens, chunkSize, stride, |chunks|);
        MulSucc(|chunks|, stride);
        chunks := chunks + [decode(tokens[i..Min(i + chunkSize, |tokens|)])];
        i := i + stride;
      }
      WindowIndexIff(tokens, chunkSize, stride, |chunks|);
      assert chunks == DecodedWindows(tokens, chunkSize, stride, decode);
    }
    return Ok(chunks);
  }

  /**
   * Word chunk count: no chunks for text without a non-whitespace character,
   * otherwise ceil(W / chunk_size) chunks for W words.
   */
  lemma WordChunksCount(text: string, chunkSize: nat)
    requires chunkSize > 0
    ensures WordChunks(text, chunkSize).Ok?
    ensures |WordChunks(text, chunkSize).value| == CeilDiv(|Split(text)|, chunkSize)
    ensures WordChunks(text, chunkSize).value == [] <==> forall i :: 0 <= i < |text| ==> IsSpace(text[i])
  {
    WindowsCount(Split(text), chunkSize, chunkSize);
  }

  /**
   * Word chunk sizes: each chunk splits back into exactly `chunk_size` words,
   * except the last, which holds between 1 and `chunk_size` words; chunk k is
   * words k*chunk_size onwards.
   */
  lemma WordChunkSizes(text: string, chunkSize: nat, k: nat)
    requires chunkSize > 0
    requires k < |WordChunks(text, chunkSize).value|
    ensures k * chunkSize < |Split(text)|
    ensures var chunks := WordChunks(text, chunkSize).value;
            var words := Split(text);
            && Split(chunks[k]) == words[k * chunkSize .. Min(k * chunkSize + chunkSize, |words|)]
            && 1 <= |Split(chunks[k])| <= chunkSize
            && (k + 1 < |chunks| ==> |Split(chunks[k])| == chunkSize)
  {
    var words := Split(text);
    ChunkResplits(text, chunkSize, k);
    WindowAt(words, chunkSize, chunkSize, k);
    PartitionSizes(words, chunkSize, k);
  }

  /** Chunk k, split again, is word group k of the text. */
  lemma ChunkResplits(text: string, chunkSize: nat, k: nat)
    requires chunkSize > 0
    requires k < |WordChunks(text, chunkSize).value|
    ensures k < |Windows(Split(text), chunkSize, chunkSize)|
    ensures Split(WordChunks(text, chunkSize).value[k]) == Windows(Split(text), chunkSize, chunkSize)[k]
  {
    var words := Split(text);
    var groups := Windows(words, chunkSize, chunkSize);
    assert WordChunks(text, chunkSize).value[k] == Join(groups[k]);
    WindowAt(words, chunkSize, chunkSize, k);
    SplitWords(text);
    SplitJoinSlice(words, k * chunkSize, Min(k * chunkSize + chunkSize, |words|));
  }

  /** Any run of consecutive words of a split survives join-then-split. */
  lemma SplitJoinSlice(words: seq<string>, lo: nat, hi: nat)
    requires forall i :: 0 <= i < |words| ==> IsWord(words[i])
    requires lo <= hi <= |words|
    ensures Split(Join(words[lo..hi])) == words[lo..hi]
  {
    assert forall j :: 0 <= j < hi - lo ==> words[lo..hi][j] == words[lo + j];
    SplitJoin(words[lo..hi]);
  }

  /**
   * Word chunk round trip: splitting every chunk and concatenating the
   * results reproduces `text.split()` exactly, in order.
   */
  lemma WordChunksRoundTrip(text: string, chunkSize: nat)
    requires chunkSize > 0
    ensures var chunks := WordChunks(text, chunkSize).value;
            Flatten(seq(|chunks|, k requires 0 <= k < |chunks| => Split(chunks[k]))) == Split(text)
  {
    var words := Split(text);
    var groups := Windows(words, chunkSize, chunkSize);
    var chunks := WordChunks(text, chunkSize).value;
    var resplit := seq(|chunks|, k requires 0 <= k < |chunks| => Split(chunks[k]));
    forall k | 0 <= k < |groups|
      ensures resplit[k] == groups[k]
    {
      ChunkResplits(text, chunkSize, k);
    }
    assert resplit == groups;
    PartitionFlatten(words, chunkSize);
  }

  /**
   * Token chunk count, for chunk_size > chunk_overlap >= 0: the chunks are
   * the decoded windows of the tokens at stride s = chunk_size - chunk_overlap,
   * and there are ceil(n / s) of them for n tokens, hence none for no tokens.
   */
  lemma TokenChunksCount(text: string, chunkSize: nat, chunkOverlap: int,
                         encode: string -> seq<int>, decode: seq<int> -> string)
    requires chunkSize > chunkOverlap >= 0
    ensures TokenChunks(text, chunkSize, chunkOverlap, encode, decode)
            == Ok(DecodedWindows(encode(text), chunkSize, chunkSize - chunkOverlap, decode))
    ensures |DecodedWindows(encode(text), chunkSize, chunkSize - chunkOverlap, decode)|
            == CeilDiv(|encode(text)|, chunkSize - chunkOverlap)
  {
    WindowsCount(encode(text), chunkSize, chunkSize - chunkOverlap);
  }

  /**
   * Token chunk k, for stride s with 0 < s <= chunk_size: the decoding of
   * `tokens[k*s : k*s+chunk_size]`, a slice that starts inside the tokens,
   * is non-empty and holds at most `chunk_size` tokens.
   */
  lemma TokenChunkAt(tokens: seq<int>, chunkSize: nat, stride: nat,
                     decode: seq<int> -> string, k: nat)
    requires 0 < stride <= chunkSize
    requires k < |DecodedWindows(tokens, chunkSize, stride, decode)|
    ensures var start := k * stride;
            var end := Min(start + chunkSize, |tokens|);
            && start < end <= |tokens|
            && end - start <= chunkSize
            && DecodedWindows(tokens, chunkSize, stride, decode)[k] == decode(tokens[start..end])
  {
    WindowAt(tokens, chunkSize, stride, k);
  }

  /**
   * The stride guard the code does not have: overlap equal to the size is
   * `range`'s ValueError, overlap above the size silently gives no chunks.
   */
  lemma TokenChunksStride(text: string, chunkSize: nat, chunkOverlap: int,
                          encode: string -> seq<int>, decode: seq<int> -> string)
    ensures var r := TokenChunks(text, chunkSize, chunkOverlap, encode, decode);
            && (r.Err? <==> chunkOverlap == chunkSize)
            && (r.Err? ==> r.error == RangeStepZero)
            && (chunkOverlap > chunkSize ==> r == Ok([]))
  {
  }

  /**
   * The word chunker's step: a size of zero is `range`'s ValueError, a
   * negative size silently gives no chunks.
   */
  lemma WordChunksStep(text: string, chunkSize: int)
    ensures var r := WordChunks(text, chunkSize);
            && (r.Err? <==> chunkSize == 0)
            && (r.Err? ==> r.error == RangeStepZero)
            && (chunkSize < 0 ==> r == Ok([]))
  {
  }

  /**
   * Token overlap, before decoding: when window k is full and the overlap is
   * positive, window k+1 exists and starts with the last `chunk_overlap`
   * tokens of window k.
   */
  lemma TokenWindowOverlap(tokens: seq<int>, chunkSize: nat, chunkOverlap: nat, k: nat)
    requires chunkSize > chunkOverlap > 0
    requires k * (chunkSize - chunkOverlap) + chunkSize <= |tokens|
    ensures var windows := Windows(tokens, chunkSize, chunkSize - chunkOverlap);
            && k + 1 < |windows|
            && |windows[k]| == chunkSize
            && |windows[k + 1]| >= chunkOverlap
            && windows[k + 1][..chunkOverlap] == windows[k][chunkSize - chunkOverlap..]
  {
    WindowOverlap(tokens, chunkSize, chunkSize - chunkOverlap, k);
  }

  /**
   * With the defaults (500 tokens, overlap 50) a 500-token text gives two
   * windows, [0, 500) and [450, 500): the second lies inside the first.
   */
  lemma DefaultTrailingWindow(tokens: seq<int>)
    requires |tokens| == 500
    ensures Windows(tokens, 500, 450) == [tokens, tokens[450..]]
  {
    WindowsCount(tokens, 500, 450);
    assert CeilDiv(500, 450) == 2;
    WindowAt(tokens, 500, 450, 0);
    WindowAt(tokens, 500, 450, 1);
    assert tokens[0..500] == tokens;
  }

  /**
   * Five words chunked in groups of two give two pairs and a single word,
   * as for "one two three four five".
   */
  lemma WordChunksOfFive(a: string, b: string, c: string, d: string, e: string)
    requires IsWord(a) && IsWord(b) && IsWord(c) && IsWord(d) && IsWord(e)
    ensures WordChunks(Join([a, b, c, d, e]), 2) == Ok([a + " " + b, c + " " + d, e])
  {
    var words := [a, b, c, d, e];
    SplitJoin(words);
    PairsOfFive(a, b, c, d, e);
    JoinGroups(a, b, c, d, e);
  }

  lemma JoinGroups(a: string, b: string, c: string, d: string, e: string)
    ensures var groups := [[a, b], [c, d], [e]];
            seq(|groups|, k requires 0 <= k < |groups| => Join(groups[k]))
              == [a + " " + b, c + " " + d, e]
  {
    assert [a, b][1..] == [b] && [c, d][1..] == [d];
    assert Join([a, b]) == a + " " + b;
    assert Join([c, d]) == c + " " + d;
    assert Join([e]) == e;
  }

  lemma PairsOfFive<T>(a: T, b: T, c: T, d: T, e: T)
    ensures Windows([a, b, c, d, e], 2, 2) == [[a, b], [c, d], [e]]
  {
    var s := [a, b, c, d, e];
    var groups := Windows(s, 2, 2);
    WindowsCount(s, 2, 2);
    assert CeilDiv(5, 2) == 3;
    WindowAt(s, 2, 2, 0);
    WindowAt(s, 2, 2, 1);
    WindowAt(s, 2, 2, 2);
    assert groups[0] == [a, b] && groups[1] == [c, d] && groups[2] == [e];
  }
}
