/**
 * Outcomes shared by the ingestion and embedding stages: an optional value for
 * the external collaborators (a PDF that cannot be read, an embedding request
 * that fails) and a result type for the Python exceptions the pipeline raises.
 */
module Errors {

  datatype Option<+T> = None | Some(value: T)

  /** The exceptions the pipeline can raise, one constructor per cause. */
  datatype Error =
    | RangeStepZero                        // `range(0, n, 0)` raises ValueError
    | InvalidChunkingType(name: string)    // the `case _` branch of the strategy dispatch
    | ExtractionError(fileName: string)    // the PDF reader failed on this file
    | EmbeddingError(content: string)      // the embedding service failed on this text

  datatype Result<+T> = Ok(value: T) | Err(error: Error)

  /** `acc` followed by the elements of a successful result; an error passes through. */
  function Prepend<T>(acc: seq<T>, r: Result<seq<T>>): Result<seq<T>> {
    match r
    case Ok(rest) => Ok(acc + rest)
    case Err(e) => Err(e)
  }

  lemma PrependAssoc<T>(a: seq<T>, b: seq<T>, r: Result<seq<T>>)
    ensures Prepend(a, Prepend(b, r)) == Prepend(a + b, r)
  {
    if r.Ok? {
      assert a + (b + r.value) == (a + b) + r.value;
    }
  }

  lemma PrependNothing<T>(r: Result<seq<T>>)
    ensures Prepend([], r) == r
  {
    if r.Ok? {
      assert [] + r.value == r.value;
    }
  }
}
