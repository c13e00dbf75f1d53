/** Optional values, the exceptions the tokenizer can raise, and a failure-compatible result. */
module Results {

  datatype Option<T> = None | Some(value: T)

  /** The .NET exceptions that the modelled code can raise. */
  datatype Error =
    | KeyNotFound(key: string)   // Dictionary indexer on a missing key
    | ArgumentOutOfRange         // negative Enumerable.Repeat count, or List indexer out of bounds

  datatype Result<T> = Ok(value: T) | Err(error: Error) {
    predicate IsFailure() { Err? }

    function PropagateFailure<U>(): Result<U>
      requires Err?
    {
      Err(error)
    }

    function Extract(): T
      requires Ok?
    {
      value
    }
  }
}
