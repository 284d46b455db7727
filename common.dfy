/** Failure-carrying values shared by the unpacker and the scraper models. */
module Common {

  datatype Option<T> = None | Some(value: T)

  /** The outcome of an operation that the Python code either returns from or raises out of. */
  datatype Result<T, E> = Ok(value: T) | Err(error: E)

  /** Concatenation regroups freely. */
  lemma AppendAssociative<T>(a: seq<T>, b: seq<T>, c: seq<T>)
    ensures a + b + c == a + (b + c)
  {
  }
}
