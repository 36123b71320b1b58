/** The optional-value and result datatypes used for the source's null
    returns and exceptions, and one sequence fact shared by every module. */
module Wrappers {

  datatype Option<+T> = None | Some(value: T)

  datatype Result<+T, +E> = Ok(value: T) | Err(error: E)

  /** Concatenation regroups freely; called where a proof would otherwise
      compare large sequences element by element. */
  lemma AppendAssociative<T>(a: seq<T>, b: seq<T>, c: seq<T>)
    ensures a + b + c == a + (b + c)
  {
  }
}
