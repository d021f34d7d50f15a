/** Outcomes of the weight extractor.  Every way the Java program can stop
    early (an exception or `System.exit(1)`) is one constructor of `Error`. */
module Failures {

  datatype Option<+T> = None | Some(value: T)

  datatype Error =
    | MissingDocument(doc: int)                // searcher.doc(k) with k outside the index
    | NoToken(doc: int)                        // split("\\s") of a header line gave no element 0
    | NotAnInteger(text: string)               // Integer.valueOf rejected the text
    | AmbiguousMatch(query: string, hits: nat) // exact-term query with zero or several hits
    | MalformedWeight(doc: int, text: string)  // Double.valueOf rejected a weight line

  datatype Result<+T> = Ok(value: T) | Err(error: Error) {

    predicate IsFailure() {
      Err?
    }

    function PropagateFailure<U>(): Result<U>
      requires Err?
    {
      Err(error)
    }

    function Extract(): T
      requires Ok?
    {
      value
    }
  }
}
