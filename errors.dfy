/** The ways one run of the posting job can fail, and the wrappers that carry them.
    Every error aborts the run; none is retried inside it. */
module Errors {

  datatype Error =
    | NotAscii        // a text that is not pure ASCII reached `encode('ascii')` or `decode('ascii')`
    | InvalidBase64   // the Base64 decoder rejected its input
    | EmptyPool       // `random.choice` on an empty candidate list
    | EmptySample     // `random.choice` over the empty list of minimal indices left by an empty sample

  datatype Result<T> = Ok(value: T) | Err(error: Error)

  datatype Option<T> = None | Some(value: T)

  datatype Outcome = Pass | Fail(error: Error)
}
