/** Completion values shared by both storage adapters.

    Every storage operation in the modelled library completes through a
    Node-style callback `cb(err, value)`.  Here a completion is a value: the
    error taxonomy has four kinds, and a substrate failure of any sort is the
    single opaque `IOFailure`. */
module Outcomes {

  datatype Error =
    | NotFound        // target absent when it is required to exist
    | IOFailure       // any other substrate-level error (type mismatch, refused move, ...)
    | NotInitialized  // no root bound and no default root available
    | NotAFunction    // a call through a property the storage object lacks (a thrown TypeError)

  datatype Result<+T> = Ok(value: T) | Err(error: Error)

  datatype Option<+T> = None | Some(value: T)
}
