/** Failure values standing in for the exceptions the loader and the
    identifier derivation throw. */
module Results {

  datatype Option<+T> = None | Some(value: T)

  datatype Error =
    | NoGrammar          // the document root is not a no-namespace `grammar` element
    | NoStart            // the grammar has no `start` child
    | DefineWithoutName  // a `define` child has no `name` attribute
    | EmptyName          // an identifier was derived from the empty string

  datatype Result<+T> = Success(value: T) | Failure(error: Error)
}
