/** Option and Result: a Java `null` and a thrown exception, made explicit. */
module Wrappers {

  datatype Option<T> = None | Some(value: T)

  datatype Result<T, E> = Ok(value: T) | Err(error: E)

}

/** The Java exceptions the core throws or lets through. */
module Exceptions {

  datatype Error =
    | RepositoryException(detail: string)
    | NullPointerException
    | ArrayIndexOutOfBoundsException
    | ClassCastException
    | IllegalStateException(cause: Error)

}
