/** The exceptions the cores can raise, and the result types that carry them. */
module Errors {

  /** A C++ exception that ends the operation. */
  datatype Failure =
    | OutOfRange(key: string)        // `std::map::at` on a key that is not in the map
    | BadVariantAccess(key: string)  // `std::get` on the other alternative of a node
    | RuntimeError(what: string)     // `throw std::runtime_error(what)`

  datatype Option<T> = None | Some(value: T)

  datatype Result<T> = Ok(value: T) | Err(error: Failure)
}
