/** The exceptions the tree throws, as values, and the nullable key. */
module Errors {

  /** One constructor per exception class of the source. */
  datatype Error =
    | NullKey                // NullKeyException
    | ElementAlreadyExists   // ElementWithSuchKeyAlreadyExistsException
    | ElementDoesNotExist    // ElementWithSuchKeyDoesNotExistException
    | ImpossibleBinaryTree   // ImpossibleBinaryTreeException
    | NoSuchElement          // java.util.NoSuchElementException
    | NullPointer            // java.lang.NullPointerException raised by a null dereference

  /** A Java key that may be `null`. */
  datatype Option<T> = None | Some(value: T)

  /** A call either returns normally with a value or throws. */
  datatype Result<T> = Ok(value: T) | Fail(error: Error)
}
