/** Option and Result values standing for Java's null and thrown exceptions. */
module Wrappers {

  datatype Option<+T> = None | Some(value: T)

  /** The Java exceptions the modelled code can raise. */
  datatype Thrown =
    | NullPointer            // a method called on a null reference
    | IndexOutOfBounds       // List.get/remove/add or an array access outside the bounds
    | NoSuchElement          // getFirst/getLast/removeFirst/removeLast on an empty list
    | NumberFormat           // Integer.parseInt on a malformed string
    | IllegalArgument        // an explicit `throw new IllegalArgumentException(...)`

  datatype Result<+T> = Ok(value: T) | Err(error: Thrown)
}
