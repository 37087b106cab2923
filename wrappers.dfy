/** Option values and the replies of collaborators that may raise. */
module Wrappers {

  datatype Option<+T> = None | Some(value: T)

  /**
   * What a call that can raise produced: the value it returned, or the fact
   * that an exception escaped from it.
   */
  datatype Reply<+T> = Returned(value: T) | Raised
}
