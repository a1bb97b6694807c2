/** Optional values and success-or-error results, used for the route a
    redirect decision chooses and for the outcome of form validation. */
module Wrappers {

  datatype Option<+T> = None | Some(value: T)

  datatype Result<+R, +E> = Success(value: R) | Failure(error: E)
}
