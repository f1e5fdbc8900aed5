/** Failure-carrying values shared by every module of the model.

    Python raises; the model returns. `Effect` pairs an outcome with the state
    the operation leaves behind, because in the source a side effect performed
    before an exception (a `_seen.add`, a cached `_ref`) survives the exception.
 */
module Wrappers {

  datatype Option<+T> = None | Some(value: T)

  /** The exceptions the modelled code can raise. */
  datatype Error =
    | TypeError(what: string)   // unsupported type, or `x in y` on an object that is not a container
    | KeyError(key: string)     // `dict[key]` on a missing key
    | IndexError                // `[...][0]` on an empty list
    | RecursionLimit            // unbounded recursion through a cyclic namespace nesting

  datatype Result<+T> = Ok(value: T) | Err(error: Error) {

    predicate IsFailure() {
      Err?
    }

    function PropagateFailure<U>(): Result<U>
      requires Err?
    {
      Err(error)
    }

    function Extract(): T
      requires Ok?
    {
      value
    }
  }

  /** An outcome together with the state left behind, whether or not it failed. */
  datatype Effect<+T, +S> = Effect(result: Result<T>, state: S)
}
