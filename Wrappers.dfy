/** Shared vocabulary for the two containers: a C# reference that may be
    null, the one error the containers raise, and the outcome of a call
    that may raise it. */
module Wrappers {

  /** A value that may be absent: a C# reference of a class type (`null` or
      an object), or an optional failure. */
  datatype Nullable<+T> = Null | NonNull(obj: T)

  /** The only failure the containers raise: `ArgumentNullException`,
      carrying the parameter name the source passes with `nameof`. */
  datatype Error = ArgumentNull(paramName: string)

  /** The outcome of a call that either returns normally or throws. */
  datatype Result<+T> = Ok(value: T) | Err(error: Error)

  /** `Action<X>`: a callback whose only observable trait here is the
      argument it is invoked with (its own side effects are not modelled). */
  type Action<-X> = X -> ()
}
