/** How a step of the interpreter can end. */
module Outcomes {

  datatype Option<T> = None | Some(value: T)

  /** `Ok` carries a value. `Fatal` is the interpreter's own `error()`
      handler, which saves the modification-time cache before exiting with
      status 1. `Crash` is an uncaught Python exception (a failed unpack, a
      missing dictionary key, a regex that did not match): the process dies
      without writing any cache. `Unmodelled` marks a builtin this model
      leaves out (`wildcard$`, `gt$`, `lt$`, `gte$`, `lte$`). */
  datatype Res<T> = Ok(value: T) | Fatal(message: string) | Crash(reason: string) | Unmodelled(what: string)
  {
    predicate IsFailure() { !Ok? }

    function PropagateFailure<U>(): (r: Res<U>)
      requires !Ok?
      ensures !r.Ok?
    {
      match this
      case Fatal(m) => Fatal(m)
      case Crash(c) => Crash(c)
      case Unmodelled(w) => Unmodelled(w)
    }

    function Extract(): T
      requires Ok?
    {
      value
    }
  }
}
