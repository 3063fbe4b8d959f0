/** Python exceptions raised by the modelled code, turned into values. */
module Outcomes {

  /** The exception classes the modelled functions can raise. */
  datatype PyException =
    | IndexError         // a list index or a random.choice on an empty list
    | ValueError         // an explicit `raise ValueError(...)` or list.index() miss
    | ZeroDivisionError  // integer `//` or `%` by zero

  /** The outcome of a call that either returns a value or raises. */
  datatype Result<T> = Ok(value: T) | Raise(exc: PyException)
}
