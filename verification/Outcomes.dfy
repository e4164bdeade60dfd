/** Absent values and the exceptions that constructors throw. */
module Outcomes {
  datatype Option<T> = None | Some(value: T)

  datatype Creation<T> = Constructed(value: T) | InvalidArgument
}
