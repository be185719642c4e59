/** Absent/present values (fp-ts `Option` in the source) and results of operations that
    can fail (a JavaScript exception in the source). */
module Wrappers {

  datatype Option<+T> = None | Some(value: T)

  datatype Result<+T, +E> = Ok(value: T) | Err(error: E)
}
