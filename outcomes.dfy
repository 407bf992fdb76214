/** Optional values and success-or-error results, used across the model for
    nullable database lookups and thrown errors. */
module Outcomes {

  datatype Option<+T> = None | Some(value: T)

  datatype Result<+T, +E> = Ok(value: T) | Err(error: E)
}
