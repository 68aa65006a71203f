/** Types shared by the parts of the model. */
module Wrappers {

  datatype Option<+T> = None | Some(value: T)

  datatype Result<+T, +E> = Ok(value: T) | Err(error: E)

  /** Why a store returned no secret. */
  datatype Failure = NotFound | NoLock | Unavailable

  type Bytes = seq<bv8>

  /** Metadata of a secret, and attributes of what stores it. */
  type Attrs = map<string, string>
}
