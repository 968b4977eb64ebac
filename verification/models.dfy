/** Types shared by the whole data layer: Go strings as bytes, the error
    sentinels the stores return, and the result wrappers around them. */
module Models {

  /** A Go `string` is a sequence of bytes, and `len(s)` counts bytes. */
  newtype byte = x: int | 0 <= x < 256
  type Bytes = seq<byte>

  /** A Go pointer that may be nil, or an optional wire field. */
  datatype Option<T> = None | Some(value: T)

  /** The error values the stores hand back to their callers. Driver
      failures, timeouts and scan errors are not modelled. */
  datatype StoreError =
    | ErrRecordNotFound   // "record not found"
    | ErrEditConflict     // "edit conflict"
    | ErrDuplicateEmail   // "duplicate email"

  /** A store call that produces a value or fails with a store error. */
  datatype Result<T> = Ok(value: T) | Err(error: StoreError)

  /** A store call that only reports success or a store error. */
  datatype Outcome = Done | Failed(error: StoreError)

  /** The `version` a freshly inserted row receives from its column default. */
  const InitialVersion: int := 1
}
