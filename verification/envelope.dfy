/** The uniform success/failure envelope every query operation returns,
    and the optional values used for defaulted arguments. */
module Envelope {

  /** An optional value: Python's `None` or a present value. */
  datatype Option<+T> = None | Some(value: T)

  /** `{"success": True, ...}` carrying an operation-specific payload, or
      `{"success": False, "error": message}`. */
  datatype Result<+T> = Success(value: T) | Failure(error: string)
}
