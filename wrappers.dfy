/** Optional values and results carrying a negative errno, as the C++ code returns them. */
module Wrappers {

  datatype Option<T> = None | Some(value: T)

  /** Success with a value, or failure with the negative errno the source returns. */
  datatype Result<T> = Ok(value: T) | Err(code: int)
}

/** The Linux errno values the modelled code returns (negated at the return sites). */
module Errno {
  const ENOENT: int := 2
  const EIO: int := 5
  const EEXIST: int := 17
  const EINVAL: int := 22
  const ENOMSG: int := 42
  const ENODATA: int := 61
  const ENOLINK: int := 67
}
