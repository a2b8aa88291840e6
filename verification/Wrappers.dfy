/**
 What every part of the kernel shares: optional values and the error codes of libs/error.h.
 */
module Wrappers {

  datatype Option<T> = None | Some(value: T)

  const E_INVAL := 3
  const E_NO_MEM := 4
  const E_NO_FREE_PROC := 5
}
