/** The kernel's error numbers. */
module Errno {
  const EAGAIN: int := 11
  const ENOMEM: int := 12
  const EBUSY: int := 16
}
