/** The kernel's error codes that the two ends distinguish. */
module Errno {
  const ENOENT := 2
  const EINVAL := 22
  const EPIPE := 32
  const ECONNRESET := 104
  const ESHUTDOWN := 108
}
