/** The error numbers that the modelled code returns, negated. */
module Errno {
  const EPERM: int := 1
  const ENOENT: int := 2
  const EACCES: int := 13
  const EEXIST: int := 17
  const EINVAL: int := 22
  const ENOTRECOVERABLE: int := 131
}
