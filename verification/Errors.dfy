/** The Linux error codes that calls return. */
module Errors {

  const ENOENT := -2
  const EINTR := -4
  const EBADF := -9
  const EAGAIN := -11
  const EEXIST := -17
  const EINVAL := -22
  const EMFILE := -24
  const EPIPE := -32
  const ENAMETOOLONG := -36
  const ENOTSOCK := -88
  const ESOCKTNOSUPPORT := -94
  const EOPNOTSUPP := -95
  const EAFNOSUPPORT := -97
  const EADDRINUSE := -98
  const EISCONN := -106
  const ENOTCONN := -107
  const ECONNREFUSED := -111
}
