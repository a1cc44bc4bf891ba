/** What an operation answers: success, or the error the source reports. */
module Errnos {

  datatype Errno =
    | OK | EIO | EINVAL | EOPNOTSUPP | EFBIG | EAGAIN | ENXIO
    | ENOENT | ENOTDIR | ENOTEMPTY | EACCES | ELOOP | EscapesRoot
}
