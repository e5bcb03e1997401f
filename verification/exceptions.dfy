/**
 The Python exceptions the dataset downloader can raise, and the
 failure-compatible result type every modelled operation returns.

 Only the distinction that the downloader's error boundary cares about is kept
 precise: whether an exception is an `OSError` (caught per repository) or not
 (aborts the whole run). `EnvironmentError` is an alias of `OSError` in
 Python 3, `shutil.ReadError` derives from `OSError`, and the exceptions of the
 `requests` library derive from `IOError`, itself an alias of `OSError`.
 */
module Exceptions {

  datatype Option<+T> = None | Some(value: T)

  /** Which `OSError` subclass was raised. */
  datatype OSErrorKind =
    | Plain            // `OSError` / `EnvironmentError` raised directly
    | FileNotFound     // `FileNotFoundError`: missing file or missing parent directory
    | FileExists       // `FileExistsError`: `os.mkdir` on a path that is a file
    | IsADirectory     // `IsADirectoryError`: `open(path, 'wb')` on a directory
    | ReadError        // `shutil.ReadError`: the archive is not a zip file
    | RequestFailed    // `requests.RequestException`: the transfer itself failed

  datatype Exception =
    | OSError(kind: OSErrorKind, message: string)
    | StopIteration                  // `next(reader)` on an empty catalog
    | ValueError                     // a row that does not unpack, or a bad `split('/')`
    | AssertionError(message: string)
    | IndexError                     // `[...][0]` on an empty list
    | KeyError(key: string)

  /** True for the exceptions the per-repository `except OSError` clause catches. */
  predicate IsOSError(e: Exception) {
    e.OSError?
  }

  /** The value of a Python call that either returns or raises. */
  datatype Result<+T> = Ok(value: T) | Raise(exc: Exception) {

    predicate IsFailure() {
      Raise?
    }

    function PropagateFailure<U>(): Result<U>
      requires Raise?
    {
      Raise(exc)
    }

    function Extract(): T
      requires Ok?
    {
      value
    }
  }
}
