/** Failure-compatible wrappers for the build configuration: an optional
    value, and a result that either carries a value or the fatal error that
    aborts the build. */
module Wrappers {

  datatype Option<+T> = None | Some(value: T)

  /** The two kinds of fatal error setup.py raises itself, the one it lets
      escape from the subprocess call, and the one `os.listdir` raises. */
  datatype BuildError =
    | VersionNotFound                               // RuntimeError in get_version
    | PkgConfigMissing                              // SystemExit in pkg_config
    | PkgConfigFailed(argv: seq<string>, code: int) // CalledProcessError, not caught
    | NoSuchDirectory(dir: string)                  // FileNotFoundError from os.listdir

  /** The text the build aborts with, for the two errors setup.py words
      itself. */
  function Message(e: BuildError): string
    requires e.VersionNotFound? || e.PkgConfigMissing?
  {
    if e.VersionNotFound? then "Could not find version in pyproject.toml"
    else "pkg-config is required to build html5-parser"
  }

  datatype Result<+T> = Ok(value: T) | Err(error: BuildError) {
    predicate IsFailure() { Err? }

    function PropagateFailure<U>(): Result<U>
      requires Err?
    {
      Err(error)
    }

    function Extract(): T
      requires Ok?
    {
      value
    }
  }
}
