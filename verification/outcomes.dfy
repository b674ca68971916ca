/** Failure-compatible wrappers and the fatal conditions of the pseudo-manifest tool. */
module Outcomes {

  /** A value that may be absent (Rust's `Option`). */
  datatype Option<+T> = None | Some(value: T)

  /** A value or the reason there is none (Rust's `anyhow::Result`). */
  datatype Result<+T, +E> = Ok(value: T) | Err(error: E)

  /** Every way a run of the tool ends without finishing, after the inputs have been read.
      Panics and `anyhow` errors both end the process with a non-zero exit. */
  datatype Failure =
    /** Indexing the parsed `Cargo.toml` with a key that is absent, or indexing a value that is
        not a table, panics. */
    | IndexPanic(key: string)
    /** `package.<key>` is present but `as_str` fails ("Could not parse project <key>"). */
    | NotAString(key: string)
    /** `target/release/<name>.exe` cannot be canonicalised ("Have you compiled release?"). */
    | ReleaseNotCompiled(path: seq<string>)
    /** `sha256::try_digest` could not read the executable. */
    | DigestFailed
    /** The executable's hash changed but the crate version did not ("Unable to update manifest"). */
    | VersionNotBumped
}
