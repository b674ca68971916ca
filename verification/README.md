# pseudo_manifest in Dafny

A model of `pseudo_manifest`. This command-line tool writes a Scoop "pseudo manifest" for a
crate's release `.exe`. It reads the crate's name, version and license from `Cargo.toml`. It
hashes `target/release/<name>.exe` and builds a manifest record that holds the executable's
URL and hash, one shim alias (`bin`), and a `"64bit"` architecture entry. It then compares that
record with any manifest already in the local bucket. The existing manifest is created, updated
or left alone, or the run fails because the executable changed without a version bump.

The model is functional. Each entity is an immutable datatype and each step is a pure
function. Filesystem access is injected as parameters: the state of the manifest path, the
canonical path of the executable and its digest.

| file | module | what it holds |
|---|---|---|
| `outcomes.dfy` | `Outcomes` | `Option`, `Result`, and `Failure`: every fatal condition after the inputs are read |
| `json.dfy` | `Json` | a JSON value, standing for serde_json's `Value` |
| `text.dfy` | `Text` | `str::replace` (leftmost, non-overlapping matches) and the stripping of the `\\?\` verbatim prefix |
| `paths.dfy` | `Paths` | paths as component lists, `file_name`, and the executable and manifest paths |
| `cargo.dfy` | `Cargo` | the `Cargo.toml` package table, `CargoToml`, and the `"Unknown"` license default |
| `manifest.dfy` | `Manifests` | `Manifest`, typed views of `bin` and `architecture` with their round trips, and `Build` |
| `reconcile.dfy` | `Reconcile` | `Status`, `Status::check`, a reference decision `Decide`, and the write decision and verb |
| `pseudo_manifest.dfy` | `PseudoManifest` | `main` from the parsed `Cargo.toml` on, as `Run`, with end-to-end lemmas |

`Status::check` mutates `self` and returns `Result<()>`. The model gives it the status as input
and returns `Result<Status, Failure>`. On failure the source leaves the flags untouched, and
`main` then exits with `?`, so the error alone is all that remains.

The existing file is one of four states: `NotAFile`, `Unreadable`, `Unparseable` or
`Parsed(manifest)`. These stand for the `is_file`, `read_to_string` and `from_str` outcomes.

## Model

| member | source | states |
|---|---|---|
| `Reconcile.Check` | src/main.rs:53-84 | Not a file, unreadable or unparseable gives success with `create` set and nothing else changed. A parsed manifest with an equal hash gives success with the status unchanged. With a different hash, it fails iff the versions are equal, and the only error is "version not bumped". Otherwise it succeeds with `update` set. |
| `Reconcile.CheckIsDecide` | src/main.rs:53-84 | From `Status::new()`, `check` agrees with the hash-keyed state machine Create/Update/NoOp/Conflict on every input. The resulting status identifies the action uniquely. |
| `Reconcile.CheckSetsAtMostOne` | src/main.rs:45-84 | Starting from `Status::new()`, `check` never sets both `update` and `create`. |
| `Reconcile.CheckReadsOnlyHashAndVersion` | src/main.rs:64-79 | Two old manifests that agree on hash and version give the same result, whatever their url, license, bin or architecture. |
| `Reconcile.WriteVerb` | src/main.rs:200-214 | A write happens iff `update` or `create` is set. The verb is "updated" iff `update` is set, and "created" iff only `create` is set. The "unexpected value" branch is never taken. |
| `Reconcile.WriteFollowsDecision` | src/main.rs:197-214 | After a successful check, a write happens exactly for Create and Update, and the message says "updated" exactly for Update. |
| `Manifests.Build` | src/main.rs:182-194 | Version and license come from the crate, and url and hash are the given ones. `bin` reads back as exactly `[[bin_name, alias]]`. `architecture` reads back as exactly `{"64bit": {url, hash}}`, the same url and hash as the top level. |
| `Manifests.BinRoundTrip` | src/main.rs:186 | Reading a written `bin` back gives the same entries. Any `bin` that reads as entries is exactly their encoding. |
| `Manifests.ArchitectureRoundTrip` | src/main.rs:188-193 | The same two directions for the `architecture` object. |
| `Cargo.ReadMeta` | src/main.rs:118-157 | It succeeds iff `package` is a table whose `name` and `version` are strings and whose `license` is absent or a string. The record copies those strings. The license is `"Unknown"` when the key is absent. A missing `package`, a `package` that is not a table, or a missing `name` or `version` panics. A `name`, `version` or `license` that is not a string gives "Could not parse project …", checked in that order. |
| `Paths.ReleaseExe` | src/main.rs:160-163 | The executable is `<name>.exe` inside `cwd/target/release`. |
| `Paths.ManifestPath` | src/main.rs:196 | The manifest is `<name>.json` directly inside the bucket. |
| `Paths.NamesShareStem` | src/main.rs:161-163 | With line 196: taking `.exe` off the executable's file name, or `.json` off the manifest's, gives back the same crate name. |
| `Paths.ManifestPathInjective` | src/main.rs:196 | Two crate names give the same manifest path value iff they are equal. |
| `Text.ReplaceAll` | src/main.rs:173 | A text with no occurrence of the pattern is returned unchanged. A replacement no longer than the pattern never lengthens the text. |
| `Text.Replace` | src/main.rs:173 | The match-index loop of `str::replace` computes exactly `ReplaceAll`: leftmost, non-overlapping matches. |
| `Text.StripVerbatimCanonical` | src/main.rs:173 | A canonical path `\\?\` + rest, where rest holds no `\\?\`, becomes exactly rest. |
| `Text.StripVerbatimDeletes` | src/main.rs:173 | The URL keeps only characters of the path (multiset inclusion) and is never longer than the path. |
| `Text.StripCanExposePrefix` | src/main.rs:173 | Removing `\\?\` can join the text on either side into a new `\\?\`. Stripping is not idempotent, and its result may still contain the prefix. |
| `PseudoManifest.Run` | src/main.rs:118-215 | A metadata error ends the run with that error. A missing release executable ends it with "not compiled" at `target/release/<name>.exe`. An executable whose digest cannot be computed ends it with the digest error. Success implies both were found, and a written manifest is never announced as "unexpected value". |
| `PseudoManifest.RunWrites` | src/main.rs:159-215 | A written manifest goes to `<name>.json` in the bucket. It holds the crate's version and license, the executable's digest, the URL without `\\?\`, the shim `[file name, alias]`, and the same URL and hash under `"64bit"`. It is announced as created or updated. |
| `PseudoManifest.RunIsIdempotent` | src/main.rs:196-215 | Running again over what a run wrote reports "up to date" and writes nothing. |
| `PseudoManifest.RunOverPrevious` | src/main.rs:196-215 | Over a parsed old manifest: an equal hash means up to date. A new hash with the same version fails and writes nothing. A new hash with a new version updates `<name>.json` with the new hash. |
| `PseudoManifest.RunCreates` | src/main.rs:196-215 | When nothing usable is at the manifest path, a run that reaches reconciliation creates the manifest. |

## Left out

- Filesystem I/O is injected as parameters and results, not modelled: `home_dir`, the `canonicalize` of `~/scoop/buckets/local`, the `is_dir` check on the working directory, and reading `Cargo.toml`. `Run` starts from the resolved bucket and directory and the parsed document.
- Writing the file is not modelled. `File::create`, `write_all` and `to_string_pretty` can fail, and `Written` means only that the write is attempted.
- TOML parsing is not modelled: `.parse::<Table>().unwrap()` is a foreign library and panics on a malformed file. The model starts from the parsed table.
- serde JSON serialisation and deserialisation are foreign. Reading the file back is an input (`Existing`). `RunIsIdempotent` assumes that a written manifest reads back as the same manifest.
- SHA-256 (`sha256::try_digest`) is a foreign call. Its digest is an opaque string, or `None` when the file cannot be read.
- `to_str().unwrap()` and `file_name().unwrap()` on the canonical executable path are taken as given. Paths are strings, so the panic on a non-UTF-8 path is not modelled.
- `Path::join` is modelled as appending components. The crate name is one component, so a name holding a separator or an absolute path is not modelled.
- `file_name` of the canonical path is an input, because `canonicalize` resolves links and need not keep `<name>.exe`.
- Command-line parsing (`clap`), `path_clean::clean`, coloured console output and the printed messages are out. Only the verb of the success message is kept.
- `Paths.ManifestPathInjective`: paths compare as exact strings. Windows file names ignore case, so crates named `Tool` and `tool` share one file `tool.json`; case folding is not modelled.
- `Text.ReplaceAll`: requires a non-empty pattern. Rust's `replace` with an empty pattern inserts the replacement before, between and after every character (`"ab".replace("", "-")` is `-a-b-`), and the tool only ever replaces the fixed four-character `\\?\`.
- JSON numbers are integers only. The tool writes no numbers. An old manifest read from disk may hold any JSON in `bin` and `architecture`, but `Check` reads only its hash and version.
- GUI shortcut shaping, a debug/dry-run mode and an explicit artifact or binary-name override appear in other versions of the tool. This version of `src/main.rs` has none of them, and the model follows the code.
