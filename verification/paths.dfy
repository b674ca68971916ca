/** Filesystem paths as sequences of components, and the two file names the tool derives from
    the crate name: the release executable (src/main.rs:160-163) and the manifest
    (src/main.rs:196). */
module Paths {
  import opened Outcomes

  /** A path as the list of its components; `Path::join` of a relative path appends components. */
  type Path = seq<string>

  const ExeExtension: string := ".exe"
  const ManifestExtension: string := ".json"

  /** `Path::file_name`: the last component, if there is one. */
  function FileName(p: Path): Option<string>
  {
    if |p| == 0 then None else Some(p[|p| - 1])
  }

  /** `Path::parent`: everything but the last component. */
  function Parent(p: Path): Option<Path>
  {
    if |p| == 0 then None else Some(p[..|p| - 1])
  }

  /** The name `file` has once `ext` is taken off its end, if it ends in `ext`. */
  function Stem(file: string, ext: string): (r: Option<string>)
    ensures r.Some? ==> r.value + ext == file
  {
    if |ext| <= |file| && file[|file| - |ext|..] == ext then
      assert file == file[..|file| - |ext|] + file[|file| - |ext|..];
      Some(file[..|file| - |ext|])
    else None
  }

  lemma StemOfAppended(name: string, ext: string)
    ensures Stem(name + ext, ext) == Some(name)
  {
    var f := name + ext;
    assert f[|f| - |ext|..] == ext;
    assert f[..|f| - |ext|] == name;
  }

  /** `cwd.join("target/release/").join(format!("{}.exe", name))`. */
  function ReleaseExe(cwd: Path, name: string): (p: Path)
    ensures Parent(p) == Some(cwd + ["target", "release"])
    ensures FileName(p) == Some(name + ExeExtension)
  {
    cwd + ["target", "release"] + [name + ExeExtension]
  }

  /** `scoop_bucket.join(format!("{}.json", name))`. */
  function ManifestPath(bucket: Path, name: string): (p: Path)
    ensures Parent(p) == Some(bucket)
    ensures FileName(p) == Some(name + ManifestExtension)
  {
    bucket + [name + ManifestExtension]
  }

  /** The executable and the manifest are named after the same crate: taking the extension off
      either file name gives back that name. */
  lemma NamesShareStem(cwd: Path, bucket: Path, name: string)
    ensures Stem(FileName(ReleaseExe(cwd, name)).value, ExeExtension) == Some(name)
    ensures Stem(FileName(ManifestPath(bucket, name)).value, ManifestExtension) == Some(name)
  {
    StemOfAppended(name, ExeExtension);
    StemOfAppended(name, ManifestExtension);
  }

  /** Distinct crate names give distinct manifest path values in a bucket. Paths compare as
      exact strings here; a file system that ignores case may still map two of them to one file. */
  lemma ManifestPathInjective(bucket: Path, a: string, b: string)
    ensures ManifestPath(bucket, a) == ManifestPath(bucket, b) <==> a == b
  {
    if ManifestPath(bucket, a) == ManifestPath(bucket, b) {
      StemOfAppended(a, ManifestExtension);
      StemOfAppended(b, ManifestExtension);
    }
  }
}
