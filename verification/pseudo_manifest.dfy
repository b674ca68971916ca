/** `main` of the pseudo-manifest tool (src/main.rs:101-218) from the parsed `Cargo.toml` on:
    read the crate metadata, locate and hash the release executable, build the manifest,
    reconcile it with the one in the local bucket, and write it or leave it. The filesystem is
    injected as two total functions, so the run is a pure function of what is on disk. */
module PseudoManifest {
  import opened Outcomes
  import opened Paths
  import opened Cargo
  import opened Text
  import opened Manifests
  import opened Reconcile

  /** What the filesystem reports for the release executable: the canonical path as text
      (`to_str`), its last component (`file_name`) and its SHA-256 digest, if it could be read. */
  datatype ExeFacts = ExeFacts(text: string, fileName: string, digest: Option<string>)

  /** How a run ends when it does not fail. */
  datatype Outcome =
    /** The manifest on disk has the same hash: "Already up to date.", nothing written. */
    | UpToDate
    /** `manifest` is written to `path` and the message uses `verb`. */
    | Written(path: Path, manifest: Manifest, verb: Verb)

  /** One run. `cwd` is the cleaned working directory and `bucket` the canonical
      `~/scoop/buckets/local`; `locate` answers `canonicalize` and the reads that follow for a
      path (`None`: the path does not exist), and `existingAt` says what is at a manifest path. */
  function Run(cwd: Path, bucket: Path, alias: string, doc: Document,
               locate: Path -> Option<ExeFacts>, existingAt: Path -> Existing): (r: Result<Outcome, Failure>)
    ensures ReadMeta(doc).Err? ==> r == Err(ReadMeta(doc).error)
    ensures ReadMeta(doc).Ok? && locate(ReleaseExe(cwd, ReadMeta(doc).value.name)).None? ==>
      r == Err(ReleaseNotCompiled(ReleaseExe(cwd, ReadMeta(doc).value.name)))
    ensures (ReadMeta(doc).Ok? && locate(ReleaseExe(cwd, ReadMeta(doc).value.name)).Some? &&
             locate(ReleaseExe(cwd, ReadMeta(doc).value.name)).value.digest.None?) ==> r == Err(DigestFailed)
    ensures r.Ok? ==> ReadMeta(doc).Ok? && locate(ReleaseExe(cwd, ReadMeta(doc).value.name)).Some?
    ensures r.Ok? && r.value.Written? ==> r.value.verb != UnexpectedValue
  {
    match ReadMeta(doc)
    case Err(e) => Err(e)
    case Ok(meta) =>
      var exePath := ReleaseExe(cwd, meta.name);
      match locate(exePath)
      case None => Err(ReleaseNotCompiled(exePath))
      case Some(exe) =>
        match exe.digest
        case None => Err(DigestFailed)
        case Some(hash) =>
          var manifest := Build(meta, StripVerbatim(exe.text), hash, exe.fileName, alias);
          var path := ManifestPath(bucket, meta.name);
          match Check(Initial, manifest, existingAt(path))
          case Err(e) => Err(e)
          case Ok(st) =>
            match WriteVerb(st)
            case None => Ok(UpToDate)
            case Some(verb) => Ok(Written(path, manifest, verb))
  }

  /** What a written manifest holds: it goes to `<name>.json` in the bucket, carries the crate's
      version and license, the release executable's digest and its URL without `\\?\`, the one
      shim `[file name, alias]`, the same URL and hash under `"64bit"`, and is announced as
      created or updated. */
  lemma RunWrites(cwd: Path, bucket: Path, alias: string, doc: Document,
                  locate: Path -> Option<ExeFacts>, existingAt: Path -> Existing,
                  path: Path, m: Manifest, verb: Verb)
    requires Run(cwd, bucket, alias, doc, locate, existingAt) == Ok(Written(path, m, verb))
    ensures ReadMeta(doc).Ok?
    ensures var meta := ReadMeta(doc).value;
      var exe := locate(ReleaseExe(cwd, meta.name));
      && exe.Some? && exe.value.digest == Some(m.hash)
      && path == ManifestPath(bucket, meta.name)
      && m.version == meta.version && m.license == meta.license
      && m.url == StripVerbatim(exe.value.text)
      && DecodeBin(m.bin) == Some([BinEntry(exe.value.fileName, alias)])
      && ArchitectureAgrees(m)
    ensures verb in {Created, Updated}
  {
  }

  /** Running again over what a run wrote, with the same crate and executable, writes nothing:
      the second run finds the same hash and reports the manifest up to date. This assumes that
      reading a written manifest back gives the same manifest. */
  lemma RunIsIdempotent(cwd: Path, bucket: Path, alias: string, doc: Document,
                        locate: Path -> Option<ExeFacts>, existingAt: Path -> Existing,
                        path: Path, m: Manifest, verb: Verb)
    requires Run(cwd, bucket, alias, doc, locate, existingAt) == Ok(Written(path, m, verb))
    ensures Run(cwd, bucket, alias, doc, locate,
                q => if q == path then Parsed(m) else existingAt(q)) == Ok(UpToDate)
  {
  }

  /** A rebuilt executable under an unchanged version is refused and nothing is written; under a
      new version the manifest is updated in place. */
  lemma RunOverPrevious(cwd: Path, bucket: Path, alias: string, doc: Document,
                        locate: Path -> Option<ExeFacts>, existingAt: Path -> Existing,
                        previous: Manifest)
    requires ReadMeta(doc).Ok?
    requires var meta := ReadMeta(doc).value;
      && locate(ReleaseExe(cwd, meta.name)).Some?
      && locate(ReleaseExe(cwd, meta.name)).value.digest.Some?
      && existingAt(ManifestPath(bucket, meta.name)) == Parsed(previous)
    ensures var meta := ReadMeta(doc).value;
      var hash := locate(ReleaseExe(cwd, meta.name)).value.digest.value;
      var r := Run(cwd, bucket, alias, doc, locate, existingAt);
      && (previous.hash == hash ==> r == Ok(UpToDate))
      && (previous.hash != hash && previous.version == meta.version ==> r == Err(VersionNotBumped))
      && (previous.hash != hash && previous.version != meta.version ==>
            r.Ok? && r.value.Written? && r.value.verb == Updated
            && r.value.path == ManifestPath(bucket, meta.name) && r.value.manifest.hash == hash)
  {
  }

  /** With nothing usable at the manifest path, a run that gets that far creates the manifest. */
  lemma RunCreates(cwd: Path, bucket: Path, alias: string, doc: Document,
                   locate: Path -> Option<ExeFacts>, existingAt: Path -> Existing)
    requires ReadMeta(doc).Ok?
    requires var meta := ReadMeta(doc).value;
      && locate(ReleaseExe(cwd, meta.name)).Some?
      && locate(ReleaseExe(cwd, meta.name)).value.digest.Some?
      && !existingAt(ManifestPath(bucket, meta.name)).Parsed?
    ensures var r := Run(cwd, bucket, alias, doc, locate, existingAt);
      r.Ok? && r.value.Written? && r.value.verb == Created
  {
  }
}
