/** The Scoop pseudo manifest (src/main.rs:19-29) and its construction from the crate metadata
    and the release executable (src/main.rs:181-194). */
module Manifests {
  import opened Outcomes
  import opened Json
  import Cargo

  /** The single architecture the manifest describes. */
  const Arch64: string := "64bit"

  /** One entry of Scoop's `bin` list: the executable and the shim alias it is exposed under. */
  datatype BinEntry = BinEntry(target: string, alias: string)

  /** One entry of Scoop's `architecture` object: where the executable is and its hash. */
  datatype ArchEntry = ArchEntry(url: string, hash: string)

  /** The manifest as serde (de)serialises it. `bin` and `architecture` are free JSON values in
      the source, so a manifest read back from disk may hold anything there; the typed views
      below say what the tool itself writes. */
  datatype Manifest = Manifest(
    version: string,
    url: string,
    hash: string,
    bin: Value,
    license: string,
    architecture: Value)

  // ---- bin: [[target, alias], ...] ----

  function EncodeEntry(e: BinEntry): Value
  {
    Array([Str(e.target), Str(e.alias)])
  }

  function DecodeEntry(v: Value): Option<BinEntry>
  {
    if v.Array? && |v.items| == 2 && v.items[0].Str? && v.items[1].Str?
    then Some(BinEntry(v.items[0].s, v.items[1].s))
    else None
  }

  function EncodeEntries(es: seq<BinEntry>): (vs: seq<Value>)
    ensures |vs| == |es|
  {
    if |es| == 0 then [] else [EncodeEntry(es[0])] + EncodeEntries(es[1..])
  }

  function DecodeEntries(vs: seq<Value>): (r: Option<seq<BinEntry>>)
    ensures r.Some? ==> |r.value| == |vs|
  {
    if |vs| == 0 then Some([])
    else match (DecodeEntry(vs[0]), DecodeEntries(vs[1..]))
      case (Some(e), Some(es)) => Some([e] + es)
      case _ => None
  }

  function EncodeBin(es: seq<BinEntry>): Value
  {
    Array(EncodeEntries(es))
  }

  /** The `bin` value read as a list of `[target, alias]` pairs; `None` for any other shape. */
  function DecodeBin(v: Value): Option<seq<BinEntry>>
  {
    if v.Array? then DecodeEntries(v.items) else None
  }

  lemma {:induction false} DecodeEncodeEntries(es: seq<BinEntry>)
    ensures DecodeEntries(EncodeEntries(es)) == Some(es)
  {
    if |es| > 0 {
      DecodeEncodeEntries(es[1..]);
      assert EncodeEntries(es)[1..] == EncodeEntries(es[1..]);
      assert [es[0]] + es[1..] == es;
    }
  }

  lemma {:induction false} EncodeDecodeEntries(vs: seq<Value>)
    requires DecodeEntries(vs).Some?
    ensures EncodeEntries(DecodeEntries(vs).value) == vs
  {
    if |vs| > 0 {
      EncodeDecodeEntries(vs[1..]);
      var es := DecodeEntries(vs).value;
      assert es[1..] == DecodeEntries(vs[1..]).value;
      assert vs[0].items == [vs[0].items[0], vs[0].items[1]];
      assert [vs[0]] + vs[1..] == vs;
    }
  }

  /** Reading back a written `bin` gives the entries that were written, and a `bin` that reads
      as entries is exactly their encoding: the typed view loses nothing. */
  lemma BinRoundTrip(es: seq<BinEntry>, v: Value)
    ensures DecodeBin(EncodeBin(es)) == Some(es)
    ensures DecodeBin(v) == Some(es) ==> EncodeBin(es) == v
  {
    DecodeEncodeEntries(es);
    if DecodeBin(v) == Some(es) {
      EncodeDecodeEntries(v.items);
    }
  }

  // ---- architecture: { "64bit": { "url": ..., "hash": ... } } ----

  function EncodeArchEntry(a: ArchEntry): Value
  {
    Object(map["url" := Str(a.url), "hash" := Str(a.hash)])
  }

  function DecodeArchEntry(v: Value): Option<ArchEntry>
  {
    if v.Object? && v.members.Keys == {"url", "hash"}
       && v.members["url"].Str? && v.members["hash"].Str?
    then Some(ArchEntry(v.members["url"].s, v.members["hash"].s))
    else None
  }

  function EncodeArchitecture(m: map<string, ArchEntry>): Value
  {
    Object(map k | k in m :: EncodeArchEntry(m[k]))
  }

  /** The `architecture` value read as a map from architecture to entry; `None` when any
      member is not a `{url, hash}` object of strings. */
  function DecodeArchitecture(v: Value): Option<map<string, ArchEntry>>
  {
    if v.Object? && forall k :: k in v.members ==> DecodeArchEntry(v.members[k]).Some?
    then Some(map k | k in v.members :: DecodeArchEntry(v.members[k]).value)
    else None
  }

  lemma ArchEntryRoundTrip(a: ArchEntry, v: Value)
    ensures DecodeArchEntry(EncodeArchEntry(a)) == Some(a)
    ensures DecodeArchEntry(v) == Some(a) ==> EncodeArchEntry(a) == v
  {
    var w := EncodeArchEntry(a);
    assert "url" in w.members.Keys && "hash" in w.members.Keys;
    if DecodeArchEntry(v) == Some(a) {
      assert v.members == map["url" := v.members["url"], "hash" := v.members["hash"]];
    }
  }

  lemma DecodeEncodeArchitecture(m: map<string, ArchEntry>)
    ensures DecodeArchitecture(EncodeArchitecture(m)) == Some(m)
  {
    var w := EncodeArchitecture(m).members;
    forall k | k in w
      ensures DecodeArchEntry(w[k]) == Some(m[k])
    {
      ArchEntryRoundTrip(m[k], w[k]);
    }
    var d := map k | k in w :: DecodeArchEntry(w[k]).value;
    assert d == m;
  }

  lemma EncodeDecodeArchitecture(v: Value)
    requires DecodeArchitecture(v).Some?
    ensures EncodeArchitecture(DecodeArchitecture(v).value) == v
  {
    var m := DecodeArchitecture(v).value;
    forall k | k in v.members
      ensures EncodeArchEntry(m[k]) == v.members[k]
    {
      ArchEntryRoundTrip(m[k], v.members[k]);
    }
    assert EncodeArchitecture(m).members == v.members;
  }

  /** Reading back a written `architecture` gives the map that was written, and one that reads
      as a map is exactly its encoding. */
  lemma ArchitectureRoundTrip(m: map<string, ArchEntry>, v: Value)
    ensures DecodeArchitecture(EncodeArchitecture(m)) == Some(m)
    ensures DecodeArchitecture(v) == Some(m) ==> EncodeArchitecture(m) == v
  {
    DecodeEncodeArchitecture(m);
    if DecodeArchitecture(v) == Some(m) {
      EncodeDecodeArchitecture(v);
    }
  }

  /** The 64-bit entry repeats the manifest's own URL and hash. */
  predicate ArchitectureAgrees(m: Manifest)
  {
    && DecodeArchitecture(m.architecture).Some?
    && Arch64 in DecodeArchitecture(m.architecture).value
    && DecodeArchitecture(m.architecture).value[Arch64] == ArchEntry(m.url, m.hash)
  }

  /** The manifest `main` writes: version and license from the crate, URL and hash of the
      release executable, the one shim `[binName, alias]`, and the same URL and hash again
      under `"64bit"`. */
  function Build(meta: Cargo.CargoMeta, url: string, hash: string, binName: string, alias: string): (m: Manifest)
    ensures m.version == meta.version && m.license == meta.license
    ensures m.url == url && m.hash == hash
    ensures DecodeBin(m.bin) == Some([BinEntry(binName, alias)])
    ensures DecodeArchitecture(m.architecture) == Some(map[Arch64 := ArchEntry(url, hash)])
    ensures ArchitectureAgrees(m)
  {
    DecodeEncodeEntries([BinEntry(binName, alias)]);
    DecodeEncodeArchitecture(map[Arch64 := ArchEntry(url, hash)]);
    Manifest(
      meta.version,
      url,
      hash,
      EncodeBin([BinEntry(binName, alias)]),
      meta.license,
      EncodeArchitecture(map[Arch64 := ArchEntry(url, hash)]))
  }
}
