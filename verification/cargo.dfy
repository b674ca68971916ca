/** The crate metadata read from `Cargo.toml` (src/main.rs:31-36, 118-157). */
module Cargo {
  import opened Outcomes

  /** The license recorded when `package.license` is absent. */
  const UnknownLicense: string := "Unknown"

  /** A TOML value as far as the tool looks at it: a string, a table, or anything else. */
  datatype Toml =
    | TStr(s: string)
    | Table(entries: map<string, Toml>)
    | Other

  /** A parsed `Cargo.toml`: its top-level table. */
  type Document = map<string, Toml>

  /** The `CargoToml` record: what the manifest needs from the crate. */
  datatype CargoMeta = CargoMeta(name: string, version: string, license: string)

  /** `table[key].as_str()`. `toml`'s indexing panics when the key is missing. */
  function StringField(table: map<string, Toml>, key: string): Result<string, Failure>
  {
    if key !in table then Err(IndexPanic(key))
    else if !table[key].TStr? then Err(NotAString(key))
    else Ok(table[key].s)
  }

  /** The `license` of a package table, `"Unknown"` when the key is absent. */
  function LicenseOf(package: map<string, Toml>): Result<string, Failure>
  {
    if "license" in package then StringField(package, "license") else Ok(UnknownLicense)
  }

  /** Builds `CargoToml` from the document, reading name, version and license in that order.
      `cargo_toml["package"]` panics when there is no package entry, and indexing a package entry
      that is not a table panics too. */
  function ReadMeta(doc: Document): (r: Result<CargoMeta, Failure>)
    ensures r.Ok? <==>
      && "package" in doc && doc["package"].Table?
      && StringField(doc["package"].entries, "name").Ok?
      && StringField(doc["package"].entries, "version").Ok?
      && LicenseOf(doc["package"].entries).Ok?
    ensures "package" !in doc ==> r == Err(IndexPanic("package"))
    ensures "package" in doc && !doc["package"].Table? ==> r == Err(IndexPanic("name"))
    ensures "package" in doc && doc["package"].Table? ==>
      var package := doc["package"].entries;
      && ("name" !in package ==> r == Err(IndexPanic("name")))
      && ("name" in package && !package["name"].TStr? ==> r == Err(NotAString("name")))
      && (package.Keys >= {"name"} && package["name"].TStr? ==>
            && ("version" !in package ==> r == Err(IndexPanic("version")))
            && ("version" in package && !package["version"].TStr? ==> r == Err(NotAString("version")))
            && (("version" in package && package["version"].TStr? &&
                 "license" in package && !package["license"].TStr?) ==> r == Err(NotAString("license"))))
    ensures r.Ok? ==>
      var package := doc["package"].entries;
      && package["name"] == TStr(r.value.name)
      && package["version"] == TStr(r.value.version)
      && ("license" !in package ==> r.value.license == UnknownLicense)
      && ("license" in package ==> package["license"] == TStr(r.value.license))
  {
    if "package" !in doc then Err(IndexPanic("package"))
    else if !doc["package"].Table? then Err(IndexPanic("name"))
    else
      var package := doc["package"].entries;
      match StringField(package, "name")
      case Err(e) => Err(e)
      case Ok(name) =>
        match StringField(package, "version")
        case Err(e) => Err(e)
        case Ok(version) =>
          match LicenseOf(package)
          case Err(e) => Err(e)
          case Ok(license) => Ok(CargoMeta(name, version, license))
  }
}
