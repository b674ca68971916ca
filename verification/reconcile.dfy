/** Whether an existing manifest is created, updated, left alone or refused
    (`Status`, src/main.rs:38-85), and the write that follows (src/main.rs:197-215). */
module Reconcile {
  import opened Outcomes
  import opened Manifests

  /** What is at the manifest path before the run: not a file, a file `read_to_string` cannot
      read, text `serde_json::from_str` cannot read as a `Manifest`, or a manifest. */
  datatype Existing = NotAFile | Unreadable | Unparseable | Parsed(previous: Manifest)

  /** The two flags `Status::check` may set. */
  datatype Status = Status(update: bool, create: bool)

  /** `Status::new()`: nothing decided yet. */
  const Initial: Status := Status(false, false)

  /** `Status::check`: a missing, unreadable or unparseable manifest is to be created; a parsed
      one with the same hash is up to date; a different hash under the same version is refused;
      a different hash under a new version is to be updated. On failure the status is unchanged,
      so the result carries only the error. */
  function Check(st: Status, built: Manifest, existing: Existing): (r: Result<Status, Failure>)
    ensures !existing.Parsed? ==> r == Ok(st.(create := true))
    ensures existing.Parsed? && existing.previous.hash == built.hash ==> r == Ok(st)
    ensures existing.Parsed? && existing.previous.hash != built.hash ==>
      (r.Err? <==> existing.previous.version == built.version)
    ensures r.Err? ==> r.error == VersionNotBumped
    ensures r.Ok? && existing.Parsed? && existing.previous.hash != built.hash ==>
      r.value == st.(update := true)
  {
    match existing
    case NotAFile => Ok(st.(create := true))
    case Parsed(prior) =>
      if prior.hash == built.hash then Ok(st)
      else if prior.version == built.version then Err(VersionNotBumped)
      else Ok(st.(update := true))
    case _ => Ok(st.(create := true))
  }

  // ---- the same decision as a reference state machine ----

  /** The outcome of reconciling a built manifest with what is on disk. */
  datatype Action = Create | Update | NoOp | Conflict

  /** What the on-disk state amounts to: a manifest, or nothing usable. */
  function Usable(existing: Existing): Option<Manifest>
  {
    if existing.Parsed? then Some(existing.previous) else None
  }

  /** The decision keyed on the executable's hash alone: the same build is left alone; a new
      build needs a new version. */
  function Decide(built: Manifest, existing: Option<Manifest>): Action
  {
    if existing.None? then Create
    else if existing.value.hash == built.hash then NoOp
    else if existing.value.version != built.version then Update
    else Conflict
  }

  /** What `Check` leaves behind for each action, starting from `Status::new()`. */
  function Expected(a: Action): Result<Status, Failure>
  {
    match a
    case Create => Ok(Status(false, true))
    case Update => Ok(Status(true, false))
    case NoOp => Ok(Initial)
    case Conflict => Err(VersionNotBumped)
  }

  /** `Check` from `Status::new()` is the reference decision. `Expected` is one-to-one, so
      the status also tells which action was taken. */
  lemma CheckIsDecide(built: Manifest, existing: Existing)
    ensures Check(Initial, built, existing) == Expected(Decide(built, Usable(existing)))
    ensures forall a: Action :: Check(Initial, built, existing) == Expected(a) ==>
      a == Decide(built, Usable(existing))
  {
  }

  /** From `Status::new()`, `check` never sets both flags. */
  lemma CheckSetsAtMostOne(built: Manifest, existing: Existing)
    ensures Check(Initial, built, existing).Ok? ==>
      !(Check(Initial, built, existing).value.update && Check(Initial, built, existing).value.create)
  {
  }

  /** Only the hash and version of the old manifest matter: two old manifests that agree on
      those lead to the same result, whatever their URL, license, bin or architecture. */
  lemma CheckReadsOnlyHashAndVersion(st: Status, built: Manifest, a: Manifest, b: Manifest)
    requires a.hash == b.hash && a.version == b.version
    ensures Check(st, built, Parsed(a)) == Check(st, built, Parsed(b))
  {
  }

  // ---- the write that follows ----

  /** The word the success message uses. */
  datatype Verb = Updated | Created | UnexpectedValue

  function VerbText(v: Verb): string
  {
    match v
    case Updated => "updated"
    case Created => "created"
    case UnexpectedValue => "unexpected value"
  }

  /** The message branch of `main`: "updated" before "created". */
  function Announce(st: Status): Verb
  {
    if st.update then Updated else if st.create then Created else UnexpectedValue
  }

  /** `main` writes the manifest iff a flag is set, and then announces it; `None` is no write. */
  function WriteVerb(st: Status): (r: Option<Verb>)
    ensures r.Some? <==> st.update || st.create
    ensures r == Some(Updated) <==> st.update
    ensures r == Some(Created) <==> !st.update && st.create
    ensures r != Some(UnexpectedValue)
  {
    if st.update || st.create then Some(Announce(st)) else None
  }

  /** After a successful check from `Status::new()`, a write happens exactly for Create and
      Update, and the message says "updated" exactly for Update. */
  lemma WriteFollowsDecision(built: Manifest, existing: Existing)
    requires Check(Initial, built, existing).Ok?
    ensures var w := WriteVerb(Check(Initial, built, existing).value);
      && (w.Some? <==> Decide(built, Usable(existing)) in {Create, Update})
      && (w == Some(Updated) <==> Decide(built, Usable(existing)) == Update)
      && (w == Some(Created) <==> Decide(built, Usable(existing)) == Create)
      && (w.Some? ==> VerbText(w.value) in {"updated", "created"})
  {
  }
}
