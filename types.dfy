/**
  The values the version engine passes between its components: the kind of
  change, a version tuple, a commit, the last-release information and the
  classification.
 */
module Types {
  import opened Js

  /** The kind of change a version represents. */
  datatype VersionType = Major | Minor | Patch | PreMajor | PreMinor | PrePatch | Release | None

  /**
    A version tuple. A pre-release label and build are both present on every
    tuple the engine builds itself; a parsed tag may carry a NaN build.
   */
  datatype Version = Version(
    major: nat,
    minor: nat,
    patch: nat,
    preReleaseType: Nullable<string>,
    preReleaseBuild: Nullable<Number>)

  /** The version assumed when there is no release yet. */
  const Initial := Version(0, 0, 0, Null, Null)

  /** JavaScript truthiness of `string | null`: non-null and non-empty. */
  predicate TruthyString(s: Nullable<string>) {
    s.Some? && s.value != ""
  }

  /** JavaScript truthiness of `number | null`: non-null, not NaN, not zero. */
  predicate TruthyNumber(n: Nullable<Number>) {
    n.Some? && n.value.Finite? && n.value.value != 0
  }

  /** How `+` and template literals render `number | null`. */
  function NumberText(n: Nullable<Number>): string {
    match n
    case Null => "null"
    case Some(x) => NumberToString(x)
  }

  /** How `+` and template literals render `string | null`. */
  function StringText(s: Nullable<string>): string {
    match s
    case Null => "null"
    case Some(t) => t
  }

  /** One commit, as the history provider reports it. */
  datatype CommitInfo = CommitInfo(author: string, authorEmail: string, subject: string, body: string)

  /**
    The last release reachable from the current commit: its version and the
    commit to count from ("" when there is none), plus the version of a valid
    tag on the current commit itself (`current`, Null when untagged).
   */
  datatype ReleaseInformation = ReleaseInformation(
    version: Version,
    hash: string,
    current: Nullable<Version>,
    isTagged: bool)

  /** The outcome of classifying the commits since the last release. */
  datatype VersionClassification = VersionClassification(
    versionType: VersionType,
    increment: nat,
    changed: bool,
    version: Version)

  /**
    What the formatters see: the version to publish, the commit count since
    the release it builds on, the kind of change, the commits, and the
    changed and tagged flags.
   */
  datatype VersionInformation = VersionInformation(
    version: Version,
    increment: nat,
    versionType: VersionType,
    commits: seq<CommitInfo>,
    changed: bool,
    isTagged: bool)
}
