/**
  The default tag formatter: renders a version as `[namespace/]prefixM.m.p`
  with an optional `-type.build` suffix, gives the glob git lists the tags of
  this family with, parses a tag back into a version and decides whether a
  string is a tag of this family.
 */
module TagFormat {
  import opened Js
  import opened Types

  /** Stand-ins that keep a prefix or namespace intact while a tag is split at '/'. */
  const PrefixPlaceholder := "<--!PREFIX!-->"
  const NamespacePlaceholder := "<--!NAMESPACE!-->"

  /** The glob that follows the prefix in the search pattern: `*[0-9].*[0-9].*[0-9]`. */
  const DigitGlob := "*[0-9]"
  const VersionGlob := DigitGlob + "." + DigitGlob + "." + DigitGlob

  /** The formatter's configuration; its namespace separator is always '/'. */
  datatype TagFormatter = TagFormatter(tagPrefix: string, namespace: string, usePreReleases: bool)

  /** The text every tag of the family starts with: `namespace/prefix`, or the prefix alone. */
  function Lead(f: TagFormatter): string {
    if f.namespace != "" then f.namespace + "/" + f.tagPrefix else f.tagPrefix
  }

  /** `M.m.p` in decimal. */
  function TripleText(v: Version): string {
    NatToString(v.major) + "." + NatToString(v.minor) + "." + NatToString(v.patch)
  }

  /** Whether Format writes the pre-release suffix for `v`. */
  predicate HasSuffix(f: TagFormatter, v: Version) {
    f.usePreReleases && TruthyString(v.preReleaseType)
  }

  /**
    Format: the prefix and the triple, then `-type.build` when pre-releases
    are on and the type is non-empty, all behind `namespace/` when a
    namespace is set.
   */
  function Format(f: TagFormatter, v: Version): (r: string)
    ensures Lead(f) <= r
  {
    var result := f.tagPrefix + TripleText(v);
    var result := if HasSuffix(f, v)
      then result + "-" + v.preReleaseType.value + "." + NumberText(v.preReleaseBuild)
      else result;
    if f.namespace != "" then f.namespace + "/" + result else result
  }

  /**
    GetPattern: the glob handed to git to list the tags of this family,
    the lead every tag of the family starts with, then the version glob.
   */
  function GetPattern(f: TagFormatter): (r: string)
    ensures r == Lead(f) + VersionGlob
  {
    if f.namespace != "" then f.namespace + "/" + f.tagPrefix + VersionGlob
    else f.tagPrefix + VersionGlob
  }

  /**
    Parse: the empty tag is 0.0.0. Otherwise the prefix and then the
    namespace are swapped for placeholders (first occurrence each), the text
    after the last '/' is kept and the placeholders are put back; the prefix
    length is cut off, the rest is split at '-', its first part at '.' into
    major, minor, patch (missing ones are 0). With pre-releases on, a second
    '-' part with at least two '.' pieces gives the type and the build.
    A major, minor or patch parseInt reads as NaN makes Parse throw; the
    build is not checked and may be NaN.
   */
  function Parse(f: TagFormatter, tag: string): (r: Result<Version>)
    ensures tag == "" ==> r == Ok(Initial)
    ensures r.Ok? ==> (r.value.preReleaseType.Some? <==> r.value.preReleaseBuild.Some?)
    ensures r.Ok? && r.value.preReleaseType.Some? ==> f.usePreReleases
  {
    if tag == "" then Ok(Version(0, 0, 0, Null, Null))
    else ReadVersion(f, tag, StripLead(f.tagPrefix, f.namespace, PrefixPlaceholder, NamespacePlaceholder, tag))
  }

  /**
    The first half of Parse: hide the prefix and then the namespace behind
    the stand-ins `p` and `n`, keep the text after the last '/', put them
    back and cut off as many characters as the prefix has. Parse passes the
    two placeholder constants.
   */
  function StripLead(prefix: string, namespace: string, p: string, n: string, tag: string): string {
    var tagParts := Split(Replace(Replace(tag, prefix, p), namespace, n), '/');
    var stripedTag := Replace(Replace(tagParts[|tagParts| - 1], p, prefix), n, namespace);
    Substring(stripedTag, |prefix|)
  }

  /**
    The second half of Parse: read `M[.m[.p]][-type.build...]`; `tag` only
    appears in the error message.
   */
  function ReadVersion(f: TagFormatter, tag: string, afterPrefix: string): (r: Result<Version>)
    ensures r.Ok? ==> (r.value.preReleaseType.Some? <==> r.value.preReleaseBuild.Some?)
    ensures r.Ok? && r.value.preReleaseType.Some? ==> f.usePreReleases
  {
    var preReleaseValues := Split(afterPrefix, '-');
    var versionValues := Split(preReleaseValues[0], '.');
    var (preReleaseType, preReleaseBuild) :=
      if f.usePreReleases && |preReleaseValues| > 1 then
        var m := Split(preReleaseValues[1], '.');
        if |m| > 1 then (Some(m[0]), Some(ParseInt(m[1]))) else (Null, Null)
      else (Null, Null);
    var major := ParseInt(versionValues[0]);
    var minor := if |versionValues| > 1 then ParseInt(versionValues[1]) else Finite(0);
    var patch := if |versionValues| > 2 then ParseInt(versionValues[2]) else Finite(0);
    if major.NaN? || minor.NaN? || patch.NaN? then
      Err("Invalid tag " + tag + " (" + Join(versionValues, ",") + ")")
    else
      SplitPieces(afterPrefix, '-');
      SplitPieces(preReleaseValues[0], '.');
      assert forall k :: 0 <= k < |versionValues| ==> '-' !in versionValues[k];
      Ok(Version(major.value, minor.value, patch.value, preReleaseType, preReleaseBuild))
  }

  // ---------------------------------------------------------------------------
  // The language IsValid accepts. DefaultTagFormatter writes the regex inside a
  // template literal, where `\.` becomes a plain `.`: the separators between
  // the numbers match any character except a line terminator. The escaped
  // namespace and prefix match themselves literally.

  /** `[0-9]+` */
  predicate DigitRun(s: string) {
    |s| > 0 && forall i :: 0 <= i < |s| ==> IsDigit(s[i])
  }

  /** `[a-zA-Z0-9]+` */
  predicate AlnumRun(s: string) {
    |s| > 0 && forall i :: 0 <= i < |s| ==> IsAsciiAlnum(s[i])
  }

  /** `.` */
  predicate AnyChar(c: char) {
    !IsLineTerminator(c)
  }

  /** `[0-9]+.[0-9]+.[0-9]+` */
  predicate VersionCore(s: string) {
    exists i, j :: 0 < i && i + 1 < j && j + 1 < |s| &&
      DigitRun(s[..i]) && AnyChar(s[i]) && DigitRun(s[i + 1..j]) && AnyChar(s[j]) && DigitRun(s[j + 1..])
  }

  /** `(.[a-zA-Z0-9]+)*` */
  predicate DotGroups(s: string)
    decreases |s|
  {
    s == [] ||
    (|s| >= 2 && AnyChar(s[0]) && exists k :: 2 <= k <= |s| && AlnumRun(s[1..k]) && DotGroups(s[k..]))
  }

  /** `-[a-zA-Z0-9]+(.[a-zA-Z0-9]+)*` */
  predicate PreReleaseSuffix(s: string) {
    |s| >= 2 && s[0] == '-' && exists k :: 2 <= k <= |s| && AlnumRun(s[1..k]) && DotGroups(s[k..])
  }

  /** What must follow the lead: the version core, then the suffix only when pre-releases are on. */
  predicate VersionText(f: TagFormatter, s: string) {
    exists k :: 0 <= k <= |s| && VersionCore(s[..k]) &&
      (k == |s| || (f.usePreReleases && PreReleaseSuffix(s[k..])))
  }

  /**
    IsValid: the anchored match of the lead followed by the version text;
    an accepted tag holds at least `0.0.0` after the lead.
   */
  predicate IsValid(f: TagFormatter, tag: string): (r: bool)
    ensures r ==> Lead(f) <= tag && |Lead(f)| + 5 <= |tag|
  {
    Lead(f) <= tag && VersionText(f, tag[|Lead(f)|..])
  }
}
