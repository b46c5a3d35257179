/**
  The default version classifier: turns the configured patterns into commit
  matchers, decides from the commits since the last release what kind of
  change they make and how many commits follow the deciding one, and
  computes the next version.
 */
module Classifier {
  import opened Js
  import opened Types

  /** A test on one commit. */
  type Matcher = CommitInfo -> bool

  /**
    The regular expression engine: whether `new RegExp(source, flags)`
    succeeds, and what `test` answers for a source, flags and text.
   */
  datatype RegexEngine = RegexEngine(compiles: (string, string) -> bool, test: (string, string, string) -> bool)

  /** The seven configured patterns. */
  datatype Patterns = Patterns(
    major: string, minor: string, patch: string, release: string,
    preMajor: string, preMinor: string, prePatch: string)

  /** The patterns a configuration starts with. */
  const DefaultPatterns := Patterns("(MAJOR)", "(MINOR)", "(PATCH)", "(RELEASE)",
    "(PREMAJOR)", "(PREMINOR)", "(PREPATCH)")

  /** A classifier: one matcher per kind of change, and whether pre-releases are on. */
  datatype Classifier = Classifier(
    major: Matcher, minor: Matcher, patch: Matcher, release: Matcher,
    preMajor: Matcher, preMinor: Matcher, prePatch: Matcher,
    usePreReleases: bool)

  // ---------------------------------------------------------------------------
  // parsePattern

  predicate IsFlag(c: char) { c == 'i' || c == 'd' || c == 'g' || c == 's' }

  /**
    `/^\/.+\/[idgs]*$/` matches `p` with its second '/' at `j`: one or more
    characters other than line terminators between the slashes, and only
    flag letters after the second.
   */
  predicate RegexSplit(p: string, j: int) {
    2 <= j < |p| && p[0] == '/' && p[j] == '/' &&
    (forall k :: 1 <= k < j ==> !IsLineTerminator(p[k])) &&
    (forall k :: j < k < |p| ==> IsFlag(p[k]))
  }

  /** Whether the pattern is written as a regular expression literal. */
  predicate IsRegexLiteral(p: string) {
    exists j :: 2 <= j < |p| && RegexSplit(p, j)
  }

  /** In a regular expression literal the second slash is the last '/'. */
  lemma RegexEndIsLastSlash(p: string, j: int)
    requires RegexSplit(p, j)
    ensures LastIndexOf(p, '/') == j
  {
    var e := LastIndexOf(p, '/');
    assert e >= j;
  }

  /**
    parsePattern: a regular expression literal becomes a test of the
    compiled expression (failing like `new RegExp` when it does not
    compile); any other pattern becomes a substring test. The test looks at
    the subject, and at the body too when `searchBody` is set.
   */
  function ParsePattern(pattern: string, searchBody: bool, engine: RegexEngine): (r: Result<Matcher>)
    ensures !IsRegexLiteral(pattern) ==>
      r.Ok? &&
      forall c :: r.value(c) <==> Contains(c.subject, pattern) || (searchBody && Contains(c.body, pattern))
    ensures forall j :: RegexSplit(pattern, j) ==>
      var source, flags := pattern[1..j], pattern[j + 1..];
      (r.Ok? <==> engine.compiles(source, flags)) &&
      (r.Ok? ==> forall c :: r.value(c) <==>
        engine.test(source, flags, c.subject) || (searchBody && engine.test(source, flags, c.body)))
  {
    if IsRegexLiteral(pattern) then
      var regexEnd := LastIndexOf(pattern, '/');
      assert regexEnd >= 2 && forall j :: RegexSplit(pattern, j) ==> regexEnd == j by {
        forall j | RegexSplit(pattern, j) ensures regexEnd == j {
          RegexEndIsLastSlash(pattern, j);
        }
      }
      var parsedFlags := pattern[regexEnd + 1..];
      var source := pattern[1..regexEnd];
      if !engine.compiles(source, parsedFlags) then Err("Invalid regular expression: " + pattern)
      else if searchBody then
        Ok((c: CommitInfo) => engine.test(source, parsedFlags, c.subject) || engine.test(source, parsedFlags, c.body))
      else Ok((c: CommitInfo) => engine.test(source, parsedFlags, c.subject))
    else
      if searchBody then Ok((c: CommitInfo) => Contains(c.subject, pattern) || Contains(c.body, pattern))
      else Ok((c: CommitInfo) => Contains(c.subject, pattern))
  }

  /** The constructor: the seven patterns parsed in order; the first that fails to compile fails it. */
  function NewClassifier(patterns: Patterns, searchBody: bool, usePreReleases: bool, engine: RegexEngine): (r: Result<Classifier>)
    ensures r.Ok? ==> r.value.usePreReleases == usePreReleases
    ensures r.Ok? <==>
      ParsePattern(patterns.major, searchBody, engine).Ok? &&
      ParsePattern(patterns.minor, searchBody, engine).Ok? &&
      ParsePattern(patterns.patch, searchBody, engine).Ok? &&
      ParsePattern(patterns.release, searchBody, engine).Ok? &&
      ParsePattern(patterns.preMajor, searchBody, engine).Ok? &&
      ParsePattern(patterns.preMinor, searchBody, engine).Ok? &&
      ParsePattern(patterns.prePatch, searchBody, engine).Ok?
  {
    var major := ParsePattern(patterns.major, searchBody, engine);
    if major.Err? then Err(major.error) else
    var minor := ParsePattern(patterns.minor, searchBody, engine);
    if minor.Err? then Err(minor.error) else
    var patch := ParsePattern(patterns.patch, searchBody, engine);
    if patch.Err? then Err(patch.error) else
    var release := ParsePattern(patterns.release, searchBody, engine);
    if release.Err? then Err(release.error) else
    var preMajor := ParsePattern(patterns.preMajor, searchBody, engine);
    if preMajor.Err? then Err(preMajor.error) else
    var preMinor := ParsePattern(patterns.preMinor, searchBody, engine);
    if preMinor.Err? then Err(preMinor.error) else
    var prePatch := ParsePattern(patterns.prePatch, searchBody, engine);
    if prePatch.Err? then Err(prePatch.error) else
    Ok(Classifier(major.value, minor.value, patch.value, release.value,
      preMajor.value, preMinor.value, prePatch.value, usePreReleases))
  }

  /** None of the default patterns is a regular expression literal: they are all substring tests. */
  lemma DefaultPatternsAreSubstrings()
    ensures !IsRegexLiteral(DefaultPatterns.major) && !IsRegexLiteral(DefaultPatterns.minor)
    ensures !IsRegexLiteral(DefaultPatterns.patch) && !IsRegexLiteral(DefaultPatterns.release)
    ensures !IsRegexLiteral(DefaultPatterns.preMajor) && !IsRegexLiteral(DefaultPatterns.preMinor)
    ensures !IsRegexLiteral(DefaultPatterns.prePatch)
  {
    assert DefaultPatterns.major[0] == '(';
    assert DefaultPatterns.minor[0] == '(';
    assert DefaultPatterns.patch[0] == '(';
    assert DefaultPatterns.release[0] == '(';
    assert DefaultPatterns.preMajor[0] == '(';
    assert DefaultPatterns.preMinor[0] == '(';
    assert DefaultPatterns.prePatch[0] == '(';
  }

  // ---------------------------------------------------------------------------
  // getNextVersion

  /** `a` comes before `b` in major, minor, patch order. */
  predicate TripleBefore(a: Version, b: Version) {
    a.major < b.major ||
    (a.major == b.major && (a.minor < b.minor || (a.minor == b.minor && a.patch < b.patch)))
  }

  predicate SameTriple(a: Version, b: Version) {
    a.major == b.major && a.minor == b.minor && a.patch == b.patch
  }

  predicate IsPreBump(t: VersionType) {
    t == PreMajor || t == PreMinor || t == PrePatch
  }

  /** `current.preReleaseType ?? 'pre'`. */
  function LabelOrPre(t: Nullable<string>): string {
    match t
    case Null => "pre"
    case Some(s) => s
  }

  /**
    getNextVersion: the version a change of type `t` makes from the last
    release. Major, minor and patch changes bump their field and reset the
    lower ones; the pre-release kinds do the same and start build 0 under
    the release's label (or "pre"); a release drops the label; no change
    with pre-releases on moves to the next build (and to the next patch
    when the release had no label).
   */
  function GetNextVersion(usePreReleases: bool, current: Version, t: VersionType): (r: Version)
    ensures r.preReleaseType.Some? <==> r.preReleaseBuild.Some?
    ensures r.preReleaseType.Some? <==> IsPreBump(t) || (t == None && usePreReleases)
    ensures (t == Major || t == Minor || t == Patch || IsPreBump(t)) ==> TripleBefore(current, r)
    ensures (t == Release || (t == None && !usePreReleases)) ==> SameTriple(current, r)
    ensures t == None && usePreReleases ==>
      (SameTriple(current, r) || TripleBefore(current, r)) &&
      r.preReleaseType == Some(LabelOrPre(current.preReleaseType))
    ensures IsPreBump(t) ==>
      r.preReleaseType == Some(LabelOrPre(current.preReleaseType)) && r.preReleaseBuild == Some(Finite(0))
  {
    match t
    case Major => Version(current.major + 1, 0, 0, Null, Null)
    case Minor => Version(current.major, current.minor + 1, 0, Null, Null)
    case Patch => Version(current.major, current.minor, current.patch + 1, Null, Null)
    case Release => Version(current.major, current.minor, current.patch, Null, Null)
    case PreMajor => Version(current.major + 1, 0, 0, Some(LabelOrPre(current.preReleaseType)), Some(Finite(0)))
    case PreMinor => Version(current.major, current.minor + 1, 0, Some(LabelOrPre(current.preReleaseType)), Some(Finite(0)))
    case PrePatch => Version(current.major, current.minor, current.patch + 1, Some(LabelOrPre(current.preReleaseType)), Some(Finite(0)))
    case None =>
      if !usePreReleases then Version(current.major, current.minor, current.patch, Null, Null)
      else
        Version(current.major, current.minor,
          if TruthyString(current.preReleaseType) then current.patch else current.patch + 1,
          Some(LabelOrPre(current.preReleaseType)),
          Some(if current.preReleaseBuild.Some? then AddOne(current.preReleaseBuild.value) else Finite(0)))
  }

  /** From the same release, a major change outranks a minor one, which outranks a patch, which outranks a release. */
  lemma BumpsAreOrdered(usePreReleases: bool, current: Version)
    ensures TripleBefore(GetNextVersion(usePreReleases, current, Minor), GetNextVersion(usePreReleases, current, Major))
    ensures TripleBefore(GetNextVersion(usePreReleases, current, Patch), GetNextVersion(usePreReleases, current, Minor))
    ensures TripleBefore(GetNextVersion(usePreReleases, current, Release), GetNextVersion(usePreReleases, current, Patch))
  {
  }

  /**
    A full change bumps its own field by one and resets the lower fields
    to 0; a release keeps the triple; none of them keeps a label or build.
   */
  lemma BumpResetsLowerFields(usePreReleases: bool, current: Version)
    ensures GetNextVersion(usePreReleases, current, Major) == Version(current.major + 1, 0, 0, Null, Null)
    ensures GetNextVersion(usePreReleases, current, Minor) == Version(current.major, current.minor + 1, 0, Null, Null)
    ensures GetNextVersion(usePreReleases, current, Patch) == Version(current.major, current.minor, current.patch + 1, Null, Null)
    ensures GetNextVersion(usePreReleases, current, Release) == Version(current.major, current.minor, current.patch, Null, Null)
  {
  }

  /** A pre-release change lands on the triple of the matching full change. */
  lemma PreBumpsShareTriple(usePreReleases: bool, current: Version)
    ensures SameTriple(GetNextVersion(usePreReleases, current, PreMajor), GetNextVersion(usePreReleases, current, Major))
    ensures SameTriple(GetNextVersion(usePreReleases, current, PreMinor), GetNextVersion(usePreReleases, current, Minor))
    ensures SameTriple(GetNextVersion(usePreReleases, current, PrePatch), GetNextVersion(usePreReleases, current, Patch))
  {
  }

  /**
    With pre-releases on and no change, a labelled release moves to its
    next build on the same triple; an unlabelled one starts build 0 of the
    next patch. In general the triple stays exactly when the type is
    truthy, and the build is the old build plus one (NaN staying NaN), or
    0 when there was none.
   */
  lemma NoChangeNextBuild(current: Version)
    ensures var r := GetNextVersion(true, current, None);
      (TruthyString(current.preReleaseType) && current.preReleaseBuild.Some? && current.preReleaseBuild.value.Finite? ==>
        SameTriple(current, r) && r.preReleaseBuild == Some(Finite(current.preReleaseBuild.value.value + 1))) &&
      (current.preReleaseType.Null? && current.preReleaseBuild.Null? ==>
        r == Version(current.major, current.minor, current.patch + 1, Some("pre"), Some(Finite(0))))
    ensures var r := GetNextVersion(true, current, None);
      (SameTriple(current, r) <==> TruthyString(current.preReleaseType)) &&
      (!TruthyString(current.preReleaseType) ==>
        r.major == current.major && r.minor == current.minor && r.patch == current.patch + 1) &&
      r.preReleaseBuild == Some(if current.preReleaseBuild.Some? then AddOne(current.preReleaseBuild.value) else Finite(0))
  {
  }

  // ---------------------------------------------------------------------------
  // resolveCommitType

  /** The commits since the last release, as a mutable set, and whether the watched paths changed. */
  class CommitInfoSet {
    var commits: seq<CommitInfo>
    var changed: bool

    constructor(commits: seq<CommitInfo>, changed: bool)
      ensures this.commits == commits && this.changed == changed
    {
      this.commits := commits;
      this.changed := changed;
    }
  }

  /** The index of the last commit `m` accepts, Null when there is none. */
  function LastMatch(commits: seq<CommitInfo>, m: Matcher): (r: Nullable<nat>)
    ensures r.Some? ==>
      r.value < |commits| && m(commits[r.value]) &&
      forall k :: r.value < k < |commits| ==> !m(commits[k])
    ensures r.Null? ==> forall k :: 0 <= k < |commits| ==> !m(commits[k])
    decreases |commits|
  {
    if commits == [] then Null
    else if m(commits[|commits| - 1]) then Some(|commits| - 1)
    else LastMatch(commits[..|commits| - 1], m)
  }

  /** The kinds of change in the order the classifier tries them. */
  function Rules(cl: Classifier): seq<(VersionType, Matcher)> {
    [(Major, cl.major), (Minor, cl.minor), (Patch, cl.patch), (Release, cl.release),
     (PreMajor, cl.preMajor), (PreMinor, cl.preMinor), (PrePatch, cl.prePatch)]
  }

  /** The outcome of resolveCommitType: the kind of change, the increment, the changed flag. */
  datatype Resolved = Resolved(versionType: VersionType, increment: nat, changed: bool)

  /**
    The first kind of change whose matcher accepts any commit, with the
    index of the last commit it accepts as the increment; when no rule
    applies, a patch (no change with pre-releases on) counting every
    commit but the first, with the changed flag set. Only that fallback
    raises the flag, and no change comes out of it only with pre-releases
    on, unless a rule itself is for no change.
   */
  function ApplyRules(rules: seq<(VersionType, Matcher)>, commits: seq<CommitInfo>,
                      usePreReleases: bool, changed: bool): (r: Resolved)
    requires commits != []
    ensures r.changed != changed ==> r.changed && r.increment == |commits| - 1
    ensures r.versionType == None ==> usePreReleases || exists q :: 0 <= q < |rules| && rules[q].0 == None
    decreases |rules|
  {
    if rules == [] then Resolved(if usePreReleases then None else Patch, |commits| - 1, true)
    else
      match LastMatch(commits, rules[0].1)
      case Some(i) => Resolved(rules[0].0, i, changed)
      case Null => ApplyRules(rules[1..], commits, usePreReleases, changed)
  }

  /**
    What resolveCommitType decides for the commits in their original order.
    A non-empty history reports no change only with pre-releases on, and
    the changed flag is raised only by the fallback, which counts every
    commit but the first.
   */
  function CommitType(cl: Classifier, commits: seq<CommitInfo>, changed: bool): (r: Resolved)
    ensures commits == [] ==> r.versionType == None && r.increment == 0 && r.changed == changed
    ensures commits != [] && r.versionType == None ==> cl.usePreReleases
    ensures r.changed != changed ==> r.changed && r.increment == |commits| - 1
  {
    if commits == [] then Resolved(None, 0, changed)
    else ApplyRules(Rules(cl), commits, cl.usePreReleases, changed)
  }

  /**
    One of the seven loops: walks the commits counting from 1 and, at the
    first one `m` accepts, answers the number of commits after it.
   */
  method FindFirst(commits: seq<CommitInfo>, m: Matcher) returns (r: Nullable<nat>)
    ensures r.Some? ==>
      r.value < |commits| && m(commits[|commits| - 1 - r.value]) &&
      forall k :: 0 <= k < |commits| - 1 - r.value ==> !m(commits[k])
    ensures r.Null? ==> forall k :: 0 <= k < |commits| ==> !m(commits[k])
  {
    var index := 1;
    var i := 0;
    while i < |commits|
      invariant 0 <= i <= |commits| && index == i + 1
      invariant forall k :: 0 <= k < i ==> !m(commits[k])
    {
      if m(commits[i]) {
        return Some(|commits| - index);
      }
      index := index + 1;
      i := i + 1;
    }
    return Null;
  }

  /** A matching index with no match after it is the last match. */
  lemma LastMatchIs(commits: seq<CommitInfo>, m: Matcher, i: nat)
    requires i < |commits| && m(commits[i])
    requires forall k :: i < k < |commits| ==> !m(commits[k])
    ensures LastMatch(commits, m) == Some(i)
  {
    var last := LastMatch(commits, m);
    assert last.Some?;
    assert last.value <= i ==> last.value == i;
  }

  /** The first match in the reversed list is the last match in the original one. */
  lemma FirstInReverse(commits: seq<CommitInfo>, m: Matcher, r: Nullable<nat>)
    requires r.Some? ==>
      r.value < |commits| && m(Reverse(commits)[|commits| - 1 - r.value]) &&
      forall k :: 0 <= k < |commits| - 1 - r.value ==> !m(Reverse(commits)[k])
    requires r.Null? ==> forall k :: 0 <= k < |commits| ==> !m(Reverse(commits)[k])
    ensures r == LastMatch(commits, m)
  {
    if r.Some? {
      MatchInReverse(commits, m, r.value);
    } else {
      NoMatchInReverse(commits, m);
    }
  }

  lemma MatchInReverse(commits: seq<CommitInfo>, m: Matcher, i: nat)
    requires i < |commits| && m(Reverse(commits)[|commits| - 1 - i])
    requires forall k :: 0 <= k < |commits| - 1 - i ==> !m(Reverse(commits)[k])
    ensures LastMatch(commits, m) == Some(i)
  {
    NoLaterMatch(commits, m, i);
    ReverseAt(commits, i);
    LastMatchIs(commits, m, i);
  }

  lemma ReverseAt(commits: seq<CommitInfo>, k: nat)
    requires k < |commits|
    ensures Reverse(commits)[|commits| - 1 - k] == commits[k]
  {
  }

  lemma NoLaterMatch(commits: seq<CommitInfo>, m: Matcher, i: nat)
    requires i < |commits|
    requires forall k :: 0 <= k < |commits| - 1 - i ==> !m(Reverse(commits)[k])
    ensures forall k :: i < k < |commits| ==> !m(commits[k])
  {
    forall k | i < k < |commits| ensures !m(commits[k]) {
      ReverseAt(commits, k);
    }
  }

  lemma NoMatchInReverse(commits: seq<CommitInfo>, m: Matcher)
    requires forall k :: 0 <= k < |commits| ==> !m(Reverse(commits)[k])
    ensures LastMatch(commits, m) == Null
  {
    var rev := Reverse(commits);
    forall k | 0 <= k < |commits| ensures !m(commits[k]) {
      assert commits[k] == rev[|commits| - 1 - k];
    }
  }

  /** Trying the rules from `from` on, the way resolveCommitType's loops do. */
  method TryRules(cl: Classifier, commits: seq<CommitInfo>, changed: bool, from: nat) returns (res: Resolved)
    requires commits != [] && from <= 7
    ensures res == ApplyRules(Rules(cl)[from..], commits, cl.usePreReleases, changed)
    decreases 7 - from
  {
    if from == 7 {
      return Resolved(if cl.usePreReleases then None else Patch, |commits| - 1, true);
    }
    var rule := Rules(cl)[from];
    var found := FindFirst(Reverse(commits), rule.1);
    FirstInReverse(commits, rule.1, found);
    assert Rules(cl)[from..][1..] == Rules(cl)[from + 1..];
    if found.Some? {
      return Resolved(rule.0, found.value, changed);
    }
    res := TryRules(cl, commits, changed, from + 1);
  }

  /**
    resolveCommitType: reverses the set's commits in place, then tries
    the seven kinds of change in order on the reversed list.
   */
  method ResolveCommitType(cl: Classifier, commitsSet: CommitInfoSet) returns (res: Resolved)
    modifies commitsSet
    ensures res == CommitType(cl, old(commitsSet.commits), old(commitsSet.changed))
    ensures commitsSet.commits == Reverse(old(commitsSet.commits))
    ensures commitsSet.changed == old(commitsSet.changed)
  {
    if |commitsSet.commits| == 0 {
      return Resolved(None, 0, commitsSet.changed);
    }
    var original := commitsSet.commits;
    commitsSet.commits := Reverse(commitsSet.commits);
    assert Rules(cl)[0..] == Rules(cl);
    res := TryRules(cl, original, commitsSet.changed, 0);
  }

  /**
    The first kind of change, in the order major, minor, patch, release,
    pre-major, pre-minor, pre-patch, whose matcher accepts some commit
    decides the type; the increment is the index of the last commit it
    accepts, and the changed flag is passed through.
   */
  lemma {:induction false} FirstRuleDecides(cl: Classifier, commits: seq<CommitInfo>, changed: bool, k: nat, i: nat)
    requires k < 7 && i < |commits| && Rules(cl)[k].1(commits[i])
    requires forall q, j :: 0 <= q < k && 0 <= j < |commits| ==> !Rules(cl)[q].1(commits[j])
    ensures CommitType(cl, commits, changed) ==
      Resolved(Rules(cl)[k].0, LastMatch(commits, Rules(cl)[k].1).value, changed)
  {
    ApplyRulesFrom(Rules(cl), commits, cl.usePreReleases, changed, k, i);
  }

  lemma {:induction false} ApplyRulesFrom(rules: seq<(VersionType, Matcher)>, commits: seq<CommitInfo>,
                                          usePreReleases: bool, changed: bool, k: nat, i: nat)
    requires k < |rules| && i < |commits| && rules[k].1(commits[i])
    requires forall q, j :: 0 <= q < k && 0 <= j < |commits| ==> !rules[q].1(commits[j])
    ensures LastMatch(commits, rules[k].1).Some?
    ensures ApplyRules(rules, commits, usePreReleases, changed) ==
      Resolved(rules[k].0, LastMatch(commits, rules[k].1).value, changed)
    decreases k
  {
    if k > 0 {
      assert LastMatch(commits, rules[0].1).Null?;
      ApplyRulesFrom(rules[1..], commits, usePreReleases, changed, k - 1, i);
    }
  }

  /**
    When no matcher accepts any commit, a non-empty history is a patch
    (no change with pre-releases on) counting every commit after the
    first, and always counts as changed.
   */
  lemma NoRuleDefault(cl: Classifier, commits: seq<CommitInfo>, changed: bool)
    requires commits != []
    requires forall q, j :: 0 <= q < 7 && 0 <= j < |commits| ==> !Rules(cl)[q].1(commits[j])
    ensures CommitType(cl, commits, changed) ==
      Resolved(if cl.usePreReleases then None else Patch, |commits| - 1, true)
  {
    ApplyRulesNone(Rules(cl), commits, cl.usePreReleases, changed);
  }

  lemma {:induction false} ApplyRulesNone(rules: seq<(VersionType, Matcher)>, commits: seq<CommitInfo>,
                                          usePreReleases: bool, changed: bool)
    requires commits != []
    requires forall q, j :: 0 <= q < |rules| && 0 <= j < |commits| ==> !rules[q].1(commits[j])
    ensures ApplyRules(rules, commits, usePreReleases, changed) ==
      Resolved(if usePreReleases then None else Patch, |commits| - 1, true)
    decreases |rules|
  {
    if rules != [] {
      assert LastMatch(commits, rules[0].1).Null?;
      ApplyRulesNone(rules[1..], commits, usePreReleases, changed);
    }
  }

  /** On a non-empty history the increment counts commits of that history only. */
  lemma {:induction false} IncrementBelowCount(cl: Classifier, commits: seq<CommitInfo>, changed: bool)
    requires commits != []
    ensures CommitType(cl, commits, changed).increment < |commits|
  {
    ApplyRulesBound(Rules(cl), commits, cl.usePreReleases, changed);
  }

  lemma {:induction false} ApplyRulesBound(rules: seq<(VersionType, Matcher)>, commits: seq<CommitInfo>,
                                           usePreReleases: bool, changed: bool)
    requires commits != []
    ensures ApplyRules(rules, commits, usePreReleases, changed).increment < |commits|
    decreases |rules|
  {
    if rules != [] && LastMatch(commits, rules[0].1).Null? {
      ApplyRulesBound(rules[1..], commits, usePreReleases, changed);
    }
  }

  // ---------------------------------------------------------------------------
  // ClassifyAsync

  /** `a == b` on `number | null`: both null, or equal numbers (NaN equals nothing). */
  predicate LooseEqualNumber(a: Nullable<Number>, b: Nullable<Number>) {
    (a.Null? && b.Null?) ||
    (a.Some? && b.Some? && a.value.Finite? && b.value.Finite? && a.value.value == b.value.value)
  }

  /** Whether the tag on the current commit names the version the commits lead to. */
  predicate VersionsMatch(current: Version, next: Version) {
    SameTriple(current, next) &&
    LooseEqualNumber(current.preReleaseBuild, next.preReleaseBuild) &&
    current.preReleaseType == next.preReleaseType
  }

  /**
    What ClassifyAsync answers: on a tagged commit the tag's version, no
    change, not changed, and the increment only when the tag is the
    version the commits lead to; otherwise the resolved kind of change,
    increment and flag with the next version.
   */
  function Classify(cl: Classifier, last: ReleaseInformation, commits: seq<CommitInfo>, changed: bool): (r: VersionClassification)
    ensures r.increment == 0 || r.increment == CommitType(cl, commits, changed).increment
    ensures last.current.Some? ==> r.version == last.current.value && r.versionType == None && !r.changed
    ensures last.current.Null? ==> var res := CommitType(cl, commits, changed);
      r == VersionClassification(res.versionType, res.increment, res.changed,
        GetNextVersion(cl.usePreReleases, last.version, res.versionType))
  {
    var resolved := CommitType(cl, commits, changed);
    var next := GetNextVersion(cl.usePreReleases, last.version, resolved.versionType);
    if last.current.Some? then
      VersionClassification(None, if VersionsMatch(last.current.value, next) then resolved.increment else 0,
        false, last.current.value)
    else VersionClassification(resolved.versionType, resolved.increment, resolved.changed, next)
  }

  /** ClassifyAsync: resolves the commit type (reversing the set's commits) and builds the classification. */
  method ClassifyAsync(cl: Classifier, lastRelease: ReleaseInformation, commitSet: CommitInfoSet)
    returns (r: VersionClassification)
    modifies commitSet
    ensures r == Classify(cl, lastRelease, old(commitSet.commits), old(commitSet.changed))
    ensures commitSet.commits == Reverse(old(commitSet.commits)) && commitSet.changed == old(commitSet.changed)
  {
    var resolved := ResolveCommitType(cl, commitSet);
    var next := GetNextVersion(cl.usePreReleases, lastRelease.version, resolved.versionType);
    if lastRelease.current.Some? {
      var versionsMatch := VersionsMatch(lastRelease.current.value, next);
      var currentIncrement := if versionsMatch then resolved.increment else 0;
      return VersionClassification(None, currentIncrement, false, lastRelease.current.value);
    }
    return VersionClassification(resolved.versionType, resolved.increment, resolved.changed, next);
  }

  /**
    On a tagged commit the tag wins: its version is reported with no
    change and not changed; the increment is kept only when the tag is
    the version the commits lead to, and is 0 otherwise.
   */
  lemma TaggedCommitKeepsTag(cl: Classifier, last: ReleaseInformation, commits: seq<CommitInfo>, changed: bool)
    requires last.current.Some?
    ensures var r := Classify(cl, last, commits, changed);
      var resolved := CommitType(cl, commits, changed);
      r.version == last.current.value && r.versionType == None && !r.changed &&
      (r.increment == resolved.increment <==>
        VersionsMatch(last.current.value, GetNextVersion(cl.usePreReleases, last.version, resolved.versionType)) ||
        resolved.increment == 0) &&
      (r.increment != 0 ==> r.increment == resolved.increment)
  {
  }

  /** A tag whose build is not a number never matches, so its increment is 0. */
  lemma NaNBuildTagResetsIncrement(cl: Classifier, last: ReleaseInformation, commits: seq<CommitInfo>, changed: bool)
    requires last.current.Some? && last.current.value.preReleaseBuild == Some(NaN)
    ensures Classify(cl, last, commits, changed).increment == 0
  {
  }

  /** On an untagged commit the classification is the resolved change applied to the last release. */
  lemma UntaggedCommitMovesOn(cl: Classifier, last: ReleaseInformation, commits: seq<CommitInfo>, changed: bool)
    requires last.current.Null? && commits != []
    ensures var r, res := Classify(cl, last, commits, changed), CommitType(cl, commits, changed);
      r.versionType == res.versionType && r.increment == res.increment && r.changed == res.changed &&
      r.version == GetNextVersion(cl.usePreReleases, last.version, res.versionType) &&
      r.increment < |commits| &&
      (r.versionType == Major || r.versionType == Minor || r.versionType == Patch || IsPreBump(r.versionType) ==>
        TripleBefore(last.version, r.version)) &&
      (r.version.preReleaseType.Some? <==> r.version.preReleaseBuild.Some?)
  {
    IncrementBelowCount(cl, commits, changed);
  }
}
