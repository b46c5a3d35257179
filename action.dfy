/**
  The action's entry point: builds the components from the configuration,
  answers 0.0.0 for an empty repository, and otherwise resolves the last
  release, classifies the commits since it and assembles the result.
 */
module Action {
  import opened Js
  import opened Types
  import TagFormat
  import TagFormatProofs
  import VersionFormat
  import opened LastRelease
  import opened Classifier
  import opened Authors

  /** The inputs that shape the result (branch selection, paths and tokens belong to the git side). */
  datatype ActionConfig = ActionConfig(
    tagPrefix: string,
    usePreReleases: bool,
    patterns: Patterns,
    versionFormat: string,
    namespace: string,
    searchCommitBody: bool,
    userFormatType: string)

  /** The documented defaults. */
  const DefaultConfig := ActionConfig("v", false, DefaultPatterns, VersionFormat.DefaultVersionFormat, "", false, "csv")

  /** The commits between the release and the current commit, and whether the watched paths changed. */
  datatype CommitHistory = CommitHistory(commits: seq<CommitInfo>, changed: bool)

  /**
    What the repository answers: whether it has no commits, the current
    commit, the git queries of the release resolver, and the commits from a
    release commit ("" for the first commit) to the current one.
   */
  datatype Repository = Repository(
    isEmpty: bool,
    currentCommit: Query,
    git: GitView,
    history: (string, string) -> Result<CommitHistory>)

  /** The outputs of the action. */
  datatype VersionResult = VersionResult(
    major: nat,
    minor: nat,
    patch: nat,
    preReleaseType: Nullable<string>,
    preReleaseBuild: Nullable<Number>,
    increment: nat,
    versionType: VersionType,
    formattedVersion: string,
    versionTag: string,
    changed: bool,
    isTagged: bool,
    authors: seq<UserInfo>,
    currentCommit: string,
    previousCommit: string,
    previousVersion: string)

  function TagFormatterOf(config: ActionConfig): TagFormat.TagFormatter {
    TagFormat.TagFormatter(config.tagPrefix, config.namespace, config.usePreReleases)
  }

  function ClassifierOf(config: ActionConfig, engine: RegexEngine): Result<Classifier> {
    NewClassifier(config.patterns, config.searchCommitBody, config.usePreReleases, engine)
  }

  /** The user formatter exists for "json" and "csv" only. */
  predicate KnownUserFormat(t: string) {
    t == "json" || t == "csv"
  }

  /** The version information of an empty repository. */
  const EmptyInformation := VersionInformation(Initial, 0, None, [], false, false)

  /** `[major, minor, patch, type, build].join(".")`: null renders as the empty text. */
  function JoinParsed(v: Version): string {
    Join([NatToString(v.major), NatToString(v.minor), NatToString(v.patch),
          VersionFormat.TypeText(v.preReleaseType), VersionFormat.BuildText(v.preReleaseBuild)], ".")
  }

  /** The previous version: `M.m.p`, followed by `-type.build` when the build is truthy. */
  function LastReleaseVersion(v: Version): (r: string)
    ensures TagFormat.TripleText(v) <= r
    ensures r == TagFormat.TripleText(v) <==> !TruthyNumber(v.preReleaseBuild)
  {
    TagFormat.TripleText(v) +
      (if TruthyNumber(v.preReleaseBuild)
       then "-" + StringText(v.preReleaseType) + "." + NumberText(v.preReleaseBuild)
       else "")
  }

  /**
    runAction. A pattern that does not compile or an unknown user format
    type fails the run before the repository is looked at. An empty
    repository reports 0.0.0 with no commits. Otherwise a failing current
    commit, release resolution or commit history fails the run, and the
    result carries the classification of the commits since the release,
    the commits (now oldest first) for the formatters, the authors by
    commit count, the current commit, the release commit and the release
    version.
   */
  method RunAction(config: ActionConfig, repo: Repository, engine: RegexEngine) returns (r: Result<VersionResult>)
    ensures r.Ok? ==> ClassifierOf(config, engine).Ok? && KnownUserFormat(config.userFormatType)
    ensures repo.isEmpty ==>
      (r.Ok? <==> ClassifierOf(config, engine).Ok? && KnownUserFormat(config.userFormatType) &&
                  TagFormat.Parse(TagFormatterOf(config), TagFormat.Format(TagFormatterOf(config), Initial)).Ok?)
    ensures repo.isEmpty && r.Ok? ==>
      var f := TagFormatterOf(config);
      var res := r.value;
      res.major == 0 && res.minor == 0 && res.patch == 0 &&
      res.preReleaseType == Null && res.preReleaseBuild == Null &&
      res.increment == 0 && res.versionType == None && !res.changed && !res.isTagged &&
      res.formattedVersion == VersionFormat.Format(VersionFormat.VersionFormatter(config.versionFormat), EmptyInformation) &&
      res.versionTag == TagFormat.Format(f, Initial) &&
      res.authors == [] && res.currentCommit == "" && res.previousCommit == "" &&
      res.previousVersion == JoinParsed(TagFormat.Parse(f, TagFormat.Format(f, Initial)).value)
    ensures !repo.isEmpty && r.Ok? ==>
      repo.currentCommit.Output? && ResolveAsync(TagFormatterOf(config), repo.git).Ok? &&
      var release := ResolveAsync(TagFormatterOf(config), repo.git).value.info;
      repo.history(release.hash, repo.currentCommit.text).Ok? &&
      Describes(r.value, config, ClassifierOf(config, engine).value, release,
                repo.history(release.hash, repo.currentCommit.text).value, repo.currentCommit.text)
    ensures !repo.isEmpty && ClassifierOf(config, engine).Ok? && KnownUserFormat(config.userFormatType) ==>
      (r.Ok? <==>
        repo.currentCommit.Output? && ResolveAsync(TagFormatterOf(config), repo.git).Ok? &&
        repo.history(ResolveAsync(TagFormatterOf(config), repo.git).value.info.hash, repo.currentCommit.text).Ok?)
  {
    var classifier := ClassifierOf(config, engine);
    if classifier.Err? {
      return Err(classifier.error);
    }
    if !KnownUserFormat(config.userFormatType) {
      return Err("Unknown user format type: " + config.userFormatType + ", supported types: json, csv");
    }
    if repo.isEmpty {
      r := EmptyRun(config);
    } else {
      r := RepositoryRun(classifier.value, config, repo);
    }
  }

  /** The run over an empty repository: 0.0.0 with no commits, once its tag parses. */
  method EmptyRun(config: ActionConfig) returns (r: Result<VersionResult>)
    ensures r.Ok? <==> TagFormat.Parse(TagFormatterOf(config), TagFormat.Format(TagFormatterOf(config), Initial)).Ok?
    ensures r.Ok? ==>
      var f := TagFormatterOf(config);
      var res := r.value;
      res.major == 0 && res.minor == 0 && res.patch == 0 &&
      res.preReleaseType == Null && res.preReleaseBuild == Null &&
      res.increment == 0 && res.versionType == None && !res.changed && !res.isTagged &&
      res.formattedVersion == VersionFormat.Format(VersionFormat.VersionFormatter(config.versionFormat), EmptyInformation) &&
      res.versionTag == TagFormat.Format(f, Initial) &&
      res.authors == [] && res.currentCommit == "" && res.previousCommit == "" &&
      res.previousVersion == JoinParsed(TagFormat.Parse(f, TagFormat.Format(f, Initial)).value)
  {
    var versionInfo := EmptyInformation;
    var tagFormatter := TagFormatterOf(config);
    var tag := TagFormat.Format(tagFormatter, versionInfo.version);
    var parsed := TagFormat.Parse(tagFormatter, tag);
    if parsed.Err? {
      return Err(parsed.error);
    }
    return Ok(VersionResult(0, 0, 0, Null, Null, versionInfo.increment, versionInfo.versionType,
      VersionFormat.Format(VersionFormat.VersionFormatter(config.versionFormat), versionInfo), tag,
      versionInfo.changed, versionInfo.isTagged, [], "", "", JoinParsed(parsed.value)));
  }

  /**
    The run over a repository with commits: a failing current commit,
    release resolution or commit history fails it; otherwise the result
    describes the commits since the release.
   */
  method RepositoryRun(classifier: Classifier, config: ActionConfig, repo: Repository) returns (r: Result<VersionResult>)
    ensures r.Ok? <==>
      repo.currentCommit.Output? && ResolveAsync(TagFormatterOf(config), repo.git).Ok? &&
      repo.history(ResolveAsync(TagFormatterOf(config), repo.git).value.info.hash, repo.currentCommit.text).Ok?
    ensures r.Ok? ==>
      var release := ResolveAsync(TagFormatterOf(config), repo.git).value.info;
      Describes(r.value, config, classifier, release,
                repo.history(release.hash, repo.currentCommit.text).value, repo.currentCommit.text)
  {
    if repo.currentCommit.Failure? {
      return Err(repo.currentCommit.message);
    }
    var currentCommit := repo.currentCommit.text;
    var resolution := ResolveAsync(TagFormatterOf(config), repo.git);
    if resolution.Err? {
      return Err(resolution.error);
    }
    var lastRelease := resolution.value.info;
    var history := repo.history(lastRelease.hash, currentCommit);
    if history.Err? {
      return Err(history.error);
    }
    var result := Assemble(classifier, config, lastRelease, history.value, currentCommit);
    return Ok(result);
  }

  /**
    The result of a run over a non-empty repository: the classification of
    the commits since the release, the commits oldest first for the
    formatters, the authors by commit count, the current commit, the
    release commit and the release version.
   */
  ghost predicate Describes(res: VersionResult, config: ActionConfig, classifier: Classifier,
                            release: ReleaseInformation, h: CommitHistory, currentCommit: string)
  {
    var c := Classify(classifier, release, h.commits, h.changed);
    res.major == c.version.major && res.minor == c.version.minor && res.patch == c.version.patch &&
    res.preReleaseType == c.version.preReleaseType && res.preReleaseBuild == c.version.preReleaseBuild &&
    res.increment == c.increment && res.versionType == c.versionType &&
    res.changed == c.changed && res.isTagged == release.isTagged &&
    res.formattedVersion == VersionFormat.Format(VersionFormat.VersionFormatter(config.versionFormat),
      VersionInformation(c.version, c.increment, c.versionType, Reverse(h.commits), c.changed, release.isTagged)) &&
    res.versionTag == TagFormat.Format(TagFormatterOf(config), c.version) &&
    res.authors == SortByCount(Group(Reverse(h.commits))) &&
    res.currentCommit == currentCommit &&
    res.previousCommit == release.hash &&
    res.previousVersion == LastReleaseVersion(release.version)
  }

  /** The steps after the commit history is read: classify, group the authors, format. */
  method Assemble(classifier: Classifier, config: ActionConfig, lastRelease: ReleaseInformation,
                  history: CommitHistory, currentCommit: string) returns (res: VersionResult)
    ensures Describes(res, config, classifier, lastRelease, history, currentCommit)
  {
    var commitSet := new CommitInfoSet(history.commits, history.changed);
    var classification := ClassifyAsync(classifier, lastRelease, commitSet);

    var versionInfo := VersionInformation(classification.version, classification.increment,
      classification.versionType, commitSet.commits, classification.changed, lastRelease.isTagged);

    var allAuthors := GroupAuthors(versionInfo.commits);
    var authors := SortByCount(allAuthors);

    var v := versionInfo.version;
    res := VersionResult(v.major, v.minor, v.patch, v.preReleaseType, v.preReleaseBuild,
      versionInfo.increment, versionInfo.versionType,
      VersionFormat.Format(VersionFormat.VersionFormatter(config.versionFormat), versionInfo),
      TagFormat.Format(TagFormatterOf(config), v),
      versionInfo.changed, versionInfo.isTagged, authors, currentCommit, lastRelease.hash,
      LastReleaseVersion(lastRelease.version));
  }

  // ---------------------------------------------------------------------------
  // The empty repository

  /**
    For a prefix Parse can find again, the empty repository's tag reads
    back as 0.0.0, so its previous version is "0.0.0.." (two empty
    pre-release fields), and the tag is the lead followed by "0.0.0".
   */
  lemma EmptyRepoPreviousVersion(f: TagFormat.TagFormatter)
    requires TagFormatProofs.RoundTripSafe(f)
    ensures TagFormat.Format(f, Initial) == TagFormat.Lead(f) + "0.0.0"
    ensures TagFormat.Parse(f, TagFormat.Format(f, Initial)) == Ok(Initial)
    ensures JoinParsed(TagFormat.Parse(f, TagFormat.Format(f, Initial)).value) == "0.0.0.."
  {
    TagFormatProofs.ParseFormatRoundTrip(f, Initial);
    TagFormatProofs.FormatShape(f, Initial);
    ZeroTriple();
    ZeroJoin();
  }

  lemma ZeroTriple()
    ensures TagFormat.TripleText(Initial) == "0.0.0"
  {
    assert NatToString(0) == "0";
  }

  lemma ZeroJoin()
    ensures JoinParsed(Initial) == "0.0.0.."
  {
    var z := NatToString(0);
    assert z == "0";
    assert JoinParsed(Initial) == z + "." + (z + "." + (z + "." + ("" + "." + "")));
  }

  /** The default version format writes "0.0.0" for the empty repository. */
  lemma EmptyRepoDefaultVersion()
    ensures VersionFormat.Format(VersionFormat.VersionFormatter(VersionFormat.DefaultVersionFormat), EmptyInformation) == "0.0.0"
  {
    VersionFormat.DefaultFormatIsTagText(EmptyInformation);
    ZeroTriple();
    assert TagFormat.Format(TagFormat.TagFormatter("", "", true), Initial) == "" + TagFormat.TripleText(Initial);
  }

  // ---------------------------------------------------------------------------
  // The previous version

  /**
    For a release version whose type and build are both present, with a
    non-empty type and a build other than 0 and NaN, or both absent, the
    previous version is the tag text without prefix or namespace.
   */
  lemma PreviousVersionIsTagText(v: Version)
    requires v.preReleaseType.Some? <==> v.preReleaseBuild.Some?
    requires v.preReleaseType.Some? ==> v.preReleaseType.value != "" && TruthyNumber(v.preReleaseBuild)
    ensures LastReleaseVersion(v) == TagFormat.Format(TagFormat.TagFormatter("", "", true), v)
  {
    var triple := TagFormat.TripleText(v);
    if v.preReleaseType.Some? {
      SuffixRegroup(triple, "-", v.preReleaseType.value, ".", NumberText(v.preReleaseBuild));
    } else {
      SuffixRegroup(triple, [], [], [], []);
    }
  }

  lemma SuffixRegroup(t: string, a: string, b: string, c: string, d: string)
    ensures [] + t + a + b + c + d == t + (a + b + c + d)
    ensures [] + t == t + []
  {
  }

  /**
    A release at build 0 (or a NaN build) loses its pre-release part: the
    previous version of `1.2.3-rc.0` is `1.2.3`.
   */
  lemma FalsyBuildIsDropped(v: Version)
    requires v.preReleaseBuild.Some? && !TruthyNumber(v.preReleaseBuild)
    ensures LastReleaseVersion(v) == TagFormat.TripleText(v)
    ensures TagFormat.Format(TagFormat.TagFormatter("", "", true), v) != TagFormat.TripleText(v) <==>
      TruthyString(v.preReleaseType)
  {
    var triple := TagFormat.TripleText(v);
    assert triple + "" == triple;
    assert "" + triple == triple;
    if TruthyString(v.preReleaseType) {
      var t := TagFormat.Format(TagFormat.TagFormatter("", "", true), v);
      assert |t| > |triple|;
    }
  }

  /**
    The previous version reads back as the release: parsing it with no
    prefix and pre-releases on gives the version again, for a type free of
    '-', '.' and '/' and a positive build.
   */
  lemma PreviousVersionReadsBack(v: Version)
    requires v.preReleaseType.Some? <==> v.preReleaseBuild.Some?
    requires v.preReleaseType.Some? ==>
      v.preReleaseType.value != "" && TagFormatProofs.PlainLabel(v.preReleaseType.value) &&
      v.preReleaseBuild.value.Finite? && v.preReleaseBuild.value.value > 0
    ensures TagFormat.Parse(TagFormat.TagFormatter("", "", true), LastReleaseVersion(v)) == Ok(v)
  {
    var f := TagFormat.TagFormatter("", "", true);
    PreviousVersionIsTagText(v);
    TagFormatProofs.ParseFormatRoundTrip(f, v);
  }

  /** With the `+${increment}` template, the empty repository is written "0.0.0+0". */
  lemma EmptyRepoIncrementVersion()
    ensures VersionFormat.Format(VersionFormat.VersionFormatter(VersionFormat.IncrementFormat), EmptyInformation) == "0.0.0+0"
  {
    VersionFormat.IncrementFormatAppendsCount(EmptyInformation);
    ZeroDefaultText();
  }

  lemma ZeroDefaultText()
    ensures VersionFormat.DefaultText(Initial) + "+" + NatToString(0) == "0.0.0+0"
  {
    assert NatToString(0) == "0";
    assert VersionFormat.DefaultText(Initial) == "0" + "." + "0" + "." + "0" + "" + "" + "" + "";
  }

  /** The authors of the result account for every commit since the release. */
  lemma AuthorsCoverCommits(commits: seq<CommitInfo>)
    ensures TotalCommits(SortByCount(Group(Reverse(commits)))) == |commits|
  {
    GroupAccountsForCommits(Reverse(commits));
    SortKeepsTotal(Group(Reverse(commits)));
  }
}
