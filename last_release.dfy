/**
  The default last-release resolver: finds the valid release tag on the
  current commit, if any, and the newest valid release tag merged into it
  (other than the current one), and reports that release's version and the
  commit to count from. The git commands are answered by a GitView.
 */
module LastRelease {
  import opened Js
  import opened Types
  import opened TagFormat
  import TagFormatProofs

  /** The output of one git command, or the error it rejected with. */
  datatype Query = Output(text: string) | Failure(message: string)

  /**
    The answers of git for one resolution: `git tag --points-at <current>
    <pattern>`, `git for-each-ref ... --merged=<current> refs/tags/<pattern>`
    (listed newest version first), `git remote`, and
    `git merge-base <tag> <current>` for each tag.
   */
  datatype GitView = GitView(pointsAt: Query, listing: Query, remote: Query, mergeBase: string -> Query)

  /** The warnings the resolver logs when it finds no release tag. */
  datatype Warning = NoneValid(count: nat) | NoTags

  datatype Resolution = Resolution(info: ReleaseInformation, warning: Nullable<Warning>)

  /** The tag on the current commit: the trimmed points-at output when it is valid, else "". */
  function CurrentTag(f: TagFormatter, pointsAt: string): (r: string)
    ensures r == "" || (r == Trim(pointsAt) && IsValid(f, r))
    ensures IsValid(f, Trim(pointsAt)) ==> r == Trim(pointsAt)
  {
    var t := Trim(pointsAt);
    if IsValid(f, t) then t else ""
  }

  /** The tags `find` accepts: valid ones, other than the current tag when there is one. */
  predicate Accepts(f: TagFormatter, currentTag: string, t: string) {
    IsValid(f, t) && (currentTag != "" ==> t != currentTag)
  }

  /** Array.prototype.find over the listed tags, with the resolver's test. */
  function FindTag(f: TagFormatter, currentTag: string, tags: seq<string>): (r: Nullable<nat>)
    ensures r.Some? ==>
      r.value < |tags| && Accepts(f, currentTag, tags[r.value]) &&
      forall j :: 0 <= j < r.value ==> !Accepts(f, currentTag, tags[j])
    ensures r.Null? ==> forall j :: 0 <= j < |tags| ==> !Accepts(f, currentTag, tags[j])
    decreases |tags|
  {
    if tags == [] then Null
    else if Accepts(f, currentTag, tags[0]) then Some(0)
    else
      match FindTag(f, currentTag, tags[1..])
      case Null => Null
      case Some(i) => Some(i + 1)
  }

  /** `find` returns the first accepted line. */
  lemma {:induction false} FindTagFirst(f: TagFormatter, currentTag: string, tags: seq<string>, i: nat)
    requires i < |tags| && Accepts(f, currentTag, tags[i])
    requires forall j :: 0 <= j < i ==> !Accepts(f, currentTag, tags[j])
    ensures FindTag(f, currentTag, tags) == Some(i)
    decreases i
  {
    if i > 0 {
      var rest := tags[1..];
      assert rest[i - 1] == tags[i];
      forall j | 0 <= j < i - 1 ensures !Accepts(f, currentTag, rest[j]) {
        assert rest[j] == tags[j + 1];
      }
      FindTagFirst(f, currentTag, rest, i - 1);
      assert !Accepts(f, currentTag, tags[0]);
    }
  }

  lemma {:induction false} FindTagNone(f: TagFormatter, currentTag: string, tags: seq<string>)
    requires forall j :: 0 <= j < |tags| ==> !Accepts(f, currentTag, tags[j])
    ensures FindTag(f, currentTag, tags) == Null
    decreases |tags|
  {
    if tags != [] {
      FindTagNone(f, currentTag, tags[1..]);
    }
  }

  /**
    The try block: the listing split into lines, the count of lines, and
    the first accepted line trimmed ("" when none). A failed listing
    leaves the tag "" and the count 0.
   */
  function SelectTag(f: TagFormatter, currentTag: string, listing: Query): (r: (string, nat))
  {
    match listing
    case Failure(_) => ("", 0)
    case Output(text) =>
      var tags := Split(text, '\n');
      var found := FindTag(f, currentTag, tags);
      var tag := if found.Some? then tags[found.value] else "";
      (Trim(tag), |tags|)
  }

  /**
    ResolveAsync. A failing points-at query, remote query or merge-base,
    or a current or release tag Parse rejects, makes the whole resolution
    fail; a failing listing only means that no release tag is found.
   */
  function ResolveAsync(f: TagFormatter, git: GitView): (r: Result<Resolution>)
    ensures git.pointsAt.Failure? ==> r.Err?
    ensures r.Ok? ==>
      git.pointsAt.Output? &&
      (r.value.info.isTagged <==> IsValid(f, Trim(git.pointsAt.text))) &&
      (r.value.info.isTagged <==> r.value.info.current.Some?)
    ensures r.Ok? && r.value.info.isTagged ==>
      Parse(f, Trim(git.pointsAt.text)) == Ok(r.value.info.current.value)
  {
    match git.pointsAt
    case Failure(m) => Err(m)
    case Output(out) =>
      var currentTag := CurrentTag(f, out);
      var current := if currentTag != "" then Parse(f, currentTag) else Ok(Initial);
      if current.Err? then Err(current.error)
      else
        var currentVersion := if currentTag != "" then Some(current.value) else Null;
        var (tag, tagsCount) := SelectTag(f, currentTag, git.listing);
        Release(f, git, tag, tagsCount, currentVersion, currentTag != "")
  }

  /** The part after the try block: the release the selected tag names, or 0.0.0 when there is none. */
  function Release(f: TagFormatter, git: GitView, tag: string, tagsCount: nat,
                   currentVersion: Nullable<Version>, isTagged: bool): (r: Result<Resolution>)
    ensures r.Ok? ==> r.value.info.current == currentVersion && r.value.info.isTagged == isTagged
  {
    if tag == "" then
      match git.remote
      case Failure(m) => Err(m)
      case Output(remotes) =>
        var warning := if remotes == "" then Null
          else if tagsCount > 0 then Some(NoneValid(tagsCount)) else Some(NoTags);
        Ok(Resolution(ReleaseInformation(Initial, "", currentVersion, isTagged), warning))
    else
      var release := Parse(f, tag);
      if release.Err? then Err(release.error)
      else
        match git.mergeBase(tag)
        case Failure(m) => Err(m)
        case Output(root) =>
          Ok(Resolution(ReleaseInformation(release.value, Trim(root), currentVersion, isTagged), Null))
  }

  /** A warning comes only with no release tag and a remote, and names the count when there is one. */
  lemma ReleaseWarning(f: TagFormatter, git: GitView, tag: string, tagsCount: nat,
                       currentVersion: Nullable<Version>, isTagged: bool)
    requires Release(f, git, tag, tagsCount, currentVersion, isTagged).Ok?
    ensures var w := Release(f, git, tag, tagsCount, currentVersion, isTagged).value.warning;
      w.Some? ==>
        tag == "" && git.remote.Output? && git.remote.text != "" &&
        w.value == (if tagsCount > 0 then NoneValid(tagsCount) else NoTags)
  {
  }

  /** When ResolveAsync succeeds, it is Release applied to what the try block selected. */
  lemma ResolveIsRelease(f: TagFormatter, git: GitView)
    requires ResolveAsync(f, git).Ok?
    ensures git.pointsAt.Output?
    ensures var currentTag := CurrentTag(f, git.pointsAt.text);
      currentTag != "" ==> Parse(f, currentTag).Ok?
    ensures var currentTag := CurrentTag(f, git.pointsAt.text);
      var (tag, tagsCount) := SelectTag(f, currentTag, git.listing);
      var currentVersion := if currentTag != "" then Some(Parse(f, currentTag).value) else Null;
      ResolveAsync(f, git) == Release(f, git, tag, tagsCount, currentVersion, currentTag != "")
  {
  }

  // ---------------------------------------------------------------------------
  // Properties

  /** With a lead of one line, a valid tag is one line. */
  lemma ValidTagIsOneLine(f: TagFormatter, t: string)
    requires TagFormatProofs.SingleLine(Lead(f))
    ensures IsValid(f, t) ==> TagFormatProofs.SingleLine(t)
  {
    if IsValid(f, t) {
      TagFormatProofs.ValidTagSingleLine(f, t);
      forall i | 0 <= i < |t| ensures !IsLineTerminator(t[i]) {
        if i < |Lead(f)| {
          assert t[i] == Lead(f)[i];
        } else {
          assert t[i] == t[|Lead(f)|..][i - |Lead(f)|];
        }
      }
    }
  }

  /**
    When git names several tags on the current commit, one per line, the
    commit counts as untagged: a valid tag is a single line after the lead.
   */
  lemma SeveralTagsAreUntagged(f: TagFormatter, git: GitView, i: nat)
    requires TagFormatProofs.SingleLine(Lead(f))
    requires git.pointsAt.Output? && i < |Trim(git.pointsAt.text)|
    requires IsLineTerminator(Trim(git.pointsAt.text)[i])
    ensures ResolveAsync(f, git).Ok? ==> !ResolveAsync(f, git).value.info.isTagged
  {
    ValidTagIsOneLine(f, Trim(git.pointsAt.text));
  }

  /**
    The release found is the first listed line the resolver accepts
    (valid, and not the current tag), trimmed: its parsed version, and the
    merge base with the current commit as the commit to count from.
   */
  lemma ReleaseIsFirstAccepted(f: TagFormatter, git: GitView, i: nat)
    requires git.pointsAt.Output? && git.listing.Output?
    requires i < |Split(git.listing.text, '\n')|
    requires Accepts(f, CurrentTag(f, git.pointsAt.text), Split(git.listing.text, '\n')[i])
    requires forall j :: 0 <= j < i ==>
      !Accepts(f, CurrentTag(f, git.pointsAt.text), Split(git.listing.text, '\n')[j])
    ensures var tag := Trim(Split(git.listing.text, '\n')[i]);
      ResolveAsync(f, git).Ok? ==>
        Parse(f, tag).Ok? && git.mergeBase(tag).Output? &&
        ResolveAsync(f, git).value.info.version == Parse(f, tag).value &&
        ResolveAsync(f, git).value.info.hash == Trim(git.mergeBase(tag).text) &&
        ResolveAsync(f, git).value.warning == Null
  {
    var currentTag := CurrentTag(f, git.pointsAt.text);
    var line := Split(git.listing.text, '\n')[i];
    TagFormatProofs.ValidStartsWithDigit(f, line);
    DigitNotTrimmable(line[|Lead(f)|]);
    TrimKeepsSolid(line, |Lead(f)|);
    SelectFirst(f, currentTag, git.listing, i);
    if ResolveAsync(f, git).Ok? {
      ResolveIsRelease(f, git);
      var (tag, tagsCount) := SelectTag(f, currentTag, git.listing);
      ReleaseOfTag(f, git, tag, tagsCount, ResolveAsync(f, git).value.info.current, currentTag != "");
    }
  }

  /** The try block selects the first accepted line, trimmed. */
  lemma SelectFirst(f: TagFormatter, currentTag: string, listing: Query, i: nat)
    requires listing.Output? && i < |Split(listing.text, '\n')|
    requires Accepts(f, currentTag, Split(listing.text, '\n')[i])
    requires forall j :: 0 <= j < i ==> !Accepts(f, currentTag, Split(listing.text, '\n')[j])
    ensures SelectTag(f, currentTag, listing).0 == Trim(Split(listing.text, '\n')[i])
  {
    FindTagFirst(f, currentTag, Split(listing.text, '\n'), i);
  }

  /** A selected tag that resolves is the release: its parsed version and its trimmed merge base. */
  lemma ReleaseOfTag(f: TagFormatter, git: GitView, tag: string, tagsCount: nat,
                     currentVersion: Nullable<Version>, isTagged: bool)
    requires tag != ""
    ensures var r := Release(f, git, tag, tagsCount, currentVersion, isTagged);
      r.Ok? ==>
        Parse(f, tag).Ok? && git.mergeBase(tag).Output? &&
        r.value.info.version == Parse(f, tag).value &&
        r.value.info.hash == Trim(git.mergeBase(tag).text) &&
        r.value.warning == Null
  {
  }

  /**
    With no accepted line in the listing, or no listing at all, the release
    is 0.0.0 counted from the first commit (hash ""); a warning is logged
    exactly when the repository has a remote.
   */
  lemma NoReleaseIsInitial(f: TagFormatter, git: GitView)
    requires git.pointsAt.Output?
    requires git.listing.Output? ==>
      forall j :: 0 <= j < |Split(git.listing.text, '\n')| ==>
        !Accepts(f, CurrentTag(f, git.pointsAt.text), Split(git.listing.text, '\n')[j])
    ensures ResolveAsync(f, git).Ok? ==>
      var res := ResolveAsync(f, git).value;
      res.info.version == Initial && res.info.hash == "" &&
      git.remote.Output? && (res.warning.Some? <==> git.remote.text != "")
  {
    if git.listing.Output? {
      FindTagNone(f, CurrentTag(f, git.pointsAt.text), Split(git.listing.text, '\n'));
      assert Trim("") == "";
    }
    if ResolveAsync(f, git).Ok? {
      ResolveIsRelease(f, git);
    }
  }

  /**
    The warning names the number of listed lines when the listing
    succeeded, and says that there are no tags only when it failed. An
    empty listing is one empty line, so it is reported as one tag that is
    not valid.
   */
  lemma WarningKind(f: TagFormatter, git: GitView)
    requires ResolveAsync(f, git).Ok? && ResolveAsync(f, git).value.warning.Some?
    ensures git.listing.Output? ==>
      ResolveAsync(f, git).value.warning == Some(NoneValid(|Split(git.listing.text, '\n')|))
    ensures git.listing.Failure? ==> ResolveAsync(f, git).value.warning == Some(NoTags)
    ensures git.listing == Output("") ==> ResolveAsync(f, git).value.warning == Some(NoneValid(1))
  {
    ResolveIsRelease(f, git);
    var currentTag := CurrentTag(f, git.pointsAt.text);
    var (tag, tagsCount) := SelectTag(f, currentTag, git.listing);
    ReleaseWarning(f, git, tag, tagsCount, ResolveAsync(f, git).value.info.current, currentTag != "");
    assert Split("", '\n') == [""];
  }

  // ---------------------------------------------------------------------------
  // The newest release

  /** `a`'s major.minor.patch is not below `b`'s. */
  predicate TripleAtLeast(a: Version, b: Version) {
    a.major > b.major ||
    (a.major == b.major && (a.minor > b.minor || (a.minor == b.minor && a.patch >= b.patch)))
  }

  /** The accepted lines that Parse reads, in the listing's order. */
  predicate Readable(f: TagFormatter, currentTag: string, line: string) {
    Accepts(f, currentTag, line) && Parse(f, Trim(line)).Ok?
  }

  /**
    git lists the tags newest version first: among the accepted lines Parse
    reads, an earlier one is not below a later one.
   */
  predicate ListedNewestFirst(f: TagFormatter, currentTag: string, lines: seq<string>) {
    forall i, j :: 0 <= i < j < |lines| && Readable(f, currentTag, lines[i]) && Readable(f, currentTag, lines[j]) ==>
      TripleAtLeast(Parse(f, Trim(lines[i])).value, Parse(f, Trim(lines[j])).value)
  }

  /**
    With the listing newest version first, the release found is not below
    any tag the resolver would accept: it is the newest release merged into
    the current commit, other than the tag on the commit itself.
   */
  lemma ReleaseIsNewest(f: TagFormatter, git: GitView, j: nat)
    requires git.pointsAt.Output? && git.listing.Output?
    requires ListedNewestFirst(f, CurrentTag(f, git.pointsAt.text), Split(git.listing.text, '\n'))
    requires j < |Split(git.listing.text, '\n')|
    requires Readable(f, CurrentTag(f, git.pointsAt.text), Split(git.listing.text, '\n')[j])
    ensures ResolveAsync(f, git).Ok? ==>
      TripleAtLeast(ResolveAsync(f, git).value.info.version, Parse(f, Trim(Split(git.listing.text, '\n')[j])).value)
  {
    var currentTag := CurrentTag(f, git.pointsAt.text);
    var lines := Split(git.listing.text, '\n');
    var i := FirstAcceptedBefore(f, currentTag, lines, j);
    assert SelectTag(f, currentTag, git.listing) == (Trim(lines[i]), |lines|);
    if ResolveAsync(f, git).Ok? {
      ResolveIsRelease(f, git);
      var res := ResolveAsync(f, git).value;
      ReleaseVersion(f, git, Trim(lines[i]), |lines|, res.info.current, currentTag != "");
      assert i < j ==> Readable(f, currentTag, lines[i]);
    }
  }

  /** The line `find` picks, given that line `j` is accepted, comes no later than `j`. */
  lemma FirstAcceptedBefore(f: TagFormatter, currentTag: string, lines: seq<string>, j: nat) returns (i: nat)
    requires j < |lines| && Accepts(f, currentTag, lines[j])
    ensures i <= j && FindTag(f, currentTag, lines) == Some(i) && Accepts(f, currentTag, lines[i])
  {
    i := FindTag(f, currentTag, lines).value;
  }

  /** The release version is what Parse reads from the selected tag; "" reads as 0.0.0. */
  lemma ReleaseVersion(f: TagFormatter, git: GitView, tag: string, tagsCount: nat,
                       currentVersion: Nullable<Version>, isTagged: bool)
    requires Release(f, git, tag, tagsCount, currentVersion, isTagged).Ok?
    ensures Parse(f, tag).Ok?
    ensures Release(f, git, tag, tagsCount, currentVersion, isTagged).value.info.version == Parse(f, tag).value
  {
  }
}
