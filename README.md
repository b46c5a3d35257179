# monocloud-semver version engine in Dafny

This project models the engine of the semantic-version GitHub Action. The
engine works in these steps:

1. It finds the last release tag reachable from the current commit.
2. It classifies the commits made since that tag.
3. It decides the next version.
4. It renders the version as a version string and as a tag.
5. It assembles the action's result, including the list of authors.

Git, the regular-expression engine and the output plumbing are inputs. The
model proves the engine's properties over them.

Modules:

- `Js`: the JavaScript runtime behaviour the engine relies on. This covers:
  - `String.prototype.replace` with a string pattern: first occurrence only, with `$` substitutions;
  - `split` on one character, `trim`, `parseInt` (NaN when no digit follows), `lastIndexOf`, `reverse`;
  - number-to-string rendering;
  - the `Nullable` and `Result` wrappers.
- `Types`: the values passed between the components:
  - `VersionType`, `Version`, `CommitInfo`, `ReleaseInformation`, `VersionClassification`, `VersionInformation`;
  - JavaScript truthiness of `string | null` and `number | null`.
- `TagFormat`: the default tag formatter. It covers `Format`, `GetPattern`, `Parse` and `IsValid`. `IsValid` is the language of the anchored regular expression, as DefaultTagFormatter really builds it.
- `TagFormatProofs`: these facts about the tag formatter:
  - every written tag is valid and reads back through `Parse`;
  - the error and default cases of `Parse`;
  - the looseness of `IsValid`.
- `Glob` and `TagPatternProofs`: the part of git's wildcard matching the release pattern uses. They prove that the pattern selects every tag `Format` writes.
- `VersionFormat`: the version-string template. It makes eight first-occurrence replacements.
- `LastRelease`: the default last-release resolver. The git commands are answered by a `GitView`.
- `Classifier`: the default version classifier:
  - pattern parsing;
  - the next-version table;
  - the seven-loop commit scan, which reverses the caller's commit list in place (a `CommitInfoSet` class);
  - the tagged-commit override.
- `Authors`: how the result groups commits by author and sorts the authors by commit count.
- `Action`: `runAction`, as a method over a `Repository` snapshot.

## Model

| member | source | states |
|---|---|---|
| Js.ReplaceAbsent | src/formatting/DefaultVersionFormatter.ts:17-26 | `String.replace` with a string pattern that does not occur leaves the text unchanged |
| Js.ReplaceFirst | src/formatting/DefaultVersionFormatter.ts:17-26 | only the first occurrence is replaced: in `a + pattern + b` with no earlier occurrence, the result is `a + replacement + b` (no `$` in the replacement) |
| Js.ReplaceEmptyPattern | src/formatting/DefaultTagFormatter.ts:53-55 | an empty pattern inserts the replacement at index 0 (Parse with an empty prefix or namespace) |
| Js.SplitNoSeparator | src/providers/DefaultLastReleaseResolver.ts:30 | a text without the separator splits into itself alone |
| Js.SplitPieces | src/formatting/DefaultTagFormatter.ts:56-69 | no piece of a split holds the separator, and every character of a piece comes from the text |
| Js.SplitConcat | src/formatting/DefaultTagFormatter.ts:56-69 | splitting at a separator concatenates the splits of both sides |
| Js.JoinSplit | src/action.ts:55 | joining the pieces of a split with the separator gives the text back |
| Js.ParseInt | src/formatting/DefaultTagFormatter.ts:72-82 | a finite `parseInt` of a text without '-' is non-negative |
| Js.ParseIntOfDigitStart | src/formatting/DefaultTagFormatter.ts:80-82 | a text starting with a digit, and not with `0x`, reads as the value of its leading digit run |
| Js.ParseIntNatToString | src/formatting/DefaultTagFormatter.ts:80-82 | `parseInt` reads back every decimal text a natural number renders to |
| Js.ParseIntNumberToString | src/formatting/DefaultTagFormatter.ts:76 | a non-negative build, or NaN, reads back from its rendering |
| Js.Trim | src/providers/DefaultLastReleaseResolver.ts:11-13 | the result neither starts nor ends with whitespace or a line terminator, a text already so is unchanged, and no character is added |
| Js.TrimKeepsSolid | src/providers/DefaultLastReleaseResolver.ts:43 | a line holding a character `trim` keeps does not trim to the empty text, so an accepted tag stays non-empty |
| Js.LastIndexOf | src/providers/DefaultVersionClassifier.ts:34 | the index of the last occurrence, or -1 when the character is absent |
| Js.Reverse | src/providers/DefaultVersionClassifier.ts:79 | `reverse` puts element `i` at `n-1-i` |
| TagFormat.Format | src/formatting/DefaultTagFormatter.ts:24-36 | the tag starts with `namespace/prefix` (or the prefix alone) |
| TagFormatProofs.FormatShape | src/formatting/DefaultTagFormatter.ts:24-36 | a tag is the lead followed by `M.m.p`, with `-type.build` only when pre-releases are on and the type is non-empty |
| TagFormat.Parse | src/formatting/DefaultTagFormatter.ts:47-89 | `Parse("")` is 0.0.0 with no type or build; type and build are present together, and only with pre-releases on |
| TagFormat.ReadVersion | src/formatting/DefaultTagFormatter.ts:62-88 | reading the text after the prefix gives type and build together, only with pre-releases on |
| TagFormatProofs.ParseFailsOnNaN | src/formatting/DefaultTagFormatter.ts:84-86 | Parse fails exactly when the major, or a present minor or patch, reads as NaN |
| TagFormatProofs.MissingFieldsAreZero | src/formatting/DefaultTagFormatter.ts:80-82 | `M` reads as M.0.0 and `M.m` as M.m.0 |
| TagFormatProofs.ParseFormatRoundTrip | src/formatting/DefaultTagFormatter.ts:24-89 | Parse(Format(v)) gives v's triple, plus its type and build whenever Format wrote them. This holds for a prefix without '$'. With a namespace, the prefix must also hold no '/' or '!' and must not occur in the namespace. The type must be plain and the build non-negative or NaN |
| TagFormatProofs.SlashPrefixRoundTrip | src/main.test.ts:597-609 | with no namespace, the prefix "version/" is the lead and Parse(Format(v)) reads v back as above |
| TagFormatProofs.FormatIsValid | src/formatting/DefaultTagFormatter.ts:91-110 | every tag Format writes passes IsValid, given an alphanumeric type and a natural build |
| TagFormatProofs.LooseSeparators | src/formatting/DefaultTagFormatter.ts:99-109 | any character except a line terminator separates the numbers, because `\.` is cooked to `.` |
| TagFormatProofs.ValidTagSingleLine | src/formatting/DefaultTagFormatter.ts:91-110 | the text after the lead in a valid tag has no line terminator |
| TagFormat.IsValid | src/formatting/DefaultTagFormatter.ts:91-110 | an accepted tag starts with the lead and holds at least five characters after it |
| TagFormatProofs.ValidStartsWithDigit | src/formatting/DefaultTagFormatter.ts:97-109 | a valid tag is the lead followed by a digit |
| TagFormatProofs.NamespacedTagRejected | src/formatting/DefaultTagFormatter.ts:103-109 | with no namespace and an empty prefix, a tag of another namespace is not valid |
| TagFormat.GetPattern | src/formatting/DefaultTagFormatter.ts:38-45 | the pattern is the lead every tag of the family starts with, followed by `*[0-9].*[0-9].*[0-9]` |
| TagPatternProofs.VersionGlobItems | src/formatting/DefaultTagFormatter.ts:38-45 | the version glob reads as three `*[0-9]` fields separated by literal dots |
| TagPatternProofs.PatternMatchesFormat | src/formatting/DefaultTagFormatter.ts:24-45 | the pattern selects every tag Format writes, given a wildcard-free prefix and namespace, a '/'-free type and a numeric build |
| TagPatternProofs.PatternMatchHasLead | src/formatting/DefaultTagFormatter.ts:38-45 | every text the pattern selects starts with the lead |
| Glob.MatchesLiteral | src/formatting/DefaultTagFormatter.ts:38-45 | literal glob characters match exactly themselves, both ways |
| Glob.StarDigit | src/formatting/DefaultTagFormatter.ts:38-45 | `*[0-9]` takes a '/'-free text that ends in a digit |
| VersionFormat.FillVersion | src/formatting/DefaultVersionFormatter.ts:18-25 | the seven version fields replaced, first occurrence each, in the formatter's order; the separators are written only for a truthy type. Its properties are stated by the lemmas below |
| VersionFormat.Format | src/formatting/DefaultVersionFormatter.ts:17-27 | FillVersion, then the first `${increment}` replaced by the increment. Its properties are stated by the lemmas below |
| VersionFormat.PlainTemplateUnchanged | src/formatting/DefaultVersionFormatter.ts:17-26 | a template without '$' comes out verbatim |
| VersionFormat.DefaultFormatIsTagText | src/formatting/DefaultVersionFormatter.ts:17-26 | when type and build are present together and the type is non-empty, the default template writes the same text as the tag formatter with no prefix or namespace |
| VersionFormat.IncrementFormatAppendsCount | src/formatting/DefaultVersionFormatter.ts:17-26 | the `+${increment}` template writes the version text, then '+' and the decimal increment |
| VersionFormat.OnlyFirstOccurrenceFilled | src/formatting/DefaultVersionFormatter.ts:19 | a repeated `${major}` is filled the first time and left verbatim the second |
| VersionFormat.ReleaseWithIncrementText | src/main.test.ts:97-106 | the test template writes 0.0.1 with increment 1 as "0.0.1+1" |
| VersionFormat.PreReleaseWithIncrementText | src/main.test.ts:1085-1094 | the test template writes 0.0.1-pre.0 with increment 0 as "0.0.1-pre.0+0" |
| LastRelease.SelectTag | src/providers/DefaultLastReleaseResolver.ts:24-47 | the try block: the number of listed lines and the first accepted line, trimmed; a failed listing gives no tag and count 0. SelectFirst and WarningKind state its results |
| LastRelease.CurrentTag | src/providers/DefaultLastReleaseResolver.ts:11-15 | the current tag is the trimmed points-at output when IsValid accepts it, and "" otherwise |
| LastRelease.FindTag | src/providers/DefaultLastReleaseResolver.ts:32-40 | `find` gives the first listed line that is valid and differs from the current tag, or none |
| LastRelease.ResolveAsync | src/providers/DefaultLastReleaseResolver.ts:8-71 | a failed points-at query fails the resolution. `isTagged` holds exactly when the trimmed output is valid, and exactly when the current version is set. That version is Parse of the tag |
| LastRelease.Release | src/providers/DefaultLastReleaseResolver.ts:49-70 | the tail keeps the current version and the tagged flag |
| LastRelease.ReleaseWarning | src/providers/DefaultLastReleaseResolver.ts:49-61 | a warning comes only with no tag and a non-empty `git remote`. It names the tag count when there is one, else "no tags" |
| LastRelease.ReleaseVersion | src/providers/DefaultLastReleaseResolver.ts:62-68 | when the tail succeeds, the selected tag parses and the release version is its Parse |
| LastRelease.ReleaseIsFirstAccepted | src/providers/DefaultLastReleaseResolver.ts:24-70 | the release is Parse of the first accepted line, trimmed. The hash is the trimmed merge base, and there is no warning |
| LastRelease.NoReleaseIsInitial | src/providers/DefaultLastReleaseResolver.ts:49-64 | with no accepted line, or no listing, the release is 0.0.0 with hash "". A warning is logged exactly when `git remote` prints something |
| LastRelease.WarningKind | src/providers/DefaultLastReleaseResolver.ts:30-31 | the warning names the number of listed lines when the listing succeeded (an empty listing counts as 1), and says "no tags" only when it failed |
| LastRelease.SeveralTagsAreUntagged | src/providers/DefaultLastReleaseResolver.ts:11-17 | points-at output with a line break is not a valid tag, so the commit counts as untagged |
| LastRelease.ReleaseIsNewest | src/providers/DefaultLastReleaseResolver.ts:29-40 | if git lists the tags newest first, the release is not below any tag the resolver accepts |
| LastRelease.FirstAcceptedBefore | src/providers/DefaultLastReleaseResolver.ts:32-40 | `find` picks a line no later than any accepted line |
| Classifier.ParsePattern | src/providers/DefaultVersionClassifier.ts:32-46 | a `/source/flags` pattern tests the subject, and the body too when enabled, with the compiled expression, and fails when that does not compile. Any other pattern is a substring test |
| Classifier.RegexEndIsLastSlash | src/providers/DefaultVersionClassifier.ts:33-35 | in a regex literal, the closing '/' is the last '/' |
| Classifier.NewClassifier | src/providers/DefaultVersionClassifier.ts:20-30 | the constructor succeeds exactly when all seven patterns parse |
| Classifier.DefaultPatternsAreSubstrings | src/ActionConfig.ts:14-26 | the default patterns are substring tests |
| Classifier.GetNextVersion | src/providers/DefaultVersionClassifier.ts:48-72 | type and build are set together, exactly for pre-release changes or no change with pre-releases on. Bumps raise the triple, while release, and no change without pre-releases, keep it. Pre-release changes start build 0 under the old label or "pre" |
| Classifier.BumpResetsLowerFields | src/providers/DefaultVersionClassifier.ts:50-57 | major, minor and patch bump their field by one and reset the lower ones; release keeps the triple; none keeps a label |
| Classifier.BumpsAreOrdered | src/providers/DefaultVersionClassifier.ts:50-57 | from the same release: major > minor > patch > release |
| Classifier.PreBumpsShareTriple | src/providers/DefaultVersionClassifier.ts:58-63 | pre-major, pre-minor and pre-patch reach the triple of major, minor and patch |
| Classifier.NoChangeNextBuild | src/providers/DefaultVersionClassifier.ts:64-68 | with pre-releases on and no change, a labelled release moves to build+1 on the same triple. An unlabelled one goes to `M.m.(p+1)-pre.0`. In every case the triple is kept exactly when the type is truthy, otherwise major and minor stay and the patch goes up by one, and the build is the old one plus one (JS addition) or 0 when absent |
| Classifier.ApplyRules | src/providers/DefaultVersionClassifier.ts:79-137 | only the no-match fallback raises the changed flag, and then the increment is n-1. No change comes out only with pre-releases on or from a rule for no change |
| Classifier.CommitType | src/providers/DefaultVersionClassifier.ts:74-138 | an empty history is no change with increment 0 and the flag passed through. A non-empty one reports no change only with pre-releases on, and raises the flag only in the fallback, with increment n-1 |
| Classifier.LastMatch | src/providers/DefaultVersionClassifier.ts:79-135 | the index of the last commit a matcher accepts (the first in reversed order), or none |
| Classifier.FindFirst | src/providers/DefaultVersionClassifier.ts:81-87 | one loop: counting from 1, at the first accepted commit it answers the number of commits after it; it answers none when no commit is accepted |
| Classifier.FirstInReverse | src/providers/DefaultVersionClassifier.ts:79-87 | the loop over the reversed list answers the index of the last match in the original list |
| Classifier.TryRules | src/providers/DefaultVersionClassifier.ts:81-137 | the remaining loops decide as the rule table does |
| Classifier.ResolveCommitType | src/providers/DefaultVersionClassifier.ts:74-138 | the result is the rule-table outcome for the original commits. The set's list is left reversed and the changed flag is unchanged |
| Classifier.FirstRuleDecides | src/providers/DefaultVersionClassifier.ts:79-135 | the first kind, in the order major, minor, patch, release, pre-major, pre-minor, pre-patch, that matches any commit decides the type. Its increment counts the commits newer than the oldest match |
| Classifier.NoRuleDefault | src/providers/DefaultVersionClassifier.ts:137 | with no match: Patch (None with pre-releases on), increment n-1, changed true |
| Classifier.IncrementBelowCount | src/providers/DefaultVersionClassifier.ts:74-138 | on a non-empty history, 0 <= increment < n |
| Classifier.ClassifyAsync | src/providers/DefaultVersionClassifier.ts:140-163 | the classification for the old commits, with the commit list reversed in place |
| Classifier.Classify | src/providers/DefaultVersionClassifier.ts:140-163 | the increment is 0 or the resolved one. A tagged commit reports the tag's version with no change and the flag cleared. An untagged one reports the resolved kind of change, increment and flag, with the next version for that kind |
| Classifier.TaggedCommitKeepsTag | src/providers/DefaultVersionClassifier.ts:146-158 | on a tagged commit the tag's version is reported with type None and changed false. The increment is kept only when the computed version equals the tag |
| Classifier.NaNBuildTagResetsIncrement | src/providers/DefaultVersionClassifier.ts:156-157 | a tag whose build is NaN never matches (`NaN == x` is false), so its increment is 0 |
| Classifier.UntaggedCommitMovesOn | src/providers/DefaultVersionClassifier.ts:142-162 | on an untagged commit, the type, increment and flag are resolveCommitType's and the version is the next one for that type; increment < n, a bump raises the triple above the release, and type and build come together |
| Authors.Tally | src/action.ts:102-107 | the reduce's object: every entry counts at least one commit and at most all of them. TallyEntries states its keys and entries |
| Authors.Group | src/action.ts:102-110 | one entry per key in first-appearance order, with the first commit's name and email and the key's count. GroupAccountsForCommits and CountsCoverCommits state its properties |
| Authors.SortByCount | src/action.ts:109-111 | the stable sort by descending commit count, as insertion. SortIsStable and SortKeepsTotal state its properties |
| Authors.Keys | src/action.ts:102-107 | the grouping keys are listed each once |
| Authors.KeysAreKeys | src/action.ts:102-107 | the listed keys are exactly the keys of the commits |
| Authors.FirstIndex | src/action.ts:104 | the first commit with a key: no earlier commit has it. The entry's name and email are taken from it |
| Authors.GroupAuthors | src/action.ts:102-110 | the reduce over an insertion-ordered object gives one entry per key in first-appearance order, with the first commit's name and email and the key's commit count |
| Authors.Reduce | src/action.ts:102-107 | the reduce loop leaves the object built one commit at a time, and its keys in insertion order |
| Authors.TallyEntries | src/action.ts:102-107 | the object has an entry for exactly the keys of the commits. Each entry holds the name and email of the key's first commit and the key's commit count |
| Authors.GroupAccountsForCommits | src/action.ts:102-110 | every entry has at least one commit, every commit's key has an entry, entries have distinct keys, and the counts add up to the number of commits |
| Authors.CountsCoverCommits | src/action.ts:105 | the per-key counts add up to the number of commits |
| Authors.SortIsStable | src/action.ts:111 | the sort is descending by count and a permutation. Among equal counts it keeps the grouping's order |
| Authors.SortKeepsTotal | src/action.ts:111 | sorting keeps the total commit count |
| Action.RunAction | src/action.ts:8-142 | a bad pattern or unknown user format fails the run. An empty repository gives 0.0.0, increment 0, None, no authors and empty commits, with previousVersion `Parse(Format(0.0.0)).join(".")`. Otherwise the result copies the classification of the commits since the release and `isTagged` from the release. It also holds the formatted version and tag, the sorted authors of the reversed commits, the current commit, the release hash and the previous version |
| Action.EmptyRun | src/action.ts:26-57 | an empty repository fails exactly when its tag does not parse. Otherwise it gives 0.0.0, increment 0, None, no authors, empty commits, and previousVersion `Parse(Format(0.0.0)).join(".")` |
| Action.RepositoryRun | src/action.ts:59-71 | the run fails exactly when the current commit, the release resolution or the commit history fails. Otherwise the result describes the commits since the release |
| Action.Assemble | src/action.ts:73-142 | the result copies the classification and `isTagged`. It holds the formatted version and tag, the sorted authors of the reversed commits, the current commit, the release hash and the previous version |
| Action.JoinParsed | src/action.ts:55 | the parsed tag's five fields joined with '.', null fields as empty text. EmptyRepoPreviousVersion states its value for the empty repository |
| Action.LastReleaseVersion | src/action.ts:113-122 | the previous version starts with `M.m.p` and is exactly that when the build is falsy |
| Action.EmptyRepoPreviousVersion | src/action.ts:40-57 | the empty repository's tag is the lead plus "0.0.0", it reads back as 0.0.0, and its previous version is "0.0.0.." |
| Action.EmptyRepoDefaultVersion | src/action.ts:48 | the default template writes the empty repository's version as "0.0.0" |
| Action.EmptyRepoIncrementVersion | src/main.test.ts:85-94 | the test template writes the empty repository's version as "0.0.0+0" |
| Action.PreviousVersionIsTagText | src/action.ts:113-122 | with a non-empty type and a truthy build, or neither type nor build, the previous version is the tag text without prefix or namespace |
| Action.FalsyBuildIsDropped | src/action.ts:115 | a build of 0 or NaN drops the `-type.build` part, although the tag writes it |
| Action.PreviousVersionReadsBack | src/action.ts:113-122 | parsing the previous version with no prefix and pre-releases on gives the release back, for a plain type and a positive build |
| Action.AuthorsCoverCommits | src/action.ts:102-111 | the authors in the result account for every commit since the release |

## Left out

- Process I/O is not modelled: the git commands and the `CommandRunner`, and the GitHub API query for changed files. The model takes their answers as inputs: `GitView` for the release resolver, and `Repository` (empty flag, current commit, commit history) for `runAction`.
- The order of git's tag listing (`--sort=-v:*refname`) is not computed. `LastRelease.ReleaseIsNewest` takes "newest first" as a precondition.
- Regular-expression compilation and matching are an oracle (`RegexEngine`). The `lastIndex` state that the `g` flag keeps between calls to `test` is left out; each `test` is an independent oracle call.
- LastRelease.ResolveAsync: the `core.warning` output is returned as a `Warning` value rather than printed.
- `DebugManager` (debug output and replay) is not part of this model.
- The CSV and JSON user formatters are not part of this model. The result carries the sorted author list itself, and a user format type other than "json" or "csv" is an error.
- `BranchVersioningTagFormatter` and the branch-name lookup are not part of this model; the default tag formatter is always used. `src/main.ts` (input parsing and outputs) and `ConfigurationProvider` (a factory) are not modelled.
- Numbers are unbounded integers. JavaScript's floating-point limits are not modelled: precision above 2^53, and `parseInt` of very long digit runs.
- The glob matcher models only `*`, `[0-9]` and literal characters, with `*` not crossing '/'.
- Classifier.GetNextVersion: the `default` branch that throws on an unknown change type is left out. `VersionType` is a closed datatype, so that branch cannot be reached.
- Strings are sequences of characters. There is no UTF-16 surrogate handling.
- Classifier.ParsePattern: the regex-literal test `^\/.+\/[idgs]*$` is modelled directly (`IsRegexLiteral`). Its `.` excludes line terminators, as in JavaScript.
- TagFormat.Parse: `parseInt` results are read as natural numbers. No negative value can reach them, because the text is split at '-' first.
- The compiled `lib/*.js` copies are not modelled; the TypeScript sources are.
