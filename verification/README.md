# Chart version derivation of `publish-charts.py`, in Dafny

The chart publishing script of the capi-helm-charts repository stamps every chart it packages
with a version derived from Git: the most recent tag, the number of commits since that tag,
and the current branch. This project models that derivation, `get_version` together with its
pattern `SEMVER_REGEX`, as pure functions, and proves what the derivation does and what its
docstring promises.

The three `git` calls become inputs of `PublishCharts.DeriveVersion(tag, commits, branch)`:

- `tag` is the stripped output of `git describe --tags --abbrev=0`, or `None` when that command fails;
- `commits` is the count printed by `git rev-list --count` (since the tag, or over the whole branch when there is no tag);
- `branch` is the stripped output of `git rev-parse --abbrev-ref HEAD`.

The result is the version string, or the error `TagNotSemVer(tag)`, which stands for the
`RuntimeError` of line 83 (`Error.Message` spells out its text).

Modules, one per file:

- `Wrappers` (`wrappers.dfy`): the `Option` and `Result` types.
- `Ascii` (`ascii.dfy`): the character classes that appear in the pattern and in the branch substitution.
- `Decimal` (`decimal.dfy`): what `int()` does to a digit string and what `str()` writes for an integer.
- `Strings` (`strings.dfy`):
  - `'.'.join` and its inverse, splitting;
  - finding the first occurrence of a character;
  - the maximal run of characters in a class;
  - filtering by a character class.
- `BranchName` (`branch.dfy`): branch-name sanitisation (lines 97-99).
- `SemVerRegex` (`semver_regex.dfy`): `re.search(SEMVER_REGEX, tag)`, modelled as a backtracking search in the order Python's engine tries the alternatives.
- `SemVer` (`semver.dfy`): Semantic Versioning 2.0.0, used as the reference for "SemVer-compliant":
  - the version grammar of sections 2 and 9, as a parser and a formatter;
  - precedence, section 11.
- `PublishCharts` (`get_version.dfy`): `get_version` itself.
- `VersionOrdering` (`ordering.dfy`): the docstring's two promises, SemVer compliance and correct ordering per branch, each with the conditions under which it holds.
- `Scenarios` (`scenarios.dfy`): worked inputs.

Where the code and its description differ, the model follows the code:

- The two dots in `SEMVER_REGEX` are not escaped, so each one matches any character except a
  newline. The tag `1.2345` therefore matches as major 1, minor 23, patch 5: the `4` serves as
  the second separator (`Scenarios.UnescapedDotsExample`). `12345` also matches, as 1.3.5.
- With no tag, the script's comment says the version starts from 0.1.0. That holds only once
  there is a commit. With a count of zero, the patch stays at -1 and the output is `0.1.-1`,
  which is not SemVer (`VersionOrdering.NoTagNoCommitsIsNotSemVer`). Real Git cannot reach this
  case: `git rev-list --count HEAD` fails in a repository without commits.
- The docstring promises a SemVer-compliant version. The derivation keeps that promise only when
  the tag's prerelease is made of valid SemVer identifiers and the sanitised branch name is a
  valid identifier:
  - The pattern lets a tag like `1.2.3-01..x` through.
  - A branch such as `__` sanitises to nothing, which leaves an empty identifier
    (`VersionOrdering.EmptySanitisedBranchIsNotSemVer`).
  - A branch such as `0123` sanitises to a numeric identifier with a leading zero.

  `VersionOrdering.DerivedVersionIsSemVer` and `VersionOrdering.MoreCommitsRankHigher` state
  these conditions as preconditions.

## Model

| member | source | states |
|---|---|---|
| PublishCharts.StartingParts | scripts/publish-charts.py:68-87 | On success the major and minor are non-negative, and any prerelease captured is non-empty. The patch is non-negative, except without a tag, where it is -1 and there is no prerelease. |
| PublishCharts.StartingPartsCases | scripts/publish-charts.py:72-83 | Without a tag the parts are 0, 1 and -1, with no prerelease. The result is a failure if and only if there is a tag and the search finds no match in it. The error then names that tag. |
| PublishCharts.FailsExactlyOnUnmatchedTag | scripts/publish-charts.py:81-83 | The derivation fails if and only if there is a tag and the pattern cannot match it in any way. The error then names that tag. A missing tag never fails. |
| PublishCharts.TagParts | scripts/publish-charts.py:81-87 | For a tag `v?M.m.p[-pre]` with literal dots, the parts are the values `int()` gives the three digit groups, and the prerelease exactly as written. |
| PublishCharts.ZeroCommitsKeepTheTag | scripts/publish-charts.py:84-106 | For a tag `v?M.m.p[-pre]` written with literal dots and no commits since it, the version is the tag without its `v`. Each number is re-spelled by `int()` and `str()`, so leading zeros go. The prerelease is kept. |
| PublishCharts.ZeroCommitsCanonicalTagVerbatim | scripts/publish-charts.py:84-106 | With no commits, a tag whose numbers have no leading zeros comes back verbatim, minus the `v`. |
| PublishCharts.DevelopmentVersionText | scripts/publish-charts.py:91-106 | With commits, the text is the numbers, then `-`, then the prerelease or `dev.0`, then `.`, the sanitised branch, `.` and the commit count. The patch is one higher exactly when there was no prerelease. |
| PublishCharts.ReleaseDevelopmentVersion | scripts/publish-charts.py:91-106 | For any accepted tag without a prerelease (or no tag) and a positive count, the patch is bumped and the prerelease is `dev.0.<sanitised branch>.<count>`. |
| PublishCharts.CommitsAfterReleaseBumpPatch | scripts/publish-charts.py:91-106 | Commits after a release tag give the next patch, with prerelease `dev.0.<sanitised branch>.<count>`. |
| PublishCharts.CommitsAfterPrereleaseExtendIt | scripts/publish-charts.py:91-106 | Commits after a prerelease tag keep the numbers and extend the tag's prerelease with the sanitised branch and the count. |
| PublishCharts.NoTagStartsAtZeroOneZero | scripts/publish-charts.py:72-106 | Without a tag, `n > 0` commits give `0.1.0-dev.0.<sanitised branch>.<n>`, and zero commits give the literal `0.1.-1`. |
| PublishCharts.SuffixExactlyWhenNeeded | scripts/publish-charts.py:91-106 | For any accepted tag (or no tag, with commits), the version begins with the three numbers, the patch bumped when there are commits and no prerelease. It carries a `-` suffix if and only if the tag had a prerelease or there are commits. With commits, it ends in `.` followed by the count. |
| BranchName.Sanitise | scripts/publish-charts.py:97-99 | Every character of a sanitised branch name is in `[a-z0-9-]`. |
| BranchName.DeleteRuns | scripts/publish-charts.py:99 | Deleting maximal runs of `[^a-zA-Z0-9-]` leaves only characters of `[a-zA-Z0-9-]`. |
| BranchName.DeleteRunsIsFilter | scripts/publish-charts.py:99 | Deleting maximal runs is the same as dropping each character outside the class, one at a time. |
| BranchName.SanitiseIsLowerThenFilter | scripts/publish-charts.py:97-99 | Sanitising equals lower-casing the name and then keeping exactly its `[a-z0-9-]` characters, in order. |
| BranchName.SanitiseFixedPoints | scripts/publish-charts.py:97-99 | A name is left unchanged if and only if all its characters are in `[a-z0-9-]`. |
| BranchName.SanitiseIdempotent | scripts/publish-charts.py:97-99 | Sanitising twice is the same as sanitising once. |
| SemVerRegex.Search | scripts/publish-charts.py:58 | A match consumes the whole tag: optional `v`, three non-empty digit groups, two non-newline separators, then an optional `-` and non-empty `[a-zA-Z0-9.-]` prerelease. A newline is allowed only at the very end. |
| SemVerRegex.MatchGroups | scripts/publish-charts.py:58 | Each digit group found is non-empty, and the rest of the pattern matches after it. The text consumed is the group followed by that continuation. |
| SemVerRegex.MatchTail | scripts/publish-charts.py:58 | `(-(?P<prerelease>…))?$` accepts exactly the optional dash-and-prerelease followed by the end of the string or a final newline. |
| SemVerRegex.SearchFindsEveryMatch | scripts/publish-charts.py:58 | The backtracking search never misses. If any split of the tag fits the pattern, the search returns a match. |
| SemVerRegex.SearchSucceedsIffMatches | scripts/publish-charts.py:81-82 | `re.search` returns a match if and only if the pattern can match the tag in some way. |
| SemVerRegex.SearchNaturalSplit | scripts/publish-charts.py:58 | When both separators are non-digits, the search returns exactly the split the tag was written with. |
| Decimal.NatToString | scripts/publish-charts.py:100 | `str()` of a count is a digit string without leading zeros whose value is the count. |
| Decimal.IntToString | scripts/publish-charts.py:103 | `str()` of a non-negative number is its canonical numeral. A negative number gets a `-` before the numeral of its magnitude. |
| Decimal.CanonicalRoundTrip | scripts/publish-charts.py:84-86 | `str(int(d))` gives back `d` for every digit string without leading zeros. |
| Decimal.LeadingZeroIgnored | scripts/publish-charts.py:84-86 | `int()` ignores a leading zero. |
| Strings.Split | scripts/publish-charts.py:100 | Splitting at `.` gives non-empty lists of dot-free fields that `'.'.join` puts back together. |
| Strings.SplitJoin | scripts/publish-charts.py:100 | Joining dot-free fields and splitting the result gives the fields back. |
| Strings.SplitAppendTwo | scripts/publish-charts.py:100 | Joining a base with two dot-free fields adds exactly those two fields to the base's own fields. |
| SemVer.Parse | scripts/publish-charts.py:12-13 | Parsing succeeds only on the formatted text of a valid SemVer 2.0.0 version, and returns that version. |
| SemVer.ParseFormat | scripts/publish-charts.py:12-13 | Every valid version, once formatted, parses back to itself. |
| SemVer.PrecedesIrreflexive | scripts/publish-charts.py:65-66 | No version precedes itself. |
| SemVer.PrecedesTransitive | scripts/publish-charts.py:65-66 | SemVer precedence is transitive. |
| SemVer.PrecedesTotal | scripts/publish-charts.py:65-66 | Of two distinct valid versions, one precedes the other. |
| SemVer.IdentifiersLessExtension | scripts/publish-charts.py:65-66 | A prerelease with more identifiers after a shared start ranks higher. |
| SemVer.IdentifiersLessCommonPrefix | scripts/publish-charts.py:65-66 | A shared leading list of identifiers leaves the comparison to what follows it. |
| VersionOrdering.RenderIsFormat | scripts/publish-charts.py:102-106 | Parts with valid identifiers render to exactly the SemVer text of the version they denote. |
| VersionOrdering.DevelopmentIdentifiers | scripts/publish-charts.py:100 | With commits, the prerelease identifiers are the tag's own, or `dev` and `0`, then the sanitised branch, then the count. |
| VersionOrdering.DevelopmentPartsValid | scripts/publish-charts.py:91-100 | Adding development information keeps the numbers non-negative and the identifiers valid, provided the branch sanitises to a valid identifier. |
| VersionOrdering.DerivedVersionIsSemVer | scripts/publish-charts.py:61-63 | For a SemVer tag, a valid sanitised branch, and not the tagless zero-commit case, the version is valid SemVer. It parses back to the numbers and identifiers it was built from. |
| VersionOrdering.MoreCommitsRankHigher | scripts/publish-charts.py:65-66 | Given no tag, or a tag the pattern accepts whose captured prerelease (if any) is a valid SemVer prerelease; a branch that sanitises to a valid SemVer identifier (so not `__`); and a smaller count that is positive when there is no tag: with the tag and branch fixed, more commits give strictly higher SemVer precedence, and any commit outranks the tag itself. |
| VersionOrdering.NoTagNoCommitsIsNotSemVer | scripts/publish-charts.py:72-78 | Without a tag and without commits, the output is `0.1.-1`, which SemVer parsing rejects. |
| VersionOrdering.EmptySanitisedBranchIsNotSemVer | scripts/publish-charts.py:97-100 | A branch that sanitises to nothing, with commits, yields a version that SemVer parsing rejects. |
| Scenarios.ReleaseTagExample | scripts/publish-charts.py:84-106 | `v1.2.3` with no commits gives `1.2.3`. |
| Scenarios.CommitsOnMainExample | scripts/publish-charts.py:91-106 | `v1.2.3` with 4 commits on `main` gives `1.2.4-dev.0.main.4`. |
| Scenarios.CommitsAfterBetaExample | scripts/publish-charts.py:91-106 | `v2.0.0-beta.1` with 2 commits on `Release/2.0` gives `2.0.0-beta.1.release20.2`. |
| Scenarios.FeatureBranchExample | scripts/publish-charts.py:97-99 | `feature/ABC_123!` sanitises to `featureabc123`. |
| Scenarios.UnescapedDotsSearch | scripts/publish-charts.py:58 | The search reads `1.2345` as 1, `.`, 23, `4`, 5. |
| Scenarios.UnescapedDotsExample | scripts/publish-charts.py:58-106 | The tag `1.2345` yields the version `1.23.5`. |
| Scenarios.UnmatchedTags | scripts/publish-charts.py:81-83 | `release-1` and `1.2.3-` are both rejected with the error naming them. |

## Left out

- `cmd` (scripts/publish-charts.py:48-53): the subprocess calls. Their outputs, already stripped of surrounding whitespace, are the inputs `tag`, `commits` and `branch`. A failing `git rev-list` or `git rev-parse`, and a count that `int()` cannot read, are not modelled.
- `working_directory` (lines 32-45), `setup_publish_branch` (lines 109-148) and `main` (lines 151-194): they change directories, use the environment, and run `git` and `helm`. They contain no version logic.
- The branch name is read only when there are commits. The model takes it as an input in every case, and it has no effect when the count is zero.
- BranchName.LowerAll: `str.lower()` is modelled on ASCII only. Python's full Unicode lower-casing can also turn a few non-ASCII letters (such as the Kelvin sign) into ASCII ones, which would then survive the substitution.
- SemVerRegex.Search: models this one pattern, not a general regular-expression engine. Named groups are fields of `Match`.
- SemVer.Parse: build metadata (section 10 of Semantic Versioning 2.0.0) is not modelled, because the script never writes a `+`.
- The `RuntimeError` is modelled as the `Failure` value of the result rather than as an exception.
