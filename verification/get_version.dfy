/** `get_version` (scripts/publish-charts.py lines 61-106): the chart version derived from the
    latest tag, the number of commits since it, and the current branch. The three `git` calls
    become parameters: `tag` is the stripped output of `git describe --tags --abbrev=0`, or
    `None` when that command fails; `commits` is the count `git rev-list --count` prints (since
    the tag, or on the whole branch when there is no tag); `branch` is the stripped output of
    `git rev-parse --abbrev-ref HEAD`, which the script only asks for when `commits > 0`. */
module PublishCharts {
  import opened Wrappers
  import opened Ascii
  import opened Decimal
  import opened Strings
  import opened BranchName
  import SemVerRegex
  import SemVer

  /** The `RuntimeError` raised for a tag the pattern does not match (line 83). */
  datatype Error = TagNotSemVer(tag: string) {
    function Message(): string {
      "Tag is not a valid SemVer version - " + tag
    }
  }

  /** The variables `major_vn`, `minor_vn`, `patch_vn` and `prerelease_vn`. The patch is an
      `int`: with no tag it starts at -1. */
  datatype Parts = Parts(major: int, minor: int, patch: int, prerelease: Option<string>)

  /** Python truthiness of `prerelease_vn` (lines 93, 100 and 104): `None` and `""` are false. */
  predicate HasPrerelease(p: Option<string>) {
    p.Some? && |p.value| > 0
  }

  /** Lines 68-87: the starting parts, from the tag through the pattern and `int()`, or the
      fixed `0.1.-1` when there is no tag. */
  function StartingParts(tag: Option<string>): (r: Result<Parts, Error>)
    ensures r.Success? ==> r.value.major >= 0 && r.value.minor >= 0
    ensures r.Success? ==> r.value.patch >= 0 || (tag.None? && r.value.patch == -1 && r.value.prerelease.None?)
    ensures r.Success? && r.value.prerelease.Some? ==> |r.value.prerelease.value| > 0
  {
    match tag
    case None => Success(Parts(0, 1, -1, None))
    case Some(t) =>
      match SemVerRegex.Search(t)
      case None => Failure(TagNotSemVer(t))
      case Some(m) => Success(Parts(DigitsValue(m.major), DigitsValue(m.minor), DigitsValue(m.patch), m.prerelease))
  }

  /** Lines 72-83: no tag starts the count at 0.1.-1, and a tag fails exactly when the search
      finds no match in it, with an error that names the tag. */
  lemma StartingPartsCases(tag: Option<string>)
    ensures tag.None? ==> StartingParts(tag) == Success(Parts(0, 1, -1, None))
    ensures StartingParts(tag).Failure? <==> tag.Some? && SemVerRegex.Search(tag.value).None?
    ensures StartingParts(tag).Failure? ==> StartingParts(tag).error == TagNotSemVer(tag.value)
  {
  }

  /** Lines 91-100: with commits since the tag, bump the patch unless there is a prerelease, and
      extend the prerelease (or `dev.0`) with the sanitised branch and the commit count. */
  function AddDevelopmentInfo(p: Parts, commits: nat, branch: string): Parts {
    if commits > 0 then
      var patch := if !HasPrerelease(p.prerelease) then p.patch + 1 else p.patch;
      var base := if HasPrerelease(p.prerelease) then p.prerelease.value else "dev.0";
      Parts(p.major, p.minor, patch, Some(Join([base, Sanitise(branch), NatToString(commits)], '.')))
    else p
  }

  /** Lines 103-106: `f"{major}.{minor}.{patch}"`, then `-prerelease` when there is one. */
  function Render(p: Parts): string {
    IntToString(p.major) + "." + IntToString(p.minor) + "." + IntToString(p.patch)
      + (if HasPrerelease(p.prerelease) then "-" + p.prerelease.value else "")
  }

  /** `get_version()`. */
  function DeriveVersion(tag: Option<string>, commits: nat, branch: string): Result<string, Error> {
    var start :- StartingParts(tag);
    Success(Render(AddDevelopmentInfo(start, commits, branch)))
  }

  /** The tag `v?MAJOR.MINOR.PATCH[-PRERELEASE]` with literal dots. */
  function Tag(hasV: bool, major: string, minor: string, patch: string, prerelease: Option<string>): string {
    SemVerRegex.Spelling(SemVerRegex.Match(hasV, major, '.', minor, '.', patch, prerelease, false))
  }

  function PrereleaseSuffix(prerelease: Option<string>): string {
    if prerelease.Some? then "-" + prerelease.value else ""
  }

  /** The tag's parts as the pattern and `int()` read them. */
  lemma TagParts(hasV: bool, major: string, minor: string, patch: string, prerelease: Option<string>)
    requires IsDigits(major) && IsDigits(minor) && IsDigits(patch)
    requires prerelease.Some? ==> SemVerRegex.IsPrerelease(prerelease.value)
    ensures StartingParts(Some(Tag(hasV, major, minor, patch, prerelease)))
      == Success(Parts(DigitsValue(major), DigitsValue(minor), DigitsValue(patch), prerelease))
  {
    SemVerRegex.SearchNaturalSplit(SemVerRegex.Match(hasV, major, '.', minor, '.', patch, prerelease, false));
  }

  /** A tag the pattern cannot match fails the derivation with an error that names the tag; a
      missing tag and a matching tag never fail. */
  lemma FailsExactlyOnUnmatchedTag(tag: Option<string>, commits: nat, branch: string)
    ensures DeriveVersion(tag, commits, branch).Failure? <==> tag.Some? && !SemVerRegex.Matches(tag.value)
    ensures DeriveVersion(tag, commits, branch).Failure? ==> DeriveVersion(tag, commits, branch).error == TagNotSemVer(tag.value)
  {
    if tag.Some? {
      SemVerRegex.SearchSucceedsIffMatches(tag.value);
    }
  }

  /** For non-negative parts the rendering spells each number with `str()`. */
  lemma RenderNonNegative(p: Parts)
    requires p.major >= 0 && p.minor >= 0 && p.patch >= 0
    ensures Render(p) == NatToString(p.major) + "." + NatToString(p.minor) + "." + NatToString(p.patch)
      + (if HasPrerelease(p.prerelease) then "-" + p.prerelease.value else "")
  {
  }

  /** With no commits since the tag, the version is the tag without its `v`, each number
      rewritten by `int()` and `str()` (so leading zeros go), and the prerelease kept. */
  lemma ZeroCommitsKeepTheTag(hasV: bool, major: string, minor: string, patch: string, prerelease: Option<string>, branch: string)
    requires IsDigits(major) && IsDigits(minor) && IsDigits(patch)
    requires prerelease.Some? ==> SemVerRegex.IsPrerelease(prerelease.value)
    ensures DeriveVersion(Some(Tag(hasV, major, minor, patch, prerelease)), 0, branch)
      == Success(NatToString(DigitsValue(major)) + "." + NatToString(DigitsValue(minor)) + "."
                 + NatToString(DigitsValue(patch)) + PrereleaseSuffix(prerelease))
  {
    var p := Parts(DigitsValue(major), DigitsValue(minor), DigitsValue(patch), prerelease);
    TagParts(hasV, major, minor, patch, prerelease);
    DeriveFromStart(Some(Tag(hasV, major, minor, patch, prerelease)), 0, branch, p);
    assert AddDevelopmentInfo(p, 0, branch) == p;
    RenderNonNegative(p);
  }

  /** A tag already written without leading zeros comes back verbatim, minus the `v`. */
  lemma ZeroCommitsCanonicalTagVerbatim(hasV: bool, major: string, minor: string, patch: string, prerelease: Option<string>, branch: string)
    requires IsCanonicalDigits(major) && IsCanonicalDigits(minor) && IsCanonicalDigits(patch)
    requires prerelease.Some? ==> SemVerRegex.IsPrerelease(prerelease.value)
    ensures DeriveVersion(Some(Tag(hasV, major, minor, patch, prerelease)), 0, branch)
      == Success(Tag(false, major, minor, patch, prerelease))
  {
    ZeroCommitsKeepTheTag(hasV, major, minor, patch, prerelease, branch);
    CanonicalRoundTrip(major);
    CanonicalRoundTrip(minor);
    CanonicalRoundTrip(patch);
    TagWithoutV(major, minor, patch, prerelease);
  }

  lemma TagWithoutV(major: string, minor: string, patch: string, prerelease: Option<string>)
    ensures Tag(false, major, minor, patch, prerelease) == major + "." + minor + "." + patch + PrereleaseSuffix(prerelease)
  {
    var tail := SemVerRegex.TailSpelling(SemVerRegex.Tail(prerelease, false));
    assert tail == PrereleaseSuffix(prerelease);
    assert Tag(false, major, minor, patch, prerelease) == "" + major + ['.'] + minor + ['.'] + patch + tail;
  }


  lemma DevelopmentTextShape(core: string, base: string, san: string, n: string)
    ensures core + ("-" + (base + ['.'] + san + ['.'] + n)) == core + "-" + base + "." + san + "." + n
  {
  }

  /** The derivation continues from the starting parts whenever the tag is usable. */
  lemma DeriveFromStart(tag: Option<string>, commits: nat, branch: string, p: Parts)
    requires StartingParts(tag) == Success(p)
    ensures DeriveVersion(tag, commits, branch) == Success(Render(AddDevelopmentInfo(p, commits, branch)))
  {
  }

  /** The text of a development version: the numbers, then the prerelease (or `dev.0`), the
      sanitised branch and the commit count. */
  lemma DevelopmentVersionText(p: Parts, commits: nat, branch: string)
    requires p.major >= 0 && p.minor >= 0
    requires p.patch >= 0 || (p.patch == -1 && !HasPrerelease(p.prerelease))
    requires commits > 0
    ensures var patch := if HasPrerelease(p.prerelease) then p.patch else p.patch + 1;
            var base := if HasPrerelease(p.prerelease) then p.prerelease.value else "dev.0";
            patch >= 0 &&
            Render(AddDevelopmentInfo(p, commits, branch))
              == NatToString(p.major) + "." + NatToString(p.minor) + "." + NatToString(patch)
                 + "-" + base + "." + Sanitise(branch) + "." + NatToString(commits)
  {
    var base := if HasPrerelease(p.prerelease) then p.prerelease.value else "dev.0";
    var patch := if HasPrerelease(p.prerelease) then p.patch else p.patch + 1;
    var san, n := Sanitise(branch), NatToString(commits);
    JoinThree(base, san, n, '.');
    var pre := base + ['.'] + san + ['.'] + n;
    var q := Parts(p.major, p.minor, patch, Some(pre));
    assert AddDevelopmentInfo(p, commits, branch) == q;
    var a, b, c := NatToString(p.major), NatToString(p.minor), NatToString(patch);
    assert Render(q) == a + "." + b + "." + c + ("-" + pre);
    DevelopmentTextShape(a + "." + b + "." + c, base, san, n);
  }

  /** Any tag without a prerelease (or no tag), followed by commits: the patch is bumped and the
      prerelease is `dev.0`, the sanitised branch and the count. `p` names the tag's parts. */
  lemma ReleaseDevelopmentVersion(tag: Option<string>, p: Parts, commits: nat, branch: string)
    requires StartingParts(tag) == Success(p) && p.prerelease.None?
    requires commits > 0
    ensures DeriveVersion(tag, commits, branch)
      == Success(NatToString(p.major) + "." + NatToString(p.minor) + "." + NatToString(p.patch + 1)
                 + "-" + "dev.0" + "." + Sanitise(branch) + "." + NatToString(commits))
  {
    DeriveFromStart(tag, commits, branch, p);
    ReleasePartsText(p, commits, branch);
  }

  /** `DevelopmentVersionText` for parts without a prerelease. */
  lemma ReleasePartsText(p: Parts, commits: nat, branch: string)
    requires p.major >= 0 && p.minor >= 0 && p.patch >= -1 && p.prerelease.None?
    requires commits > 0
    ensures Render(AddDevelopmentInfo(p, commits, branch))
      == NatToString(p.major) + "." + NatToString(p.minor) + "." + NatToString(p.patch + 1)
         + "-" + "dev.0" + "." + Sanitise(branch) + "." + NatToString(commits)
  {
    assert !HasPrerelease(p.prerelease);
    DevelopmentVersionText(p, commits, branch);
  }

  /** Commits after a release tag: the next patch, as a `dev.0` prerelease tagged with the
      sanitised branch and the commit count. */
  lemma CommitsAfterReleaseBumpPatch(hasV: bool, major: string, minor: string, patch: string, commits: nat, branch: string)
    requires IsDigits(major) && IsDigits(minor) && IsDigits(patch)
    requires commits > 0
    ensures DeriveVersion(Some(Tag(hasV, major, minor, patch, None)), commits, branch)
      == Success(NatToString(DigitsValue(major)) + "." + NatToString(DigitsValue(minor)) + "."
                 + NatToString(DigitsValue(patch) + 1) + "-" + "dev.0" + "." + Sanitise(branch) + "." + NatToString(commits))
  {
    ReleaseTagNumbers(hasV, major, minor, patch);
    ReleaseFromNumbers(Some(Tag(hasV, major, minor, patch, None)), DigitsValue(major), DigitsValue(minor), DigitsValue(patch), commits, branch);
  }

  /** `TagParts` for a release tag. */
  lemma ReleaseTagNumbers(hasV: bool, major: string, minor: string, patch: string)
    requires IsDigits(major) && IsDigits(minor) && IsDigits(patch)
    ensures StartingParts(Some(Tag(hasV, major, minor, patch, None)))
      == Success(Parts(DigitsValue(major), DigitsValue(minor), DigitsValue(patch), None))
  {
    TagParts(hasV, major, minor, patch, None);
  }

  /** `ReleaseDevelopmentVersion` with the tag's three numbers named. */
  lemma ReleaseFromNumbers(tag: Option<string>, major: nat, minor: nat, patch: nat, commits: nat, branch: string)
    requires StartingParts(tag) == Success(Parts(major, minor, patch, None))
    requires commits > 0
    ensures DeriveVersion(tag, commits, branch)
      == Success(NatToString(major) + "." + NatToString(minor) + "." + NatToString(patch + 1)
                 + "-" + "dev.0" + "." + Sanitise(branch) + "." + NatToString(commits))
  {
    ReleaseDevelopmentVersion(tag, Parts(major, minor, patch, None), commits, branch);
  }

  /** Commits after a prerelease tag: the same numbers, the prerelease extended with the
      sanitised branch and the commit count. */
  lemma CommitsAfterPrereleaseExtendIt(hasV: bool, major: string, minor: string, patch: string, prerelease: string, commits: nat, branch: string)
    requires IsDigits(major) && IsDigits(minor) && IsDigits(patch)
    requires SemVerRegex.IsPrerelease(prerelease)
    requires commits > 0
    ensures DeriveVersion(Some(Tag(hasV, major, minor, patch, Some(prerelease))), commits, branch)
      == Success(NatToString(DigitsValue(major)) + "." + NatToString(DigitsValue(minor)) + "."
                 + NatToString(DigitsValue(patch)) + "-" + prerelease + "." + Sanitise(branch) + "." + NatToString(commits))
  {
    var p := Parts(DigitsValue(major), DigitsValue(minor), DigitsValue(patch), Some(prerelease));
    TagParts(hasV, major, minor, patch, Some(prerelease));
    DeriveFromStart(Some(Tag(hasV, major, minor, patch, Some(prerelease))), commits, branch, p);
    DevelopmentVersionText(p, commits, branch);
  }

  /** Without a tag: `0.1.0-dev.0.<branch>.<n>` after `n > 0` commits, and the literal `0.1.-1`
      with none. */
  lemma NoTagStartsAtZeroOneZero(commits: nat, branch: string)
    ensures DeriveVersion(None, commits, branch)
      == Success(if commits > 0 then "0.1.0" + "-" + "dev.0" + "." + Sanitise(branch) + "." + NatToString(commits) else "0.1.-1")
  {
    var p := Parts(0, 1, -1, None);
    DeriveFromStart(None, commits, branch, p);
    assert NatToString(0) == "0" && NatToString(1) == "1";
    if commits > 0 {
      DevelopmentVersionText(p, commits, branch);
      assert NatToString(0) + "." + NatToString(1) + "." + NatToString(0) == "0.1.0";
    } else {
      assert IntToString(-1) == "-1";
      assert AddDevelopmentInfo(p, commits, branch) == p;
      assert IntToString(0) == "0";
      assert IntToString(1) == "1";
      assert !HasPrerelease(p.prerelease);
      assert Render(p) == "0" + "." + "1" + "." + "-1" + "";
      assert Render(p) == "0.1.-1";
    }
  }

  /** `v` is `core`, followed by a suffix that starts with `-` exactly when `suffixed`. */
  predicate CoreThenSuffix(v: string, core: string, suffixed: bool) {
    && core <= v
    && (v == core <==> !suffixed)
    && (v != core ==> |core| < |v| && v[|core|] == '-')
  }

  predicate EndsWith(v: string, tail: string) {
    |tail| <= |v| && v[|v| - |tail|..] == tail
  }

  /** The version starts with the numbers and carries a `-` suffix exactly when the tag had a
      prerelease or there are commits since it; with commits, it ends in `.` and the count.
      `p` names the tag's parts. */
  lemma SuffixExactlyWhenNeeded(tag: Option<string>, p: Parts, commits: nat, branch: string)
    requires StartingParts(tag) == Success(p)
    requires tag.Some? || commits > 0
    ensures DeriveVersion(tag, commits, branch).Success?
    ensures var patch: nat := if commits > 0 && !HasPrerelease(p.prerelease) then p.patch + 1 else p.patch;
            CoreThenSuffix(DeriveVersion(tag, commits, branch).value,
                           NatToString(p.major) + "." + NatToString(p.minor) + "." + NatToString(patch),
                           p.prerelease.Some? || commits > 0)
    ensures commits > 0 ==> EndsWith(DeriveVersion(tag, commits, branch).value, "." + NatToString(commits))
  {
    DeriveFromStart(tag, commits, branch, p);
    if commits == 0 {
      TagVersionSuffix(p, branch);
    } else {
      DevelopmentVersionSuffix(p, commits, branch);
    }
  }

  /** With no commits, the rendered parts are the numbers, then `-` and the prerelease if any. */
  lemma TagVersionSuffix(p: Parts, branch: string)
    requires p.major >= 0 && p.minor >= 0 && p.patch >= 0
    requires p.prerelease.Some? ==> |p.prerelease.value| > 0
    ensures CoreThenSuffix(Render(AddDevelopmentInfo(p, 0, branch)),
                           NatToString(p.major) + "." + NatToString(p.minor) + "." + NatToString(p.patch),
                           p.prerelease.Some?)
  {
    assert AddDevelopmentInfo(p, 0, branch) == p;
    RenderNonNegative(p);
    var v := Render(p);
    var core := NatToString(p.major) + "." + NatToString(p.minor) + "." + NatToString(p.patch);
    var rest := if HasPrerelease(p.prerelease) then "-" + p.prerelease.value else "";
    assert v == core + rest;
    assert v[..|core|] == core;
  }

  /** With commits, the rendered parts are the (possibly bumped) numbers, a `-` suffix, and at
      the end `.` and the count. */
  lemma DevelopmentVersionSuffix(p: Parts, commits: nat, branch: string)
    requires p.major >= 0 && p.minor >= 0
    requires p.patch >= 0 || (p.patch == -1 && !HasPrerelease(p.prerelease))
    requires commits > 0
    ensures var patch: nat := if !HasPrerelease(p.prerelease) then p.patch + 1 else p.patch;
            CoreThenSuffix(Render(AddDevelopmentInfo(p, commits, branch)),
                           NatToString(p.major) + "." + NatToString(p.minor) + "." + NatToString(patch),
                           true)
    ensures EndsWith(Render(AddDevelopmentInfo(p, commits, branch)), "." + NatToString(commits))
  {
    DevelopmentVersionText(p, commits, branch);
    var v := Render(AddDevelopmentInfo(p, commits, branch));
    var patch := if HasPrerelease(p.prerelease) then p.patch else p.patch + 1;
    var base := if HasPrerelease(p.prerelease) then p.prerelease.value else "dev.0";
    var core := NatToString(p.major) + "." + NatToString(p.minor) + "." + NatToString(patch);
    var count := "." + NatToString(commits);
    var middle := "-" + base + "." + Sanitise(branch);
    SuffixShape(core, base, Sanitise(branch), NatToString(commits));
    assert v == core + middle + count;
    assert v[..|core|] == core;
    assert v[|core|] == '-';
    assert v[|v| - |count|..] == count;
  }

  /** Regrouping the development text around its `-` part and its count. */
  lemma SuffixShape(core: string, base: string, san: string, n: string)
    ensures core + "-" + base + "." + san + "." + n == core + ("-" + base + "." + san) + ("." + n)
  {
  }
}
