/** What the docstring of `get_version` promises (scripts/publish-charts.py lines 63-66): a
    SemVer-compliant version, and versions for one branch that order correctly as commits are
    added. Both are stated against Semantic Versioning 2.0.0, with the conditions under which
    they hold and two inputs for which the version is not SemVer at all. */
module VersionOrdering {
  import opened Wrappers
  import opened Ascii
  import opened Decimal
  import opened Strings
  import opened BranchName
  import SemVerRegex
  import SemVer
  import opened PublishCharts

  /** The prerelease splits into valid SemVer identifiers (section 9). */
  predicate IsSemVerPrerelease(p: string) {
    var ids := Split(p, '.');
    forall i :: 0 <= i < |ids| ==> SemVer.IsIdentifier(ids[i])
  }

  /** The tag is SemVer, as the script's header (line 12) assumes: it matches the pattern and
      any prerelease it carries is made of valid identifiers. A missing tag qualifies. */
  predicate TagIsSemVer(tag: Option<string>) {
    tag.Some? ==>
      match SemVerRegex.Search(tag.value)
      case None => false
      case Some(m) => m.prerelease.None? || IsSemVerPrerelease(m.prerelease.value)
  }

  /** The parts read as a SemVer version. */
  function ToVersion(p: Parts): SemVer.Version
    requires p.major >= 0 && p.minor >= 0 && p.patch >= 0
  {
    SemVer.Version(p.major, p.minor, p.patch, if HasPrerelease(p.prerelease) then Split(p.prerelease.value, '.') else [])
  }

  /** The prerelease identifiers of a development version. */
  function DevelopmentBase(p: Parts): seq<string> {
    if HasPrerelease(p.prerelease) then Split(p.prerelease.value, '.') else ["dev", "0"]
  }

  /** Rendering parts with valid identifiers writes the SemVer textual form. */
  lemma RenderIsFormat(p: Parts)
    requires p.major >= 0 && p.minor >= 0 && p.patch >= 0
    requires HasPrerelease(p.prerelease) ==> IsSemVerPrerelease(p.prerelease.value)
    ensures SemVer.IsValid(ToVersion(p)) && Render(p) == SemVer.Format(ToVersion(p))
  {
  }

  /** A numeral never contains the separator. */
  lemma NumeralHasNoDot(n: nat)
    ensures '.' !in NatToString(n)
  {
    SemVer.NumeralHasNoSeparators(n);
  }

  /** A sanitised name never contains the separator. */
  lemma SanitisedHasNoDot(branch: string)
    ensures '.' !in Sanitise(branch)
  {
    var s := Sanitise(branch);
    assert forall i :: 0 <= i < |s| ==> IsSanitisedChar(s[i]);
  }

  /** With commits, the prerelease identifiers are the base ones, then the sanitised branch
      and the commit count. */
  lemma DevelopmentIdentifiers(p: Parts, commits: nat, branch: string)
    requires commits > 0
    ensures var q := AddDevelopmentInfo(p, commits, branch);
            HasPrerelease(q.prerelease)
            && Split(q.prerelease.value, '.') == DevelopmentBase(p) + [Sanitise(branch), NatToString(commits)]
  {
    var base := if HasPrerelease(p.prerelease) then p.prerelease.value else "dev.0";
    SanitisedHasNoDot(branch);
    NumeralHasNoDot(commits);
    SplitAppendTwo(base, Sanitise(branch), NatToString(commits), '.');
    if !HasPrerelease(p.prerelease) {
      DevSplit();
    }
  }

  /** The default base `dev.0` is the two identifiers `dev` and `0`. */
  lemma DevSplit()
    ensures Split("dev.0", '.') == ["dev", "0"]
  {
    assert "dev.0" == "dev" + ['.'] + "0";
    SplitAppend("dev", "0", '.');
    SplitWithoutSeparator("dev", '.');
    SplitWithoutSeparator("0", '.');
  }

  /** The base identifiers of a development version are valid when the tag's are. */
  lemma DevelopmentBaseValid(p: Parts)
    requires HasPrerelease(p.prerelease) ==> IsSemVerPrerelease(p.prerelease.value)
    ensures forall i :: 0 <= i < |DevelopmentBase(p)| ==> SemVer.IsIdentifier(DevelopmentBase(p)[i])
  {
    if !HasPrerelease(p.prerelease) {
      assert SemVer.IsIdentifier("dev");
      assert IsCanonicalDigits("0");
    }
  }

  /** A numeral is a valid numeric identifier. */
  lemma NumeralIsIdentifier(n: nat)
    ensures SemVer.IsIdentifier(NatToString(n))
  {
    var s := NatToString(n);
    assert forall i :: 0 <= i < |s| ==> IsDigit(s[i]);
  }

  /** The tag's parts satisfy what rendering as SemVer needs. */
  lemma StartingPartsValid(tag: Option<string>)
    requires TagIsSemVer(tag)
    ensures StartingParts(tag).Success?
    ensures var p := StartingParts(tag).value;
            p.major >= 0 && p.minor >= 0 && (tag.Some? ==> p.patch >= 0)
            && (HasPrerelease(p.prerelease) ==> IsSemVerPrerelease(p.prerelease.value))
  {
  }

  /** Adding development information keeps the parts valid, given a valid branch identifier. */
  lemma DevelopmentPartsValid(p: Parts, commits: nat, branch: string)
    requires p.major >= 0 && p.minor >= 0 && p.patch >= -1
    requires commits == 0 ==> p.patch >= 0
    requires p.patch == -1 ==> !HasPrerelease(p.prerelease)
    requires HasPrerelease(p.prerelease) ==> IsSemVerPrerelease(p.prerelease.value)
    requires commits > 0 ==> SemVer.IsIdentifier(Sanitise(branch))
    ensures var q := AddDevelopmentInfo(p, commits, branch);
            q.major >= 0 && q.minor >= 0 && q.patch >= 0
            && (HasPrerelease(q.prerelease) ==> IsSemVerPrerelease(q.prerelease.value))
  {
    var q := AddDevelopmentInfo(p, commits, branch);
    if commits > 0 {
      DevelopmentIdentifiers(p, commits, branch);
      DevelopmentBaseValid(p);
      NumeralIsIdentifier(commits);
      var base := DevelopmentBase(p);
      var ids := Split(q.prerelease.value, '.');
      forall i | 0 <= i < |ids| ensures SemVer.IsIdentifier(ids[i]) {
        if i < |base| {
          assert ids[i] == base[i];
        }
      }
    }
  }

  /** Under the conditions the script relies on, the derived version is valid SemVer and reads
      back as the parts it was built from: a SemVer tag, a branch that sanitises to a valid
      identifier when it is used, and not the tagless version before any commit. */
  lemma DerivedVersionIsSemVer(tag: Option<string>, commits: nat, branch: string)
    requires TagIsSemVer(tag)
    requires commits > 0 ==> SemVer.IsIdentifier(Sanitise(branch))
    requires tag.Some? || commits > 0
    ensures StartingParts(tag).Success? && DeriveVersion(tag, commits, branch).Success?
    ensures var q := AddDevelopmentInfo(StartingParts(tag).value, commits, branch);
            q.major >= 0 && q.minor >= 0 && q.patch >= 0
            && SemVer.Parse(DeriveVersion(tag, commits, branch).value) == Some(ToVersion(q))
  {
    StartingPartsValid(tag);
    var p := StartingParts(tag).value;
    DeriveFromStart(tag, commits, branch, p);
    DevelopmentPartsValid(p, commits, branch);
    var q := AddDevelopmentInfo(p, commits, branch);
    RenderIsFormat(q);
    SemVer.ParseFormat(ToVersion(q));
  }

  /** The docstring's ordering claim (lines 65-66): for a fixed tag and branch, more commits
      give a version of strictly higher SemVer precedence, and any commit at all outranks the
      tag itself. It needs the branch to sanitise to a valid identifier: an empty result would
      put an empty identifier into the prerelease. */
  lemma MoreCommitsRankHigher(tag: Option<string>, branch: string, c1: nat, c2: nat)
    requires TagIsSemVer(tag)
    requires SemVer.IsIdentifier(Sanitise(branch))
    requires c1 < c2
    requires tag.Some? || c1 > 0
    ensures DeriveVersion(tag, c1, branch).Success? && DeriveVersion(tag, c2, branch).Success?
    ensures var v1 := SemVer.Parse(DeriveVersion(tag, c1, branch).value);
            var v2 := SemVer.Parse(DeriveVersion(tag, c2, branch).value);
            v1.Some? && v2.Some? && SemVer.Precedes(v1.value, v2.value)
  {
    DerivedVersionIsSemVer(tag, c1, branch);
    DerivedVersionIsSemVer(tag, c2, branch);
    var p := StartingParts(tag).value;
    var q1, q2 := AddDevelopmentInfo(p, c1, branch), AddDevelopmentInfo(p, c2, branch);
    var san := Sanitise(branch);
    DevelopmentIdentifiers(p, c2, branch);
    var base := DevelopmentBase(p);
    var n1, n2 := NatToString(c1), NatToString(c2);
    if c1 == 0 {
      if HasPrerelease(p.prerelease) {
        SemVer.IdentifiersLessExtension(base, [san, n2]);
      }
    } else {
      DevelopmentIdentifiers(p, c1, branch);
      assert SemVer.IdentifierLess(n1, n2);
      assert [n1] != [n2];
      assert SemVer.IdentifiersLess([n1], [n2]);
      assert [san, n1][1..] == [n1] && [san, n2][1..] == [n2];
      assert SemVer.IdentifiersLess([san, n1], [san, n2]);
      SemVer.IdentifiersLessCommonPrefix(base, [san, n1], [san, n2]);
    }
  }

  /** Without a tag and before any commit the script produces `0.1.-1`, which is not SemVer. */
  lemma NoTagNoCommitsIsNotSemVer(branch: string)
    ensures DeriveVersion(None, 0, branch) == Success("0.1.-1")
    ensures SemVer.Parse(DeriveVersion(None, 0, branch).value) == None
  {
    NoTagStartsAtZeroOneZero(0, branch);
    NegativePatchRejected(DeriveVersion(None, 0, branch).value, "0.1.", "1");
  }

  /** `0.1.-1` cut at its dash leaves the core `0.1.`, whose empty third field is no numeral. */
  lemma NegativePatchRejected(s: string, core: string, after: string)
    requires core == "0.1." && after == "1" && s == core + ['-'] + after
    ensures SemVer.Parse(s) == None
  {
    FirstIndexAfter(core, '-', after);
    assert s[..|core|] == core;
    EmptyPatchRejected(core, "0", "1");
  }

  /** A core ending in a dot has an empty patch field, which `ParseCore` refuses. */
  lemma EmptyPatchRejected(core: string, major: string, minor: string)
    requires '.' !in major && '.' !in minor
    requires core == major + "." + minor + "."
    ensures SemVer.ParseCore(core) == None
  {
    JoinThree(major, minor, "", '.');
    assert core == Join([major, minor, ""], '.');
    SplitAppendTwo(major, minor, "", '.');
    SplitWithoutSeparator(major, '.');
    assert Split(core, '.') == [major, minor, ""];
  }

  /** A branch with nothing left after sanitising puts an empty identifier into the prerelease
      (`dev.0..N`), which section 9 forbids, so the version is not SemVer. */
  lemma EmptySanitisedBranchIsNotSemVer(tag: Option<string>, commits: nat, branch: string)
    requires Sanitise(branch) == []
    requires commits > 0
    requires StartingParts(tag).Success?
    ensures DeriveVersion(tag, commits, branch).Success?
    ensures SemVer.Parse(DeriveVersion(tag, commits, branch).value) == None
  {
    var p := StartingParts(tag).value;
    DeriveFromStart(tag, commits, branch, p);
    EmptySanitisedBranchRejected(p, commits, branch);
  }

  /** The parts-level step: the empty branch identifier sits right after the base. */
  lemma EmptySanitisedBranchRejected(p: Parts, commits: nat, branch: string)
    requires p.major >= 0 && p.minor >= 0
    requires p.patch >= 0 || (p.patch == -1 && !HasPrerelease(p.prerelease))
    requires Sanitise(branch) == []
    requires commits > 0
    ensures SemVer.Parse(Render(AddDevelopmentInfo(p, commits, branch))) == None
  {
    var q := AddDevelopmentInfo(p, commits, branch);
    DevelopmentIdentifiers(p, commits, branch);
    var core := NatToString(q.major) + "." + NatToString(q.minor) + "." + NatToString(q.patch);
    SemVer.NumeralHasNoSeparators(q.major);
    SemVer.NumeralHasNoSeparators(q.minor);
    SemVer.NumeralHasNoSeparators(q.patch);
    assert Render(q) == core + "-" + q.prerelease.value;
    SemVer.RejectsInvalidIdentifier(core, q.prerelease.value, |DevelopmentBase(p)|);
  }
}
