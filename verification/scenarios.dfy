/** Worked inputs for `get_version` (scripts/publish-charts.py lines 61-106), each derived from
    the general lemmas or by following the pattern's backtracking step by step.

    Most steps take their literal input as a parameter fixed by a `requires` (`tag == "v1.2.3"`)
    rather than writing it inline: Dafny evaluates a recursive function applied to a literal
    eagerly, and on the pattern search that unfolding is large, so each concrete fact is kept in
    a small lemma of its own. The section at the end restates the examples with their inputs
    written out. */
module Scenarios {
  import opened Wrappers
  import opened Ascii
  import opened Decimal
  import opened Strings
  import opened BranchName
  import opened SemVerRegex
  import opened PublishCharts

  /** The numerals the examples use, as `int()` reads them and `str()` writes them. */
  lemma Numerals()
    ensures DigitsValue("0") == 0 && DigitsValue("1") == 1 && DigitsValue("2") == 2
    ensures DigitsValue("3") == 3 && DigitsValue("5") == 5 && DigitsValue("23") == 23
    ensures NatToString(0) == "0" && NatToString(1) == "1" && NatToString(2) == "2"
    ensures NatToString(4) == "4" && NatToString(5) == "5" && NatToString(23) == "23"
  {
  }

  lemma ReleaseTagText()
    ensures Tag(true, "1", "2", "3", None) == "v1.2.3"
    ensures Tag(false, "1", "2", "3", None) == "1.2.3"
    ensures IsCanonicalDigits("1") && IsCanonicalDigits("2") && IsCanonicalDigits("3")
  {
  }

  /** A release tag with no commits since it: the tag without its `v`. */
  lemma ReleaseTagAlone(tag: string, branch: string)
    requires tag == "v1.2.3"
    ensures DeriveVersion(Some(tag), 0, branch) == Success("1.2.3")
  {
    ReleaseTagText();
    ZeroCommitsCanonicalTagVerbatim(true, "1", "2", "3", None, branch);
  }

  lemma CommitsOnMainText()
    ensures "1" + "." + "2" + "." + "4" + "-" + "dev.0" + "." + "main" + "." + "4" == "1.2.4-dev.0.main.4"
  {
  }

  /** Four commits on `main` after `v1.2.3`: the next patch as a development prerelease. */
  lemma CommitsOnMain(tag: string, branch: string)
    requires tag == "v1.2.3" && branch == "main"
    ensures DeriveVersion(Some(tag), 4, branch) == Success("1.2.4-dev.0.main.4")
  {
    ReleaseTagText();
    Numerals();
    CommitsAfterReleaseBumpPatch(true, "1", "2", "3", 4, branch);
    SanitiseMain(branch);
    CommitsOnMainText();
  }

  /** `main` is already sanitised. */
  lemma SanitiseMain(branch: string)
    requires branch == "main"
    ensures Sanitise(branch) == "main"
  {
    SanitiseFixedPoints(branch);
  }

  lemma BetaTagText()
    ensures Tag(true, "2", "0", "0", Some("beta.1")) == "v2.0.0-beta.1"
    ensures IsDigits("2") && IsDigits("0") && SemVerRegex.IsPrerelease("beta.1")
    ensures "2" + "." + "0" + "." + "0" + "-" + "beta.1" + "." + "release20" + "." + "2" == "2.0.0-beta.1.release20.2"
  {
  }

  /** Two commits on `Release/2.0` after `v2.0.0-beta.1`: the prerelease is extended. */
  lemma CommitsAfterBeta(tag: string, branch: string)
    requires tag == "v2.0.0-beta.1" && branch == "Release/2.0"
    ensures DeriveVersion(Some(tag), 2, branch) == Success("2.0.0-beta.1.release20.2")
  {
    BetaTagText();
    Numerals();
    CommitsAfterPrereleaseExtendIt(true, "2", "0", "0", "beta.1", 2, branch);
    SanitiseReleaseBranch(branch);
  }

  lemma KeepAll(s: string)
    requires forall i :: 0 <= i < |s| ==> IsSanitisedChar(s[i])
    ensures Filter(s, IsSanitisedChar) == s
  {
    FilterKeepsAll(s, IsSanitisedChar);
  }

  lemma DropAll(s: string)
    requires forall i :: 0 <= i < |s| ==> !IsSanitisedChar(s[i])
    ensures Filter(s, IsSanitisedChar) == []
  {
    FilterNone(s, IsSanitisedChar);
  }

  /** Filtering three pieces of which only the outer two are in the class keeps just those. */
  lemma FilterKeepDropKeep(s: string, a: string, b: string, c: string)
    requires s == a + (b + c)
    requires forall i :: 0 <= i < |a| ==> IsSanitisedChar(a[i])
    requires forall i :: 0 <= i < |b| ==> !IsSanitisedChar(b[i])
    requires forall i :: 0 <= i < |c| ==> IsSanitisedChar(c[i])
    ensures Filter(s, IsSanitisedChar) == a + c
  {
    KeepAll(a); DropAll(b); KeepAll(c);
    FilterAppend(a, b + c, IsSanitisedChar);
    FilterAppend(b, c, IsSanitisedChar);
  }

  lemma LowerReleaseBranch(branch: string)
    requires branch == "Release/2.0"
    ensures LowerAll(branch) == "release/2.0"
  {
  }

  /** `Release/2.0` becomes the identifier `release20`. */
  lemma SanitiseReleaseBranch(branch: string)
    requires branch == "Release/2.0"
    ensures Sanitise(branch) == "release20"
  {
    SanitiseIsLowerThenFilter(branch);
    LowerReleaseBranch(branch);
    FilterReleaseBranch(LowerAll(branch), "release/", "2.0");
  }

  lemma FilterReleaseBranch(s: string, front: string, back: string)
    requires front == "release/" && back == "2.0" && s == front + back
    ensures Filter(s, IsSanitisedChar) == "release20"
  {
    FilterAppend(front, back, IsSanitisedChar);
    FilterReleaseFront(front);
    FilterKeepDropKeep(back, "2", ".", "0");
    assert "release" + "20" == "release20";
  }

  lemma FilterReleaseFront(s: string)
    requires s == "release/"
    ensures Filter(s, IsSanitisedChar) == "release"
  {
    var a, b := "release", "/";
    assert s == a + b;
    KeepAll(a); DropAll(b);
    FilterAppend(a, b, IsSanitisedChar);
  }

  lemma LowerFeatureBranch(branch: string)
    requires branch == "feature/ABC_123!"
    ensures LowerAll(branch) == "feature/abc_123!"
  {
  }

  /** A branch name loses its case and every character outside `[a-z0-9-]`. */
  lemma SanitiseFeatureBranch(branch: string)
    requires branch == "feature/ABC_123!"
    ensures Sanitise(branch) == "featureabc123"
  {
    SanitiseIsLowerThenFilter(branch);
    LowerFeatureBranch(branch);
    FilterFeatureBranch(LowerAll(branch), "feature/abc", "_123!");
  }

  lemma FilterFeatureBranch(s: string, front: string, back: string)
    requires front == "feature/abc" && back == "_123!" && s == front + back
    ensures Filter(s, IsSanitisedChar) == "featureabc123"
  {
    FilterAppend(front, back, IsSanitisedChar);
    FilterKeepDropKeep(front, "feature", "/", "abc");
    FilterFeatureBack(back);
    assert "featureabc" + "123" == "featureabc123";
  }

  lemma FilterFeatureBack(s: string)
    requires s == "_123!"
    ensures Filter(s, IsSanitisedChar) == "123"
  {
    var a, b, c := "_", "123", "!";
    assert s == a + (b + c);
    DropAll(a); KeepAll(b); DropAll(c);
    FilterAppend(a, b + c, IsSanitisedChar);
    FilterAppend(b, c, IsSanitisedChar);
  }

  /** The pattern's dots are unescaped, so the search reads `1.2345` as major 1, minor 23 and
      patch 5, with the digit `4` taken as the second separator: the longest minor run leaves
      nothing for the patch, and the search gives back one digit at a time. */
  lemma UnescapedDotsSearch()
    ensures Search("1.2345") == Some(Match(false, "1", '.', "23", '4', "5", None, false))
  {
    var t := Tail(None, false);
    DotsMajor("1.2345");
    assert MatchGroups("1.2345", 0, 0) == Some(Groups("1", Continuation([('.', "23"), ('4', "5")], t)));
  }

  /** The patch: from the end of the string only `$` is left, and `5` is the last digit run. */
  lemma DotsPatch(s: string)
    requires s == "1.2345"
    ensures MatchGroups(s, 2, 5) == Some(Groups("5", Continuation([], Tail(None, false))))
    ensures After(s, 1, 6) == None && After(s, 1, 5) == None
  {
    var t := Tail(None, false);
    assert RunEnd(s, 6, IsDigit) == 6;
    assert RunEnd(s, 5, IsDigit) == 6;
    assert MatchTail(s, 6) == Some(t);
    assert After(s, 2, 6) == Some(Continuation([], t));
    assert s[5..6] == "5";
    assert TryGroup(s, 2, 5, 6) == Some(Groups("5", Continuation([], t)));
    assert TryGroup(s, 2, 6, 6) == None;
  }

  /** The minor: `2345` and `234` leave no patch to match, so the group backs off to `23`. */
  lemma DotsMinor(s: string)
    requires s == "1.2345"
    ensures MatchGroups(s, 1, 2) == Some(Groups("23", Continuation([('4', "5")], Tail(None, false))))
  {
    var t := Tail(None, false);
    DotsPatch(s);
    assert RunEnd(s, 2, IsDigit) == 6;
    assert [(s[4], "5")] + [] == [('4', "5")];
    assert After(s, 1, 4) == Some(Continuation([('4', "5")], t));
    assert s[2..4] == "23";
    assert TryGroup(s, 1, 2, 4) == Some(Groups("23", Continuation([('4', "5")], t)));
    assert TryGroup(s, 1, 2, 6) == TryGroup(s, 1, 2, 4);
  }

  /** The major: `1`, followed by the `.` and the minor and patch above. */
  lemma DotsMajor(s: string)
    requires s == "1.2345"
    ensures MatchGroups(s, 0, 0) == Some(Groups("1", Continuation([('.', "23"), ('4', "5")], Tail(None, false))))
  {
    var t := Tail(None, false);
    DotsMinor(s);
    assert RunEnd(s, 0, IsDigit) == 1;
    assert [(s[1], "23")] + [('4', "5")] == [('.', "23"), ('4', "5")];
    assert After(s, 0, 1) == Some(Continuation([('.', "23"), ('4', "5")], t));
    assert s[0..1] == "1";
  }

  /** ... and so the tag `1.2345` yields the version `1.23.5`. */
  lemma UnescapedDots(tag: string, branch: string)
    requires tag == "1.2345"
    ensures DeriveVersion(Some(tag), 0, branch) == Success("1.23.5")
  {
    UnescapedDotsSearch();
    Numerals();
    var p := Parts(1, 23, 5, None);
    assert StartingParts(Some(tag)) == Success(p);
    DeriveFromStart(Some(tag), 0, branch, p);
    assert AddDevelopmentInfo(p, 0, branch) == p;
    RenderNonNegative(p);
    UnescapedDotsText();
  }

  lemma UnescapedDotsText()
    ensures "1" + "." + "23" + "." + "5" + "" == "1.23.5"
  {
  }

  /** Tags the pattern does not match are reported: no leading digit or `v`, and a dash with
      no prerelease after it. */
  lemma UnmatchedTags(commits: nat, branch: string)
    ensures DeriveVersion(Some("release-1"), commits, branch) == Failure(TagNotSemVer("release-1"))
    ensures DeriveVersion(Some("1.2.3-"), commits, branch) == Failure(TagNotSemVer("1.2.3-"))
  {
    NoMatches();
  }

  lemma NoMatches()
    ensures Search("release-1") == None && Search("1.2.3-") == None
  {
    NoLeadingDigit("release-1");
    DashWithoutPrerelease("1.2.3-");
  }

  lemma NoLeadingDigit(s: string)
    requires s == "release-1"
    ensures Search(s) == None
  {
    assert RunEnd(s, 0, IsDigit) == 0;
  }

  /** Every way of splitting `1.2.3` leaves the `-` with nothing after it. */
  lemma DashWithoutPrerelease(s: string)
    requires s == "1.2.3-"
    ensures Search(s) == None
  {
    assert RunEnd(s, 6, IsPrereleaseChar) == 6;
    assert MatchTail(s, 5) == None;
    assert After(s, 2, 5) == None;
    assert RunEnd(s, 4, IsDigit) == 5;
    assert MatchGroups(s, 2, 4) == None;
    assert After(s, 1, 3) == None;
    assert RunEnd(s, 2, IsDigit) == 3;
    assert MatchGroups(s, 1, 2) == None;
    assert After(s, 0, 1) == None;
    assert RunEnd(s, 0, IsDigit) == 1;
    assert MatchGroups(s, 0, 0) == None;
  }

  // The examples with their inputs written out.

  lemma ReleaseTagExample()
    ensures DeriveVersion(Some("v1.2.3"), 0, "main") == Success("1.2.3")
  {
    ReleaseTagAlone("v1.2.3", "main");
  }

  lemma CommitsOnMainExample()
    ensures DeriveVersion(Some("v1.2.3"), 4, "main") == Success("1.2.4-dev.0.main.4")
  {
    CommitsOnMain("v1.2.3", "main");
  }

  lemma CommitsAfterBetaExample()
    ensures DeriveVersion(Some("v2.0.0-beta.1"), 2, "Release/2.0") == Success("2.0.0-beta.1.release20.2")
  {
    CommitsAfterBeta("v2.0.0-beta.1", "Release/2.0");
  }

  lemma FeatureBranchExample()
    ensures Sanitise("feature/ABC_123!") == "featureabc123"
  {
    SanitiseFeatureBranch("feature/ABC_123!");
  }

  lemma UnescapedDotsExample()
    ensures DeriveVersion(Some("1.2345"), 0, "main") == Success("1.23.5")
  {
    UnescapedDots("1.2345", "main");
  }
}
