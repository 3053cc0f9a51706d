/** Branch-name sanitisation (scripts/publish-charts.py lines 97-99): the branch name becomes one
    prerelease identifier by lower-casing it and deleting every character outside `[a-zA-Z0-9-]`. */
module BranchName {
  import opened Ascii
  import opened Strings

  /** `str.lower()` over ASCII. */
  function LowerAll(s: string): (r: string)
    ensures |r| == |s|
    ensures forall i :: 0 <= i < |s| ==> r[i] == Lower(s[i])
  {
    seq(|s|, i requires 0 <= i < |s| => Lower(s[i]))
  }

  /** Characters the substitution deletes: the complement class `[^a-zA-Z0-9-]`. */
  predicate IsDeleted(c: char) {
    !IsIdentifierChar(c)
  }

  /** `re.sub("[^a-zA-Z0-9-]+", "", s)`: scanning left to right, a kept character is copied and a
      maximal run of deleted characters is replaced by nothing. */
  function DeleteRuns(s: string): (r: string)
    ensures forall i :: 0 <= i < |r| ==> IsIdentifierChar(r[i])
    decreases |s|
  {
    if |s| == 0 then []
    else if IsIdentifierChar(s[0]) then [s[0]] + DeleteRuns(s[1..])
    else DeleteRuns(s[RunEnd(s, 0, IsDeleted)..])
  }

  /** Lines 97-99: lower-case the name, delete the runs, lower-case again. */
  function Sanitise(branch: string): (r: string)
    ensures forall i :: 0 <= i < |r| ==> IsSanitisedChar(r[i])
  {
    LowerAll(DeleteRuns(LowerAll(branch)))
  }

  /** Deleting maximal runs deletes exactly the characters outside the class, one by one. */
  lemma {:induction false} DeleteRunsIsFilter(s: string)
    ensures DeleteRuns(s) == Filter(s, IsIdentifierChar)
    decreases |s|
  {
    if |s| > 0 {
      if IsIdentifierChar(s[0]) {
        DeleteRunsIsFilter(s[1..]);
      } else {
        var e := RunEnd(s, 0, IsDeleted);
        DeleteRunsIsFilter(s[e..]);
        assert s == s[..e] + s[e..];
        FilterAppend(s[..e], s[e..], IsIdentifierChar);
        FilterNone(s[..e], IsIdentifierChar);
      }
    }
  }

  /** The sanitised name is exactly the lower-cased name with every character outside
      `[a-z0-9-]` deleted, in the original order. */
  lemma SanitiseIsLowerThenFilter(branch: string)
    ensures Sanitise(branch) == Filter(LowerAll(branch), IsSanitisedChar)
  {
    var l := LowerAll(branch);
    DeleteRunsIsFilter(l);
    LowerFilterAgrees(l);
  }

  /** On lower-case text the two classes keep the same characters, and lower-casing changes nothing. */
  lemma {:induction false} LowerFilterAgrees(l: string)
    requires forall i :: 0 <= i < |l| ==> !IsUpper(l[i])
    ensures LowerAll(Filter(l, IsIdentifierChar)) == Filter(l, IsSanitisedChar)
    decreases |l|
  {
    if |l| > 0 {
      LowerFilterAgrees(l[1..]);
      var head := if IsIdentifierChar(l[0]) then [l[0]] else [];
      assert LowerAll(head + Filter(l[1..], IsIdentifierChar))
        == LowerAll(head) + LowerAll(Filter(l[1..], IsIdentifierChar));
    }
  }

  /** Sanitisation leaves a name alone exactly when it already consists of `[a-z0-9-]`. */
  lemma SanitiseFixedPoints(branch: string)
    ensures Sanitise(branch) == branch <==> forall i :: 0 <= i < |branch| ==> IsSanitisedChar(branch[i])
  {
    SanitiseIsLowerThenFilter(branch);
    if forall i :: 0 <= i < |branch| ==> IsSanitisedChar(branch[i]) {
      assert LowerAll(branch) == branch;
      FilterKeepsAll(branch, IsSanitisedChar);
    }
  }

  /** Sanitising twice is the same as sanitising once. */
  lemma SanitiseIdempotent(branch: string)
    ensures Sanitise(Sanitise(branch)) == Sanitise(branch)
  {
    SanitiseFixedPoints(Sanitise(branch));
  }
}
