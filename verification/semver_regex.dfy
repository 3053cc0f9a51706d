/** `SEMVER_REGEX` (scripts/publish-charts.py line 58) as `re.search` runs it:

      ^v?(?P<major>[0-9]+).(?P<minor>[0-9]+).(?P<patch>[0-9]+)(-(?P<prerelease>[a-zA-Z0-9.-]+))?$

    The two `.` separators are unescaped, so each matches any one character except a newline.
    `^` pins the search to position 0, and `$` holds at the end of the string or just before a
    newline that ends it. The search below follows the backtracking order of Python's engine:
    `v?` is tried with the `v` first, each `+` tries its longest run first and then gives back one
    character at a time, and the optional prerelease group is tried before it is skipped. */
module SemVerRegex {
  import opened Wrappers
  import opened Ascii
  import opened Strings

  /** The anatomy of a successful match: the named groups, plus what the `v?`, the two
      separators and `$` consumed. */
  datatype Match = Match(
    hasV: bool,
    major: string,
    sep1: char,
    minor: string,
    sep2: char,
    patch: string,
    prerelease: Option<string>,
    newline: bool)

  /** What `(-(?P<prerelease>...))?$` consumed. */
  datatype Tail = Tail(prerelease: Option<string>, newline: bool)

  /** What the pattern consumed after a digit group: the separator and digit group pairs that
      follow it, then the tail. */
  datatype Continuation = Continuation(pairs: seq<(char, string)>, tail: Tail)

  /** A digit group and what the pattern consumed after it. */
  datatype Groups = Groups(group: string, after: Continuation)

  /** `[a-zA-Z0-9.-]+` */
  predicate IsPrerelease(p: string) {
    |p| > 0 && forall i :: 0 <= i < |p| ==> IsPrereleaseChar(p[i])
  }

  /** `$`: at the end of the string, or at a newline that ends it. */
  predicate AtEnd(s: string, i: nat) {
    i == |s| || (i + 1 == |s| && s[i] == '\n')
  }

  predicate TailWellFormed(t: Tail) {
    t.prerelease.Some? ==> IsPrerelease(t.prerelease.value)
  }

  function TailSpelling(t: Tail): string {
    (if t.prerelease.Some? then "-" + t.prerelease.value else "") + (if t.newline then "\n" else "")
  }

  /** The continuation after group number `level` (0 major, 1 minor, 2 patch). */
  predicate ContinuationWellFormed(c: Continuation, level: nat) {
    && level <= 2
    && |c.pairs| == 2 - level
    && (forall k :: 0 <= k < |c.pairs| ==> c.pairs[k].0 != '\n' && IsDigits(c.pairs[k].1))
    && TailWellFormed(c.tail)
  }

  function PairsSpelling(pairs: seq<(char, string)>): string {
    if |pairs| == 0 then [] else [pairs[0].0] + pairs[0].1 + PairsSpelling(pairs[1..])
  }

  function ContinuationSpelling(c: Continuation): string {
    PairsSpelling(c.pairs) + TailSpelling(c.tail)
  }

  /** Each part of a match meets the sub-pattern that consumed it. */
  predicate WellFormed(m: Match) {
    && IsDigits(m.major) && IsDigits(m.minor) && IsDigits(m.patch)
    && m.sep1 != '\n' && m.sep2 != '\n'
    && TailWellFormed(Tail(m.prerelease, m.newline))
  }

  /** The text a match consumed. */
  function Spelling(m: Match): string {
    (if m.hasV then "v" else "") + m.major + [m.sep1] + m.minor + [m.sep2] + m.patch
      + TailSpelling(Tail(m.prerelease, m.newline))
  }

  /** The pattern can match `s` in some way. */
  ghost predicate Matches(s: string) {
    exists m :: WellFormed(m) && Spelling(m) == s
  }

  /** `(-(?P<prerelease>[a-zA-Z0-9.-]+))?$` from position `i`: the optional group first, then without it. */
  function MatchTail(s: string, i: nat): (r: Option<Tail>)
    requires i <= |s|
    ensures r.Some? ==> TailWellFormed(r.value) && s[i..] == TailSpelling(r.value)
  {
    var taken := if i < |s| && s[i] == '-' then TryPrerelease(s, i + 1, RunEnd(s, i + 1, IsPrereleaseChar)) else None;
    if taken.Some? then taken
    else if AtEnd(s, i) then
      assert i < |s| ==> s[i..] == "\n";
      Some(Tail(None, i < |s|))
    else None
  }

  /** The prerelease run ending at `e`, then shorter ones, until `$` holds after it. */
  function TryPrerelease(s: string, start: nat, e: nat): (r: Option<Tail>)
    requires 1 <= start <= e <= |s| && s[start - 1] == '-'
    requires forall k :: start <= k < e ==> IsPrereleaseChar(s[k])
    ensures r.Some? ==> TailWellFormed(r.value) && s[start - 1..] == TailSpelling(r.value)
    decreases e
  {
    if e == start then None
    else if AtEnd(s, e) then
      var t := Tail(Some(s[start..e]), e < |s|);
      assert s[start - 1..] == "-" + s[start..e] + s[e..];
      assert e < |s| ==> s[e..] == "\n";
      Some(t)
    else TryPrerelease(s, start, e - 1)
  }

  /** Digit group number `level` from position `i`, and the rest of the pattern after it. */
  function MatchGroups(s: string, level: nat, i: nat): (r: Option<Groups>)
    requires level <= 2 && i <= |s|
    ensures r.Some? ==> IsDigits(r.value.group) && ContinuationWellFormed(r.value.after, level)
    ensures r.Some? ==> s[i..] == r.value.group + ContinuationSpelling(r.value.after)
    decreases 3 - level, |s| + 2
  {
    TryGroup(s, level, i, RunEnd(s, i, IsDigit))
  }

  /** The group `s[i..e]`, then shorter ones, until the rest of the pattern matches after it. */
  function TryGroup(s: string, level: nat, i: nat, e: nat): (r: Option<Groups>)
    requires level <= 2 && i <= e <= |s|
    requires forall k :: i <= k < e ==> IsDigit(s[k])
    ensures r.Some? ==> IsDigits(r.value.group) && ContinuationWellFormed(r.value.after, level)
    ensures r.Some? ==> s[i..] == r.value.group + ContinuationSpelling(r.value.after)
    decreases 3 - level, e - i + 1
  {
    if e == i then None
    else
      match After(s, level, e)
      case Some(c) =>
        assert s[i..] == s[i..e] + s[e..];
        Some(Groups(s[i..e], c))
      case None => TryGroup(s, level, i, e - 1)
  }

  /** What follows group `level` ending at `e`: a separator and the next group, or after the patch the tail. */
  function After(s: string, level: nat, e: nat): (r: Option<Continuation>)
    requires level <= 2 && e <= |s|
    ensures r.Some? ==> ContinuationWellFormed(r.value, level) && s[e..] == ContinuationSpelling(r.value)
    decreases 3 - level, 0
  {
    if level == 2 then
      match MatchTail(s, e)
      case Some(t) => Some(Continuation([], t))
      case None => None
    else if e < |s| && s[e] != '\n' then
      match MatchGroups(s, level + 1, e + 1)
      case Some(g) =>
        var c := Continuation([(s[e], g.group)] + g.after.pairs, g.after.tail);
        assert c.pairs[1..] == g.after.pairs;
        assert s[e..] == [s[e]] + s[e + 1..];
        Some(c)
      case None => None
    else None
  }

  function ToMatch(hasV: bool, g: Groups): Match
    requires |g.after.pairs| == 2
  {
    var p := g.after.pairs;
    Match(hasV, g.group, p[0].0, p[0].1, p[1].0, p[1].1, g.after.tail.prerelease, g.after.tail.newline)
  }

  /** `re.search(SEMVER_REGEX, s)`: the first match in backtracking order, if any. A match always
      consumes all of `s`. */
  function Search(s: string): (r: Option<Match>)
    ensures r.Some? ==> WellFormed(r.value) && Spelling(r.value) == s
  {
    var withV := if |s| > 0 && s[0] == 'v' then MatchGroups(s, 0, 1) else None;
    if withV.Some? then
      SpellingOfGroups(true, withV.value);
      assert s == [s[0]] + s[1..];
      Some(ToMatch(true, withV.value))
    else
      match MatchGroups(s, 0, 0)
      case Some(g) =>
        SpellingOfGroups(false, g);
        Some(ToMatch(false, g))
      case None => None
  }

  lemma SpellingOfGroups(hasV: bool, g: Groups)
    requires IsDigits(g.group) && ContinuationWellFormed(g.after, 0)
    ensures WellFormed(ToMatch(hasV, g))
    ensures Spelling(ToMatch(hasV, g)) == (if hasV then "v" else "") + g.group + ContinuationSpelling(g.after)
  {
    var p := g.after.pairs;
    assert p[1..][1..] == [];
    assert PairsSpelling(p[1..]) == [p[1].0] + p[1].1 + [];
    assert PairsSpelling(p) == [p[0].0] + p[0].1 + ([p[1].0] + p[1].1);
  }

  /** The groups and continuation a well-formed match is made of. */
  function FromMatch(m: Match): Groups {
    Groups(m.major, Continuation([(m.sep1, m.minor), (m.sep2, m.patch)], Tail(m.prerelease, m.newline)))
  }

  lemma FromMatchInverse(m: Match)
    requires WellFormed(m)
    ensures IsDigits(FromMatch(m).group) && ContinuationWellFormed(FromMatch(m).after, 0)
    ensures ToMatch(m.hasV, FromMatch(m)) == m
  {
  }

  /** Where a tail spells the rest of the string, the tail search finds exactly that tail. */
  lemma TailFound(s: string, i: nat, t: Tail)
    requires i <= |s| && TailWellFormed(t) && s[i..] == TailSpelling(t)
    ensures MatchTail(s, i) == Some(t)
  {
    if t.prerelease.Some? {
      var p := t.prerelease.value;
      var e := i + 1 + |p|;
      assert s[i..] == "-" + p + (if t.newline then "\n" else "");
      assert s[i] == '-';
      assert s[i + 1..e] == p;
      assert forall k :: i + 1 <= k < e ==> IsPrereleaseChar(s[k]) by {
        forall k | i + 1 <= k < e ensures IsPrereleaseChar(s[k]) {
          assert s[k] == p[k - i - 1];
        }
      }
      assert e < |s| ==> s[e] == '\n';
      RunEndExactly(s, i + 1, IsPrereleaseChar, e);
    } else if i < |s| {
      assert s[i..] == "\n";
      assert s[i] == '\n';
    }
  }

  /** If a well-formed continuation spells `s[e..]`, the search after group `level` succeeds. */
  lemma {:induction false} AfterFound(s: string, level: nat, e: nat, c: Continuation)
    requires level <= 2 && e <= |s|
    requires ContinuationWellFormed(c, level) && s[e..] == ContinuationSpelling(c)
    ensures After(s, level, e).Some?
    decreases 3 - level, 0
  {
    if level == 2 {
      assert c.pairs == [];
      TailFound(s, e, c.tail);
    } else {
      var (sep, g) := c.pairs[0];
      var c' := Continuation(c.pairs[1..], c.tail);
      ContinuationHead(s, e, c);
      GroupsFound(s, level + 1, e + 1, g, c');
    }
  }

  /** If a digit group followed by a well-formed continuation spells `s[i..]`, the group search succeeds. */
  lemma {:induction false} GroupsFound(s: string, level: nat, i: nat, g: string, c: Continuation)
    requires level <= 2 && i <= |s|
    requires IsDigits(g) && ContinuationWellFormed(c, level)
    requires s[i..] == g + ContinuationSpelling(c)
    ensures MatchGroups(s, level, i).Some?
    decreases 3 - level, 1
  {
    var e := i + |g|;
    GroupDigits(s, i, g, ContinuationSpelling(c));
    AfterFound(s, level, e, c);
    RunEndReaches(s, i, IsDigit, e);
    TryGroupReaches(s, level, i, RunEnd(s, i, IsDigit), e);
  }

  /** Backing off from a longer run reaches the group end `e` after which the rest matches. */
  lemma {:induction false} TryGroupReaches(s: string, level: nat, i: nat, from: nat, e: nat)
    requires level <= 2 && i < e <= from <= |s|
    requires forall k :: i <= k < from ==> IsDigit(s[k])
    requires After(s, level, e).Some?
    ensures TryGroup(s, level, i, from).Some?
    decreases from - e
  {
    if from > e && After(s, level, from).None? {
      TryGroupReaches(s, level, i, from - 1, e);
    }
  }

  /** The search finds a match in every string the pattern can match. */
  lemma SearchFindsEveryMatch(m: Match)
    requires WellFormed(m)
    ensures Search(Spelling(m)).Some?
  {
    var s := Spelling(m);
    var g := FromMatch(m);
    FromMatchInverse(m);
    SpellingOfGroups(m.hasV, g);
    if m.hasV {
      assert s[1..] == g.group + ContinuationSpelling(g.after);
      GroupsFound(s, 0, 1, g.group, g.after);
    } else {
      GroupsFound(s, 0, 0, g.group, g.after);
    }
  }

  /** `re.search` returns a match exactly when the pattern can match the tag. */
  lemma SearchSucceedsIffMatches(s: string)
    ensures Search(s).Some? <==> Matches(s)
  {
    if Matches(s) {
      var m :| WellFormed(m) && Spelling(m) == s;
      SearchFindsEveryMatch(m);
    }
    if Search(s).Some? {
      assert WellFormed(Search(s).value) && Spelling(Search(s).value) == s;
    }
  }

  /** With non-digit separators the greedy groups stop at them, so the tail is found at once. */
  lemma {:induction false} AfterNatural(s: string, level: nat, e: nat, c: Continuation)
    requires level <= 2 && e <= |s|
    requires ContinuationWellFormed(c, level) && s[e..] == ContinuationSpelling(c)
    requires forall k :: 0 <= k < |c.pairs| ==> !IsDigit(c.pairs[k].0)
    ensures After(s, level, e) == Some(c)
    decreases 3 - level, 0
  {
    if level == 2 {
      assert c.pairs == [];
      TailFound(s, e, c.tail);
    } else {
      var (sep, g) := c.pairs[0];
      var c' := Continuation(c.pairs[1..], c.tail);
      ContinuationHead(s, e, c);
      GroupsNatural(s, level + 1, e + 1, g, c');
      assert c.pairs == [(sep, g)] + c'.pairs;
    }
  }

  /** With non-digit separators the first attempt of each greedy group is the intended split. */
  lemma {:induction false} GroupsNatural(s: string, level: nat, i: nat, g: string, c: Continuation)
    requires level <= 2 && i <= |s|
    requires IsDigits(g) && ContinuationWellFormed(c, level)
    requires s[i..] == g + ContinuationSpelling(c)
    requires forall k :: 0 <= k < |c.pairs| ==> !IsDigit(c.pairs[k].0)
    ensures MatchGroups(s, level, i) == Some(Groups(g, c))
    decreases 3 - level, 1
  {
    GroupDigits(s, i, g, ContinuationSpelling(c));
    AfterNatural(s, level, i + |g|, c);
    NaturalGroupTaken(s, level, i, g, c);
  }

  /** `GroupsNatural` once the rest is known to match right after the group. */
  lemma NaturalGroupTaken(s: string, level: nat, i: nat, g: string, c: Continuation)
    requires level <= 2 && i <= |s|
    requires IsDigits(g) && ContinuationWellFormed(c, level)
    requires s[i..] == g + ContinuationSpelling(c)
    requires forall k :: 0 <= k < |c.pairs| ==> !IsDigit(c.pairs[k].0)
    requires i + |g| <= |s| && After(s, level, i + |g|) == Some(c)
    ensures MatchGroups(s, level, i) == Some(Groups(g, c))
  {
    GroupDigits(s, i, g, ContinuationSpelling(c));
    StopsAfterGroup(s, level, i + |g|, c);
    WholeRunTaken(s, level, i, g, c);
  }

  /** When the digit run from `i` ends at `e` and the rest matches there, the greedy group is
      the whole run. */
  lemma WholeRunTaken(s: string, level: nat, i: nat, g: string, c: Continuation)
    requires level <= 2 && |g| > 0 && i + |g| <= |s| && s[i..i + |g|] == g
    requires forall k :: i <= k < i + |g| ==> IsDigit(s[k])
    requires i + |g| == |s| || !IsDigit(s[i + |g|])
    requires After(s, level, i + |g|) == Some(c)
    ensures MatchGroups(s, level, i) == Some(Groups(g, c))
  {
    RunEndExactly(s, i, IsDigit, i + |g|);
  }

  /** A digit group spelled at `i` puts digits at each of its positions. */
  lemma GroupDigits(s: string, i: nat, g: string, rest: string)
    requires i <= |s| && IsDigits(g) && s[i..] == g + rest
    ensures i + |g| <= |s| && s[i..i + |g|] == g && s[i + |g|..] == rest
    ensures forall k :: i <= k < i + |g| ==> IsDigit(s[k])
  {
    assert s[i..i + |g|] == g;
    forall k | i <= k < i + |g| ensures IsDigit(s[k]) {
      assert s[k] == g[k - i];
    }
  }

  /** A continuation that still has a pair starts with that pair's separator and group. */
  lemma ContinuationHead(s: string, e: nat, c: Continuation)
    requires e <= |s| && |c.pairs| > 0 && s[e..] == ContinuationSpelling(c)
    ensures e < |s| && s[e] == c.pairs[0].0
    ensures s[e + 1..] == c.pairs[0].1 + ContinuationSpelling(Continuation(c.pairs[1..], c.tail))
  {
    var c' := Continuation(c.pairs[1..], c.tail);
    assert s[e..] == [c.pairs[0].0] + (c.pairs[0].1 + ContinuationSpelling(c'));
  }

  /** With non-digit separators, the character after a group is never a digit. */
  lemma StopsAfterGroup(s: string, level: nat, e: nat, c: Continuation)
    requires level <= 2 && e <= |s|
    requires ContinuationWellFormed(c, level) && s[e..] == ContinuationSpelling(c)
    requires forall k :: 0 <= k < |c.pairs| ==> !IsDigit(c.pairs[k].0)
    ensures e < |s| ==> !IsDigit(s[e])
  {
    if level < 2 {
      ContinuationHead(s, e, c);
    } else if e < |s| {
      assert c.pairs == [];
      var tail := TailSpelling(c.tail);
      assert s[e..] == tail;
      assert s[e] == tail[0];
      if c.tail.prerelease.Some? {
        assert tail[0] == '-';
      } else {
        assert tail == "\n";
      }
    }
  }

  /** For a tag whose separators are not digits (a literal `.` in particular), the first match
      is the intended split into major, minor, patch and prerelease. */
  lemma SearchNaturalSplit(m: Match)
    requires WellFormed(m) && !IsDigit(m.sep1) && !IsDigit(m.sep2)
    ensures Search(Spelling(m)) == Some(m)
  {
    var s := Spelling(m);
    var g := FromMatch(m);
    FromMatchInverse(m);
    SpellingOfGroups(m.hasV, g);
    if m.hasV {
      assert s[1..] == g.group + ContinuationSpelling(g.after);
      GroupsNatural(s, 0, 1, g.group, g.after);
    } else {
      assert s[0] == m.major[0];
      GroupsNatural(s, 0, 0, g.group, g.after);
    }
  }
}
