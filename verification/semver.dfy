/** Semantic Versioning 2.0.0 as far as the version script produces it: the textual form of a
    version (sections 2 and 9), its parsing, and precedence (section 11). Build metadata
    (section 10) never occurs in the script's output and is not part of this module. */
module SemVer {
  import opened Wrappers
  import opened Ascii
  import opened Decimal
  import opened Strings

  /** A version: the three numeric fields and the dot-separated prerelease identifiers
      (empty for a normal version). */
  datatype Version = Version(major: nat, minor: nat, patch: nat, prerelease: seq<string>)

  /** Section 9: an identifier is non-empty, made of `[0-9A-Za-z-]`, and a numeric one has no
      leading zero. */
  predicate IsIdentifier(id: string) {
    && |id| > 0
    && (forall i :: 0 <= i < |id| ==> IsIdentifierChar(id[i]))
    && (AllDigits(id) ==> IsCanonicalDigits(id))
  }

  predicate IsValid(v: Version) {
    forall i :: 0 <= i < |v.prerelease| ==> IsIdentifier(v.prerelease[i])
  }

  /** The textual form `MAJOR.MINOR.PATCH[-PRERELEASE]`. */
  function Format(v: Version): string {
    NatToString(v.major) + "." + NatToString(v.minor) + "." + NatToString(v.patch)
      + (if |v.prerelease| == 0 then "" else "-" + Join(v.prerelease, '.'))
  }

  /** Sections 2 and 9: reads `MAJOR.MINOR.PATCH[-PRERELEASE]`, refusing leading zeroes, empty
      identifiers and characters outside the identifier class. Whatever it accepts is a valid
      version whose textual form is exactly the input. */
  function Parse(s: string): (r: Option<Version>)
    ensures r.Some? ==> IsValid(r.value) && Format(r.value) == s
  {
    var dash := FirstIndex(s, '-');
    var core := if dash.Some? then s[..dash.value] else s;
    var ids := if dash.Some? then Split(s[dash.value + 1..], '.') else [];
    match ParseCore(core)
    case None => None
    case Some((major, minor, patch)) =>
      if forall i :: 0 <= i < |ids| ==> IsIdentifier(ids[i]) then
        ParsedText(s, dash, core, major, minor, patch, ids);
        Some(Version(major, minor, patch, ids))
      else None
  }

  /** The pieces `Parse` cuts from `s` put back together as `s`. */
  lemma ParsedText(s: string, dash: Option<nat>, core: string, major: nat, minor: nat, patch: nat, ids: seq<string>)
    requires core == NatToString(major) + "." + NatToString(minor) + "." + NatToString(patch)
    requires dash.Some? ==> dash.value < |s| && s[dash.value] == '-' && core == s[..dash.value] && ids == Split(s[dash.value + 1..], '.')
    requires dash.None? ==> core == s && ids == []
    ensures Format(Version(major, minor, patch, ids)) == s
  {
    var v := Version(major, minor, patch, ids);
    if dash.Some? {
      CutAtDash(s, dash.value);
      assert Format(v) == core + ("-" + Join(ids, '.'));
    } else {
      assert Format(v) == core + "";
    }
  }

  /** Text after the first `-` with an invalid dot-separated identifier is not a version. */
  lemma RejectsInvalidIdentifier(core: string, pre: string, k: nat)
    requires '-' !in core
    requires k < |Split(pre, '.')| && !IsIdentifier(Split(pre, '.')[k])
    ensures Parse(core + "-" + pre) == None
  {
    var s := core + "-" + pre;
    FirstIndexAfter(core, '-', pre);
    assert s[|core| + 1..] == pre;
  }

  lemma CutAtDash(s: string, d: nat)
    requires d < |s| && s[d] == '-'
    ensures s == s[..d] + ("-" + s[d + 1..])
  {
    assert s == s[..d] + [s[d]] + s[d + 1..];
  }

  /** The numeric part `MAJOR.MINOR.PATCH`: three canonical numerals separated by dots. */
  function ParseCore(core: string): (r: Option<(nat, nat, nat)>)
    ensures r.Some? ==> core == NatToString(r.value.0) + "." + NatToString(r.value.1) + "." + NatToString(r.value.2)
  {
    var fields := Split(core, '.');
    if |fields| == 3 && IsCanonicalDigits(fields[0]) && IsCanonicalDigits(fields[1]) && IsCanonicalDigits(fields[2]) then
      CanonicalRoundTrip(fields[0]);
      CanonicalRoundTrip(fields[1]);
      CanonicalRoundTrip(fields[2]);
      assert fields == [fields[0], fields[1], fields[2]];
      JoinThree(fields[0], fields[1], fields[2], '.');
      Some((DigitsValue(fields[0]), DigitsValue(fields[1]), DigitsValue(fields[2])))
    else None
  }

  /** A numeral has neither a dash nor a dot. */
  lemma NumeralHasNoSeparators(n: nat)
    ensures '-' !in NatToString(n) && '.' !in NatToString(n)
  {
    var d := NatToString(n);
    assert forall i :: 0 <= i < |d| ==> IsDigit(d[i]);
  }

  /** Parsing the textual form of a valid version gives the version back. */
  lemma ParseFormat(v: Version)
    requires IsValid(v)
    ensures Parse(Format(v)) == Some(v)
  {
    var core := NatToString(v.major) + "." + NatToString(v.minor) + "." + NatToString(v.patch);
    CoreParses(v.major, v.minor, v.patch);
    if |v.prerelease| == 0 {
      assert Format(v) == core;
      assert FirstIndex(Format(v), '-') == None;
    } else {
      var pre := Join(v.prerelease, '.');
      assert Format(v) == core + ['-'] + pre;
      FirstIndexAfter(core, '-', pre);
      assert Format(v)[|core| + 1..] == pre;
      IdentifiersHaveNoDot(v.prerelease);
      SplitJoin(v.prerelease, '.');
    }
  }

  /** The numeric part of a textual form has no dash and reads back as its three numbers. */
  lemma CoreParses(major: nat, minor: nat, patch: nat)
    ensures var core := NatToString(major) + "." + NatToString(minor) + "." + NatToString(patch);
            '-' !in core && ParseCore(core) == Some((major, minor, patch))
  {
    var a, b, c := NatToString(major), NatToString(minor), NatToString(patch);
    NumeralHasNoSeparators(major);
    NumeralHasNoSeparators(minor);
    NumeralHasNoSeparators(patch);
    JoinThree(a, b, c, '.');
    SplitJoin([a, b, c], '.');
  }

  /** Identifiers never contain the `.` that separates them. */
  lemma IdentifiersHaveNoDot(ids: seq<string>)
    requires forall i :: 0 <= i < |ids| ==> IsIdentifier(ids[i])
    ensures forall i :: 0 <= i < |ids| ==> '.' !in ids[i]
  {
    forall i | 0 <= i < |ids| ensures '.' !in ids[i] {
      var id := ids[i];
      assert forall k :: 0 <= k < |id| ==> IsIdentifierChar(id[k]);
    }
  }

  /** Section 11.4.2: lexical comparison in ASCII sort order, a proper prefix sorting first. */
  predicate AsciiLess(a: string, b: string)
    decreases |a|
  {
    if |a| == 0 then |b| > 0
    else if |b| == 0 then false
    else if a[0] == b[0] then AsciiLess(a[1..], b[1..])
    else a[0] < b[0]
  }

  /** Sections 11.4.1-11.4.3: numeric identifiers compare numerically and below alphanumeric
      ones, alphanumeric identifiers compare lexically. */
  predicate IdentifierLess(a: string, b: string) {
    if IsDigits(a) && IsDigits(b) then DigitsValue(a) < DigitsValue(b)
    else if IsDigits(a) then true
    else if IsDigits(b) then false
    else AsciiLess(a, b)
  }

  /** Section 11.4: identifiers compared left to right; when all of the shorter list equal the
      start of the longer one, the longer list is greater (11.4.4). */
  predicate IdentifiersLess(a: seq<string>, b: seq<string>)
    decreases |a|
  {
    if |a| == 0 then |b| > 0
    else if |b| == 0 then false
    else if a[0] == b[0] then IdentifiersLess(a[1..], b[1..])
    else IdentifierLess(a[0], b[0])
  }

  /** Section 11.3: a prerelease version has lower precedence than the normal version. */
  predicate PrereleaseLess(a: seq<string>, b: seq<string>) {
    if |a| == 0 then false
    else if |b| == 0 then true
    else IdentifiersLess(a, b)
  }

  /** Section 11.2: `a` has lower precedence than `b`. */
  predicate Precedes(a: Version, b: Version) {
    if a.major != b.major then a.major < b.major
    else if a.minor != b.minor then a.minor < b.minor
    else if a.patch != b.patch then a.patch < b.patch
    else PrereleaseLess(a.prerelease, b.prerelease)
  }

  lemma {:induction false} AsciiLessIrreflexive(a: string)
    ensures !AsciiLess(a, a)
    decreases |a|
  {
    if |a| > 0 {
      AsciiLessIrreflexive(a[1..]);
    }
  }

  lemma {:induction false} AsciiLessTransitive(a: string, b: string, c: string)
    requires AsciiLess(a, b) && AsciiLess(b, c)
    ensures AsciiLess(a, c)
    decreases |a|
  {
    if |a| > 0 && a[0] == b[0] && b[0] == c[0] {
      AsciiLessTransitive(a[1..], b[1..], c[1..]);
    }
  }

  lemma {:induction false} AsciiLessTotal(a: string, b: string)
    requires a != b
    ensures AsciiLess(a, b) || AsciiLess(b, a)
    decreases |a|
  {
    if |a| > 0 && |b| > 0 && a[0] == b[0] {
      assert a == [a[0]] + a[1..] && b == [b[0]] + b[1..];
      AsciiLessTotal(a[1..], b[1..]);
    }
  }

  lemma IdentifierLessIrreflexive(a: string)
    ensures !IdentifierLess(a, a)
  {
    AsciiLessIrreflexive(a);
  }

  lemma IdentifierLessTransitive(a: string, b: string, c: string)
    requires IdentifierLess(a, b) && IdentifierLess(b, c)
    ensures IdentifierLess(a, c)
  {
    if !IsDigits(a) && !IsDigits(b) && !IsDigits(c) {
      AsciiLessTransitive(a, b, c);
    }
  }

  lemma IdentifierLessAsymmetric(a: string, b: string)
    requires IdentifierLess(a, b)
    ensures !IdentifierLess(b, a)
  {
    if IdentifierLess(b, a) {
      IdentifierLessTransitive(a, b, a);
      IdentifierLessIrreflexive(a);
    }
  }

  /** Distinct valid identifiers are ordered one way or the other: numeric ones have canonical
      spellings, so distinct numerals have distinct values. */
  lemma IdentifierLessTotal(a: string, b: string)
    requires IsIdentifier(a) && IsIdentifier(b) && a != b
    ensures IdentifierLess(a, b) || IdentifierLess(b, a)
  {
    if IsDigits(a) && IsDigits(b) {
      CanonicalRoundTrip(a);
      CanonicalRoundTrip(b);
    } else if !IsDigits(a) && !IsDigits(b) {
      AsciiLessTotal(a, b);
    }
  }

  lemma {:induction false} IdentifiersLessIrreflexive(a: seq<string>)
    ensures !IdentifiersLess(a, a)
    decreases |a|
  {
    if |a| > 0 {
      IdentifiersLessIrreflexive(a[1..]);
    }
  }

  lemma {:induction false} IdentifiersLessTransitive(a: seq<string>, b: seq<string>, c: seq<string>)
    requires IdentifiersLess(a, b) && IdentifiersLess(b, c)
    ensures IdentifiersLess(a, c)
    decreases |a|
  {
    if |a| > 0 {
      if a[0] == b[0] && b[0] == c[0] {
        IdentifiersLessTransitive(a[1..], b[1..], c[1..]);
      } else if a[0] != b[0] && b[0] != c[0] {
        IdentifierLessTransitive(a[0], b[0], c[0]);
        if a[0] == c[0] {
          IdentifierLessAsymmetric(a[0], b[0]);
        }
      }
    }
  }

  lemma {:induction false} IdentifiersLessTotal(a: seq<string>, b: seq<string>)
    requires forall i :: 0 <= i < |a| ==> IsIdentifier(a[i])
    requires forall i :: 0 <= i < |b| ==> IsIdentifier(b[i])
    requires a != b
    ensures IdentifiersLess(a, b) || IdentifiersLess(b, a)
    decreases |a|
  {
    if |a| > 0 && |b| > 0 {
      if a[0] == b[0] {
        assert a == [a[0]] + a[1..] && b == [b[0]] + b[1..];
        IdentifiersLessTotal(a[1..], b[1..]);
      } else {
        IdentifierLessTotal(a[0], b[0]);
      }
    }
  }

  /** Section 11 precedence is a strict order: no version precedes itself ... */
  lemma PrecedesIrreflexive(v: Version)
    ensures !Precedes(v, v)
  {
    IdentifiersLessIrreflexive(v.prerelease);
  }

  /** ... precedence is transitive ... */
  lemma PrecedesTransitive(a: Version, b: Version, c: Version)
    requires Precedes(a, b) && Precedes(b, c)
    ensures Precedes(a, c)
  {
    if a.major == b.major == c.major && a.minor == b.minor == c.minor && a.patch == b.patch == c.patch {
      if |a.prerelease| > 0 && |b.prerelease| > 0 && |c.prerelease| > 0 {
        IdentifiersLessTransitive(a.prerelease, b.prerelease, c.prerelease);
      }
    }
  }

  /** ... and of two distinct valid versions one precedes the other. */
  lemma PrecedesTotal(a: Version, b: Version)
    requires IsValid(a) && IsValid(b) && a != b
    ensures Precedes(a, b) || Precedes(b, a)
  {
    if a.major == b.major && a.minor == b.minor && a.patch == b.patch {
      if |a.prerelease| > 0 && |b.prerelease| > 0 {
        IdentifiersLessTotal(a.prerelease, b.prerelease);
      }
    }
  }

  /** Section 11.4.4: adding fields to a prerelease raises its precedence. */
  lemma {:induction false} IdentifiersLessExtension(a: seq<string>, more: seq<string>)
    requires |more| > 0
    ensures IdentifiersLess(a, a + more)
    decreases |a|
  {
    if |a| > 0 {
      assert (a + more)[1..] == a[1..] + more;
      IdentifiersLessExtension(a[1..], more);
    }
  }

  /** Equal leading identifiers leave the comparison to what follows them. */
  lemma {:induction false} IdentifiersLessCommonPrefix(prefix: seq<string>, a: seq<string>, b: seq<string>)
    requires IdentifiersLess(a, b)
    ensures IdentifiersLess(prefix + a, prefix + b)
    decreases |prefix|
  {
    if |prefix| > 0 {
      assert (prefix + a)[1..] == prefix[1..] + a;
      assert (prefix + b)[1..] == prefix[1..] + b;
      IdentifiersLessCommonPrefix(prefix[1..], a, b);
    } else {
      assert prefix + a == a && prefix + b == b;
    }
  }
}
