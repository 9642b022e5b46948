/// The version matcher behind package exceptions: a version is a triple of
/// naturals written "X.Y.Z", and an exception's version specifier is either an
/// exact version or a caret range "^X.Y.Z" with node-semver's meaning. Version
/// and range strings that do not parse never match (the matcher fails closed).
module Semver {
  import opened Util

  datatype Version = Version(major: nat, minor: nat, patch: nat)

  /** An exception's version specifier: one exact version, or a caret range. */
  datatype Range = Exact(version: Version) | Caret(base: Version)

  /** Semantic-version precedence: `a` comes strictly before `b`. */
  predicate Below(a: Version, b: Version)
  {
    a.major < b.major
    || (a.major == b.major && a.minor < b.minor)
    || (a.major == b.major && a.minor == b.minor && a.patch < b.patch)
  }

  /** The exclusive upper bound of `^v`: the next release that changes its
      left-most non-zero component (node-semver's caret rule). */
  function CaretLimit(v: Version): (u: Version)
    ensures Below(v, u)
    ensures v.major > 0 ==> u == Version(v.major + 1, 0, 0)
  {
    if v.major > 0 then Version(v.major + 1, 0, 0)
    else if v.minor > 0 then Version(0, v.minor + 1, 0)
    else Version(0, 0, v.patch + 1)
  }

  /** Whether version `w` lies inside `range`; for a caret range that is
      `base <= w < CaretLimit(base)`. */
  function InRange(w: Version, range: Range): (b: bool)
    ensures range.Exact? ==> (b <==> w == range.version)
    ensures range.Caret? && range.base.major > 0 ==>
              (b <==> w.major == range.base.major && !Below(w, range.base))
    ensures range.Caret? && range.base.major == 0 && range.base.minor > 0 ==>
              (b <==> w.major == 0 && w.minor == range.base.minor && w.patch >= range.base.patch)
    ensures range.Caret? && range.base.major == 0 && range.base.minor == 0 ==>
              (b <==> w == range.base)
  {
    match range
    case Exact(v) => w == v
    case Caret(v) => !Below(w, v) && Below(w, CaretLimit(v))
  }

  // ---- numerals ----

  predicate IsDigit(c: char) { '0' <= c <= '9' }

  predicate AllDigits(s: string) { forall k :: 0 <= k < |s| ==> IsDigit(s[k]) }

  function DigitChar(n: nat): (c: char)
    requires n < 10
    ensures IsDigit(c)
  {
    ('0' as int + n) as char
  }

  /** The number a string of decimal digits denotes. */
  function Value(s: string): nat
    requires AllDigits(s)
  {
    if s == [] then 0
    else Value(s[..|s| - 1]) * 10 + (s[|s| - 1] as int - '0' as int)
  }

  /** A numeral as node-semver accepts one: "0", or digits without a leading zero. */
  predicate Canonical(s: string)
  {
    s != [] && AllDigits(s) && (s[0] != '0' || |s| == 1)
  }

  /** The decimal numeral of `n`. */
  function NatToString(n: nat): (s: string)
    ensures Canonical(s) && Value(s) == n
  {
    if n < 10 then [DigitChar(n)]
    else
      var s := NatToString(n / 10) + [DigitChar(n % 10)];
      assert s[..|s| - 1] == NatToString(n / 10);
      s
  }

  lemma {:induction false} LeadingDigitPositive(s: string)
    requires s != [] && AllDigits(s) && s[0] != '0'
    ensures Value(s) > 0
  {
    if |s| > 1 {
      LeadingDigitPositive(s[..|s| - 1]);
    }
  }

  /** A canonical numeral is the only numeral of its value. */
  lemma {:induction false} CanonicalNumeral(s: string)
    requires Canonical(s)
    ensures NatToString(Value(s)) == s
  {
    if |s| > 1 {
      var p := s[..|s| - 1];
      LeadingDigitPositive(p);
      CanonicalNumeral(p);
      assert p + [s[|s| - 1]] == s;
    }
  }

  function ParseNumeral(s: string): (r: Option<nat>)
  {
    if Canonical(s) then Some(Value(s)) else None
  }

  // ---- versions and ranges as text ----

  function FormatVersion(v: Version): string
  {
    Join([NatToString(v.major), NatToString(v.minor), NatToString(v.patch)], ".")
  }

  /** Reads "X.Y.Z"; anything else is malformed. */
  function ParseVersion(s: string): Option<Version>
  {
    var parts := Split(s, '.');
    if |parts| != 3 then None
    else match (ParseNumeral(parts[0]), ParseNumeral(parts[1]), ParseNumeral(parts[2]))
      case (Some(x), Some(y), Some(z)) => Some(Version(x, y, z))
      case _ => None
  }

  /** Reads "^X.Y.Z" as a caret range and "X.Y.Z" as an exact version. */
  function ParseRange(s: string): Option<Range>
  {
    if |s| > 0 && s[0] == '^' then
      match ParseVersion(s[1..])
      case Some(v) => Some(Caret(v))
      case None => None
    else
      match ParseVersion(s)
      case Some(v) => Some(Exact(v))
      case None => None
  }

  /** Whether `version` satisfies the optional specifier `range`: a missing
      specifier covers every version, a malformed one covers none. */
  function Matches(version: string, range: Option<string>): (b: bool)
    ensures range.None? ==> b
    ensures b && range.Some? ==> ParseVersion(version).Some? && ParseRange(range.value).Some?
  {
    match range
    case None => true
    case Some(spec) =>
      match (ParseVersion(version), ParseRange(spec))
      case (Some(w), Some(r)) => InRange(w, r)
      case _ => false
  }

  /** Formatting then parsing a version gives it back. */
  lemma ParseFormatVersion(v: Version)
    ensures ParseVersion(FormatVersion(v)) == Some(v)
  {
    var parts := [NatToString(v.major), NatToString(v.minor), NatToString(v.patch)];
    assert forall k :: 0 <= k < 3 ==> AllDigits(parts[k]);
    SplitJoin(parts, '.');
  }

  /** A version string that parses is the canonical text of what it parses to. */
  lemma FormatParseVersion(s: string)
    requires ParseVersion(s).Some?
    ensures FormatVersion(ParseVersion(s).value) == s
  {
    var parts := Split(s, '.');
    CanonicalNumeral(parts[0]);
    CanonicalNumeral(parts[1]);
    CanonicalNumeral(parts[2]);
    JoinSplit(s, '.');
    assert parts == [parts[0], parts[1], parts[2]];
  }

  /** An exact specifier matches exactly the version it names. */
  lemma MatchesExact(w: Version, v: Version)
    ensures Matches(FormatVersion(w), Some(FormatVersion(v))) <==> w == v
  {
    ParseFormatVersion(w);
    ParseFormatVersion(v);
    var s := FormatVersion(v);
    assert s[0] == NatToString(v.major)[0];
    assert ParseRange(s) == Some(Exact(v));
  }

  /** A caret specifier matches exactly the versions in its caret range. */
  lemma MatchesCaret(w: Version, v: Version)
    ensures Matches(FormatVersion(w), Some("^" + FormatVersion(v))) <==> InRange(w, Caret(v))
  {
    ParseFormatVersion(w);
    ParseFormatVersion(v);
    assert ("^" + FormatVersion(v))[1..] == FormatVersion(v);
  }

  /** Only a well-formed version string can match a specifier. */
  lemma MatchesOnlyCanonical(version: string, spec: string)
    requires Matches(version, Some(spec))
    ensures exists w :: FormatVersion(w) == version
  {
    FormatParseVersion(version);
  }
}
