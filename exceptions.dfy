/// The exception resolver. A policy's package entries are "name" (every
/// version of that package), "name@X.Y.Z" (that version only) or
/// "name@^X.Y.Z" (the caret range); a package identity is "name@version".
/// Both are cut at their last '@'.
module Exceptions {
  import opened Util
  import Semver

  /** `s` cut at its last '@' into a name and what follows it, if anything. */
  function SplitName(s: string): (r: (string, Option<string>))
    ensures r.1.None? ==> r.0 == s && '@' !in s
    ensures r.1.Some? ==> s == r.0 + "@" + r.1.value && '@' !in r.1.value
  {
    match LastIndexOf(s, '@')
    case None => (s, None)
    case Some(i) =>
      assert s == s[..i] + "@" + s[i + 1..];
      (s[..i], Some(s[i + 1..]))
  }

  /** Cutting "name@rest" gives back name and rest, whatever the name holds. */
  lemma SplitNameJoin(name: string, rest: string)
    requires '@' !in rest
    ensures SplitName(name + "@" + rest) == (name, Some(rest))
  {
    var s := name + "@" + rest;
    assert s[|name|] == '@';
    assert s[|name| + 1..] == rest;
    var i := LastIndexOf(s, '@').value;
    assert i == |name|;
    assert s[..i] == name;
  }

  /** Whether the policy entry `entry` grants an exception to the package
      `identity`: the names are equal and the version satisfies the entry's
      specifier, when it has one. */
  predicate Applies(entry: string, identity: string)
  {
    var (name, spec) := SplitName(entry);
    var (pkg, version) := SplitName(identity);
    name == pkg &&
    match version
    case None => spec.None?
    case Some(v) => Semver.Matches(v, spec)
  }

  /** The first entry of `entries` that grants `identity` an exception. */
  function Resolve(identity: string, entries: seq<string>): (r: Option<nat>)
    ensures r.Some? ==> r.value < |entries| && Applies(entries[r.value], identity)
    ensures r.Some? ==> forall k :: 0 <= k < r.value ==> !Applies(entries[k], identity)
    ensures r.None? <==> forall k :: 0 <= k < |entries| ==> !Applies(entries[k], identity)
  {
    First(entries, entry => Applies(entry, identity))
  }

  /** An entry without a specifier covers every version of its package. */
  lemma BareNameApplies(name: string, version: string)
    requires '@' !in name && '@' !in version
    ensures Applies(name, name + "@" + version)
  {
    SplitNameJoin(name, version);
  }

  /** "name@X.Y.Z" covers exactly that version of that package. */
  lemma ExactEntryApplies(name: string, pkg: string, v: Semver.Version, w: Semver.Version)
    ensures Applies(name + "@" + Semver.FormatVersion(v), pkg + "@" + Semver.FormatVersion(w)) <==>
              name == pkg && w == v
  {
    NoAtInVersion(v);
    NoAtInVersion(w);
    SplitNameJoin(name, Semver.FormatVersion(v));
    SplitNameJoin(pkg, Semver.FormatVersion(w));
    Semver.MatchesExact(w, v);
  }

  /** "name@^X.Y.Z" covers exactly the versions of that package in the caret range. */
  lemma CaretEntryApplies(name: string, pkg: string, v: Semver.Version, w: Semver.Version)
    ensures Applies(name + "@^" + Semver.FormatVersion(v), pkg + "@" + Semver.FormatVersion(w)) <==>
              name == pkg && Semver.InRange(w, Semver.Caret(v))
  {
    NoAtInVersion(v);
    NoAtInVersion(w);
    assert name + "@^" + Semver.FormatVersion(v) == name + "@" + ("^" + Semver.FormatVersion(v));
    SplitNameJoin(name, "^" + Semver.FormatVersion(v));
    SplitNameJoin(pkg, Semver.FormatVersion(w));
    Semver.MatchesCaret(w, v);
  }

  /** An entry for another package never applies. */
  lemma OtherNameNeverApplies(entry: string, identity: string)
    requires SplitName(entry).0 != SplitName(identity).0
    ensures !Applies(entry, identity)
  {
  }

  lemma NoAtInVersion(v: Semver.Version)
    ensures '@' !in Semver.FormatVersion(v)
  {
    var a, b, c := Semver.NatToString(v.major), Semver.NatToString(v.minor), Semver.NatToString(v.patch);
    assert [a, b, c][1..] == [b, c];
    assert [b, c][1..] == [c];
    assert Join([b, c], ".") == b + "." + c;
    assert Join([a, b, c], ".") == a + "." + Join([b, c], ".");
    assert Semver.FormatVersion(v) == a + "." + (b + "." + c);
    assert Semver.AllDigits(a) && Semver.AllDigits(b) && Semver.AllDigits(c);
  }
}
