/// The validator's behavioural cases, each stated as a lemma about the model:
/// one package, a policy, and the report the validator gives for them.
module Cases {
  import opened Util
  import opened Expression
  import opened Selector
  import opened Report
  import Exceptions
  import Semver

  /** The report for a single package is that package's decision alone. */
  lemma SingleSummary(dep: Dependency, policy: Policy)
    ensures Summary([dep], policy) == Add(Report(map[], [], []), Decide(dep, policy))
  {
    var ds := Decisions([dep], policy);
    assert ds == [Decide(dep, policy)];
    assert ds[..|ds| - 1] == [];
    assert Tally(ds) == Add(Tally([]), ds[0]);
  }

  /** One package with no exception entries, whose first acceptable license
      is the one at `i`: the report shows and records that license. */
  lemma LicenseTaken(pkg: string, licenses: seq<string>, allowed: seq<string>, i: nat)
    requires i < |licenses| && Accepts(licenses[i], allowed)
    requires forall j :: 0 <= j < i ==> !Accepts(licenses[j], allowed)
    ensures Summary([Dependency(pkg, licenses)], Policy(allowed, []))
              == Report(map[pkg := licenses[i]], [licenses[i]], [])
  {
    var dep := Dependency(pkg, licenses);
    var policy := Policy(allowed, []);
    assert !Excepted(dep, policy);
    DecideByLicense(dep, policy, i);
    SingleSummary(dep, policy);
  }

  lemma Identifiers()
    ensures IsId("ISC") && IsId("MIT") && IsId("GPL-2.0") && IsId("GPL-2.0+") && IsId("Bison-exception-2.2")
  {
  }

  lemma AndText()
    ensures PairText("ISC", AndOp, "MIT") == "(ISC AND MIT)"
  {
  }

  lemma OrText()
    ensures PairText("ISC", OrOp, "MIT") == "(ISC OR MIT)"
  {
  }

  lemma WithText()
    ensures PairText("GPL-2.0+", WithOp, "Bison-exception-2.2") == "(GPL-2.0+ WITH Bison-exception-2.2)"
  {
  }

  lemma AndAccepted()
    ensures Accepts("(ISC AND MIT)", ["ISC", "MIT"])
  {
    Identifiers();
    AcceptsAnd(Atom("ISC"), Atom("MIT"), ["ISC", "MIT"]);
    AcceptsId("ISC", ["ISC", "MIT"]);
    AcceptsId("MIT", ["ISC", "MIT"]);
    AndText();
  }

  lemma AndRefused()
    ensures !Accepts("(ISC AND MIT)", ["MIT"])
  {
    Identifiers();
    AcceptsAnd(Atom("ISC"), Atom("MIT"), ["MIT"]);
    AcceptsId("ISC", ["MIT"]);
    AndText();
    assert "(ISC AND MIT)" !in ["MIT"];
  }

  lemma OrAccepted()
    ensures Accepts("(ISC OR MIT)", ["MIT"])
  {
    Identifiers();
    AcceptsOr(Atom("ISC"), Atom("MIT"), ["MIT"]);
    AcceptsId("MIT", ["MIT"]);
    OrText();
  }

  /** No declared license is listed: the package is invalid and shows all of
      its licenses. */
  lemma UnlistedLicensesAreInvalid()
    ensures Summary([Dependency("foo@1.0.0", ["ISC", "MIT"])], Policy(["foo"], []))
              == Report(map["foo@1.0.0" := "ISC, MIT"], [], ["foo@1.0.0"])
  {
    var dep := Dependency("foo@1.0.0", ["ISC", "MIT"]);
    var policy := Policy(["foo"], []);
    Identifiers();
    AcceptsId("ISC", policy.licenses);
    AcceptsId("MIT", policy.licenses);
    assert !Licensed(dep, policy);
    DecideRejected(dep, policy);
    assert Join(["ISC", "MIT"], ", ") == "ISC, MIT";
    SingleSummary(dep, policy);
  }

  /** A listed license is taken. */
  lemma SimpleLicense()
    ensures Summary([Dependency("foo@1.0.0", ["ISC"])], Policy(["ISC"], []))
              == Report(map["foo@1.0.0" := "ISC"], ["ISC"], [])
  {
    LicenseTaken("foo@1.0.0", ["ISC"], ["ISC"], 0);
  }

  /** Any text is a license name when it is listed verbatim. */
  lemma NonSpdxLicense()
    ensures Summary([Dependency("foo@1.0.0", ["random thing"])], Policy(["random thing"], []))
              == Report(map["foo@1.0.0" := "random thing"], ["random thing"], [])
  {
    LicenseTaken("foo@1.0.0", ["random thing"], ["random thing"], 0);
  }

  /** The first acceptable of several alternatives is taken. */
  lemma FirstAcceptableAlternate()
    ensures Summary([Dependency("foo@1.0.0", ["ISC", "MIT"])], Policy(["MIT"], []))
              == Report(map["foo@1.0.0" := "MIT"], ["MIT"], [])
  {
    Identifiers();
    AcceptsId("ISC", ["MIT"]);
    LicenseTaken("foo@1.0.0", ["ISC", "MIT"], ["MIT"], 1);
  }

  /** "(ISC AND MIT)" is taken when both halves are listed, ahead of the
      later alternatives, and recorded whole. */
  lemma CompositeAnd()
    ensures Summary([Dependency("foo@1.0.0", ["(ISC AND MIT)", "ISC", "MIT"])], Policy(["ISC", "MIT"], []))
              == Report(map["foo@1.0.0" := "(ISC AND MIT)"], ["(ISC AND MIT)"], [])
  {
    AndAccepted();
    LicenseTaken("foo@1.0.0", ["(ISC AND MIT)", "ISC", "MIT"], ["ISC", "MIT"], 0);
  }

  /** A WITH pairing listed verbatim is taken whole. */
  lemma CompositeWith()
    ensures Summary([Dependency("foo@1.0.0", ["(GPL-2.0+ WITH Bison-exception-2.2)"])],
                    Policy(["(GPL-2.0+ WITH Bison-exception-2.2)"], []))
              == Report(map["foo@1.0.0" := "(GPL-2.0+ WITH Bison-exception-2.2)"],
                        ["(GPL-2.0+ WITH Bison-exception-2.2)"], [])
  {
    LicenseTaken("foo@1.0.0", ["(GPL-2.0+ WITH Bison-exception-2.2)"], ["(GPL-2.0+ WITH Bison-exception-2.2)"], 0);
  }

  /** Listing both halves of a WITH pairing does not accept the pairing. */
  lemma WithHalvesNotEnough()
    ensures !Accepts("(GPL-2.0+ WITH Bison-exception-2.2)", ["GPL-2.0+", "Bison-exception-2.2"])
  {
    Identifiers();
    AcceptsWith("GPL-2.0+", "Bison-exception-2.2", ["GPL-2.0+", "Bison-exception-2.2"]);
    WithText();
  }

  /** "(ISC OR MIT)" is taken when one half is listed, and recorded whole. */
  lemma CompositeOr()
    ensures Summary([Dependency("foo@1.0.0", ["(ISC OR MIT)"])], Policy(["MIT"], []))
              == Report(map["foo@1.0.0" := "(ISC OR MIT)"], ["(ISC OR MIT)"], [])
  {
    OrAccepted();
    LicenseTaken("foo@1.0.0", ["(ISC OR MIT)"], ["MIT"], 0);
  }

  /** A failed pairing does not end the search: the next alternative is tried. */
  lemma FallBackAfterFailedComposite()
    ensures Summary([Dependency("foo@1.0.0", ["(ISC AND MIT)", "MIT"])], Policy(["MIT"], []))
              == Report(map["foo@1.0.0" := "MIT"], ["MIT"], [])
  {
    AndRefused();
    LicenseTaken("foo@1.0.0", ["(ISC AND MIT)", "MIT"], ["MIT"], 1);
  }

  /** An exact package exception lets the package through whatever its
      license, and adds no license ("foo@1.0.0" excepted by "foo@1.0.0"). */
  lemma PackageException(name: string, v: Semver.Version, license: string, allowed: seq<string>)
    ensures var id := name + "@" + Semver.FormatVersion(v);
      Summary([Dependency(id, [license])], Policy(allowed, [id]))
        == Report(map[id := ExceptionText(license, id)], [], [])
  {
    var id := name + "@" + Semver.FormatVersion(v);
    var dep := Dependency(id, [license]);
    var policy := Policy(allowed, [id]);
    Exceptions.ExactEntryApplies(name, name, v, v);
    DecideByException(dep, policy, 0);
    SingleSummary(dep, policy);
  }

  /** A caret exception lets through a version inside its range ("foo@1.2.0"
      excepted by "foo@^1.0.0"). */
  lemma CaretException(name: string, base: Semver.Version, w: Semver.Version, license: string, allowed: seq<string>)
    requires Semver.InRange(w, Semver.Caret(base))
    ensures var id := name + "@" + Semver.FormatVersion(w);
      var entry := name + "@^" + Semver.FormatVersion(base);
      Summary([Dependency(id, [license])], Policy(allowed, [entry]))
        == Report(map[id := ExceptionText(license, entry)], [], [])
  {
    var id := name + "@" + Semver.FormatVersion(w);
    var entry := name + "@^" + Semver.FormatVersion(base);
    var dep := Dependency(id, [license]);
    var policy := Policy(allowed, [entry]);
    Exceptions.CaretEntryApplies(name, name, base, w);
    DecideByException(dep, policy, 0);
    SingleSummary(dep, policy);
  }

  /** A caret exception whose range misses the version does not apply: the
      package is checked as usual and fails on an unlisted license
      ("foo@1.2.0" against "foo@^2.0.0"). */
  lemma CaretExceptionOutOfRange(name: string, base: Semver.Version, w: Semver.Version, license: string,
                                 allowed: seq<string>)
    requires !Semver.InRange(w, Semver.Caret(base))
    requires IsId(license) && license !in allowed
    ensures var id := name + "@" + Semver.FormatVersion(w);
      var entry := name + "@^" + Semver.FormatVersion(base);
      Summary([Dependency(id, [license])], Policy(allowed, [entry]))
        == Report(map[id := license], [], [id])
  {
    var id := name + "@" + Semver.FormatVersion(w);
    var entry := name + "@^" + Semver.FormatVersion(base);
    var dep := Dependency(id, [license]);
    var policy := Policy(allowed, [entry]);
    Exceptions.CaretEntryApplies(name, name, base, w);
    assert !Excepted(dep, policy);
    AcceptsId(license, allowed);
    assert !Licensed(dep, policy);
    DecideRejected(dep, policy);
    SingleSummary(dep, policy);
  }

  /** The versions of the caret cases: 1.2.0 is inside ^1.0.0 and outside ^2.0.0. */
  lemma CaretCases()
    ensures Semver.InRange(Semver.Version(1, 2, 0), Semver.Caret(Semver.Version(1, 0, 0)))
    ensures !Semver.InRange(Semver.Version(1, 2, 0), Semver.Caret(Semver.Version(2, 0, 0)))
  {
  }
}
