/// The candidate selector: the decision for one discovered package. A
/// package exception is consulted first; otherwise the declared licenses are
/// tried in order and the first acceptable one is taken; a package with no
/// acceptable license and no exception is invalid.
module Selector {
  import opened Util
  import opened Expression
  import Exceptions

  /** The validator's options: allowed license strings, and package exception
      entries ("name", "name@X.Y.Z" or "name@^X.Y.Z"). */
  datatype Policy = Policy(licenses: seq<string>, packages: seq<string>)

  /** A discovered package: its "name@version" identity and its declared
      licenses, in declaration order. */
  datatype Dependency = Dependency(pkg: string, licenses: seq<string>)

  /** The outcome for one package: the text shown for it, the declared license
      that satisfied the policy (none for an exception or a failure), and
      whether the package is valid. */
  datatype Decision = Decision(pkg: string, display: string, matched: Option<string>, valid: bool)

  /** Some package entry of the policy grants `dep` an exception. */
  predicate Excepted(dep: Dependency, policy: Policy)
  {
    exists k :: 0 <= k < |policy.packages| && Exceptions.Applies(policy.packages[k], dep.pkg)
  }

  /** Some declared license of `dep` is acceptable under the policy. */
  predicate Licensed(dep: Dependency, policy: Policy)
  {
    exists i :: 0 <= i < |dep.licenses| && Accepts(dep.licenses[i], policy.licenses)
  }

  /** The text shown for a package let through by `entry`. */
  function ExceptionText(license: string, entry: string): string
  {
    license + " (exception: " + entry + ")"
  }

  /** The decision for one package. */
  function Decide(dep: Dependency, policy: Policy): (d: Decision)
    ensures d.pkg == dep.pkg
    ensures d.matched.Some? ==> d.valid && d.display == d.matched.value
  {
    if |dep.licenses| == 0 then Decision(dep.pkg, "", None, false)
    else match Exceptions.Resolve(dep.pkg, policy.packages)
      case Some(k) =>
        Decision(dep.pkg, ExceptionText(dep.licenses[0], policy.packages[k]), None, true)
      case None =>
        match First(dep.licenses, license => Accepts(license, policy.licenses))
        case Some(i) => Decision(dep.pkg, dep.licenses[i], Some(dep.licenses[i]), true)
        case None => Decision(dep.pkg, Join(dep.licenses, ", "), None, false)
  }

  /** What the decision means: a package is valid exactly when it declares a
      license and is excepted or has an acceptable license; the exception
      wins over a license; and the text shown is fixed by which outcome it is. */
  lemma DecideSpec(dep: Dependency, policy: Policy)
    ensures var d := Decide(dep, policy);
      d.valid <==> |dep.licenses| > 0 && (Excepted(dep, policy) || Licensed(dep, policy))
    ensures var d := Decide(dep, policy);
      d.matched.Some? <==> |dep.licenses| > 0 && !Excepted(dep, policy) && Licensed(dep, policy)
    // an exception: the first declared license, tagged with the first entry that applies
    ensures var d := Decide(dep, policy);
      d.valid && d.matched.None? ==>
        exists k :: 0 <= k < |policy.packages|
          && Exceptions.Applies(policy.packages[k], dep.pkg)
          && (forall j :: 0 <= j < k ==> !Exceptions.Applies(policy.packages[j], dep.pkg))
          && d.display == ExceptionText(dep.licenses[0], policy.packages[k])
    // a match: the first acceptable license, shown and recorded as it was declared
    ensures var d := Decide(dep, policy);
      d.matched.Some? ==>
        exists i :: 0 <= i < |dep.licenses| && dep.licenses[i] == d.matched.value
          && Accepts(dep.licenses[i], policy.licenses)
          && forall j :: 0 <= j < i ==> !Accepts(dep.licenses[j], policy.licenses)
    // a failure: every declared license, in order
    ensures var d := Decide(dep, policy);
      !d.valid ==> d.matched.None? && d.display == Join(dep.licenses, ", ")
  {
    if |dep.licenses| > 0 {
      match Exceptions.Resolve(dep.pkg, policy.packages)
      case Some(k) =>
        assert Exceptions.Applies(policy.packages[k], dep.pkg);
      case None =>
        assert !Excepted(dep, policy);
        match First(dep.licenses, license => Accepts(license, policy.licenses))
        case Some(i) =>
          assert Accepts(dep.licenses[i], policy.licenses);
        case None =>
          assert !Licensed(dep, policy);
    }
  }

  /** The exception outcome: with the first applicable entry `k`, the package is
      valid and shows its first declared license tagged with that entry. */
  lemma DecideByException(dep: Dependency, policy: Policy, k: nat)
    requires |dep.licenses| > 0
    requires k < |policy.packages| && Exceptions.Applies(policy.packages[k], dep.pkg)
    requires forall j :: 0 <= j < k ==> !Exceptions.Applies(policy.packages[j], dep.pkg)
    ensures Decide(dep, policy)
              == Decision(dep.pkg, ExceptionText(dep.licenses[0], policy.packages[k]), None, true)
  {
    DecideSpec(dep, policy);
    var r := Exceptions.Resolve(dep.pkg, policy.packages);
    assert r == Some(k);
  }

  /** The match outcome: with no exception and `i` the first acceptable
      license, the package is valid and shows and records that license. */
  lemma DecideByLicense(dep: Dependency, policy: Policy, i: nat)
    requires !Excepted(dep, policy)
    requires i < |dep.licenses| && Accepts(dep.licenses[i], policy.licenses)
    requires forall j :: 0 <= j < i ==> !Accepts(dep.licenses[j], policy.licenses)
    ensures Decide(dep, policy) == Decision(dep.pkg, dep.licenses[i], Some(dep.licenses[i]), true)
  {
    DecideSpec(dep, policy);
    var d := Decide(dep, policy);
    assert Licensed(dep, policy);
    var i' :| 0 <= i' < |dep.licenses| && dep.licenses[i'] == d.matched.value
      && Accepts(dep.licenses[i'], policy.licenses)
      && forall j :: 0 <= j < i' ==> !Accepts(dep.licenses[j], policy.licenses);
    assert i' == i;
  }

  /** The failure outcome: with no exception and no acceptable license, the
      package is invalid and shows all its licenses joined by ", ". */
  lemma DecideRejected(dep: Dependency, policy: Policy)
    requires !Excepted(dep, policy) && !Licensed(dep, policy)
    ensures Decide(dep, policy) == Decision(dep.pkg, Join(dep.licenses, ", "), None, false)
  {
    DecideSpec(dep, policy);
  }

  /** An exception decides a package whatever licenses it declares after the
      first one, acceptable or not. */
  lemma ExceptionIgnoresLicenses(dep: Dependency, other: Dependency, policy: Policy)
    requires Excepted(dep, policy)
    requires other.pkg == dep.pkg && |dep.licenses| > 0 && |other.licenses| > 0
    requires other.licenses[0] == dep.licenses[0]
    ensures Decide(other, policy) == Decide(dep, policy)
    ensures Decide(dep, policy).valid && Decide(dep, policy).matched.None?
  {
    DecideSpec(dep, policy);
    DecideSpec(other, policy);
    assert Excepted(other, policy);
  }

  /** Allowing more licenses never turns a valid package invalid. */
  lemma DecideMonotone(dep: Dependency, policy: Policy, more: seq<string>)
    requires forall t :: t in policy.licenses ==> t in more
    requires Decide(dep, policy).valid
    ensures Decide(dep, Policy(more, policy.packages)).valid
  {
    var wider := Policy(more, policy.packages);
    DecideSpec(dep, policy);
    DecideSpec(dep, wider);
    if !Excepted(dep, policy) {
      var i :| 0 <= i < |dep.licenses| && Accepts(dep.licenses[i], policy.licenses);
      SatisfiedMonotone(Parse(dep.licenses[i]), policy.licenses, more);
      assert Accepts(dep.licenses[i], wider.licenses);
      assert Licensed(dep, wider);
    } else {
      assert Excepted(dep, wider);
    }
  }
}
