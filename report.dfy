/// The report assembler: folds the decisions for the discovered packages, in
/// discovery order, into the validator's result: `packages` maps each
/// identity to its shown text, `licenses` lists the declared licenses that
/// satisfied the policy, and `invalids` lists the invalid identities.
module Report {
  import opened Util
  import opened Selector

  datatype Report = Report(packages: map<string, string>, licenses: seq<string>, invalids: seq<string>)

  /** The report with one more decision taken into account. */
  function Add(report: Report, d: Decision): Report
  {
    Report(
      report.packages[d.pkg := d.display],
      report.licenses + (if d.matched.Some? then [d.matched.value] else []),
      report.invalids + (if d.valid then [] else [d.pkg]))
  }

  /** The report for a run of decisions, folded in order. */
  function Tally(ds: seq<Decision>): Report
  {
    if ds == [] then Report(map[], [], [])
    else Add(Tally(ds[..|ds| - 1]), ds[|ds| - 1])
  }

  /** The decision for each discovered package, in discovery order. */
  function Decisions(deps: seq<Dependency>, policy: Policy): (ds: seq<Decision>)
    ensures |ds| == |deps|
    ensures forall i :: 0 <= i < |deps| ==> ds[i] == Decide(deps[i], policy)
  {
    seq(|deps|, i requires 0 <= i < |deps| => Decide(deps[i], policy))
  }

  /** The validator's result for the discovered packages. */
  function Summary(deps: seq<Dependency>, policy: Policy): Report
  {
    Tally(Decisions(deps, policy))
  }

  method Assemble(deps: seq<Dependency>, policy: Policy) returns (report: Report)
    ensures report == Summary(deps, policy)
  {
    var packages: map<string, string> := map[];
    var licenses: seq<string> := [];
    var invalids: seq<string> := [];
    ghost var ds: seq<Decision> := [];
    for i := 0 to |deps|
      invariant ds == Decisions(deps[..i], policy)
      invariant Report(packages, licenses, invalids) == Tally(ds)
    {
      var d := Decide(deps[i], policy);
      packages := packages[d.pkg := d.display];
      if d.matched.Some? {
        licenses := licenses + [d.matched.value];
      }
      if !d.valid {
        invalids := invalids + [d.pkg];
      }
      DecisionsStep(deps, policy, i);
      TallyStep(ds, d);
      ds := ds + [d];
    }
    assert deps[..|deps|] == deps;
    report := Report(packages, licenses, invalids);
  }

  lemma DecisionsStep(deps: seq<Dependency>, policy: Policy, i: nat)
    requires i < |deps|
    ensures Decisions(deps[..i + 1], policy) == Decisions(deps[..i], policy) + [Decide(deps[i], policy)]
  {
  }

  lemma TallyStep(ds: seq<Decision>, d: Decision)
    ensures Tally(ds + [d]) == Add(Tally(ds), d)
  {
    assert (ds + [d])[..|ds|] == ds;
  }

  /** A package is listed as invalid exactly when its decision is a failure. */
  lemma {:induction false} InvalidsExactly(ds: seq<Decision>, pkg: string)
    ensures pkg in Tally(ds).invalids <==> exists i :: 0 <= i < |ds| && ds[i].pkg == pkg && !ds[i].valid
  {
    if ds != [] {
      var init := ds[..|ds| - 1];
      InvalidsExactly(init, pkg);
      assert forall i :: 0 <= i < |init| ==> init[i] == ds[i];
    }
  }

  /** A license is listed exactly when it is what some package matched. */
  lemma {:induction false} LicensesExactly(ds: seq<Decision>, license: string)
    ensures license in Tally(ds).licenses <==> exists i :: 0 <= i < |ds| && ds[i].matched == Some(license)
  {
    if ds != [] {
      var init := ds[..|ds| - 1];
      LicensesExactly(init, license);
      assert forall i :: 0 <= i < |init| ==> init[i] == ds[i];
    }
  }

  /** Every package gets an entry, showing its own decision when its identity
      is not repeated later in the run. */
  lemma {:induction false} PackagesShown(ds: seq<Decision>, i: nat)
    requires i < |ds|
    requires forall j :: i < j < |ds| ==> ds[j].pkg != ds[i].pkg
    ensures ds[i].pkg in Tally(ds).packages && Tally(ds).packages[ds[i].pkg] == ds[i].display
  {
    var init := ds[..|ds| - 1];
    if i < |ds| - 1 {
      PackagesShown(init, i);
    }
  }

  /** The entries of `packages` are exactly the identities decided on. */
  lemma {:induction false} PackagesKeys(ds: seq<Decision>)
    ensures Tally(ds).packages.Keys == set i | 0 <= i < |ds| :: ds[i].pkg
  {
    if ds != [] {
      var init := ds[..|ds| - 1];
      PackagesKeys(init);
      assert forall i :: 0 <= i < |init| ==> init[i] == ds[i];
      assert (set i | 0 <= i < |ds| :: ds[i].pkg)
          == (set i | 0 <= i < |init| :: init[i].pkg) + {ds[|ds| - 1].pkg};
    }
  }

  /** Folding two runs one after the other keeps both runs' order: the lists
      of the whole are the lists of the parts, concatenated. */
  lemma {:induction false} TallyAppend(a: seq<Decision>, b: seq<Decision>)
    ensures Tally(a + b).licenses == Tally(a).licenses + Tally(b).licenses
    ensures Tally(a + b).invalids == Tally(a).invalids + Tally(b).invalids
  {
    if b == [] {
      assert a + b == a;
    } else {
      var init := b[..|b| - 1];
      TallyAppend(a, init);
      assert (a + b)[..|a + b| - 1] == a + init;
      assert (a + b)[|a + b| - 1] == b[|b| - 1];
    }
  }

  /** The decisions for two runs of packages are those of each run. */
  lemma DecisionsAppend(a: seq<Dependency>, b: seq<Dependency>, policy: Policy)
    ensures Decisions(a + b, policy) == Decisions(a, policy) + Decisions(b, policy)
  {
  }

  /** How many decisions in the run let a package through by an exception. */
  function ExceptedCount(ds: seq<Decision>): nat
  {
    if ds == [] then 0
    else ExceptedCount(ds[..|ds| - 1]) + (if ds[|ds| - 1].valid && ds[|ds| - 1].matched.None? then 1 else 0)
  }

  /** Each decision lands in exactly one place, as long as a match is always
      a valid decision (which Decide guarantees): it adds a license, or it is
      listed invalid, or it is an exception. */
  lemma {:induction false} EachPackageOnce(ds: seq<Decision>)
    requires forall i :: 0 <= i < |ds| ==> ds[i].matched.Some? ==> ds[i].valid
    ensures |Tally(ds).licenses| + |Tally(ds).invalids| + ExceptedCount(ds) == |ds|
  {
    if ds != [] {
      EachPackageOnce(ds[..|ds| - 1]);
    }
  }

  /** A discovered package is reported invalid exactly when it declares no
      license, or is neither excepted nor has an acceptable license. */
  lemma SummaryInvalids(deps: seq<Dependency>, policy: Policy, pkg: string)
    ensures pkg in Summary(deps, policy).invalids <==>
              exists i :: 0 <= i < |deps| && deps[i].pkg == pkg
                && !(|deps[i].licenses| > 0 && (Excepted(deps[i], policy) || Licensed(deps[i], policy)))
  {
    var ds := Decisions(deps, policy);
    InvalidsExactly(ds, pkg);
    forall i | 0 <= i < |deps|
      ensures ds[i].valid <==> |deps[i].licenses| > 0 && (Excepted(deps[i], policy) || Licensed(deps[i], policy))
    {
      DecideSpec(deps[i], policy);
    }
  }

  /** Every discovered package is counted once: as a license, as invalid, or
      as an exception. */
  lemma SummaryCounts(deps: seq<Dependency>, policy: Policy)
    ensures var report := Summary(deps, policy);
      |report.licenses| + |report.invalids| + ExceptedCount(Decisions(deps, policy)) == |deps|
  {
    EachPackageOnce(Decisions(deps, policy));
  }
}
