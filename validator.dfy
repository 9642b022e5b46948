/// The checks the validator makes around the matching engine, and the run
/// that ties them together: options must be given, they must allow some
/// license or except some package, and license discovery must hand back a
/// non-empty list of packages before any package is decided.
module Validator {
  import opened Util
  import opened Selector
  import opened Report

  datatype Error =
    | InvalidOptions              // no options object was given
    | NoLicensesOrPackages        // neither an allowed license nor an exception entry
    | DiscoveryFailed(message: string)  // the discovery's own error, passed on unchanged
    | InvalidData                 // discovery handed back nothing, or not a list
    | NoLicensesFound             // discovery handed back an empty list

  /** What license discovery hands back. */
  datatype Discovery =
    | Failed(message: string)
    | Nothing
    | NotAList
    | Found(deps: seq<Dependency>)

  /** The first check that fails before matching starts, if any. Options
      come first, then what discovery returned. */
  function Check(options: Option<Policy>, found: Discovery): (e: Option<Error>)
    ensures options.None? ==> e == Some(InvalidOptions)
    ensures options.Some? && options.value.licenses == [] && options.value.packages == [] ==>
              e == Some(NoLicensesOrPackages)
    ensures e.None? <==>
              options.Some? && (options.value.licenses != [] || options.value.packages != [])
              && found.Found? && found.deps != []
    ensures e.Some? && found.Failed? && options.Some?
              && (options.value.licenses != [] || options.value.packages != []) ==>
              e == Some(DiscoveryFailed(found.message))
    ensures options.Some? && (options.value.licenses != [] || options.value.packages != [])
              && (found.Nothing? || found.NotAList?) ==>
              e == Some(InvalidData)
    ensures options.Some? && (options.value.licenses != [] || options.value.packages != [])
              && found.Found? && found.deps == [] ==>
              e == Some(NoLicensesFound)
  {
    match options
    case None => Some(InvalidOptions)
    case Some(policy) =>
      if policy.licenses == [] && policy.packages == [] then Some(NoLicensesOrPackages)
      else match found
        case Failed(message) => Some(DiscoveryFailed(message))
        case Nothing => Some(InvalidData)
        case NotAList => Some(InvalidData)
        case Found(deps) => if deps == [] then Some(NoLicensesFound) else None
  }

  /** One validation run: the checks, then the report. */
  method Validate(options: Option<Policy>, found: Discovery) returns (r: Result<Report, Error>)
    ensures r.Err? <==> Check(options, found).Some?
    ensures r.Err? ==> r.error == Check(options, found).value
    ensures r.Ok? ==> options.Some? && found.Found? && r.value == Summary(found.deps, options.value)
  {
    var failure := Check(options, found);
    if failure.Some? {
      return Err(failure.value);
    }
    var report := Assemble(found.deps, options.value);
    return Ok(report);
  }
}
