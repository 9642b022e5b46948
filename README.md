# node-license-validator: the license-matching engine, in Dafny

node-license-validator checks the licenses of a project's dependencies against
a policy. The policy lists allowed license strings and package exceptions.
For each discovered package, the validator decides whether the package may be
used. It then reports three things:

- a map from each package identity to the text shown for it;
- the list of declared licenses that satisfied the policy;
- the list of packages that are invalid.

This project models the matching engine behind those decisions, in seven
modules:

- `Expression` — declared licenses are plain identifiers or parenthesised
  pairings `(L AND R)`, `(L OR R)` and `(L WITH E)`. `Parse` reads a
  declaration into a tree and `Render` writes it back. `Accepts` evaluates
  a declaration against the allowed list:
  - a text listed verbatim is always accepted;
  - AND needs both sides;
  - OR needs either side;
  - WITH is accepted only when listed whole.
- `Semver` — versions are triples of naturals written `X.Y.Z`. An exception's
  specifier is an exact version or a caret range `^X.Y.Z`, with node-semver's
  caret rules, including the `0.x` forms.
- `Exceptions` — an exception entry is `name`, `name@X.Y.Z` or `name@^X.Y.Z`.
  A package identity is `name@version`. Both are cut at their last `@`.
  `Resolve` finds the first entry that applies to a package.
- `Selector` — `Decide` takes the decision for one package:
  1. an applicable exception comes first, and the package shows
     `"<first license> (exception: <entry>)"`;
  2. otherwise the first acceptable declared license is taken, and shown and
     recorded as it was declared;
  3. otherwise the package is invalid and shows all its licenses joined by
     `", "`.
- `Report` — `Summary` is the specification of the report: decisions folded
  in discovery order. `Assemble` is a method that builds the same report with
  a loop.
- `Validator` — the checks made before matching starts, in order:
  1. options must be given;
  2. they must allow a license or except a package;
  3. discovery must not fail;
  4. discovery must return a list;
  5. the list must not be empty.

  `Validate` runs these checks and then the assembler.
- `Cases` — each behavioural case of the repository's test suite, stated as a
  lemma about the model.

The implementation file of the validator (`index.js`) is not part of this
model. The model follows the behaviour that the test suite pins down. The
test at `test.js:83` is titled "(OR)" but exercises a WITH pairing. The test
at `test.js:94` is titled "(WITH)" but exercises an OR pairing. The model
follows the test bodies, not the titles.

## Model

| member | source | states |
|---|---|---|
| Expression.RenderParse | test.js:72-104 | writing back what was read gives every declaration text unchanged, so the whole declared text is what is shown and recorded |
| Expression.ParseRender | test.js:72-104 | a well-formed pairing tree written out and read back is the same tree |
| Expression.Accepts | test.js:41-60 | a declaration listed verbatim is always accepted, whatever its shape; a declaration that is not an AND/OR pairing is accepted exactly when listed |
| Expression.AcceptsId | test.js:30-50 | a bare identifier is accepted exactly when it is in the allowed list |
| Expression.Parse | test.js:72-104 | a declaration reads either as one atom holding its whole text, or as a pairing tree whose every side is an operand (an identifier, a WITH of two identifiers, or a nested pairing) |
| Expression.JoinedGroupsIsText | test.js:72-104 | a pairing followed by more text, such as `(MIT OR GPL-3.0) AND (Zlib)`, reads as one atomic text and is accepted exactly when listed verbatim |
| Expression.ChainIsText | test.js:72-104 | a parenthesised chain of two operators, such as `(A OR B OR C)`, reads as one atomic text and is accepted exactly when listed verbatim |
| Expression.AcceptsAnd | test.js:72-82 | `(L AND R)` is accepted iff it is listed whole or both L and R are accepted |
| Expression.AcceptsOr | test.js:94-104 | `(L OR R)` is accepted iff it is listed whole or L or R is accepted |
| Expression.AcceptsWith | test.js:83-93 | `(L WITH E)` is accepted iff it is listed whole |
| Expression.SatisfiedByWay | test.js:72-104 | the evaluator agrees with an independent enumeration of the sets of texts that would make a tree acceptable: satisfied iff one such set is wholly listed |
| Expression.SatisfiedMonotone | test.js:72-115 | allowing more licenses never makes an accepted tree unacceptable |
| Semver.CaretLimit | test.js:128-151 | the exclusive upper bound of a caret range lies above its base, and is the next major version when the major is non-zero |
| Semver.InRange | test.js:128-151 | an exact range holds only its version; `^X.Y.Z` with X>0 holds the versions of major X at or above the base; `^0.Y.Z` with Y>0 holds 0.Y.Z' with Z'>=Z; `^0.0.Z` holds only 0.0.Z |
| Semver.NatToString | test.js:116-151 | a number is written as a canonical numeral (no leading zeros) whose value is that number |
| Semver.CanonicalNumeral | test.js:116-151 | reading a canonical numeral and writing it back gives the same text |
| Semver.ParseFormatVersion | test.js:116-151 | reading a written version gives the version back |
| Semver.FormatParseVersion | test.js:116-151 | a version text that reads gives back the same text when written |
| Semver.Matches | test.js:116-151 | a missing specifier matches every version; a match needs both the version and the specifier to read |
| Semver.MatchesExact | test.js:116-127 | an exact specifier matches a version iff they are the same version |
| Semver.MatchesCaret | test.js:128-151 | a caret specifier matches a version iff the version is in the caret range |
| Semver.MatchesOnlyCanonical | test.js:128-151 | only a well-formed version text can match a specifier |
| Exceptions.SplitName | test.js:116-151 | an entry or identity is cut at its last `@`: without `@` it is a bare name; with one, name + "@" + rest gives it back and the rest has no `@` |
| Exceptions.SplitNameJoin | test.js:116-151 | cutting `name@rest` gives back name and rest |
| Exceptions.Resolve | test.js:116-151 | the first entry that applies to the package, and none when no entry applies |
| Exceptions.BareNameApplies | test.js:116-127 | an entry without a specifier applies to every version of its package |
| Exceptions.ExactEntryApplies | test.js:116-127 | `name@X.Y.Z` applies to `pkg@V` iff the names are equal and V is X.Y.Z |
| Exceptions.CaretEntryApplies | test.js:128-151 | `name@^X.Y.Z` applies to `pkg@V` iff the names are equal and V is in the caret range |
| Exceptions.OtherNameNeverApplies | test.js:116-151 | an entry for another package never applies |
| Selector.Decide | test.js:61-71 | the decision keeps the package identity; a matched license is valid and is what is shown |
| Selector.DecideSpec | test.js:30-151 | valid iff the package declares a license and is excepted or licensed; a match only when no exception applies; an exception shows the first license tagged with the first applicable entry; a match is the first acceptable license; a failure shows all licenses joined by ", " |
| Selector.DecideByException | test.js:116-139 | with a first applicable entry, the decision is valid, records no license, and shows the exception text |
| Selector.DecideByLicense | test.js:61-115 | with no exception and a first acceptable license, the decision is valid and shows and records that license |
| Selector.DecideRejected | test.js:30-40 | with no exception and no acceptable license, the decision is invalid and shows the licenses joined by ", " |
| Selector.ExceptionIgnoresLicenses | test.js:116-127 | an excepted package's decision depends only on its first license, not on which licenses are acceptable |
| Selector.DecideMonotone | test.js:61-115 | allowing more licenses never turns a valid package invalid |
| Report.Decisions | test.js:24-26 | one decision per discovered package, in discovery order |
| Report.Assemble | test.js:24-26 | the loop builds exactly the report that folding the decisions gives |
| Report.InvalidsExactly | test.js:30-40 | an identity is listed invalid iff some decision for it failed |
| Report.LicensesExactly | test.js:61-115 | a license is listed iff some decision matched it |
| Report.PackagesShown | test.js:30-151 | a package's entry shows its decision's text, unless a later package has the same identity |
| Report.PackagesKeys | test.js:30-151 | the package map's keys are exactly the identities decided on |
| Report.TallyAppend | test.js:24-26 | the licenses and invalids of two runs back to back are each run's lists, concatenated in order |
| Report.DecisionsAppend | test.js:24-26 | the decisions for two runs of packages are those of each run, in order |
| Report.EachPackageOnce | test.js:30-151 | each decision adds a license, an invalid, or counts as an exception, and exactly one of these |
| Report.SummaryInvalids | test.js:30-151 | a package is reported invalid iff it declares no license, or is neither excepted nor licensed |
| Report.SummaryCounts | test.js:30-151 | the numbers of recorded licenses, invalids and exceptions add up to the number of packages |
| Validator.Check | test.js:162-227 | missing options, then an empty policy, then a discovery failure (passed on unchanged), then missing or non-list data (`InvalidData`), then an empty list (`NoLicensesFound`), each give their own error; there is no error exactly when the options are non-empty and discovery found packages |
| Validator.Validate | test.js:162-227 | a run fails iff a check fails, with that check's error; otherwise its report is the summary of the discovered packages under the options |
| Cases.LicenseTaken | test.js:41-115 | a package with no exception entries whose first acceptable license is the one at `i` is reported with that license shown and recorded, and nothing invalid |
| Cases.UnlistedLicensesAreInvalid | test.js:30-40 | `foo@1.0.0` with ISC and MIT against `foo` is invalid, shown as "ISC, MIT" |
| Cases.SimpleLicense | test.js:41-50 | ISC against ISC records ISC and nothing invalid |
| Cases.NonSpdxLicense | test.js:51-60 | "random thing" listed verbatim is recorded |
| Cases.FirstAcceptableAlternate | test.js:61-71 | ISC or MIT against MIT takes MIT |
| Cases.CompositeAnd | test.js:72-82 | "(ISC AND MIT)" is taken whole when ISC and MIT are listed |
| Cases.CompositeWith | test.js:83-93 | a WITH pairing listed verbatim is taken whole |
| Cases.WithHalvesNotEnough | test.js:83-93 | listing the two halves of a WITH pairing does not accept it |
| Cases.CompositeOr | test.js:94-104 | "(ISC OR MIT)" is taken whole when MIT is listed |
| Cases.FallBackAfterFailedComposite | test.js:105-115 | a failed "(ISC AND MIT)" falls back to MIT |
| Cases.PackageException | test.js:116-127 | an exact exception lets a package through with the exception text and records no license |
| Cases.CaretException | test.js:128-139 | a caret exception covering the version lets the package through |
| Cases.CaretExceptionOutOfRange | test.js:140-151 | a caret exception missing the version does not apply, and an unlisted license makes the package invalid |
| Cases.CaretCases | test.js:128-151 | 1.2.0 is inside ^1.0.0 and outside ^2.0.0 |

## Left out

- The license discovery collaborator (nlf's `find`) is not modelled; its result is a parameter (`Validator.Discovery`).
- The formatter collaborator (nlf's `standardFormatter.render`) is not modelled. Its error fails the run in the program; `Validate` does not model that error and returns the report.
- The root directory checks (missing, not a directory, not existing) need the file system and are not modelled.
- Delivery is not modelled: argument errors are either thrown or passed to the callback, and the missing-callback error is not modelled either. `Validate` returns every error as a value.
- The integration tests run the validator on a real directory and are not modelled.
- Semantic versions: tilde ranges, comparators, pre-release and build tags, and loose forms are not modelled. Only `X.Y.Z` with canonical numerals, exact specifiers and caret specifiers are. An empty specifier (entry `foo@`) is read as malformed and never applies; node-semver reads it as "any version". Version parts are unbounded naturals; node-semver rejects parts above 2^53-1.
- Exceptions.SplitName: scoped package names (`@scope/name@1.0.0`) are cut at their last `@`. No special scope handling is modelled.
- Report.Assemble: the licenses list is not deduplicated. A license matched by several packages appears once per package.
- Expression.Accepts: the grammar of pairings is one operator per parenthesised pair, `(L OP R)`, with operands that are identifiers or nested pairings. A parenthesised text is read as a pairing only when both sides of its first top-level operator read as operands. Everything else is read as plain text, accepted only when listed verbatim. This covers unparenthesised texts, chains such as `(ISC OR MIT OR BSD)`, and groups joined outside parentheses such as `(MIT OR GPL-3.0) AND (Zlib)`. The implementation's own parser is not part of this model.
- Selector.Decide: a package with no declared license is invalid with an empty display. No test exercises this case.
