/// Helpers shared by the license-matching modules: an Option type, the
/// first-match search used both for exception entries and for candidate
/// licenses, and the few string operations the matcher relies on (joining
/// with a separator, splitting on a character, finding a character).
module Util {

  datatype Option<+T> = None | Some(value: T)

  datatype Result<+T, +E> = Ok(value: T) | Err(error: E)

  /** Index of the first element of `s` that satisfies `p`, if there is one. */
  function First<T>(s: seq<T>, p: T -> bool): (r: Option<nat>)
    ensures r.Some? ==> r.value < |s| && p(s[r.value])
    ensures r.Some? ==> forall k :: 0 <= k < r.value ==> !p(s[k])
    ensures r.None? ==> forall k :: 0 <= k < |s| ==> !p(s[k])
  {
    if s == [] then None
    else if p(s[0]) then Some(0)
    else match First(s[1..], p)
      case None => None
      case Some(k) => Some(k + 1)
  }

  /** Index of the first occurrence of `c` in `s`. */
  function IndexOf(s: string, c: char): (r: Option<nat>)
    ensures r.Some? ==> r.value < |s| && s[r.value] == c && c !in s[..r.value]
    ensures r.None? ==> c !in s
  {
    if s == [] then None
    else if s[0] == c then Some(0)
    else match IndexOf(s[1..], c)
      case None => None
      case Some(k) =>
        assert s[..k + 1] == [s[0]] + s[1..][..k];
        Some(k + 1)
  }

  /** Index of the last occurrence of `c` in `s`. */
  function LastIndexOf(s: string, c: char): (r: Option<nat>)
    ensures r.Some? ==> r.value < |s| && s[r.value] == c && c !in s[r.value + 1..]
    ensures r.None? ==> c !in s
  {
    if s == [] then None
    else if s[|s| - 1] == c then Some(|s| - 1)
    else
      var r := LastIndexOf(s[..|s| - 1], c);
      assert r.None? ==> s == s[..|s| - 1] + [s[|s| - 1]];
      assert r.Some? ==> s[r.value + 1..] == s[..|s| - 1][r.value + 1..] + [s[|s| - 1]];
      r
  }

  /** The elements of `parts` separated by `sep` (JavaScript's `Array.prototype.join`). */
  function Join(parts: seq<string>, sep: string): string
  {
    if parts == [] then ""
    else if |parts| == 1 then parts[0]
    else parts[0] + sep + Join(parts[1..], sep)
  }

  /** `s` cut at every occurrence of `c` (JavaScript's `String.prototype.split`). */
  function Split(s: string, c: char): (parts: seq<string>)
    ensures |parts| > 0
    ensures forall k :: 0 <= k < |parts| ==> c !in parts[k]
  {
    match IndexOf(s, c)
    case None => [s]
    case Some(i) => [s[..i]] + Split(s[i + 1..], c)
  }

  /** Joining what Split cut gives back the original string. */
  lemma {:induction false} JoinSplit(s: string, c: char)
    ensures Join(Split(s, c), [c]) == s
  {
    match IndexOf(s, c)
    case None =>
    case Some(i) =>
      JoinSplit(s[i + 1..], c);
      assert s == s[..i] + [c] + s[i + 1..];
  }

  /** Splitting a join of parts free of `c` gives back the parts. */
  lemma {:induction false} SplitJoin(parts: seq<string>, c: char)
    requires |parts| > 0
    requires forall k :: 0 <= k < |parts| ==> c !in parts[k]
    ensures Split(Join(parts, [c]), c) == parts
  {
    if |parts| > 1 {
      var rest := Join(parts[1..], [c]);
      var s := parts[0] + [c] + rest;
      assert s[|parts[0]|] == c;
      assert s[..|parts[0]|] == parts[0];
      assert s[|parts[0]| + 1..] == rest;
      assert IndexOf(s, c) == Some(|parts[0]|);
      SplitJoin(parts[1..], c);
      assert [parts[0]] + parts[1..] == parts;
    }
  }
}
