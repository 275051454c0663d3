/** Failure-compatible wrappers shared by every module of the model, and the
    first-match search that JavaScript's `Array.prototype.find` and
    `Array.prototype.findIndex` perform. */
module Wrappers {

  datatype Option<+T> = None | Some(value: T)

  /** A value or a tagged error: the model's stand-in for a thrown exception. */
  datatype Result<+R, +E> = Success(value: R) | Failure(error: E)

  /** Completion without a value (a `Promise<void>`) or a tagged error. */
  datatype Outcome<+E> = Pass | Fail(error: E)

  /** Index of the first element satisfying `matches`, scanning left to right,
      as `findIndex` returns it (`None` for JavaScript's `-1`). */
  function FirstIndex<T>(s: seq<T>, matches: T -> bool): (r: Option<nat>)
    ensures r.Some? ==> r.value < |s| && matches(s[r.value])
    ensures r.Some? ==> forall j :: 0 <= j < r.value ==> !matches(s[j])
    ensures r.None? <==> forall j :: 0 <= j < |s| ==> !matches(s[j])
  {
    if |s| == 0 then None
    else if matches(s[0]) then Some(0)
    else
      match FirstIndex(s[1..], matches)
      case None => None
      case Some(k) => Some(k + 1)
  }

  /** The first-match conditions pin the index down. */
  lemma FirstIndexIs<T>(s: seq<T>, matches: T -> bool, j: nat)
    requires j < |s| && matches(s[j])
    requires forall i :: 0 <= i < j ==> !matches(s[i])
    ensures FirstIndex(s, matches) == Some(j)
  {
  }

  /** The element `find` returns: the first one satisfying `matches`. */
  function Find<T>(s: seq<T>, matches: T -> bool): (r: Option<T>)
    ensures r.Some? <==> exists j :: 0 <= j < |s| && matches(s[j])
    ensures r.Some? ==> exists j :: 0 <= j < |s| && s[j] == r.value && matches(s[j])
                                    && forall i :: 0 <= i < j ==> !matches(s[i])
  {
    match FirstIndex(s, matches)
    case None => None
    case Some(k) => Some(s[k])
  }
}
