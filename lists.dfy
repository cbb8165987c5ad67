/**
 * The searches of .NET's `List<T>` that the controllers use, over a sequence:
 * `Find`/`FindIndex` give the first element satisfying a predicate,
 * `FindLast` the last one, and `Remove` searches for the first element equal
 * to its argument.
 */
module Lists {
  import opened Wrappers

  /** `i` is the index of the first element of `s` that satisfies `p`. */
  ghost predicate IsFirst<T>(s: seq<T>, i: int, p: T -> bool)
  {
    0 <= i < |s| && p(s[i]) && forall j :: 0 <= j < i ==> !p(s[j])
  }

  /** `List<T>.FindIndex`: the index of the first match, `None` where .NET returns -1. */
  function FindIndex<T>(s: seq<T>, p: T -> bool): (r: Option<nat>)
    ensures r.Some? ==> IsFirst(s, r.value, p)
    ensures r.None? <==> forall j :: 0 <= j < |s| ==> !p(s[j])
  {
    if s == [] then None
    else if p(s[0]) then Some(0)
    else match FindIndex(s[1..], p)
      case None => None
      case Some(k) => Some(k + 1)
  }

  /** `List<T>.FindLast`, as an index: the last match, `None` where .NET returns null. */
  function FindLastIndex<T>(s: seq<T>, p: T -> bool): (r: Option<nat>)
    ensures r.Some? ==> r.value < |s| && p(s[r.value])
    ensures r.Some? ==> forall j :: r.value < j < |s| ==> !p(s[j])
    ensures r.None? <==> forall j :: 0 <= j < |s| ==> !p(s[j])
  {
    if s == [] then None
    else if p(s[|s| - 1]) then Some(|s| - 1)
    else FindLastIndex(s[..|s| - 1], p)
  }

  /** The predicate `List<T>.Remove(x)` searches with. */
  function EqualTo<T(==)>(x: T): T -> bool
  {
    y => y == x
  }
}
