/** JavaScript array searches over Dafny sequences. */
module Sequences {
  import opened Wrappers

  /** `Array.prototype.findIndex` as an Option: the first index whose element satisfies `p`. */
  function FindFirst<T>(s: seq<T>, p: T -> bool): (r: Option<nat>)
    ensures r.Some? ==> r.value < |s| && p(s[r.value]) && forall j :: 0 <= j < r.value ==> !p(s[j])
    ensures r.None? ==> forall j :: 0 <= j < |s| ==> !p(s[j])
  {
    if |s| == 0 then None
    else if p(s[0]) then Some(0)
    else
      match FindFirst(s[1..], p)
      case None => None
      case Some(i) => Some(i + 1)
  }
}
