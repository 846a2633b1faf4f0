/** Searching a sequence. */
module Sequences {
  /** The first position that satisfies the predicate; the length when none does. */
  function FirstIndex<T>(s: seq<T>, sought: T -> bool): (i: nat)
    ensures i <= |s| && (i < |s| ==> sought(s[i])) && forall j | 0 <= j < i :: !sought(s[j])
  {
    if s == [] || sought(s[0]) then 0 else 1 + FirstIndex(s[1..], sought)
  }
}
