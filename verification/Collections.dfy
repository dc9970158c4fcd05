/** Shared notions about optional values and sequences. */
module Collections {

  datatype Option<+T> = None | Some(value: T)

  function Elements(s: seq<nat>): set<nat> { set x | x in s }

  ghost predicate Distinct(s: seq<nat>) {
    forall i, j :: 0 <= i < j < |s| ==> s[i] != s[j]
  }
}
