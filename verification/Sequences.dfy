/** What several modules say about sequences. */
module Sequences {

  ghost predicate Distinct<T>(s: seq<T>) {
    forall i, j :: 0 <= i < j < |s| ==> s[i] != s[j]
  }

  /** `s` without its element at `k`. */
  function Cut<T>(s: seq<T>, k: nat): (cut: seq<T>)
    requires k < |s|
    ensures |cut| == |s| - 1 && forall i :: 0 <= i < |cut| ==> cut[i] == s[if i < k then i else i + 1]
  {
    s[..k] + s[k + 1..]
  }
}
