/** Linear scans and removal on Java lists, modelled on sequences. */
module Sequences {
  import opened Wrappers

  /** Index of the first element equal to `x`, as a for-each scan that breaks on the first match finds it. */
  function FirstIndex<T(==)>(s: seq<T>, x: T): (r: Option<nat>)
    ensures r.Some? ==> r.value < |s| && s[r.value] == x
    ensures r.Some? ==> forall j :: 0 <= j < r.value ==> s[j] != x
    ensures r.None? <==> x !in s
  {
    if |s| == 0 then None
    else if s[0] == x then Some(0)
    else match FirstIndex(s[1..], x)
      case None => None
      case Some(k) => Some(k + 1)
  }

  /** The list after `Iterator.remove()` at position `k`: the other elements keep their order. */
  function RemoveAt<T>(s: seq<T>, k: nat): (r: seq<T>)
    requires k < |s|
    ensures |r| == |s| - 1
    ensures forall j :: 0 <= j < k ==> r[j] == s[j]
    ensures forall j :: k <= j < |r| ==> r[j] == s[j + 1]
  {
    s[..k] + s[k + 1..]
  }

  /** A scan that has passed `k + 1` elements has passed the first `k` and then element `k`. */
  lemma PrefixStep<T>(s: seq<T>, k: nat)
    requires k < |s|
    ensures s[..k + 1] == s[..k] + [s[k]]
  {
  }
}
