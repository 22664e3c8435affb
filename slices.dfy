/** Utilities over index ranges. */
module Slices {

  /** The result IndexOf gives when no index qualifies. */
  const INVALID: int := -1

  /** The first index in [0, limit) that satisfies `pred`, or INVALID when
      there is none. The ghost `probes` lists the indices `pred` was asked
      about, in order: 0, 1, ... up to and including the one returned. */
  method IndexOf(limit: int, pred: int -> bool) returns (r: int, ghost probes: seq<int>)
    ensures r == INVALID || (0 <= r < limit && pred(r))
    ensures r != INVALID ==> forall i :: 0 <= i < r ==> !pred(i)
    ensures r == INVALID <==> forall i :: 0 <= i < limit ==> !pred(i)
    ensures |probes| == (if r != INVALID then r + 1 else if limit <= 0 then 0 else limit)
    ensures forall k :: 0 <= k < |probes| ==> probes[k] == k
  {
    probes := [];
    var index := 0;
    while index < limit
      invariant 0 <= index && (0 < limit ==> index <= limit) && (limit <= 0 ==> index == 0)
      invariant forall i :: 0 <= i < index ==> !pred(i)
      invariant |probes| == index
      invariant forall k :: 0 <= k < index ==> probes[k] == k
      decreases limit - index
    {
      probes := probes + [index];
      if pred(index) {
        return index, probes;
      }
      index := index + 1;
    }
    return INVALID, probes;
  }
}
