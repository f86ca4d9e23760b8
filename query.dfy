/** What a `find(filter)` cursor yields before sorting: the ids of the matching documents,
    in id order; the filter sees each document with its id. */
module Query {

  function Matching<T>(s: seq<T>, keep: (nat, T) -> bool): (ids: seq<nat>)
    ensures forall i :: 0 <= i < |ids| ==> ids[i] < |s| && keep(ids[i], s[ids[i]])
    ensures forall k :: 0 <= k < |s| && keep(k, s[k]) ==> k in ids
    ensures forall i, j :: 0 <= i < j < |ids| ==> ids[i] < ids[j]
  {
    if s == [] then []
    else
      var n := |s| - 1;
      var ids := Matching(s[..n], keep);
      assert forall k :: 0 <= k < n ==> s[..n][k] == s[k];
      if keep(n, s[n]) then ids + [n] else ids
  }
}
