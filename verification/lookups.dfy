/**
 * Looking names up in a dataset: both pipelines read or drop variables by
 * name, and stop at the first name the dataset does not hold.
 */
module Lookups {
  import opened Wrappers

  /**
   * The first of `lookups` that is not among `keys`: the key a run of
   * subscripts `ds[k]` fails on, or that a `drop_vars` reports.
   */
  function FirstMissing<K>(keys: set<K>, lookups: seq<K>): (r: Option<K>)
    ensures r.None? <==> forall i :: 0 <= i < |lookups| ==> lookups[i] in keys
    ensures r.Some? ==> r.value in lookups && r.value !in keys
    ensures r.Some? ==> exists i :: 0 <= i < |lookups| && lookups[i] == r.value &&
                                    forall j :: 0 <= j < i ==> lookups[j] in keys
    decreases |lookups|
  {
    if |lookups| == 0 then None
    else if lookups[0] !in keys then Some(lookups[0])
    else
      assert forall i :: 0 < i < |lookups| ==> lookups[i] == lookups[1..][i - 1];
      var r := FirstMissing(keys, lookups[1..]);
      if r.Some? then
        var i :| 0 <= i < |lookups| - 1 && lookups[1..][i] == r.value &&
                 forall j :: 0 <= j < i ==> lookups[1..][j] in keys;
        assert lookups[i + 1] == r.value;
        assert forall j :: 1 <= j < i + 1 ==> lookups[j] == lookups[1..][j - 1];
        r
      else r
  }
}
