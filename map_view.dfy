/**
 * Iterating an IMapView with a range-for and push_back-ing one converted
 * record per value: both reply builders fill their lists this way. A map
 * view is given as its (key, value) pairs in iteration order.
 */
module MapView {

  /** The values of a map view, each converted, in iteration order. */
  function ConvertValues<K, V, R>(entries: seq<(K, V)>, convert: V --> R): (list: seq<R>)
    requires forall i :: 0 <= i < |entries| ==> convert.requires(entries[i].1)
    ensures |list| == |entries|
    ensures forall i :: 0 <= i < |entries| ==> list[i] == convert(entries[i].1)
  {
    if entries == [] then []
    else
      var init := entries[..|entries| - 1];
      assert forall i :: 0 <= i < |init| ==> init[i] == entries[i];
      ConvertValues(init, convert) + [convert(entries[|entries| - 1].1)]
  }

  /** The range-for loop: one push_back per entry. */
  method ConvertEach<K, V, R>(entries: seq<(K, V)>, convert: V --> R) returns (list: seq<R>)
    requires forall i :: 0 <= i < |entries| ==> convert.requires(entries[i].1)
    ensures list == ConvertValues(entries, convert)
  {
    list := [];
    for i := 0 to |entries|
      invariant |list| == i
      invariant forall j :: 0 <= j < i ==> list[j] == convert(entries[j].1)
    {
      var (_, value) := entries[i];
      list := list + [convert(value)];
    }
  }
}
