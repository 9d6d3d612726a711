/**
 * `nestData` written the way the source writes it: one loop filling the
 * map, then one flat loop over the map that pushes each node onto the
 * roots or onto its parent's children. The loops never recurse into the
 * structure they build, so a node that is its own parent cannot make them
 * run forever.
 */
module NestLoop {
  import opened Wrappers
  import opened Items
  import opened JsMap
  import opened NestData
  import NestProperties

  /** The index pass as a loop over the records. */
  method IndexLoop<V>(data: seq<DataItem<V>>) returns (itemMap: Index<V>)
    ensures itemMap == IndexPass(data)
  {
    itemMap := Empty();
    var i := 0;
    while i < |data|
      invariant 0 <= i <= |data|
      invariant itemMap == IndexPass(data[..i])
    {
      assert data[..i + 1][..i] == data[..i];
      itemMap := Set(itemMap, data[i].id, ToNested(data[i]));
      i := i + 1;
    }
    assert data[..|data|] == data;
  }

  /** The link pass as one flat loop over the keys of the map, in insertion order. */
  method LinkLoop<V>(itemMap: Index<V>) returns (index: Index<V>, roots: seq<Id>)
    requires forall k :: k in itemMap.keys ==> k in itemMap.entries
    ensures Forest(index, roots) == LinkPass(itemMap, itemMap.keys)
  {
    var keys := itemMap.keys;
    index := itemMap;
    roots := [];
    var j := 0;
    while j < |keys|
      invariant 0 <= j <= |keys|
      invariant Forest(index, roots) == LinkPass(itemMap, keys[..j])
    {
      var k := keys[j];
      assert keys[..j + 1][..j] == keys[..j];
      var item := index.entries[k];
      if item.parent == None {
        roots := roots + [k];
      } else {
        var found := Get(index, item.parent.value);
        if found.Some? {
          var parent := found.value;
          index := Set(index, item.parent.value, parent.(children := parent.children + [k]));
        }
      }
      j := j + 1;
    }
    assert keys[..|keys|] == keys;
  }

  /** `nestData`: both loops, returning the linked index and the roots. */
  method NestDataLoop<V>(data: seq<DataItem<V>>) returns (index: Index<V>, roots: seq<Id>)
    ensures Forest(index, roots) == Nest(data)
    ensures forall k :: k in roots <==> k in index.entries && index.entries[k].parent == None
  {
    var itemMap := IndexLoop(data);
    IndexPassWellIndexed(data);
    index, roots := LinkLoop(itemMap);
    NestProperties.NestPlacement(data);
  }
}
