/**
 * What `nestData` guarantees about the forest it builds: where each node
 * is placed, in which order, that no node is placed twice, and that
 * flattening the index and nesting again gives the same forest.
 */
module NestProperties {
  import opened Wrappers
  import opened Seqs
  import opened Items
  import opened JsMap
  import opened NestData

  /** The parent a node was indexed with is the one it has after linking. */
  lemma ParentKept<V>(data: seq<DataItem<V>>, k: Id)
    requires k in IndexPass(data).entries
    ensures k in Nest(data).index.entries
    ensures Nest(data).index.entries[k].parent == IndexPass(data).entries[k].parent
    ensures Nest(data).index.entries[k].fields == IndexPass(data).entries[k].fields
  {
    assert Skeleton(Nest(data).index.entries[k]) == Skeleton(IndexPass(data).entries[k]);
  }

  /**
   * The forest agrees with the reference specification: the roots are the
   * indexed keys with no parent, and the children of each node are the
   * indexed keys naming it as parent, both in index order.
   */
  lemma NestMatchesSpec<V>(data: seq<DataItem<V>>)
    ensures var idx := IndexPass(data);
            Nest(data).roots == WithParent(idx, idx.keys, None)
    ensures var idx := IndexPass(data);
            forall p :: p in idx.entries ==>
              p in Nest(data).index.entries && Children(Nest(data), p) == WithParent(idx, idx.keys, Some(p))
  {
    var idx := IndexPass(data);
    IndexPassWellIndexed(data);
    LinkPassRoots(idx, idx.keys);
    forall p | p in idx.entries
      ensures p in Nest(data).index.entries && Children(Nest(data), p) == WithParent(idx, idx.keys, Some(p))
    {
      LinkPassChildren(idx, idx.keys, p);
    }
  }

  /** An empty input gives no roots and an empty index. */
  lemma NestEmpty<V>()
    ensures Nest<V>([]).roots == []
    ensures Nest<V>([]).index.keys == []
  {
  }

  /**
   * Placement: a node is a root exactly when its parent is null, and it is
   * a child of `p` exactly when its parent is `p`'s id.
   */
  lemma NestPlacement<V>(data: seq<DataItem<V>>)
    ensures var f := Nest(data);
            forall k :: k in f.roots <==> k in f.index.entries && f.index.entries[k].parent == None
    ensures var f := Nest(data);
            forall p, k :: p in f.index.entries ==>
              (k in Children(f, p) <==> k in f.index.entries && f.index.entries[k].parent == Some(p))
  {
    NestMatchesSpec(data);
    var idx := IndexPass(data);
    forall k | k in idx.entries
      ensures Nest(data).index.entries[k].parent == idx.entries[k].parent
    {
      ParentKept(data, k);
    }
  }

  /** Roots and every children list are listed in index order. */
  lemma NestOrder<V>(data: seq<DataItem<V>>)
    ensures var f := Nest(data);
            InFirstOccurrenceOrder(f.roots, f.index.keys)
    ensures var f := Nest(data);
            forall p :: p in f.index.entries ==> InFirstOccurrenceOrder(Children(f, p), f.index.keys)
  {
    NestMatchesSpec(data);
    var idx := IndexPass(data);
    WithParentKeepsOrder(idx, idx.keys, None);
    forall p | p in idx.entries
      ensures InFirstOccurrenceOrder(Children(Nest(data), p), idx.keys)
    {
      WithParentKeepsOrder(idx, idx.keys, Some(p));
    }
  }

  /** A node whose parent id is not indexed is neither a root nor anybody's child. */
  lemma DanglingDropped<V>(data: seq<DataItem<V>>, k: Id)
    requires k in Nest(data).index.entries
    requires Nest(data).index.entries[k].parent.Some?
    requires Nest(data).index.entries[k].parent.value !in Nest(data).index.entries
    ensures k !in Nest(data).roots
    ensures forall p :: p in Nest(data).index.entries ==> k !in Children(Nest(data), p)
  {
    var f := Nest(data);
    var parent := f.index.entries[k].parent;
    NestPlacement(data);
    forall p | p in f.index.entries
      ensures k !in Children(f, p)
    {
      assert parent != Some(p);
    }
  }

  /** A node naming itself as parent is its own child and not a root. */
  lemma SelfParentIsOwnChild<V>(data: seq<DataItem<V>>, k: Id)
    requires k in Nest(data).index.entries
    requires Nest(data).index.entries[k].parent == Some(k)
    ensures k in Children(Nest(data), k)
    ensures k !in Nest(data).roots
  {
    NestPlacement(data);
  }

  // ---------------------------------------------------------------------
  // Every node is placed at most once
  // ---------------------------------------------------------------------

  /** The children lists of the nodes `ps`, concatenated in the order of `ps`. */
  function ChildLists<V>(f: Forest<V>, ps: seq<Id>): seq<Id>
    requires forall p :: p in ps ==> p in f.index.entries
  {
    if ps == [] then []
    else ChildLists(f, ps[..|ps| - 1]) + Children(f, ps[|ps| - 1])
  }

  /** Every placement of a node: the roots, then the children lists in index order. */
  function Placements<V>(f: Forest<V>): seq<Id>
    requires forall p :: p in f.index.keys ==> p in f.index.entries
  {
    f.roots + ChildLists(f, f.index.keys)
  }

  /** A node is placed as a root or under a present parent. */
  ghost predicate Placed<V>(f: Forest<V>, k: Id)
    requires k in f.index.entries
  {
    var parent := f.index.entries[k].parent;
    parent.None? || parent.value in f.index.entries
  }

  lemma {:induction false} ChildListsPlacement<V>(data: seq<DataItem<V>>, ps: seq<Id>)
    requires forall p :: p in ps ==> p in Nest(data).index.entries
    requires Distinct(ps)
    ensures Distinct(ChildLists(Nest(data), ps))
    ensures forall k :: k in ChildLists(Nest(data), ps) <==>
              k in Nest(data).index.entries &&
              Nest(data).index.entries[k].parent.Some? && Nest(data).index.entries[k].parent.value in ps
  {
    var f := Nest(data);
    if ps != [] {
      var init := ps[..|ps| - 1];
      var p := ps[|ps| - 1];
      assert forall q :: q in init ==> q in ps;
      assert Distinct(init);
      ChildListsPlacement(data, init);
      NestPlacement(data);
      NestMatchesSpec(data);
      assert Distinct(Children(f, p)) by {
        IndexPassMembers(data);
        assert Distinct(IndexPass(data).keys);
      }
      assert p !in init;
      DistinctConcat(ChildLists(f, init), Children(f, p));
    }
  }

  /**
   * No node is placed twice across the roots and all children lists; the
   * placed nodes are exactly those with a null or an indexed parent; so
   * there are at most as many placements as distinct ids, and at most as
   * many as input records.
   */
  lemma PlacedAtMostOnce<V>(data: seq<DataItem<V>>)
    ensures Distinct(Placements(Nest(data)))
    ensures forall k :: k in Placements(Nest(data)) <==> k in Nest(data).index.entries && Placed(Nest(data), k)
    ensures |Placements(Nest(data))| <= |Nest(data).index.keys| <= |data|
  {
    var f := Nest(data);
    NestPlacement(data);
    ChildListsPlacement(data, f.index.keys);
    NestMatchesSpec(data);
    assert Distinct(f.roots);
    DistinctConcat(f.roots, ChildLists(f, f.index.keys));
    DistinctSubsetLength(Placements(f), f.index.keys);
  }

  /**
   * With distinct ids and no dangling parent, every record is placed
   * exactly once: the placements are a rearrangement of the input ids.
   */
  lemma EveryRecordPlacedOnce<V>(data: seq<DataItem<V>>)
    requires Distinct(Ids(data))
    requires forall i :: 0 <= i < |data| && data[i].parent.Some? ==> data[i].parent.value in Ids(data)
    ensures Distinct(Placements(Nest(data)))
    ensures Elems(Placements(Nest(data))) == Elems(Ids(data))
    ensures |Placements(Nest(data))| == |data|
  {
    var f := Nest(data);
    var ids := Ids(data);
    var placements := Placements(f);
    PlacedAtMostOnce(data);
    IndexPassMembers(data);
    forall k | k in ids
      ensures k in placements
    {
      RecordPlaced(data, k);
    }
    assert Elems(placements) == Elems(ids);
    DistinctCard(placements);
    DistinctCard(ids);
  }

  /** With no dangling parent, the node filed under an input id is placed. */
  lemma RecordPlaced<V>(data: seq<DataItem<V>>, k: Id)
    requires forall i :: 0 <= i < |data| && data[i].parent.Some? ==> data[i].parent.value in Ids(data)
    requires k in Ids(data)
    ensures k in Nest(data).index.entries && Placed(Nest(data), k)
  {
    IndexPassMembers(data);
    IndexPassLastWins(data);
    ParentKept(data, k);
  }

  // ---------------------------------------------------------------------
  // Flattening and nesting again
  // ---------------------------------------------------------------------

  /** The indexed nodes as flat records again, in index order. */
  function Flatten<V>(f: Forest<V>): (data: seq<DataItem<V>>)
    requires forall k :: k in f.index.keys ==> k in f.index.entries
  {
    seq(|f.index.keys|, i requires 0 <= i < |f.index.keys| =>
      var node := f.index.entries[f.index.keys[i]];
      DataItem(node.id, node.parent, node.fields))
  }

  lemma FlattenIds<V>(f: Forest<V>)
    requires WellIndexed(f.index)
    ensures Ids(Flatten(f)) == f.index.keys
    ensures forall i :: 0 <= i < |f.index.keys| ==>
              var node := f.index.entries[f.index.keys[i]];
              Flatten(f)[i] == DataItem(f.index.keys[i], node.parent, node.fields)
  {
  }

  /**
   * Indexing the flattened forest gives back an index of childless nodes
   * that differs from the forest's only in the children lists.
   */
  lemma {:induction false} ReindexFlat<V>(f: Forest<V>, idx: Index<V>)
    requires WellIndexed(f.index) && SameNodes(idx, f.index)
    requires forall k :: k in idx.entries ==> idx.entries[k].children == [] && ChildrenKey !in idx.entries[k].fields
    ensures IndexPass(Flatten(f)) == idx
  {
    var flat := Flatten(f);
    FlattenIds(f);
    IndexPassDistinctIds(flat);
    IndexPassMembers(flat);
    var idx' := IndexPass(flat);
    forall k | k in idx.entries
      ensures k in idx'.entries && idx'.entries[k] == idx.entries[k]
    {
      ReindexFlatEntry(f, idx, k);
    }
    assert idx'.entries == idx.entries;
  }

  /** The node the flattened forest re-indexes under `k` is the childless node `idx` holds. */
  lemma ReindexFlatEntry<V>(f: Forest<V>, idx: Index<V>, k: Id)
    requires WellIndexed(f.index) && SameNodes(idx, f.index)
    requires k in idx.entries && idx.entries[k].children == [] && ChildrenKey !in idx.entries[k].fields
    ensures k in IndexPass(Flatten(f)).entries && IndexPass(Flatten(f)).entries[k] == idx.entries[k]
  {
    var flat := Flatten(f);
    FlattenIds(f);
    IndexPassDistinctIds(flat);
    var i :| 0 <= i < |idx.keys| && idx.keys[i] == k;
    var node := f.index.entries[k];
    assert flat[i] == DataItem(k, node.parent, node.fields);
    assert Skeleton(node) == Skeleton(idx.entries[k]);
    assert idx.entries[k].fields - {ChildrenKey} == idx.entries[k].fields;
  }

  /** Flattening the forest and indexing the result rebuilds the same index. */
  lemma ReindexFlattened<V>(data: seq<DataItem<V>>)
    ensures IndexPass(Flatten(Nest(data))) == IndexPass(data)
  {
    IndexPassLastWins(data);
    IndexPassWellIndexed(data);
    ReindexFlat(Nest(data), IndexPass(data));
  }

  /** Flattening the forest and nesting the result rebuilds the very same forest. */
  lemma RenestFlattened<V>(data: seq<DataItem<V>>)
    ensures Nest(Flatten(Nest(data))) == Nest(data)
  {
    ReindexFlattened(data);
  }

  // ---------------------------------------------------------------------
  // Reading parents back from the tree
  // ---------------------------------------------------------------------

  /** The last of the nodes `ps` whose children list holds `k`, if any. */
  function PlacedUnder<V>(f: Forest<V>, ps: seq<Id>, k: Id): (r: Option<Id>)
    requires forall p :: p in ps ==> p in f.index.entries
    ensures r.Some? ==> r.value in ps && k in Children(f, r.value)
    ensures r.None? ==> forall p :: p in ps ==> k !in Children(f, p)
  {
    if ps == [] then None
    else
      var p := ps[|ps| - 1];
      assert forall q :: q in ps[..|ps| - 1] ==> q in ps;
      if k in Children(f, p) then Some(p) else PlacedUnder(f, ps[..|ps| - 1], k)
  }

  /**
   * The parent of `k` as its position in the forest shows it: none for a
   * root, otherwise the node whose children list holds it.
   */
  function PositionParent<V>(f: Forest<V>, k: Id): Option<Id>
    requires forall p :: p in f.index.keys ==> p in f.index.entries
  {
    if k in f.roots then None else PlacedUnder(f, f.index.keys, k)
  }

  /**
   * The indexed nodes as flat records again, in index order, each with the
   * parent its position in the forest shows rather than the one it stores.
   */
  function FlattenByPosition<V>(f: Forest<V>): seq<DataItem<V>>
    requires forall k :: k in f.index.keys ==> k in f.index.entries
  {
    seq(|f.index.keys|, i requires 0 <= i < |f.index.keys| =>
      var k := f.index.keys[i];
      var node := f.index.entries[k];
      DataItem(node.id, PositionParent(f, k), node.fields))
  }

  /**
   * When no record names a missing parent, the position of every node in
   * the forest `nestData` builds shows exactly the parent the node was
   * given: linking files no node under a wrong parent and loses none.
   */
  lemma PositionShowsParent<V>(data: seq<DataItem<V>>, k: Id)
    requires forall i :: 0 <= i < |data| && data[i].parent.Some? ==> data[i].parent.value in Ids(data)
    requires k in Nest(data).index.entries
    ensures PositionParent(Nest(data), k) == Nest(data).index.entries[k].parent
  {
    var f := Nest(data);
    var parent := f.index.entries[k].parent;
    NestPlacement(data);
    if parent.Some? {
      var p := parent.value;
      IndexPassLastWins(data);
      IndexPassMembers(data);
      ParentKept(data, k);
      assert p in Ids(data);
      assert p in f.index.entries;
      assert k in Children(f, p);
      var r := PlacedUnder(f, f.index.keys, k);
      assert r.Some? by {
        assert p in f.index.keys;
      }
      assert r.value == p by {
        assert k in Children(f, r.value);
      }
    }
  }

  /**
   * When no record names a missing parent, flattening by position gives the
   * same records as flattening the stored parents.
   */
  lemma FlattenByPositionAgrees<V>(data: seq<DataItem<V>>)
    requires forall i :: 0 <= i < |data| && data[i].parent.Some? ==> data[i].parent.value in Ids(data)
    ensures FlattenByPosition(Nest(data)) == Flatten(Nest(data))
  {
    var f := Nest(data);
    var a := FlattenByPosition(f);
    var b := Flatten(f);
    assert |a| == |b|;
    forall i | 0 <= i < |a|
      ensures a[i] == b[i]
    {
      PositionShowsParent(data, f.index.keys[i]);
    }
  }

  /**
   * When no record names a missing parent, nesting the records read back
   * from the tree positions rebuilds the very same forest.
   */
  lemma RenestByPosition<V>(data: seq<DataItem<V>>)
    requires forall i :: 0 <= i < |data| && data[i].parent.Some? ==> data[i].parent.value in Ids(data)
    ensures Nest(FlattenByPosition(Nest(data))) == Nest(data)
  {
    FlattenByPositionAgrees(data);
    RenestFlattened(data);
  }
}
