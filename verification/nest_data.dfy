/**
 * `nestData`: links a flat list of records, each naming its parent by id,
 * into a forest. An index pass files a fresh node for every record under
 * its id; a link pass then walks the index in insertion order, collecting
 * the parentless nodes as roots and appending every other node to the
 * children of the node filed under its parent's id. A node whose parent id
 * is not filed is dropped.
 *
 * A node can end up among its own children, so the forest is described by
 * ids rather than by nested values: the index holds each node together with
 * the ids of its children, and the roots are a list of ids.
 */
module NestData {
  import opened Wrappers
  import opened Seqs
  import opened Items
  import opened JsMap

  /** The id-keyed, insertion-ordered index of nodes (`itemMap`). */
  type Index<V> = OrderedMap<Id, NestedItem<V>>

  /** The linked structure: every indexed node with its children attached, and the roots that are returned. */
  datatype Forest<V> = Forest(index: Index<V>, roots: seq<Id>)

  /** The ids of the input records in input order, repeats included. */
  function Ids<V>(data: seq<DataItem<V>>): seq<Id>
  {
    seq(|data|, i requires 0 <= i < |data| => data[i].id)
  }

  /** Every key is listed once and every node is filed under its own id. */
  ghost predicate WellIndexed<V>(idx: Index<V>)
  {
    && idx.Valid()
    && forall k :: k in idx.entries ==> idx.entries[k].id == k
  }

  // ---------------------------------------------------------------------
  // Index pass
  // ---------------------------------------------------------------------

  /**
   * The index pass: `itemMap.set(item.id, { ...item, children: [] })` for
   * each record in turn.
   */
  function IndexPass<V>(data: seq<DataItem<V>>): (idx: Index<V>)
    ensures |idx.keys| <= |data|
  {
    if data == [] then Empty()
    else
      var last := data[|data| - 1];
      Set(IndexPass(data[..|data| - 1]), last.id, ToNested(last))
  }

  /** One step of the index pass: the last record's node is set under its id. */
  lemma IndexPassStep<V>(data: seq<DataItem<V>>)
    requires data != []
    ensures var prev := IndexPass(data[..|data| - 1]);
            var last := data[|data| - 1];
            && IndexPass(data).entries == prev.entries[last.id := ToNested(last)]
            && IndexPass(data).keys == if last.id in prev.entries then prev.keys else prev.keys + [last.id]
  {
  }

  /** The index lists each key once, files each node under its own id, and every node starts childless. */
  lemma {:induction false} IndexPassWellIndexed<V>(data: seq<DataItem<V>>)
    ensures WellIndexed(IndexPass(data))
    ensures forall k :: k in IndexPass(data).entries ==> IndexPass(data).entries[k].children == []
  {
    if data != [] {
      var last := data[|data| - 1];
      IndexPassWellIndexed(data[..|data| - 1]);
      IndexPassStep(data);
      assert IndexPass(data) == Set(IndexPass(data[..|data| - 1]), last.id, ToNested(last));
    }
  }

  lemma IdsPrefix<V>(data: seq<DataItem<V>>, n: nat)
    requires n <= |data|
    ensures Ids(data[..n]) == Ids(data)[..n]
  {
  }

  lemma KeysOfUpdate<N>(m: map<Id, N>, ids: seq<Id>, x: Id, v: N)
    requires forall k :: k in m <==> k in ids
    ensures forall k :: k in m[x := v] <==> k in ids + [x]
  {
  }

  /** The keys of the index are exactly the input ids. */
  lemma {:induction false} IndexPassMembers<V>(data: seq<DataItem<V>>)
    ensures forall k :: k in IndexPass(data).entries <==> k in Ids(data)
  {
    if data != [] {
      var n := |data|;
      var init := data[..n - 1];
      var last := data[n - 1];
      IndexPassMembers(init);
      IdsPrefix(data, n - 1);
      IndexPassStep(data);
      var ids := Ids(data);
      assert ids == Ids(init) + [last.id];
      KeysOfUpdate(IndexPass(init).entries, Ids(init), last.id, ToNested(last));
    }
  }

  /** The keys of the index are listed in the order of their first occurrence in the input. */
  lemma {:induction false} IndexPassOrder<V>(data: seq<DataItem<V>>)
    ensures InFirstOccurrenceOrder(IndexPass(data).keys, Ids(data))
  {
    if data != [] {
      var n := |data|;
      var init := data[..n - 1];
      IndexPassOrder(init);
      IndexPassMembers(init);
      IdsPrefix(data, n - 1);
      assert Ids(data) == Ids(init) + [data[n - 1].id];
      IndexPassStep(data);
      FirstOrderAppend(Ids(init), data[n - 1].id, IndexPass(init).keys, IndexPass(data).keys);
    }
  }

  /**
   * Last record wins: every id is filed with the node made from the last
   * input record carrying that id.
   */
  lemma {:induction false} IndexPassLastWins<V>(data: seq<DataItem<V>>)
    ensures forall k :: k in IndexPass(data).entries ==>
              k in Ids(data) && IndexPass(data).entries[k] == ToNested(data[LastIndex(Ids(data), k)])
  {
    if data != [] {
      var n := |data|;
      var init := data[..n - 1];
      var last := data[n - 1];
      IndexPassLastWins(init);
      var ids := Ids(data);
      IdsPrefix(data, n - 1);
      assert ids == Ids(init) + [last.id];
      var prev := IndexPass(init);
      var idx := IndexPass(data);
      IndexPassStep(data);
      forall k | k in idx.entries
        ensures k in ids && idx.entries[k] == ToNested(data[LastIndex(ids, k)])
      {
        if k != last.id {
          LastIndexAppend(Ids(init), last.id, k);
        }
      }
    }
  }

  /** With no repeated id, the index lists the ids in input order, each with its own record's node. */
  lemma IndexPassDistinctIds<V>(data: seq<DataItem<V>>)
    requires Distinct(Ids(data))
    ensures IndexPass(data).keys == Ids(data)
    ensures forall i :: 0 <= i < |data| ==> data[i].id in IndexPass(data).entries
    ensures forall i :: 0 <= i < |data| ==> IndexPass(data).entries[data[i].id] == ToNested(data[i])
  {
    IndexPassDistinctKeys(data);
    IndexPassLastWins(data);
    IndexPassMembers(data);
    var ids := Ids(data);
    forall i | 0 <= i < |data|
      ensures data[i].id in IndexPass(data).entries
      ensures IndexPass(data).entries[data[i].id] == ToNested(data[i])
    {
      assert ids[i] == data[i].id;
      assert LastIndex(ids, data[i].id) == i;
    }
  }

  lemma {:induction false} IndexPassDistinctKeys<V>(data: seq<DataItem<V>>)
    requires Distinct(Ids(data))
    ensures IndexPass(data).keys == Ids(data)
  {
    if data != [] {
      var n := |data|;
      var init := data[..n - 1];
      IdsPrefix(data, n - 1);
      var ids := Ids(data);
      assert ids == Ids(init) + [data[n - 1].id];
      assert Distinct(Ids(init));
      assert data[n - 1].id !in Ids(init) by {
        forall j | 0 <= j < n - 1
          ensures Ids(init)[j] != data[n - 1].id
        {
          assert Ids(init)[j] == ids[j] && ids[n - 1] == data[n - 1].id;
        }
      }
      IndexPassDistinctKeys(init);
      IndexPassMembers(init);
      IndexPassStep(data);
    }
  }

  // ---------------------------------------------------------------------
  // Link pass
  // ---------------------------------------------------------------------

  /** A node with its children list cleared: what linking leaves untouched. */
  function Skeleton<V>(node: NestedItem<V>): NestedItem<V>
  {
    node.(children := [])
  }

  /** `b` holds the nodes of `a` under the same keys in the same order, up to their children lists. */
  ghost predicate SameNodes<V>(a: Index<V>, b: Index<V>)
  {
    && a.keys == b.keys
    && a.entries.Keys == b.entries.Keys
    && forall k :: k in a.entries ==> Skeleton(b.entries[k]) == Skeleton(a.entries[k])
  }

  /**
   * One iteration of the link pass, for the node filed under `k`: a
   * parentless node is appended to the roots; otherwise, if a node is filed
   * under its parent id, it is appended to that node's children; otherwise
   * nothing happens. (A stored node is an object, so `if (parent)` fails
   * only when the lookup misses.)
   */
  function Visit<V>(f: Forest<V>, k: Id): (g: Forest<V>)
    requires k in f.index.entries
    ensures SameNodes(f.index, g.index)
    ensures |g.roots| <= |f.roots| + 1
  {
    var item := f.index.entries[k];
    if item.parent.None? then Forest(f.index, f.roots + [k])
    else
      match Get(f.index, item.parent.value)
      case Some(parent) =>
        Forest(Set(f.index, item.parent.value, parent.(children := parent.children + [k])), f.roots)
      case None => f
  }

  /** What one visit changes: the roots, or one children list, grows by `k`. */
  lemma VisitEffect<V>(f: Forest<V>, k: Id)
    requires k in f.index.entries
    ensures var parent := f.index.entries[k].parent;
            var g := Visit(f, k);
            && (parent.None? ==> g.roots == f.roots + [k])
            && (parent.Some? ==> g.roots == f.roots)
            && (forall p :: p in f.index.entries ==> p in g.index.entries)
            && (forall p :: p in f.index.entries && parent == Some(p) ==> Children(g, p) == Children(f, p) + [k])
            && (forall p :: p in f.index.entries && parent != Some(p) ==> Children(g, p) == Children(f, p))
  {
    var parent := f.index.entries[k].parent;
    if parent.Some? && parent.value in f.index.entries {
      assert Get(f.index, parent.value) == Some(f.index.entries[parent.value]);
    }
  }

  /** The link pass over the keys `ks`, starting from the index with no roots. */
  function LinkPass<V>(idx: Index<V>, ks: seq<Id>): (f: Forest<V>)
    requires forall k :: k in ks ==> k in idx.entries
    ensures SameNodes(idx, f.index)
    ensures |f.roots| <= |ks|
  {
    if ks == [] then Forest(idx, [])
    else Visit(LinkPass(idx, ks[..|ks| - 1]), ks[|ks| - 1])
  }

  lemma LinkPassStep<V>(idx: Index<V>, ks: seq<Id>)
    requires forall k :: k in ks ==> k in idx.entries
    requires ks != []
    ensures var f := LinkPass(idx, ks[..|ks| - 1]);
            var g := LinkPass(idx, ks);
            var k := ks[|ks| - 1];
            var parent := f.index.entries[k].parent;
            && (parent.None? ==> g.roots == f.roots + [k])
            && (parent.Some? ==> g.roots == f.roots)
            && (forall p :: p in f.index.entries ==> p in g.index.entries)
            && (forall p :: p in f.index.entries && parent == Some(p) ==> Children(g, p) == Children(f, p) + [k])
            && (forall p :: p in f.index.entries && parent != Some(p) ==> Children(g, p) == Children(f, p))
  {
    assert forall j :: j in ks[..|ks| - 1] ==> j in ks;
    VisitEffect(LinkPass(idx, ks[..|ks| - 1]), ks[|ks| - 1]);
  }

  /** `nestData`: the index pass, then the link pass over the index in insertion order. */
  function Nest<V>(data: seq<DataItem<V>>): (f: Forest<V>)
    ensures SameNodes(IndexPass(data), f.index)
    ensures WellIndexed(f.index)
  {
    var idx := IndexPass(data);
    IndexPassWellIndexed(data);
    LinkPass(idx, idx.keys)
  }

  /** The children of the node filed under `p`. */
  function Children<V>(f: Forest<V>, p: Id): seq<Id>
    requires p in f.index.entries
  {
    f.index.entries[p].children
  }

  // ---------------------------------------------------------------------
  // Reference specification of the link pass
  // ---------------------------------------------------------------------

  /** The keys among `ks` whose node in `idx` names `want` as its parent, in the order of `ks`. */
  function WithParent<V>(idx: Index<V>, ks: seq<Id>, want: Option<Id>): (r: seq<Id>)
    requires forall k :: k in ks ==> k in idx.entries
    ensures forall k :: k in r <==> k in ks && idx.entries[k].parent == want
    ensures Distinct(ks) ==> Distinct(r)
  {
    if ks == [] then []
    else
      var rest := WithParent(idx, ks[..|ks| - 1], want);
      var k := ks[|ks| - 1];
      assert forall j :: j in ks[..|ks| - 1] ==> j in ks;
      if idx.entries[k].parent == want then rest + [k] else rest
  }

  lemma WithParentStep<V>(idx: Index<V>, ks: seq<Id>, want: Option<Id>)
    requires forall k :: k in ks ==> k in idx.entries
    requires ks != []
    ensures var k := ks[|ks| - 1];
            idx.entries[k].parent == want ==> WithParent(idx, ks, want) == WithParent(idx, ks[..|ks| - 1], want) + [k]
    ensures var k := ks[|ks| - 1];
            idx.entries[k].parent != want ==> WithParent(idx, ks, want) == WithParent(idx, ks[..|ks| - 1], want)
  {
  }

  /** Selecting from `ks` keeps the order of `ks`. */
  lemma {:induction false} WithParentKeepsOrder<V>(idx: Index<V>, ks: seq<Id>, want: Option<Id>)
    requires forall k :: k in ks ==> k in idx.entries
    requires Distinct(ks)
    ensures InFirstOccurrenceOrder(WithParent(idx, ks, want), ks)
  {
    if ks != [] {
      var n := |ks|;
      var init := ks[..n - 1];
      var k := ks[n - 1];
      WithParentKeepsOrder(idx, init, want);
      assert ks == init + [k];
      assert k !in init;
      WithParentStep(idx, ks, want);
      if idx.entries[k].parent == want {
        FirstOrderAppendNew(init, k, WithParent(idx, init, want));
      } else {
        FirstOrderExtend(init, k, WithParent(idx, init, want));
      }
    }
  }

  /** The roots are the visited keys whose node has no parent, in visiting order. */
  lemma {:induction false} LinkPassRoots<V>(idx: Index<V>, ks: seq<Id>)
    requires forall k :: k in ks ==> k in idx.entries
    ensures LinkPass(idx, ks).roots == WithParent(idx, ks, None)
  {
    if ks != [] {
      var init := ks[..|ks| - 1];
      var k := ks[|ks| - 1];
      assert forall j :: j in init ==> j in ks;
      LinkPassRoots(idx, init);
      LinkPassStep(idx, ks);
      WithParentStep(idx, ks, None);
      var f := LinkPass(idx, init);
      assert f.index.entries[k].parent == idx.entries[k].parent by {
        assert Skeleton(f.index.entries[k]) == Skeleton(idx.entries[k]);
      }
    }
  }

  /** Each node's children grow by exactly the visited keys naming it as parent, in visiting order. */
  lemma {:induction false} LinkPassChildren<V>(idx: Index<V>, ks: seq<Id>, p: Id)
    requires forall k :: k in ks ==> k in idx.entries
    requires p in idx.entries
    ensures p in LinkPass(idx, ks).index.entries
    ensures Children(LinkPass(idx, ks), p) == idx.entries[p].children + WithParent(idx, ks, Some(p))
  {
    if ks != [] {
      var init := ks[..|ks| - 1];
      var k := ks[|ks| - 1];
      assert forall j :: j in init ==> j in ks;
      LinkPassChildren(idx, init, p);
      LinkPassStep(idx, ks);
      WithParentStep(idx, ks, Some(p));
      var f := LinkPass(idx, init);
      assert f.index.entries[k].parent == idx.entries[k].parent by {
        assert Skeleton(f.index.entries[k]) == Skeleton(idx.entries[k]);
      }
      if idx.entries[k].parent == Some(p) {
        var base := idx.entries[p].children;
        var rest := WithParent(idx, init, Some(p));
        assert base + (rest + [k]) == (base + rest) + [k];
      }
      if idx.entries[k].parent == Some(p) {
        var base := idx.entries[p].children;
        var rest := WithParent(idx, init, Some(p));
        assert base + (rest + [k]) == (base + rest) + [k];
      }
    }
  }
}
