/** Small inputs worked through: ordering, a dangling parent, a self-parent, a repeated id. */
module NestExamples {
  import opened Wrappers
  import opened Items
  import opened JsMap
  import opened NestData
  import NestProperties

  function Record(id: int, parent: Option<int>, level: string): DataItem<string>
  {
    DataItem(Num(id), if parent.Some? then Some(Num(parent.value)) else None, map["level" := level])
  }

  /** Roots keep input order and a child hangs under its parent. */
  lemma ExampleOrder(data: seq<DataItem<string>>)
    requires data == [Record(1, None, "a"), Record(2, Some(1), "b"), Record(3, None, "c")]
    ensures var f := Nest(data);
            && f.roots == [Num(1), Num(3)]
            && Get(f.index, Num(1)).Some? && Get(f.index, Num(1)).value.children == [Num(2)]
            && Get(f.index, Num(2)).Some? && Get(f.index, Num(2)).value.children == []
            && Get(f.index, Num(3)).Some? && Get(f.index, Num(3)).value.children == []
  {
    OrderExampleIndex(data);
    NestProperties.NestMatchesSpec(data);
    OrderExampleFilter(IndexPass(data));
  }

  /** The index of the ordering example: three keys in input order, with their parents. */
  lemma OrderExampleIndex(data: seq<DataItem<string>>)
    requires data == [Record(1, None, "a"), Record(2, Some(1), "b"), Record(3, None, "c")]
    ensures IndexPass(data).keys == [Num(1), Num(2), Num(3)]
    ensures forall k :: k in [Num(1), Num(2), Num(3)] ==> k in IndexPass(data).entries
    ensures IndexPass(data).entries[Num(1)].parent == None
    ensures IndexPass(data).entries[Num(2)].parent == Some(Num(1))
    ensures IndexPass(data).entries[Num(3)].parent == None
  {
    assert data[..2][..1] == data[..1] && data[..1][..0] == [];
    IndexPassStep(data[..1]);
    IndexPassStep(data[..2]);
    IndexPassStep(data);
  }

  /** The reference filter worked out on the index of the ordering example. */
  lemma OrderExampleFilter<V>(idx: Index<V>)
    requires forall k :: k in [Num(1), Num(2), Num(3)] ==> k in idx.entries
    requires idx.entries[Num(1)].parent == None
    requires idx.entries[Num(2)].parent == Some(Num(1))
    requires idx.entries[Num(3)].parent == None
    ensures WithParent(idx, [Num(1), Num(2), Num(3)], None) == [Num(1), Num(3)]
    ensures WithParent(idx, [Num(1), Num(2), Num(3)], Some(Num(1))) == [Num(2)]
    ensures WithParent(idx, [Num(1), Num(2), Num(3)], Some(Num(2))) == []
    ensures WithParent(idx, [Num(1), Num(2), Num(3)], Some(Num(3))) == []
  {
    var ks := [Num(1), Num(2), Num(3)];
    assert ks[..2] == [Num(1), Num(2)] && ks[..2][..1] == [Num(1)] && [Num(1)][..0] == [];
    assert WithParent(idx, ks, None) == [Num(1), Num(3)] by {
      WithParentStep(idx, [Num(1)], None);
      WithParentStep(idx, ks[..2], None);
      WithParentStep(idx, ks, None);
    }
    assert WithParent(idx, ks, Some(Num(1))) == [Num(2)] by {
      WithParentStep(idx, [Num(1)], Some(Num(1)));
      WithParentStep(idx, ks[..2], Some(Num(1)));
      WithParentStep(idx, ks, Some(Num(1)));
    }
    assert WithParent(idx, ks, Some(Num(2))) == [] by {
      WithParentStep(idx, [Num(1)], Some(Num(2)));
      WithParentStep(idx, ks[..2], Some(Num(2)));
      WithParentStep(idx, ks, Some(Num(2)));
    }
    assert WithParent(idx, ks, Some(Num(3))) == [] by {
      WithParentStep(idx, [Num(1)], Some(Num(3)));
      WithParentStep(idx, ks[..2], Some(Num(3)));
      WithParentStep(idx, ks, Some(Num(3)));
    }
  }

  /** A record whose parent id names no record is neither a root nor anybody's child. */
  lemma ExampleDangling()
    ensures var f := Nest([Record(1, Some(99), "a")]);
            f.roots == [] && Children(f, Num(1)) == []
  {
  }

  /** A record that is its own parent is its own child and not a root. */
  lemma ExampleSelfParent()
    ensures var f := Nest([Record(1, Some(1), "a")]);
            f.roots == [] && Children(f, Num(1)) == [Num(1)]
  {
  }

  /** With a repeated id the last record's attributes win. */
  lemma ExampleRepeatedId(data: seq<DataItem<string>>)
    requires data == [Record(1, None, "a"), Record(1, None, "b")]
    ensures var f := Nest(data);
            && f.roots == [Num(1)]
            && f.index.keys == [Num(1)]
            && Get(f.index, Num(1)) == Some(NestedItem(Num(1), None, map["level" := "b"], []))
  {
    assert data[..1][..0] == [];
    IndexPassStep(data[..1]);
    IndexPassStep(data);
    var idx := IndexPass(data);
    assert idx.keys == [Num(1)];
    assert idx.entries[Num(1)] == ToNested(data[1]);
    NestProperties.NestMatchesSpec(data);
    NestProperties.ParentKept(data, Num(1));
    assert WithParent(idx, [Num(1)], None) == [Num(1)];
    assert WithParent(idx, [Num(1)], Some(Num(1))) == [];
    assert map["level" := "b"] - {ChildrenKey} == map["level" := "b"];
  }
}
