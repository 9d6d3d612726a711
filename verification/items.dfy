/** The records `nestData` consumes and produces. */
module Items {
  import opened Wrappers

  /** A record id: a JavaScript string or number. A string id never equals a numeric one. */
  datatype Id = Str(s: string) | Num(n: int)

  /**
   * An input record: its `id`, its nullable `parent`, and every other
   * attribute by name (`level` among them), with values the transform never
   * inspects. `id` and `parent` are the record's own components, so the
   * names "id" and "parent" are not among the `fields` of a record built
   * from a JavaScript object.
   */
  datatype DataItem<V> = DataItem(id: Id, parent: Option<Id>, fields: map<string, V>)

  /**
   * A nested record: the attributes of a `DataItem` plus the ids of its
   * children, in the order they were attached.
   */
  datatype NestedItem<V> = NestedItem(id: Id, parent: Option<Id>, fields: map<string, V>, children: seq<Id>)

  /** The name of the attribute the transform overwrites. */
  const ChildrenKey: string := "children"

  /**
   * `{ ...item, children: [] }`: every attribute of the record is copied,
   * except that any `children` attribute it had is replaced by an empty list.
   */
  function ToNested<V>(item: DataItem<V>): (node: NestedItem<V>)
    ensures node.id == item.id && node.parent == item.parent
    ensures node.children == []
    ensures ChildrenKey !in node.fields
    ensures forall f :: f in item.fields && f != ChildrenKey ==> f in node.fields && node.fields[f] == item.fields[f]
    ensures forall f :: f in node.fields ==> f in item.fields
  {
    NestedItem(item.id, item.parent, item.fields - {ChildrenKey}, [])
  }
}
