# nestData in Dafny

`nestData` turns a flat list of records into a forest. Each record has an
`id` and a nullable `parent` id. The function makes two passes:

- **Index pass.** It fills an insertion-ordered JavaScript `Map` from id to
  a fresh node. The node is the record with `children` reset to `[]`. A
  repeated id overwrites the stored node, but the key keeps the position of
  its first insertion.
- **Link pass.** It walks the map in insertion order:
  - a node whose parent is `null` becomes a root;
  - a node whose parent id is in the map is pushed onto that node's
    `children`;
  - any other node is dropped.

The function returns the roots.

The model works with ids rather than linked objects, because a node can
be its own child and nodes are shared by reference. The pieces are:

- `Items` holds the record and node shapes. An id is `Str(string)` or
  `Num(int)`. A parent is `Option<Id>`, where `None` stands for `null`. The
  remaining attributes form an opaque map from field name to a payload
  type `V`.
- `JsMap.OrderedMap` is the `Map`. It keeps the keys in insertion order
  alongside a finite map of values.
- `NestData.IndexPass` and `NestData.LinkPass` are the two passes as pure
  functions. `NestData.Nest` composes them. Its result is a `Forest`: the
  index after linking, whose nodes carry their children's ids, plus the
  list of root ids. As in the source, each node holds its own children
  list, here as ids. `Children(f, p)` reads the list of the node filed
  under `p`.
- `NestData.WithParent` is an independent reference definition. It lists
  the keys whose parent is a given value, in index order. The link pass is
  proved equal to it, both for the roots and for every children list.
- `NestProperties` derives the following from that equality:
  - placement;
  - ordering;
  - the fate of dangling and self parents;
  - the at-most-once property of all placements;
  - two round trips. The first flattens the index back into records with
    their stored parents, re-indexes and nests again, and gets the same
    forest. It does not look at the links. The second reads each parent
    back from the tree: `None` for a root, `p` for a node in `p`'s
    children. It shows that, when no record names a missing parent,
    every node sits under exactly the parent it was given. Nesting those
    records again rebuilds the same forest.
- `NestLoop` writes the function with the two loops of the source. It is
  proved equal to `Nest`.
- `NestExamples` works through small concrete inputs.

## Model

| member | source | states |
|---|---|---|
| JsMap.Empty | src/lib/nestData.ts:13 | a new map is well formed, lists no keys and finds nothing |
| JsMap.Get | src/lib/nestData.ts:25 | a lookup finds a value exactly when the key is listed in a well-formed map, and the value found is the one stored under the key |
| JsMap.Set | src/lib/nestData.ts:16 | setting keeps the map well formed; a present key keeps its position and a new key is listed last |
| JsMap.SetGet | src/lib/nestData.ts:16 | after a set the key finds the new value and every other key finds what it found before |
| Items.ToNested | src/lib/nestData.ts:16 | the fresh node keeps the record's id, parent and every field except `children`, drops an input `children` field and starts with no children |
| NestData.IndexPass | src/lib/nestData.ts:13-17 | the index never lists more keys than there are input records |
| NestData.IndexPassWellIndexed | src/lib/nestData.ts:13-17 | the index lists each key once, files each node under its own id, and every node starts childless |
| NestData.IndexPassMembers | src/lib/nestData.ts:15-17 | the keys of the index are exactly the ids of the input |
| NestData.IndexPassOrder | src/lib/nestData.ts:13-17 | the keys are listed in the order of each id's first occurrence in the input |
| NestData.IndexPassLastWins | src/lib/nestData.ts:15-17 | each id is filed with the node made from the last input record carrying it |
| NestData.IndexPassDistinctIds | src/lib/nestData.ts:15-17 | with no repeated id, the keys are the input ids in input order and each record's own node is filed under its id |
| NestData.Visit | src/lib/nestData.ts:22-28 | one link step changes only children lists, never the nodes' other attributes, keys or order, and adds at most one root |
| NestData.VisitEffect | src/lib/nestData.ts:22-28 | one link step appends the node to the roots if its parent is null, or to the children of its parent if that is indexed, and changes no other list |
| NestData.LinkPass | src/lib/nestData.ts:19-30 | linking changes only children lists and produces no more roots than keys visited |
| NestData.Nest | src/lib/nestData.ts:12-33 | the linked index holds the indexed nodes under the same keys in the same order, up to their children lists |
| NestData.WithParent | src/lib/nestData.ts:21-29 | a key is selected exactly when it is among the keys and its node has the wanted parent; distinct keys give a duplicate-free selection |
| NestData.WithParentKeepsOrder | src/lib/nestData.ts:21 | the selection lists keys in the order of the walk |
| NestData.LinkPassRoots | src/lib/nestData.ts:19-23 | the roots are exactly the walked keys whose parent is null, in walking order |
| NestData.LinkPassChildren | src/lib/nestData.ts:24-28 | each node's children are exactly the walked keys naming it as parent, in walking order |
| NestProperties.ParentKept | src/lib/nestData.ts:21-30 | linking leaves each node's parent and fields as indexed |
| NestProperties.NestMatchesSpec | src/lib/nestData.ts:12-33 | the roots and every children list of `nestData` are the reference selections over the index |
| NestProperties.NestEmpty | src/lib/nestData.ts:12-32 | an empty input gives no roots and an empty index |
| NestProperties.NestPlacement | src/lib/nestData.ts:21-29 | a node is a root if and only if its parent is null, and it is a child of `p` if and only if its parent is `p` |
| NestProperties.NestOrder | src/lib/nestData.ts:21-30 | the roots and every children list follow index order |
| NestProperties.DanglingDropped | src/lib/nestData.ts:25-28 | a node whose parent id is not indexed is neither a root nor anybody's child |
| NestProperties.SelfParentIsOwnChild | src/lib/nestData.ts:21-27 | a node naming itself as parent is in its own children list and not a root |
| NestProperties.PlacedAtMostOnce | src/lib/nestData.ts:21-30 | no node is placed twice across the roots and all children lists; exactly the nodes with a null or indexed parent are placed; placements are at most the distinct ids, which are at most the input length |
| NestProperties.EveryRecordPlacedOnce | src/lib/nestData.ts:12-33 | with distinct ids and no dangling parent, the placements are a rearrangement of the input ids |
| NestProperties.RecordPlaced | src/lib/nestData.ts:15-30 | with no dangling parent, every input id is indexed and its node is placed as a root or under an indexed parent |
| NestProperties.ReindexFlat | src/lib/nestData.ts:13-17 | indexing the flattened nodes of a forest gives back the childless index the forest was linked from |
| NestProperties.ReindexFlattened | src/lib/nestData.ts:13-17 | indexing the flattened result of `nestData` rebuilds the index of the original input |
| NestProperties.RenestFlattened | src/lib/nestData.ts:12-33 | nesting the records flattened with their stored parents rebuilds the same forest; it is a round trip through the index pass and does not inspect the links |
| NestProperties.PlacedUnder | src/lib/nestData.ts:24-28 | the node found holds `k` among its children, and when none is found no listed node holds `k` |
| NestProperties.PositionShowsParent | src/lib/nestData.ts:21-30 | when no record names a missing parent, a node's position in the forest (root, or child of `p`) shows exactly the parent it was given |
| NestProperties.FlattenByPositionAgrees | src/lib/nestData.ts:21-30 | when no record names a missing parent, the records read back from tree positions equal the records with their stored parents |
| NestProperties.RenestByPosition | src/lib/nestData.ts:12-33 | when no record names a missing parent, nesting the records read back from tree positions rebuilds the same forest |
| NestLoop.IndexLoop | src/lib/nestData.ts:13-17 | the `forEach`/`set` loop computes the index pass |
| NestLoop.LinkLoop | src/lib/nestData.ts:19-30 | the flat loop over the map in insertion order computes the link pass |
| NestLoop.NestDataLoop | src/lib/nestData.ts:12-33 | the two loops compute `nestData`; the roots are exactly the nodes with a null parent |
| NestExamples.ExampleOrder | src/lib/nestData.ts:12-33 | records 1 (root), 2 (child of 1), 3 (root) give roots [1, 3] and children [2] under 1 |
| NestExamples.OrderExampleIndex | src/lib/nestData.ts:13-17 | the index of that input lists 1, 2, 3 with their parents |
| NestExamples.ExampleDangling | src/lib/nestData.ts:25-28 | a single record whose parent id 99 names no record gives no roots and no children |
| NestExamples.ExampleSelfParent | src/lib/nestData.ts:24-28 | a single self-parented record gives no roots and is its own only child |
| NestExamples.ExampleRepeatedId | src/lib/nestData.ts:15-17 | two records with id 1 give one root, one key and the second record's attributes |

## Left out

- Object identity and aliasing. In the source a pushed child is the same
  object as the stored node. The model names nodes by id and keeps each
  node's children as a list of ids. The returned forest is therefore the
  index plus root ids, not nested values.
- Copy depth of the extra attributes. The model copies them as opaque
  values. The same holds for the optional `level` attribute.
- `Map` key equality for floating-point numbers (NaN, -0, non-integers).
  Numeric ids are integers, and they are distinct from string ids.
- An absent or `undefined` parent. The record type admits only an id or
  `null`, and the code compares with `=== null` only.
- The truthiness test `if (parent)`. A stored node is an object and is
  always truthy, so the test fails exactly when the lookup misses. The
  model tests for presence.
- Mutation of the input. Records are immutable values in the model, so
  the promise that the input is left unchanged holds by construction and
  is not stated.
