# JSON schema builder: the field-tree editor

This project models the core of a small JSON schema builder. The user edits an ordered forest of
fields. Each field has an id, a name, a type (`string`, `number` or `nested`) and an optional
list of children. The editor offers four structural edits:

- update a field by id, with a shallow merge;
- delete a field by id, together with its subtree;
- add a child to a nested field;
- add a root field.

Next to the tree, the editor shows a JSON preview in which every field becomes a key named
after it.

The model has five modules:

- `Schema` (`schema.dfy`): the field datatype, plus the queries the properties are stated with:
  - `Outline`, the pre-order list of nodes;
  - `Count`, how many nodes carry an id;
  - `Find`, the first node with an id;
  - the invariants `UniqueIds` and `WellTyped` (a field has children exactly when it is nested).

  `children` is a dedicated `Children` datatype, because a missing key (`Absent`) and an empty
  array (`Present([])`) behave differently in the source.
- `TreeEdits` (`tree_edits.dfy`): the four recursive edits as functions, each with lemmas. The
  lemmas cover what the edit keeps, what it changes, and its no-op cases.
- `Projection` (`projection.dfy`): `getDefaultValue` and `convertToJsonSchema`.
  - A JSON object is an association list in insertion order.
  - Writing an existing key keeps that key's place.
  - The source's `forEach` loop is a method with a loop. It is proved equal to the fold `Members`, and the lemmas about the preview are proved about that fold.
- `FieldComponent` (`field_component.dfy`): the payloads a row sends to `updateField` from the
  name input and the type selector, and when a row offers "+ Child".
- `Builder` (`builder.dfy`): the component's state as a class. It has a `fields` sequence
  field, and one method per handler. Each method states the new state.
  - The delete, add-child and add-root methods keep the class invariant `Valid()`. The two
    add methods need a fresh id for that.
  - `UpdateField` keeps `Valid()` only for the payloads a row sends.

The random ids of `generateId` are parameters. The methods that create a node require that the
new id occurs nowhere in the forest.

Three facts about the code shape the model:

- Update merges the update into every node with the given id that its traversal reaches. The
  traversal stops at a matched node, so a node with the same id inside a matched node is left
  as it was (`src/components/SchemaBuilder.tsx:47-48`).
- Delete removes every node with the given id, at every depth. `filter` runs over every sibling
  list, and it recurses into the children of every surviving node.
- Delete writes the pruned children into the surviving nodes of the forest it was given
  (`src/components/SchemaBuilder.tsx:66`). Earlier states therefore change too.

The exact effect of each edit is stated on the pre-order listing `Shape`. The listing holds every
node's depth, its own fields and whether it has children. `Schema.ShapeDetermines` proves that
the listing determines the forest. With unique ids, `TreeEdits.UpdateSplices`, `TreeEdits.DeleteSplices` and
`TreeEdits.AddChildSplices` state that an edit
replaces one block of that listing (the found node's subtree) and leaves every entry before and
after it as it was. So every other node keeps its fields, its depth and its place.

## Model

| member | source | states |
|---|---|---|
| Schema.ShapeDetermines | src/types/schema.ts:2-7 | two forests with the same listing (depth, own fields and presence of children of every node, in pre-order) are equal |
| TreeEdits.Merge | src/components/SchemaBuilder.tsx:48 | each of id, name, type and children is the update's value when the update carries that key, and the field's own value otherwise |
| TreeEdits.UpdateFieldRecursive | src/components/SchemaBuilder.tsx:45-55 | every sibling list keeps its length |
| TreeEdits.UpdateNode | src/components/SchemaBuilder.tsx:46-53 | a matching node becomes its merge with the update; any other node keeps its own fields and whether it has children |
| TreeEdits.UpdateSiblings | src/components/SchemaBuilder.tsx:46-53 | at each position a matching node becomes its merge with the update. Any other node keeps its own fields and whether it has children, and its children are the update applied to its old children, so this holds at every depth |
| TreeEdits.UpdateAbsent | src/components/SchemaBuilder.tsx:45-55 | updating an id that occurs nowhere gives an equal forest |
| TreeEdits.UpdateFind | src/components/SchemaBuilder.tsx:47-48 | when the update keeps the id, the node found afterwards is the old node merged with the update, and an absent id stays absent |
| TreeEdits.UpdateIdempotent | src/components/SchemaBuilder.tsx:44-57 | applying the same id-preserving update twice equals applying it once |
| TreeEdits.UpdateReplacesOne | src/components/SchemaBuilder.tsx:46-53 | with unique ids, each id count and the node count change by exactly the difference between the found node's subtree and the merged node (a matched node's children are not visited) |
| TreeEdits.UpdateSplices | src/components/SchemaBuilder.tsx:46-53 | with unique ids, the listing afterwards is the listing before with the found node's block replaced by the merged node's block at the same depth; every other entry is kept in place |
| TreeEdits.UpdateKeepsWellTyped | src/components/SchemaBuilder.tsx:46-53 | with unique ids, children-exactly-on-nested survives an update whose merge with the found node satisfies it |
| TreeEdits.UpdateKeepsShape | src/components/SchemaBuilder.tsx:48 | an update that sets no id, type or children keeps every id count, the node count and children-exactly-on-nested |
| TreeEdits.DeleteFieldRecursive | src/components/SchemaBuilder.tsx:60-69 | no node with the deleted id is left at any depth |
| TreeEdits.PruneNode | src/components/SchemaBuilder.tsx:65-68 | a surviving node keeps its own fields and whether it has children, and its subtree no longer holds the id |
| TreeEdits.DeleteShrinks | src/components/SchemaBuilder.tsx:60-69 | deleting never adds a node or an id occurrence |
| TreeEdits.DeleteKeepsInvariants | src/components/SchemaBuilder.tsx:60-69 | deleting keeps unique ids and children-exactly-on-nested |
| TreeEdits.DeleteNoop | src/components/SchemaBuilder.tsx:60-69 | deleting leaves the forest equal exactly when the id occurs nowhere |
| TreeEdits.DeleteKeepsOrder | src/components/SchemaBuilder.tsx:61-69 | the listing with depths afterwards is a subsequence of the one before: survivors keep their own fields, their depth, whether they have children, and their order |
| TreeEdits.DeleteRemovesSubtree | src/components/SchemaBuilder.tsx:60-69 | with unique ids, exactly the found node and its descendants disappear: the node count drops by the subtree's size, and each id's count drops by its count in that subtree |
| TreeEdits.DeleteSplices | src/components/SchemaBuilder.tsx:60-69 | with unique ids, the listing afterwards is the listing before with exactly the found node's block cut out |
| TreeEdits.AddChildRecursive | src/components/SchemaBuilder.tsx:75-93 | every sibling list keeps its length |
| TreeEdits.AddChildNode | src/components/SchemaBuilder.tsx:76-91 | a node keeps its own id, name and type |
| TreeEdits.WithNewChild | src/components/SchemaBuilder.tsx:78-86 | the parent keeps its own fields and its k children in order (absent counts as 0), then gets a string child `field_{k+1}` with the new id and no children |
| TreeEdits.AddChildKeepsOwnFields | src/components/SchemaBuilder.tsx:76-92 | at each position the node keeps its own fields. A matching nested node gains the new child. Any other node keeps whether it has children, and its children are the edit applied to its old children, so this holds at every depth |
| TreeEdits.AddChildKeepsWellTyped | src/components/SchemaBuilder.tsx:77-86 | adding a child keeps children-exactly-on-nested |
| TreeEdits.AddChildAbsent | src/components/SchemaBuilder.tsx:76-92 | adding under an id that occurs nowhere gives an equal forest |
| TreeEdits.AddChildFind | src/components/SchemaBuilder.tsx:77-86 | a found nested parent with k children (absent counts as 0) afterwards has those k children in order, then a string child `field_{k+1}` with the new id and no children |
| TreeEdits.AddChildSplices | src/components/SchemaBuilder.tsx:76-92 | with unique ids and a nested parent, the listing afterwards is the listing before with the parent's block replaced by the grown parent's block; every other entry is kept in place |
| TreeEdits.AddChildUnchanged | src/components/SchemaBuilder.tsx:76-92 | with unique ids, when the parent is missing or not nested the forest is unchanged |
| TreeEdits.WithNewChildGrows | src/components/SchemaBuilder.tsx:78-86 | the parent's subtree gains exactly one node, the one with the new id |
| TreeEdits.AddChildGrows | src/components/SchemaBuilder.tsx:77-86 | with unique ids and a nested parent, exactly one node, the one with the new id, is added to the forest |
| TreeEdits.AddChildKeepsUniqueIds | src/components/SchemaBuilder.tsx:74-95 | with a fresh new id, ids stay unique |
| TreeEdits.DecimalString | src/components/SchemaBuilder.tsx:80 | the interpolated number is a non-empty run of decimal digits without a leading zero |
| TreeEdits.DecimalRoundTrip | src/components/SchemaBuilder.tsx:80 | reading the digits back gives the number |
| TreeEdits.FreshName | src/components/SchemaBuilder.tsx:80 | the name is `field_` followed by decimal digits that read back as the sibling count plus one |
| TreeEdits.NewField | src/components/SchemaBuilder.tsx:98-102 | a created field has the given id and name, type string and no children key, so it satisfies children-exactly-on-nested |
| TreeEdits.FreshNameInjective | src/components/SchemaBuilder.tsx:100 | different sibling counts give different names `field_{k+1}` |
| TreeEdits.AddRootField | src/components/SchemaBuilder.tsx:97-104 | the old roots come first, unchanged and in order, followed by one new field `field_{n+1}` with the new id |
| TreeEdits.AddRootFieldShape | src/components/SchemaBuilder.tsx:97-104 | n roots become n+1: the old roots unchanged and in order, then a string field `field_{n+1}` with the new id and no children. Only the new id's count grows by one, and the listing gains one entry at depth 0 |
| TreeEdits.AddRootFieldKeepsInvariants | src/components/SchemaBuilder.tsx:97-104 | children-exactly-on-nested is kept, and with a fresh id ids stay unique |
| TreeEdits.DefaultNameCanRepeat | src/components/SchemaBuilder.tsx:100 | the default name counts roots, so after a delete a new root can repeat a name still in use |
| Projection.GetDefaultValue | src/components/SchemaBuilder.tsx:8-19 | a string field gets the string "STRING", a number field the string "number", and a nested field the empty object |
| Projection.Put | src/components/SchemaBuilder.tsx:25-27 | writing a key keeps the key list and appends the key only when it is new |
| Projection.LookupPut | src/components/SchemaBuilder.tsx:25-27 | after writing v under k, reading k gives v and every other key reads as before |
| Projection.FieldValue | src/components/SchemaBuilder.tsx:24-28 | a field's value is an object exactly when it is nested, and a non-nested field shows its type's placeholder |
| Projection.Members | src/components/SchemaBuilder.tsx:21-31 | the object written by visiting the fields in order has at most one member per field |
| Projection.Preview | src/components/SchemaBuilder.tsx:21-31 | the preview of a forest is an object with at most as many members as roots |
| Projection.ConvertToJsonSchema | src/components/SchemaBuilder.tsx:21-31 | the loop's result is the preview fold over the fields in order |
| Projection.PreviewKeys | src/components/SchemaBuilder.tsx:21-31 | the preview's keys are the root names, each once, in order of first occurrence |
| Projection.PreviewLookup | src/components/SchemaBuilder.tsx:23-29 | under each key is the value of the last root with that name, and a name no root has is absent |
| Projection.EmptyNestedShowsEmptyObject | src/components/SchemaBuilder.tsx:24-27 | a nested field with absent or empty children shows `{}` |
| Projection.NestedShowsChildren | src/components/SchemaBuilder.tsx:24-25 | a nested field with children shows the preview of its children |
| Projection.NonNestedIgnoresChildren | src/components/SchemaBuilder.tsx:24-27 | a non-nested field shows the same whatever its children are |
| FieldComponent.NamePayload | src/components/schemaFieldComponent.tsx:25 | merged into any field, the name payload changes the name and nothing else |
| FieldComponent.TypeChangePayload | src/components/schemaFieldComponent.tsx:32-41 | the payload sets the type. Merged, it gives a field with the same id and name that has children exactly when the new type is nested: the old children if it had some, `[]` otherwise |
| FieldComponent.ShowsAddChild | src/components/schemaFieldComponent.tsx:49 | the row shows "+ Child" exactly when the preview shows the field as an object |
| FieldComponent.Rename | src/components/schemaFieldComponent.tsx:25 | renaming through `updateField` yields the found node with the new name, and keeps id counts, the node count and children-exactly-on-nested. With unique ids, only the renamed node's block of the listing changes, to the same block with the new name |
| FieldComponent.TypeChangeCount | src/components/schemaFieldComponent.tsx:32-41 | the merged node carries no id more often than the node it replaces |
| FieldComponent.TypeChangeKeepsInvariants | src/components/schemaFieldComponent.tsx:32-41 | a type change through `updateField` keeps unique ids and children-exactly-on-nested. The node found afterwards has the new type, keeping its children only when it stays nested. In the listing only that node's block changes |
| FieldComponent.FlatTypeDropsChildren | src/components/schemaFieldComponent.tsx:37-38 | after choosing string or number the node has no children, shows its placeholder, and "+ Child" on it changes nothing |
| FieldComponent.AddChildOfferedIff | src/components/schemaFieldComponent.tsx:49-56 | with unique ids, "+ Child" changes the forest exactly when the row shows the button (the node is nested) |
| FieldComponent.RowPayloadKeepsInvariants | src/components/schemaFieldComponent.tsx:22-41 | every payload a row sends keeps unique ids and children-exactly-on-nested |
| Builder.JsonSchemaBuilder.constructor | src/components/SchemaBuilder.tsx:36-42 | the initial state is one string field called `name`, and it is valid |
| Builder.JsonSchemaBuilder.UpdateField | src/components/SchemaBuilder.tsx:44-57 | the new state is the updated forest; a row's payload keeps it valid |
| Builder.JsonSchemaBuilder.DeleteField | src/components/SchemaBuilder.tsx:59-72 | the new state is the pruned forest, and it stays valid |
| Builder.JsonSchemaBuilder.AddChild | src/components/SchemaBuilder.tsx:74-95 | the new state is the forest with the child added, and it stays valid for a fresh id |
| Builder.JsonSchemaBuilder.AddRootField | src/components/SchemaBuilder.tsx:97-104 | the new state is the forest with the root appended, and it stays valid for a fresh id |
| Builder.JsonSchemaBuilder.JsonOutput | src/components/SchemaBuilder.tsx:106 | the output is the preview of the current state |
| Builder.InitialPreview | src/components/SchemaBuilder.tsx:36-42 | the initial preview is `{ "name": "STRING" }` |

## Left out

- Rendering: the JSX, the styling, the `level`-based padding and the conditional child list are presentation only.
- React's `useState` and re-rendering: the state is the `fields` field of a class, and each handler is a method that assigns it.
- `generateId` (`Math.random().toString(36)`) is nondeterministic, so the fresh id is a parameter. Creating methods require that the id is not in the forest.
- TreeEdits.AddChildRecursive: takes one fresh id. The source draws a fresh id for every matching nested node. The two differ only when several nodes share the parent id, and the class invariant excludes that.
- TreeEdits.DeleteFieldRecursive: models the returned forest only. The source also writes the pruned children into the survivors of the previous state (line 66). Dafny datatypes are values, so this aliasing is not captured.
- TreeEdits.AddChildUnchanged: requires unique ids. With duplicate ids the first match may be non-nested while a later match is nested.
- TreeEdits.UpdateReplacesOne, TreeEdits.UpdateKeepsWellTyped, TreeEdits.DeleteRemovesSubtree and TreeEdits.AddChildGrows: these require unique ids. With duplicate ids the source edits every matching subtree, and the model does the same; the counting facts are stated only for the unique-id case.
- Builder.JsonSchemaBuilder.UpdateField: promises validity only for payloads a row sends. The source accepts any partial field, and an arbitrary one can break either invariant.
- The `null` branch of `getDefaultValue` is not modelled: the field type is a closed datatype of the three selectable types.
- The text produced by `JSON.stringify(jsonOutput, null, 2)` is not modelled; the preview is the `Json` value.
- JavaScript engine ordering of keys is not modelled: integer-like names are hoisted, and a name such as `__proto__` is special. Keys here keep insertion order.
- Referential sharing of unchanged subtrees is not modelled. Claims are stated as structural equality.
