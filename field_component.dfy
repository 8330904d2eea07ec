/** The update payloads one row of the editor sends (src/components/schemaFieldComponent.tsx):
    the name input's and the type selector's, and when the row offers "+ Child". Each
    payload goes through `updateField`, so its meaning is stated through the merge. */
module FieldComponent {
  import opened Schema
  import opened TreeEdits
  import opened Projection

  /** The name input's payload `{ name }`: merged into a field it changes the name and
      nothing else. */
  function NamePayload(name: string): (p: Patch)
    ensures forall f :: Merge(f, p) == f.(name := name)
  {
    Patch(None, Some(name), None, None)
  }

  /** The type selector's payload for a field `f` when type `t` is selected. Merged
      into `f` it gives a field of type `t` with `f`'s id and name that has a children
      array exactly when `t` is nested: `f`'s children when it had some, `[]` otherwise. */
  function TypeChangePayload(f: Field, t: FieldType): (p: Patch)
    ensures p.id.None? && p.name.None? && p.kind == Some(t)
    ensures Merge(f, p) == Field(f.id, f.name, t, if t == Nested then Present(Kids(f)) else Absent)
  {
    var children :=
      if t == Nested && f.children.Absent? then Some(Present([]))
      else if t != Nested then Some(Absent)
      else None;
    Patch(None, None, Some(t), children)
  }

  /** The row shows the "+ Child" button: exactly on the fields the preview shows as
      an object. */
  function ShowsAddChild(f: Field): (b: bool)
    ensures b <==> FieldValue(f).JObject?
  {
    f.kind == Nested
  }

  /** Renaming a node through `updateField`: the node found afterwards is the old one with
      the new name, and every id count, the node count and the type/children invariant
      are kept. With unique ids nothing else changes: in the listing of the forest only
      the renamed node's block is replaced, by the same block with the new name. */
  lemma Rename(fs: seq<Field>, id: string, name: string, x: string)
    ensures var r := UpdateFieldRecursive(fs, id, NamePayload(name));
      (Find(fs, id).None? ==> Find(r, id).None?) &&
      (Find(fs, id).Some? ==> Find(r, id) == Some(Find(fs, id).value.(name := name))) &&
      Count(r, x) == Count(fs, x) && |Outline(r)| == |Outline(fs)| &&
      (WellTyped(fs) ==> WellTyped(r))
    ensures UniqueIds(fs) && Find(fs, id).Some? ==>
      var f := Find(fs, id).value;
      exists d :: Spliced(Shape(fs, 0), ShapeOf(f, d), Shape(UpdateFieldRecursive(fs, id, NamePayload(name)), 0), ShapeOf(f.(name := name), d))
  {
    UpdateFind(fs, id, NamePayload(name));
    UpdateKeepsShape(fs, id, NamePayload(name), x);
    if UniqueIds(fs) && Find(fs, id).Some? {
      UpdateSplices(fs, id, NamePayload(name), Find(fs, id).value, 0);
    }
  }

  /** The merged node has no more nodes carrying any id than the node it replaces. */
  lemma TypeChangeCount(f: Field, t: FieldType, x: string)
    ensures CountOf(Merge(f, TypeChangePayload(f, t)), x) <= CountOf(f, x)
  {
  }

  /** Changing the type of a node of an editor state whose ids are unique and whose
      fields have children exactly when nested keeps both invariants, and the node found
      afterwards has the new type and keeps its children only when it stays nested. */
  lemma TypeChangeKeepsInvariants(fs: seq<Field>, f: Field, t: FieldType)
    requires UniqueIds(fs) && WellTyped(fs) && Find(fs, f.id) == Some(f)
    ensures var r := UpdateFieldRecursive(fs, f.id, TypeChangePayload(f, t));
      UniqueIds(r) && WellTyped(r) &&
      Find(r, f.id) == Some(Field(f.id, f.name, t, if t == Nested then Present(Kids(f)) else Absent))
    ensures exists d :: Spliced(Shape(fs, 0), ShapeOf(f, d), Shape(UpdateFieldRecursive(fs, f.id, TypeChangePayload(f, t)), 0),
                                ShapeOf(Field(f.id, f.name, t, if t == Nested then Present(Kids(f)) else Absent), d))
  {
    UpdateSplices(fs, f.id, TypeChangePayload(f, t), f, 0);
    var p := TypeChangePayload(f, t);
    var r := UpdateFieldRecursive(fs, f.id, p);
    FindWellTyped(fs, f.id);
    assert WellTypedField(Merge(f, p));
    UpdateKeepsWellTyped(fs, f.id, p, f);
    UpdateFind(fs, f.id, p);
    forall x ensures Count(r, x) <= 1 {
      UpdateReplacesOne(fs, f.id, p, f, x);
      TypeChangeCount(f, t, x);
    }
  }

  /** After selecting `string` or `number` the node has no children left: the preview
      shows its type's placeholder, and "+ Child" on it changes nothing. */
  lemma FlatTypeDropsChildren(fs: seq<Field>, f: Field, t: FieldType, newId: string)
    requires UniqueIds(fs) && WellTyped(fs) && Find(fs, f.id) == Some(f) && t != Nested
    ensures var r := UpdateFieldRecursive(fs, f.id, TypeChangePayload(f, t));
      Find(r, f.id).Some? && Find(r, f.id).value.children == Absent &&
      FieldValue(Find(r, f.id).value) == GetDefaultValue(t) &&
      AddChildRecursive(r, f.id, newId) == r
  {
    TypeChangeKeepsInvariants(fs, f, t);
    var r := UpdateFieldRecursive(fs, f.id, TypeChangePayload(f, t));
    AddChildUnchanged(r, f.id, newId);
  }

  /** With unique ids, "+ Child" on a row changes the forest exactly when the row shows
      the button: the guard of `addChildRecursive` and the button's condition agree. */
  lemma AddChildOfferedIff(fs: seq<Field>, f: Field, newId: string)
    requires UniqueIds(fs) && Find(fs, f.id) == Some(f)
    ensures AddChildRecursive(fs, f.id, newId) != fs <==> ShowsAddChild(f)
  {
    if ShowsAddChild(f) {
      AddChildGrows(fs, f.id, newId, newId);
    } else {
      AddChildUnchanged(fs, f.id, newId);
    }
  }

  /** The payloads a row sends for the node under `id`: one that leaves id, type and
      children alone (the name input's), or the type selector's for the node found. */
  predicate IsRowPayload(fs: seq<Field>, id: string, p: Patch) {
    (p.id.None? && p.kind.None? && p.children.None?) ||
    (Find(fs, id).Some? && p.kind.Some? && p == TypeChangePayload(Find(fs, id).value, p.kind.value))
  }

  /** Whatever a row sends through `updateField` keeps ids unique and children exactly
      on nested fields. */
  lemma RowPayloadKeepsInvariants(fs: seq<Field>, id: string, p: Patch)
    requires UniqueIds(fs) && WellTyped(fs) && IsRowPayload(fs, id, p)
    ensures UniqueIds(UpdateFieldRecursive(fs, id, p)) && WellTyped(UpdateFieldRecursive(fs, id, p))
  {
    if p.id.None? && p.kind.None? && p.children.None? {
      forall x ensures Count(UpdateFieldRecursive(fs, id, p), x) == Count(fs, x) {
        UpdateKeepsShape(fs, id, p, x);
      }
      UpdateKeepsShape(fs, id, p, id);
    } else {
      var f := Find(fs, id).value;
      TypeChangeKeepsInvariants(fs, f, p.kind.value);
    }
  }
}
