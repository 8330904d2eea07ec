/** The editor's state (src/components/SchemaBuilder.tsx): the list of root fields and
    the handlers that replace it with an edited copy, plus the preview computed from it.
    The fresh ids the handlers draw at random are parameters. */
module Builder {
  import opened Schema
  import opened TreeEdits
  import opened Projection
  import opened FieldComponent

  class JsonSchemaBuilder {
    /** The `fields` state: the roots of the field tree. */
    var fields: seq<Field>

    /** What every handler keeps: ids are unique and a field has children exactly when
        it is nested. */
    ghost predicate Valid()
      reads this
    {
      UniqueIds(fields) && WellTyped(fields)
    }

    /** The initial state: one string field called `name`. */
    constructor (seedId: string)
      ensures fields == [Field(seedId, "name", String, Absent)]
      ensures Valid()
    {
      var initial := [Field(seedId, "name", String, Absent)];
      forall x ensures Count(initial, x) <= 1 {
        assert initial[1..] == [];
      }
      fields := initial;
    }

    /** `updateField`: merges the update into each node with id `id` that the traversal
        reaches; the subtree of a matched node is not visited. A payload sent by a row
        keeps the state valid. */
    method UpdateField(id: string, updates: Patch)
      requires Valid()
      modifies this
      ensures fields == UpdateFieldRecursive(old(fields), id, updates)
      ensures IsRowPayload(old(fields), id, updates) ==> Valid()
    {
      if IsRowPayload(fields, id, updates) {
        RowPayloadKeepsInvariants(fields, id, updates);
      }
      fields := UpdateFieldRecursive(fields, id, updates);
    }

    /** `deleteField`: removes every node under `id` with its subtree. */
    method DeleteField(id: string)
      requires Valid()
      modifies this
      ensures fields == DeleteFieldRecursive(old(fields), id)
      ensures Valid()
    {
      DeleteKeepsInvariants(fields, id);
      fields := DeleteFieldRecursive(fields, id);
    }

    /** `addChild`: gives the nested node under `parentId` a new string child with the
        fresh id `newId`. */
    method AddChild(parentId: string, newId: string)
      requires Valid() && Count(fields, newId) == 0
      modifies this
      ensures fields == AddChildRecursive(old(fields), parentId, newId)
      ensures Valid()
    {
      AddChildKeepsWellTyped(fields, parentId, newId);
      AddChildKeepsUniqueIds(fields, parentId, newId);
      fields := AddChildRecursive(fields, parentId, newId);
    }

    /** `addRootField`: appends a new string root with the fresh id `newId`. */
    method AddRootField(newId: string)
      requires Valid() && Count(fields, newId) == 0
      modifies this
      ensures fields == TreeEdits.AddRootField(old(fields), newId)
      ensures Valid()
    {
      AddRootFieldKeepsInvariants(fields, newId);
      fields := TreeEdits.AddRootField(fields, newId);
    }

    /** `jsonOutput`: the preview of the current state. */
    method JsonOutput() returns (output: Json)
      ensures output == Preview(fields)
    {
      output := ConvertToJsonSchema(fields);
    }
  }

  /** The preview of the initial state is `{ "name": "STRING" }`. */
  lemma InitialPreview(seedId: string)
    ensures Preview([Field(seedId, "name", String, Absent)]) == JObject([("name", JString("STRING"))])
  {
    var f := Field(seedId, "name", String, Absent);
    assert [f][..0] == [];
    assert FieldValue(f) == JString("STRING");
    assert Members([f]) == Put([], "name", JString("STRING"));
  }
}
