/** The JSON preview of the editor (src/components/SchemaBuilder.tsx): every field
    becomes a key of an object, named after the field, whose value is a placeholder
    for its type or, for a nested field with children, the object of those children. */
module Projection {
  import opened Schema

  /** The values the preview can hold: the placeholder strings and objects. An object
      is an association list in insertion order, as a JavaScript object keeps its
      string keys. */
  datatype Json = JString(s: string) | JObject(members: seq<(string, Json)>)

  /** `getDefaultValue`: the placeholder for a field of type `t`: the string "STRING"
      for a string field, the string "number" for a number field, the empty object for a
      nested one. The `null` branch for an unknown type cannot be taken: the type selector
      offers only these three. */
  function GetDefaultValue(t: FieldType): (v: Json)
    ensures v.JObject? <==> t == Nested
    ensures t == String ==> v == JString("STRING")
    ensures t == Number ==> v == JString("number")
    ensures t == Nested ==> v == JObject([])
  {
    match t
    case String => JString("STRING")
    case Number => JString("number")
    case Nested => JObject([])
  }

  // ---------------------------------------------------------------------------
  // Objects as association lists
  // ---------------------------------------------------------------------------

  function Keys(ms: seq<(string, Json)>): (ks: seq<string>)
    ensures |ks| == |ms|
  {
    if ms == [] then [] else [ms[0].0] + Keys(ms[1..])
  }

  /** `obj[k]`: the value under key `k`, if the object has that key. */
  function Lookup(ms: seq<(string, Json)>, k: string): (r: Option<Json>)
    ensures r.None? <==> k !in Keys(ms)
  {
    if ms == [] then None else if ms[0].0 == k then Some(ms[0].1) else Lookup(ms[1..], k)
  }

  predicate NoDup(s: seq<string>) {
    forall i, j :: 0 <= i < j < |s| ==> s[i] != s[j]
  }

  /** `obj[k] = v`: an existing key keeps its place and takes the new value; a new key
      goes at the end. */
  function Put(ms: seq<(string, Json)>, k: string, v: Json): (r: seq<(string, Json)>)
    ensures Keys(r) == Keys(ms) + (if k in Keys(ms) then [] else [k])
  {
    if ms == [] then [(k, v)]
    else if ms[0].0 == k then [(k, v)] + ms[1..]
    else
      var rest := Put(ms[1..], k, v);
      assert Keys([ms[0]] + rest) == [ms[0].0] + Keys(rest);
      [ms[0]] + rest
  }

  /** After writing `v` under `k`, reading `k` gives `v` and reading any other key gives
      what it gave before. */
  lemma {:induction false} LookupPut(ms: seq<(string, Json)>, k: string, v: Json, j: string)
    ensures Lookup(Put(ms, k, v), j) == if j == k then Some(v) else Lookup(ms, j)
  {
    if ms != [] && ms[0].0 != k {
      LookupPut(ms[1..], k, v, j);
    }
  }

  // ---------------------------------------------------------------------------
  // convertToJsonSchema
  // ---------------------------------------------------------------------------

  /** The members `convertToJsonSchema` has written after visiting the fields `fs` in
      order, starting from an empty object. */
  function Members(fs: seq<Field>): (r: seq<(string, Json)>)
    decreases fs, 1
    ensures |r| <= |fs|
  {
    if fs == [] then []
    else
      var last := fs[|fs| - 1];
      Put(Members(fs[..|fs| - 1]), last.name, FieldValue(last))
  }

  /** The value written for one field: the object of its children when it is nested
      and has at least one child, its type's placeholder otherwise. */
  function FieldValue(f: Field): (r: Json)
    decreases f
    ensures r.JObject? <==> f.kind == Nested
    ensures f.kind != Nested ==> r == GetDefaultValue(f.kind)
  {
    if f.kind == Nested && f.children.Present? && |f.children.fields| > 0 then
      JObject(Members(f.children.fields))
    else
      GetDefaultValue(f.kind)
  }

  /** The preview of a forest. */
  function Preview(fs: seq<Field>): (j: Json)
    ensures j.JObject? && |j.members| <= |fs|
  {
    JObject(Members(fs))
  }

  /** `convertToJsonSchema`: fills an empty object field by field, recursing into the
      children of nested fields that have some. */
  method ConvertToJsonSchema(fields: seq<Field>) returns (result: Json)
    ensures result == Preview(fields)
    decreases |Outline(fields)|
  {
    var members: seq<(string, Json)> := [];
    var i := 0;
    while i < |fields|
      invariant 0 <= i <= |fields|
      invariant members == Members(fields[..i])
    {
      var field := fields[i];
      var value: Json;
      if field.kind == Nested && field.children.Present? && |field.children.fields| > 0 {
        OutlineBelow(fields, i);
        value := ConvertToJsonSchema(field.children.fields);
      } else {
        value := GetDefaultValue(field.kind);
      }
      MembersStep(fields, i, value);
      members := Put(members, field.name, value);
      i := i + 1;
    }
    assert fields[..i] == fields;
    result := JObject(members);
  }

  /** Visiting one more field writes its value under its name: the preview of its
      children when it is nested and has some, its placeholder otherwise. */
  lemma MembersStep(fs: seq<Field>, i: nat, value: Json)
    requires i < |fs|
    requires var f := fs[i];
      value == if f.kind == Nested && f.children.Present? && |f.children.fields| > 0
               then Preview(f.children.fields) else GetDefaultValue(f.kind)
    ensures Members(fs[..i + 1]) == Put(Members(fs[..i]), fs[i].name, value)
  {
    assert fs[..i + 1][..i] == fs[..i];
  }

  /** The children of any root have a shorter outline than the forest. */
  lemma {:induction false} OutlineBelow(fs: seq<Field>, i: nat)
    requires i < |fs|
    ensures |Outline(Kids(fs[i]))| < |Outline(fs)|
  {
    assert Outline(fs) == OutlineOf(fs[0]) + Outline(fs[1..]);
    if i > 0 {
      OutlineBelow(fs[1..], i - 1);
    }
  }

  // ---------------------------------------------------------------------------
  // What the preview shows
  // ---------------------------------------------------------------------------

  /** The names of the roots, in order. */
  function Names(fs: seq<Field>): (ns: seq<string>)
    ensures |ns| == |fs| && forall i :: 0 <= i < |fs| ==> ns[i] == fs[i].name
  {
    seq(|fs|, i requires 0 <= i < |fs| => fs[i].name)
  }

  /** The distinct elements of `s` in the order of their first occurrence. */
  function Dedup(s: seq<string>): (r: seq<string>)
    ensures forall x :: x in r <==> x in s
    ensures NoDup(r)
  {
    if s == [] then []
    else
      var d := Dedup(s[..|s| - 1]);
      var x := s[|s| - 1];
      assert forall y :: y in s <==> y in s[..|s| - 1] || y == x;
      if x in d then d else d + [x]
  }

  /** The preview's keys are exactly the root names, each once, in the order in which
      the names first occur among the roots. */
  lemma {:induction false} PreviewKeys(fs: seq<Field>)
    ensures Keys(Members(fs)) == Dedup(Names(fs))
  {
    if fs != [] {
      var n := |fs| - 1;
      PreviewKeys(fs[..n]);
      assert Names(fs)[..n] == Names(fs[..n]);
    }
  }

  /** The last root named `k`, if any. */
  function LastNamed(fs: seq<Field>, k: string): (r: Option<Field>)
    ensures r.None? <==> k !in Names(fs)
    ensures r.Some? ==> exists i :: 0 <= i < |fs| && fs[i] == r.value && r.value.name == k &&
                                   (forall j :: i < j < |fs| ==> fs[j].name != k)
  {
    if fs == [] then None
    else
      var n := |fs| - 1;
      assert Names(fs) == Names(fs[..n]) + [fs[n].name];
      if fs[n].name == k then Some(fs[n]) else LastNamed(fs[..n], k)
  }

  /** Under every key the preview holds the value of the last root with that name: a
      later field overwrites an earlier one of the same name. */
  lemma {:induction false} PreviewLookup(fs: seq<Field>, k: string)
    ensures LastNamed(fs, k).None? ==> Lookup(Members(fs), k).None?
    ensures LastNamed(fs, k).Some? ==> Lookup(Members(fs), k) == Some(FieldValue(LastNamed(fs, k).value))
  {
    if fs != [] {
      var n := |fs| - 1;
      PreviewLookup(fs[..n], k);
      LookupPut(Members(fs[..n]), fs[n].name, FieldValue(fs[n]), k);
    }
  }

  /** A nested field with no children, or an empty list of them, shows as `{}`. */
  lemma EmptyNestedShowsEmptyObject(f: Field)
    requires f.kind == Nested && Kids(f) == []
    ensures FieldValue(f) == JObject([])
  {
  }

  /** A nested field with children shows as the preview of its children. */
  lemma NestedShowsChildren(f: Field)
    requires f.kind == Nested && Kids(f) != []
    ensures FieldValue(f) == Preview(Kids(f))
  {
  }

  /** The children of a field that is not nested are never looked at: giving it any
      other children does not change what it shows. */
  lemma NonNestedIgnoresChildren(f: Field, c: Children)
    requires f.kind != Nested
    ensures FieldValue(f.(children := c)) == FieldValue(f)
  {
  }
}
