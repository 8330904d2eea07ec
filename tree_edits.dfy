/** The structural edits of the field-tree editor (src/components/SchemaBuilder.tsx):
    update, delete and add-child by id, each a depth-first rewrite of the sibling
    lists, and add-root. Every edit returns a new forest. The fresh ids that the
    source draws from `Math.random` are parameters here. */
module TreeEdits {
  import opened Schema

  /** A `Partial<SchemaField>` update: a missing key is `None`. For `children`,
      `Some(Absent)` is an explicit `children: undefined`, which the spread copies. */
  datatype Patch = Patch(id: Option<string>, name: Option<string>, kind: Option<FieldType>, children: Option<Children>)

  /** `{ ...field, ...updates }`: every key the update carries wins, every key it leaves
      out keeps the field's value. */
  function Merge(f: Field, p: Patch): (r: Field)
    ensures r.id == (if p.id.Some? then p.id.value else f.id)
    ensures r.name == (if p.name.Some? then p.name.value else f.name)
    ensures r.kind == (if p.kind.Some? then p.kind.value else f.kind)
    ensures r.children == (if p.children.Some? then p.children.value else f.children)
  {
    Field(p.id.GetOr(f.id), p.name.GetOr(f.name), p.kind.GetOr(f.kind), p.children.GetOr(f.children))
  }

  // ---------------------------------------------------------------------------
  // Field names: `field_${k + 1}`
  // ---------------------------------------------------------------------------

  function DigitChar(d: nat): (c: char)
    requires d < 10
    ensures '0' <= c <= '9' && c as int - '0' as int == d
  {
    ('0' as int + d) as char
  }

  predicate IsDigits(s: string) {
    forall i :: 0 <= i < |s| ==> '0' <= s[i] <= '9'
  }

  /** A number interpolated into a template literal: its decimal digits, no leading zero. */
  function DecimalString(n: nat): (s: string)
    ensures s != [] && IsDigits(s)
    ensures |s| > 1 ==> s[0] != '0'
  {
    if n < 10 then [DigitChar(n)] else DecimalString(n / 10) + [DigitChar(n % 10)]
  }

  /** Reads decimal digits back as a number; the inverse of DecimalString. */
  function DecimalValue(s: string): nat
    requires IsDigits(s)
  {
    if s == [] then 0 else 10 * DecimalValue(s[..|s| - 1]) + (s[|s| - 1] as int - '0' as int)
  }

  lemma {:induction false} DecimalRoundTrip(n: nat)
    ensures DecimalValue(DecimalString(n)) == n
  {
    if n >= 10 {
      DecimalRoundTrip(n / 10);
      var s := DecimalString(n);
      assert s[..|s| - 1] == DecimalString(n / 10);
    }
  }

  /** The name a new field gets when it is appended after `k` siblings: `field_`
      followed by the decimal digits of k + 1. */
  function FreshName(k: nat): (s: string)
    ensures |s| > 6 && s[..6] == "field_" && IsDigits(s[6..]) && DecimalValue(s[6..]) == k + 1
  {
    DecimalRoundTrip(k + 1);
    var s := "field_" + DecimalString(k + 1);
    assert s[6..] == DecimalString(k + 1);
    s
  }

  /** Different sibling counts give different names. */
  lemma FreshNameInjective(j: nat, k: nat)
    requires FreshName(j) == FreshName(k)
    ensures j == k
  {
    assert DecimalString(j + 1) == FreshName(j)[6..];
    assert DecimalString(k + 1) == FreshName(k)[6..];
    DecimalRoundTrip(j + 1);
    DecimalRoundTrip(k + 1);
  }

  /** A field created by either add button: a string field with no `children` key. */
  function NewField(id: string, name: string): (r: Field)
    ensures LabelOf(r) == Label(id, name, String) && r.children == Absent && WellTypedField(r)
  {
    Field(id, name, String, Absent)
  }

  // ---------------------------------------------------------------------------
  // updateField
  // ---------------------------------------------------------------------------

  /** `updateFieldRecursive`: every node whose id matches is merged with the update and
      its subtree is not visited; every other node that has children is rebuilt with
      its children updated. */
  function UpdateFieldRecursive(fs: seq<Field>, id: string, p: Patch): (r: seq<Field>)
    ensures |r| == |fs|
  {
    if fs == [] then [] else [UpdateNode(fs[0], id, p)] + UpdateFieldRecursive(fs[1..], id, p)
  }

  function UpdateNode(f: Field, id: string, p: Patch): (g: Field)
    ensures f.id == id ==> g == Merge(f, p)
    ensures f.id != id ==> LabelOf(g) == LabelOf(f) && g.children.Present? == f.children.Present?
  {
    if f.id == id then Merge(f, p)
    else if f.children.Present? then f.(children := Present(UpdateFieldRecursive(f.children.fields, id, p)))
    else f
  }

  /** Sibling lists keep their length and order: a matching node becomes its merge with
      the update (its subtree is not visited), every other node keeps its own fields and
      whether it has children, and its children are the update applied to its old
      children, so the same holds at every depth. */
  lemma {:induction false} UpdateSiblings(fs: seq<Field>, id: string, p: Patch)
    ensures var r := UpdateFieldRecursive(fs, id, p);
      forall i :: 0 <= i < |fs| ==>
        (fs[i].id == id ==> r[i] == Merge(fs[i], p)) &&
        (fs[i].id != id ==> LabelOf(r[i]) == LabelOf(fs[i]) && r[i].children.Present? == fs[i].children.Present?) &&
        (fs[i].id != id && fs[i].children.Present? ==>
           r[i].children.fields == UpdateFieldRecursive(fs[i].children.fields, id, p))
  {
    if fs != [] {
      UpdateSiblings(fs[1..], id, p);
      var r := UpdateFieldRecursive(fs, id, p);
      assert r[1..] == UpdateFieldRecursive(fs[1..], id, p);
      forall i | 1 <= i < |fs| ensures r[i] == r[1..][i - 1] && fs[i] == fs[1..][i - 1] { }
    }
  }

  /** Updating an id that occurs nowhere returns an equal forest. */
  lemma {:induction false} UpdateAbsent(fs: seq<Field>, id: string, p: Patch)
    requires Count(fs, id) == 0
    ensures UpdateFieldRecursive(fs, id, p) == fs
    decreases |Outline(fs)|
  {
    if fs != [] {
      OutlineShrinks(fs);
      if fs[0].children.Present? {
        UpdateAbsent(fs[0].children.fields, id, p);
      }
      UpdateAbsent(fs[1..], id, p);
    }
  }

  /** The node the editor finds under `id` afterwards is the old one merged with the
      update (when the update keeps the id). */
  lemma {:induction false} UpdateFind(fs: seq<Field>, id: string, p: Patch)
    requires p.id.None? || p.id == Some(id)
    ensures Find(fs, id).None? ==> Find(UpdateFieldRecursive(fs, id, p), id).None?
    ensures Find(fs, id).Some? ==>
      Find(UpdateFieldRecursive(fs, id, p), id) == Some(Merge(Find(fs, id).value, p))
    decreases |Outline(fs)|
  {
    var r := UpdateFieldRecursive(fs, id, p);
    if fs != [] && fs[0].id != id {
      OutlineShrinks(fs);
      assert r[1..] == UpdateFieldRecursive(fs[1..], id, p);
      if fs[0].children.Present? {
        UpdateFind(fs[0].children.fields, id, p);
        assert r[0].children == Present(UpdateFieldRecursive(fs[0].children.fields, id, p));
      }
      UpdateFind(fs[1..], id, p);
    }
  }

  /** Applying the same update twice gives the same forest as applying it once, as long
      as the update does not change the id it is addressed to. */
  lemma {:induction false} UpdateIdempotent(fs: seq<Field>, id: string, p: Patch)
    requires p.id.None? || p.id == Some(id)
    ensures UpdateFieldRecursive(UpdateFieldRecursive(fs, id, p), id, p) == UpdateFieldRecursive(fs, id, p)
    decreases |Outline(fs)|
  {
    if fs != [] {
      OutlineShrinks(fs);
      var r := UpdateFieldRecursive(fs, id, p);
      assert r[1..] == UpdateFieldRecursive(fs[1..], id, p);
      if fs[0].id != id && fs[0].children.Present? {
        UpdateIdempotent(fs[0].children.fields, id, p);
      }
      UpdateIdempotent(fs[1..], id, p);
    }
  }

  /** With unique ids an update replaces exactly one subtree, the found node's, by its
      merge: every id is counted as before, less the old subtree's, plus the merged
      node's, and likewise the number of nodes. */
  lemma {:induction false} UpdateReplacesOne(fs: seq<Field>, id: string, p: Patch, f: Field, x: string)
    requires UniqueIds(fs) && Find(fs, id) == Some(f)
    ensures Count(UpdateFieldRecursive(fs, id, p), x) + CountOf(f, x) == Count(fs, x) + CountOf(Merge(f, p), x)
    ensures |Outline(UpdateFieldRecursive(fs, id, p))| + |OutlineOf(f)| == |Outline(fs)| + |OutlineOf(Merge(f, p))|
    decreases |Outline(fs)|
  {
    var g := fs[0];
    var g' := UpdateNode(g, id, p);
    OutlineShrinks(fs);
    UniqueIdsParts(fs);
    if g.id == id {
      UpdateAbsent(fs[1..], id, p);
      ConsParts(g', fs[1..]);
    } else if Count(Kids(g), id) > 0 {
      UpdateAbsent(fs[1..], id, p);
      UpdateReplacesOne(g.children.fields, id, p, f, x);
      ConsParts(g', fs[1..]);
    } else {
      if g.children.Present? {
        UpdateAbsent(g.children.fields, id, p);
      }
      assert g' == g;
      UpdateReplacesOne(fs[1..], id, p, f, x);
      ConsParts(g, UpdateFieldRecursive(fs[1..], id, p));
    }
    ConsParts(g, fs[1..]);
  }

  /** With unique ids an update replaces the found node's subtree by the merged node's
      and leaves every other node, its fields, depth and place, as it was: in the
      listing of the forest, the found node's block becomes the merged node's block. */
  lemma {:induction false} UpdateSplices(fs: seq<Field>, id: string, p: Patch, f: Field, e: nat)
    requires UniqueIds(fs) && Find(fs, id) == Some(f)
    ensures exists d :: Spliced(Shape(fs, e), ShapeOf(f, d), Shape(UpdateFieldRecursive(fs, id, p), e), ShapeOf(Merge(f, p), d))
    decreases |Outline(fs)|
  {
    var g, rest := fs[0], fs[1..];
    var r := UpdateFieldRecursive(fs, id, p);
    OutlineShrinks(fs);
    UniqueIdsParts(fs);
    assert fs == [g] + rest;
    assert r == [UpdateNode(g, id, p)] + UpdateFieldRecursive(rest, id, p);
    ShapeCons(g, rest, e);
    if g.id == id {
      UpdateAbsent(rest, id, p);
      assert r == [Merge(g, p)] + rest;
      ShapeCons(Merge(g, p), rest, e);
      SplicedHere(ShapeOf(f, e), ShapeOf(Merge(f, p), e), Shape(rest, e));
    } else if Count(Kids(g), id) > 0 {
      UpdateAbsent(rest, id, p);
      var kids := g.children.fields;
      var g' := g.(children := Present(UpdateFieldRecursive(kids, id, p)));
      assert r == [g'] + rest;
      ShapeCons(g', rest, e);
      UpdateSplices(kids, id, p, f, e + 1);
      var d :| Spliced(Shape(kids, e + 1), ShapeOf(f, d), Shape(UpdateFieldRecursive(kids, id, p), e + 1), ShapeOf(Merge(f, p), d));
      SplicedWithin(Shape(kids, e + 1), ShapeOf(f, d), Shape(UpdateFieldRecursive(kids, id, p), e + 1), ShapeOf(Merge(f, p), d),
        [Entry(e, LabelOf(g), true)], Shape(rest, e));
    } else {
      if g.children.Present? {
        UpdateAbsent(g.children.fields, id, p);
      }
      assert UpdateNode(g, id, p) == g;
      var rest' := UpdateFieldRecursive(rest, id, p);
      assert r == [g] + rest';
      ShapeCons(g, rest', e);
      UpdateSplices(rest, id, p, f, e);
      var d :| Spliced(Shape(rest, e), ShapeOf(f, d), Shape(rest', e), ShapeOf(Merge(f, p), d));
      SplicedWithin(Shape(rest, e), ShapeOf(f, d), Shape(rest', e), ShapeOf(Merge(f, p), d), ShapeOf(g, e), []);
      assert ShapeOf(g, e) + Shape(rest, e) + [] == ShapeOf(g, e) + Shape(rest, e);
      assert ShapeOf(g, e) + Shape(rest', e) + [] == ShapeOf(g, e) + Shape(rest', e);
    }
  }

  /** With unique ids the type/children invariant survives an update whose merge with
      the found node satisfies it. */
  lemma {:induction false} UpdateKeepsWellTyped(fs: seq<Field>, id: string, p: Patch, f: Field)
    requires UniqueIds(fs) && Find(fs, id) == Some(f)
    requires WellTyped(fs) && WellTypedField(Merge(f, p))
    ensures WellTyped(UpdateFieldRecursive(fs, id, p))
    decreases |Outline(fs)|
  {
    var g := fs[0];
    var g' := UpdateNode(g, id, p);
    OutlineShrinks(fs);
    UniqueIdsParts(fs);
    ConsParts(g, fs[1..]);
    if g.id == id {
      UpdateAbsent(fs[1..], id, p);
      ConsParts(g', fs[1..]);
    } else if Count(Kids(g), id) > 0 {
      UpdateAbsent(fs[1..], id, p);
      UpdateKeepsWellTyped(g.children.fields, id, p, f);
      ConsParts(g', fs[1..]);
    } else {
      if g.children.Present? {
        UpdateAbsent(g.children.fields, id, p);
      }
      assert g' == g;
      UpdateKeepsWellTyped(fs[1..], id, p, f);
      ConsParts(g, UpdateFieldRecursive(fs[1..], id, p));
    }
  }

  /** An update that leaves id, type and children alone (a rename) keeps every id count,
      the node count and the type/children invariant. */
  lemma {:induction false} UpdateKeepsShape(fs: seq<Field>, id: string, p: Patch, x: string)
    requires p.id.None? && p.kind.None? && p.children.None?
    ensures Count(UpdateFieldRecursive(fs, id, p), x) == Count(fs, x)
    ensures |Outline(UpdateFieldRecursive(fs, id, p))| == |Outline(fs)|
    ensures WellTyped(fs) ==> WellTyped(UpdateFieldRecursive(fs, id, p))
    decreases |Outline(fs)|
  {
    if fs != [] {
      var g := fs[0];
      var g' := UpdateNode(g, id, p);
      OutlineShrinks(fs);
      if g.id != id && g.children.Present? {
        UpdateKeepsShape(g.children.fields, id, p, x);
      }
      UpdateKeepsShape(fs[1..], id, p, x);
      ConsParts(g, fs[1..]);
      ConsParts(g', UpdateFieldRecursive(fs[1..], id, p));
    }
  }

  // ---------------------------------------------------------------------------
  // deleteField
  // ---------------------------------------------------------------------------

  /** `deleteFieldRecursive`: drops every node whose id matches, with its subtree, and
      prunes the children of the nodes that stay. */
  function DeleteFieldRecursive(fs: seq<Field>, id: string): (r: seq<Field>)
    ensures Count(r, id) == 0
  {
    if fs == [] then []
    else if fs[0].id == id then DeleteFieldRecursive(fs[1..], id)
    else [PruneNode(fs[0], id)] + DeleteFieldRecursive(fs[1..], id)
  }

  /** A surviving node: same own fields, children (if any) pruned. */
  function PruneNode(f: Field, id: string): (g: Field)
    requires f.id != id
    ensures LabelOf(g) == LabelOf(f) && g.children.Present? == f.children.Present?
    ensures CountOf(g, id) == 0
  {
    if f.children.Present? then f.(children := Present(DeleteFieldRecursive(f.children.fields, id))) else f
  }

  /** Deleting never adds an id and never adds a node. */
  lemma {:induction false} DeleteShrinks(fs: seq<Field>, id: string, x: string)
    ensures Count(DeleteFieldRecursive(fs, id), x) <= Count(fs, x)
    ensures |Outline(DeleteFieldRecursive(fs, id))| <= |Outline(fs)|
    decreases |Outline(fs)|
  {
    if fs != [] {
      var g := fs[0];
      OutlineShrinks(fs);
      DeleteShrinks(fs[1..], id, x);
      ConsParts(g, fs[1..]);
      if g.id != id {
        if g.children.Present? {
          DeleteShrinks(g.children.fields, id, x);
        }
        ConsParts(PruneNode(g, id), DeleteFieldRecursive(fs[1..], id));
      }
    }
  }

  /** Deleting keeps the type/children invariant and the uniqueness of ids. */
  lemma {:induction false} DeleteKeepsInvariants(fs: seq<Field>, id: string)
    ensures WellTyped(fs) ==> WellTyped(DeleteFieldRecursive(fs, id))
    ensures UniqueIds(fs) ==> UniqueIds(DeleteFieldRecursive(fs, id))
    decreases |Outline(fs)|
  {
    forall x ensures Count(DeleteFieldRecursive(fs, id), x) <= Count(fs, x) {
      DeleteShrinks(fs, id, x);
    }
    if fs != [] {
      var g := fs[0];
      OutlineShrinks(fs);
      DeleteKeepsInvariants(fs[1..], id);
      ConsParts(g, fs[1..]);
      if g.id != id {
        if g.children.Present? {
          DeleteKeepsInvariants(g.children.fields, id);
        }
        ConsParts(PruneNode(g, id), DeleteFieldRecursive(fs[1..], id));
      }
    }
  }

  /** Deleting changes the forest exactly when the id occurs in it. */
  lemma {:induction false} DeleteNoop(fs: seq<Field>, id: string)
    ensures DeleteFieldRecursive(fs, id) == fs <==> Count(fs, id) == 0
    decreases |Outline(fs)|
  {
    if fs != [] && Count(fs, id) == 0 {
      var g := fs[0];
      OutlineShrinks(fs);
      assert Count(fs, id) == CountOf(g, id) + Count(fs[1..], id);
      if g.children.Present? {
        DeleteNoop(g.children.fields, id);
      }
      assert PruneNode(g, id) == g;
      DeleteNoop(fs[1..], id);
      ConsParts(g, fs[1..]);
    }
  }

  /** `a` is `b` with some elements left out, the rest in their order. */
  predicate IsSubsequence<T(==)>(a: seq<T>, b: seq<T>)
    decreases |b|
  {
    if b == [] then a == []
    else (a != [] && a[0] == b[0] && IsSubsequence(a[1..], b[1..])) || IsSubsequence(a, b[1..])
  }

  lemma {:induction false} SubsequenceOfSelf<T>(a: seq<T>)
    ensures IsSubsequence(a, a)
    decreases |a|
  {
    if a != [] {
      SubsequenceOfSelf(a[1..]);
    }
  }

  lemma {:induction false} EmptySubsequence<T>(b: seq<T>)
    ensures IsSubsequence([], b)
    decreases |b|
  {
    if b != [] {
      EmptySubsequence(b[1..]);
    }
  }

  lemma {:induction false} SubsequenceConcat<T>(a1: seq<T>, a2: seq<T>, b1: seq<T>, b2: seq<T>)
    requires IsSubsequence(a1, b1) && IsSubsequence(a2, b2)
    ensures IsSubsequence(a1 + a2, b1 + b2)
    decreases |b1|
  {
    if b1 == [] {
      assert a1 + a2 == a2 && b1 + b2 == b2;
    } else {
      assert (b1 + b2)[1..] == b1[1..] + b2;
      if a1 != [] && a1[0] == b1[0] && IsSubsequence(a1[1..], b1[1..]) {
        SubsequenceConcat(a1[1..], a2, b1[1..], b2);
        assert (a1 + a2)[1..] == a1[1..] + a2;
      } else {
        SubsequenceConcat(a1, a2, b1[1..], b2);
      }
    }
  }

  /** The survivors of a delete keep their own fields, their depth, whether they have
      children, and their pre-order order: the listing afterwards is the listing before
      with entries left out. */
  lemma {:induction false} DeleteKeepsOrder(fs: seq<Field>, id: string, e: nat)
    ensures IsSubsequence(Shape(DeleteFieldRecursive(fs, id), e), Shape(fs, e))
    decreases |Outline(fs)|
  {
    if fs == [] {
      EmptySubsequence(Shape(fs, e));
    } else {
      OutlineShrinks(fs);
      var f := fs[0];
      var rest := DeleteFieldRecursive(fs[1..], id);
      DeleteKeepsOrder(fs[1..], id, e);
      assert fs == [f] + fs[1..];
      ShapeCons(f, fs[1..], e);
      if f.id == id {
        EmptySubsequence(ShapeOf(f, e));
        SubsequenceConcat([], Shape(rest, e), ShapeOf(f, e), Shape(fs[1..], e));
        assert [] + Shape(rest, e) == Shape(rest, e);
      } else {
        var g := PruneNode(f, id);
        var top := [Entry(e, LabelOf(f), f.children.Present?)];
        SubsequenceOfSelf(top);
        if f.children.Present? {
          DeleteKeepsOrder(f.children.fields, id, e + 1);
          SubsequenceConcat(top, Shape(g.children.fields, e + 1), top, Shape(f.children.fields, e + 1));
        } else {
          SubsequenceOfSelf(ShapeOf(f, e));
        }
        SubsequenceConcat(ShapeOf(g, e), Shape(rest, e), ShapeOf(f, e), Shape(fs[1..], e));
        ShapeCons(g, rest, e);
      }
    }
  }

  /** With unique ids, deleting the node found under `id` removes exactly that node and
      its descendants: 1 + k nodes for a node with k descendants, and their ids. */
  lemma {:induction false} DeleteRemovesSubtree(fs: seq<Field>, id: string, h: Field, x: string)
    requires UniqueIds(fs) && Find(fs, id) == Some(h)
    ensures Count(DeleteFieldRecursive(fs, id), x) + CountOf(h, x) == Count(fs, x)
    ensures |Outline(DeleteFieldRecursive(fs, id))| + |OutlineOf(h)| == |Outline(fs)|
    decreases |Outline(fs)|
  {
    var g := fs[0];
    OutlineShrinks(fs);
    UniqueIdsParts(fs);
    DeleteNoop(fs[1..], id);
    ConsParts(g, fs[1..]);
    if g.id == id {
      assert h == g && DeleteFieldRecursive(fs, id) == fs[1..];
    } else if Count(Kids(g), id) > 0 {
      assert Find(g.children.fields, id) == Some(h);
      DeleteRemovesSubtree(g.children.fields, id, h, x);
      ConsParts(PruneNode(g, id), fs[1..]);
    } else {
      if g.children.Present? {
        DeleteNoop(g.children.fields, id);
      }
      assert PruneNode(g, id) == g;
      DeleteRemovesSubtree(fs[1..], id, h, x);
      ConsParts(g, DeleteFieldRecursive(fs[1..], id));
    }
  }

  /** With unique ids, deleting removes the found node's subtree and leaves every other
      node, its fields, depth and place, as it was: in the listing of the forest, the
      found node's block is cut out and nothing else changes. */
  lemma {:induction false} DeleteSplices(fs: seq<Field>, id: string, h: Field, e: nat)
    requires UniqueIds(fs) && Find(fs, id) == Some(h)
    ensures exists d :: Spliced(Shape(fs, e), ShapeOf(h, d), Shape(DeleteFieldRecursive(fs, id), e), [])
    decreases |Outline(fs)|
  {
    var g, rest := fs[0], fs[1..];
    var r := DeleteFieldRecursive(fs, id);
    OutlineShrinks(fs);
    UniqueIdsParts(fs);
    DeleteNoop(rest, id);
    assert fs == [g] + rest;
    ShapeCons(g, rest, e);
    if g.id == id {
      assert r == rest;
      SplicedHere(ShapeOf(h, e), [], Shape(rest, e));
      assert [] + Shape(rest, e) == Shape(rest, e);
    } else if Count(Kids(g), id) > 0 {
      var kids := g.children.fields;
      var g' := PruneNode(g, id);
      assert r == [g'] + rest;
      ShapeCons(g', rest, e);
      DeleteSplices(kids, id, h, e + 1);
      var d :| Spliced(Shape(kids, e + 1), ShapeOf(h, d), Shape(DeleteFieldRecursive(kids, id), e + 1), []);
      SplicedWithin(Shape(kids, e + 1), ShapeOf(h, d), Shape(DeleteFieldRecursive(kids, id), e + 1), [],
        [Entry(e, LabelOf(g), true)], Shape(rest, e));
    } else {
      if g.children.Present? {
        DeleteNoop(g.children.fields, id);
      }
      assert PruneNode(g, id) == g;
      var rest' := DeleteFieldRecursive(rest, id);
      assert r == [g] + rest';
      ShapeCons(g, rest', e);
      DeleteSplices(rest, id, h, e);
      var d :| Spliced(Shape(rest, e), ShapeOf(h, d), Shape(rest', e), []);
      SplicedWithin(Shape(rest, e), ShapeOf(h, d), Shape(rest', e), [], ShapeOf(g, e), []);
      assert ShapeOf(g, e) + Shape(rest, e) + [] == ShapeOf(g, e) + Shape(rest, e);
      assert ShapeOf(g, e) + Shape(rest', e) + [] == ShapeOf(g, e) + Shape(rest', e);
    }
  }

  // ---------------------------------------------------------------------------
  // addChild
  // ---------------------------------------------------------------------------

  /** `addChildRecursive`: a nested node whose id matches gets a new string child
      `field_{k+1}` after its k children and its subtree is not visited; every other
      node that has children is rebuilt with its children visited. */
  function AddChildRecursive(fs: seq<Field>, parentId: string, newId: string): (r: seq<Field>)
    ensures |r| == |fs|
  {
    if fs == [] then [] else [AddChildNode(fs[0], parentId, newId)] + AddChildRecursive(fs[1..], parentId, newId)
  }

  function AddChildNode(f: Field, parentId: string, newId: string): (g: Field)
    ensures LabelOf(g) == LabelOf(f)
  {
    if f.id == parentId && f.kind == Nested then WithNewChild(f, newId)
    else if f.children.Present? then
      f.(children := Present(AddChildRecursive(f.children.fields, parentId, newId)))
    else f
  }

  /** A nested node after a child was added to it: its k children in order, then a
      string field `field_{k+1}` with the new id and no children. An absent `children`
      counts as k = 0. */
  function WithNewChild(h: Field, newId: string): (r: Field)
    ensures LabelOf(r) == LabelOf(h) && r.children.Present?
    ensures |r.children.fields| == |Kids(h)| + 1 && r.children.fields[..|Kids(h)|] == Kids(h)
    ensures r.children.fields[|Kids(h)|] == NewField(newId, FreshName(|Kids(h)|))
  {
    h.(children := Present(Kids(h) + [NewField(newId, FreshName(|Kids(h)|))]))
  }

  /** Sibling lists keep their length and order and every node keeps its own fields: a
      matching nested node gains the new child (its subtree is not visited), any other
      node keeps whether it has children, and its children are the edit applied to its
      old children, so the same holds at every depth. */
  lemma {:induction false} AddChildKeepsOwnFields(fs: seq<Field>, parentId: string, newId: string)
    ensures var r := AddChildRecursive(fs, parentId, newId);
      forall i :: 0 <= i < |fs| ==>
        LabelOf(r[i]) == LabelOf(fs[i]) &&
        (fs[i].id == parentId && fs[i].kind == Nested ==> r[i] == WithNewChild(fs[i], newId)) &&
        (!(fs[i].id == parentId && fs[i].kind == Nested) ==>
           r[i].children.Present? == fs[i].children.Present? &&
           (fs[i].children.Present? ==> r[i].children.fields == AddChildRecursive(fs[i].children.fields, parentId, newId)))
  {
    if fs != [] {
      AddChildKeepsOwnFields(fs[1..], parentId, newId);
      var r := AddChildRecursive(fs, parentId, newId);
      assert r[1..] == AddChildRecursive(fs[1..], parentId, newId);
      forall i | 1 <= i < |fs| ensures r[i] == r[1..][i - 1] && fs[i] == fs[1..][i - 1] { }
    }
  }

  /** Adding a child keeps the type/children invariant: only nested nodes gain a child,
      and the new child is a string field without children. */
  lemma {:induction false} AddChildKeepsWellTyped(fs: seq<Field>, parentId: string, newId: string)
    requires WellTyped(fs)
    ensures WellTyped(AddChildRecursive(fs, parentId, newId))
    decreases |Outline(fs)|
  {
    if fs != [] {
      var g := fs[0];
      OutlineShrinks(fs);
      AddChildKeepsWellTyped(fs[1..], parentId, newId);
      ConsParts(g, fs[1..]);
      if g.id == parentId && g.kind == Nested {
        WellTypedAppend(Kids(g), [NewField(newId, FreshName(|Kids(g)|))]);
      } else if g.children.Present? {
        AddChildKeepsWellTyped(g.children.fields, parentId, newId);
      }
      ConsParts(AddChildNode(g, parentId, newId), AddChildRecursive(fs[1..], parentId, newId));
    }
  }

  /** Adding a child under an id that occurs nowhere returns an equal forest. */
  lemma {:induction false} AddChildAbsent(fs: seq<Field>, parentId: string, newId: string)
    requires Count(fs, parentId) == 0
    ensures AddChildRecursive(fs, parentId, newId) == fs
    decreases |Outline(fs)|
  {
    if fs != [] {
      OutlineShrinks(fs);
      if fs[0].children.Present? {
        AddChildAbsent(fs[0].children.fields, parentId, newId);
      }
      AddChildAbsent(fs[1..], parentId, newId);
    }
  }

  /** When the node found under `parentId` is nested with k children, afterwards it has
      those k children in order and then a string field `field_{k+1}` with the new id. */
  lemma {:induction false} AddChildFind(fs: seq<Field>, parentId: string, newId: string, h: Field)
    requires Find(fs, parentId) == Some(h) && h.kind == Nested
    ensures Find(AddChildRecursive(fs, parentId, newId), parentId) == Some(WithNewChild(h, newId))
    decreases |Outline(fs)|
  {
    var r := AddChildRecursive(fs, parentId, newId);
    var g := fs[0];
    ConsParts(AddChildNode(g, parentId, newId), AddChildRecursive(fs[1..], parentId, newId));
    if g.id != parentId {
      OutlineShrinks(fs);
      if Count(Kids(g), parentId) > 0 {
        AddChildFind(g.children.fields, parentId, newId, h);
      } else {
        if g.children.Present? {
          AddChildAbsent(g.children.fields, parentId, newId);
        }
        assert r[0] == g;
        AddChildFind(fs[1..], parentId, newId, h);
      }
    }
  }

  /** With unique ids, adding a child to the found nested node replaces its subtree by
      the one with the new child and leaves every other node, its fields, depth and
      place, as it was. */
  lemma {:induction false} AddChildSplices(fs: seq<Field>, parentId: string, newId: string, h: Field, e: nat)
    requires UniqueIds(fs) && Find(fs, parentId) == Some(h) && h.kind == Nested
    ensures exists d :: Spliced(Shape(fs, e), ShapeOf(h, d), Shape(AddChildRecursive(fs, parentId, newId), e), ShapeOf(WithNewChild(h, newId), d))
    decreases |Outline(fs)|
  {
    var g, rest := fs[0], fs[1..];
    var r := AddChildRecursive(fs, parentId, newId);
    OutlineShrinks(fs);
    UniqueIdsParts(fs);
    assert fs == [g] + rest;
    assert r == [AddChildNode(g, parentId, newId)] + AddChildRecursive(rest, parentId, newId);
    ShapeCons(g, rest, e);
    if g.id == parentId {
      AddChildAbsent(rest, parentId, newId);
      assert r == [WithNewChild(g, newId)] + rest;
      ShapeCons(WithNewChild(g, newId), rest, e);
      SplicedHere(ShapeOf(h, e), ShapeOf(WithNewChild(h, newId), e), Shape(rest, e));
    } else if Count(Kids(g), parentId) > 0 {
      AddChildAbsent(rest, parentId, newId);
      var kids := g.children.fields;
      var kids' := AddChildRecursive(kids, parentId, newId);
      var g' := g.(children := Present(kids'));
      assert r == [g'] + rest;
      ShapeCons(g', rest, e);
      AddChildSplices(kids, parentId, newId, h, e + 1);
      var d :| Spliced(Shape(kids, e + 1), ShapeOf(h, d), Shape(kids', e + 1), ShapeOf(WithNewChild(h, newId), d));
      SplicedWithin(Shape(kids, e + 1), ShapeOf(h, d), Shape(kids', e + 1), ShapeOf(WithNewChild(h, newId), d),
        [Entry(e, LabelOf(g), true)], Shape(rest, e));
    } else {
      if g.children.Present? {
        AddChildAbsent(g.children.fields, parentId, newId);
      }
      assert AddChildNode(g, parentId, newId) == g;
      var rest' := AddChildRecursive(rest, parentId, newId);
      assert r == [g] + rest';
      ShapeCons(g, rest', e);
      AddChildSplices(rest, parentId, newId, h, e);
      var d :| Spliced(Shape(rest, e), ShapeOf(h, d), Shape(rest', e), ShapeOf(WithNewChild(h, newId), d));
      SplicedWithin(Shape(rest, e), ShapeOf(h, d), Shape(rest', e), ShapeOf(WithNewChild(h, newId), d), ShapeOf(g, e), []);
      assert ShapeOf(g, e) + Shape(rest, e) + [] == ShapeOf(g, e) + Shape(rest, e);
      assert ShapeOf(g, e) + Shape(rest', e) + [] == ShapeOf(g, e) + Shape(rest', e);
    }
  }

  /** True when the edit has a target: the node found under `parentId` is nested. */
  predicate AddsChild(fs: seq<Field>, parentId: string) {
    var found := Find(fs, parentId);
    found.Some? && found.value.kind == Nested
  }

  /** With unique ids, adding a child when the node found under `parentId` is missing or
      not nested returns an equal forest. */
  lemma {:induction false} AddChildUnchanged(fs: seq<Field>, parentId: string, newId: string)
    requires UniqueIds(fs) && !AddsChild(fs, parentId)
    ensures AddChildRecursive(fs, parentId, newId) == fs
    decreases |Outline(fs)|
  {
    if fs != [] {
      var g := fs[0];
      OutlineShrinks(fs);
      UniqueIdsParts(fs);
      if g.id == parentId {
        AddChildAbsent(fs[1..], parentId, newId);
        if g.children.Present? {
          AddChildAbsent(g.children.fields, parentId, newId);
        }
      } else if Count(Kids(g), parentId) > 0 {
        AddChildAbsent(fs[1..], parentId, newId);
        assert Find(fs, parentId) == Find(g.children.fields, parentId);
        AddChildUnchanged(g.children.fields, parentId, newId);
      } else {
        if g.children.Present? {
          AddChildAbsent(g.children.fields, parentId, newId);
        }
        AddChildUnchanged(fs[1..], parentId, newId);
      }
      assert AddChildNode(g, parentId, newId) == g;
      ConsParts(g, AddChildRecursive(fs[1..], parentId, newId));
    }
  }

  /** The parent gains one node, the new child. */
  lemma WithNewChildGrows(h: Field, newId: string, x: string)
    ensures CountOf(WithNewChild(h, newId), x) == CountOf(h, x) + (if x == newId then 1 else 0)
    ensures |OutlineOf(WithNewChild(h, newId))| == |OutlineOf(h)| + 1
  {
    var child := NewField(newId, FreshName(|Kids(h)|));
    CountAppend(Kids(h), [child], x);
    OutlineAppend(Kids(h), [child]);
    ConsParts(child, []);
  }

  /** With unique ids, adding a child to a nested node adds exactly one node, the one
      carrying the new id. */
  lemma {:induction false} AddChildGrows(fs: seq<Field>, parentId: string, newId: string, x: string)
    requires UniqueIds(fs) && AddsChild(fs, parentId)
    ensures Count(AddChildRecursive(fs, parentId, newId), x) == Count(fs, x) + (if x == newId then 1 else 0)
    ensures |Outline(AddChildRecursive(fs, parentId, newId))| == |Outline(fs)| + 1
    decreases |Outline(fs)|
  {
    var g := fs[0];
    var g' := AddChildNode(g, parentId, newId);
    OutlineShrinks(fs);
    UniqueIdsParts(fs);
    ConsParts(g, fs[1..]);
    if g.id == parentId {
      AddChildAbsent(fs[1..], parentId, newId);
      WithNewChildGrows(g, newId, x);
      ConsParts(g', fs[1..]);
    } else if Count(Kids(g), parentId) > 0 {
      AddChildAbsent(fs[1..], parentId, newId);
      assert Find(fs, parentId) == Find(g.children.fields, parentId);
      AddChildGrows(g.children.fields, parentId, newId, x);
      ConsParts(g', fs[1..]);
    } else {
      if g.children.Present? {
        AddChildAbsent(g.children.fields, parentId, newId);
      }
      assert g' == g;
      AddChildGrows(fs[1..], parentId, newId, x);
      ConsParts(g, AddChildRecursive(fs[1..], parentId, newId));
    }
  }

  /** With unique ids and a fresh new id, ids stay unique after adding a child. */
  lemma AddChildKeepsUniqueIds(fs: seq<Field>, parentId: string, newId: string)
    requires UniqueIds(fs) && Count(fs, newId) == 0
    ensures UniqueIds(AddChildRecursive(fs, parentId, newId))
  {
    if AddsChild(fs, parentId) {
      forall x ensures Count(AddChildRecursive(fs, parentId, newId), x) <= 1 {
        AddChildGrows(fs, parentId, newId, x);
      }
    } else {
      AddChildUnchanged(fs, parentId, newId);
    }
  }

  // ---------------------------------------------------------------------------
  // addRootField
  // ---------------------------------------------------------------------------

  /** `addRootField`: appends `field_{n+1}` to a forest of n roots. */
  function AddRootField(fs: seq<Field>, newId: string): (r: seq<Field>)
    ensures |r| == |fs| + 1 && r[..|fs|] == fs && r[|fs|] == NewField(newId, FreshName(|fs|))
  {
    fs + [NewField(newId, FreshName(|fs|))]
  }

  /** n roots become n + 1: the old ones unchanged and in order, then a string field
      `field_{n+1}` without children. The new id is the one id counted once more. */
  lemma AddRootFieldShape(fs: seq<Field>, newId: string, x: string)
    ensures var r := AddRootField(fs, newId);
      |r| == |fs| + 1 && r[..|fs|] == fs &&
      r[|fs|].id == newId && r[|fs|].name == FreshName(|fs|) &&
      r[|fs|].kind == String && r[|fs|].children == Absent
    ensures Count(AddRootField(fs, newId), x) == Count(fs, x) + (if x == newId then 1 else 0)
    ensures |Outline(AddRootField(fs, newId))| == |Outline(fs)| + 1
    ensures Shape(AddRootField(fs, newId), 0) == Shape(fs, 0) + [Entry(0, Label(newId, FreshName(|fs|), String), false)]
  {
    var child := NewField(newId, FreshName(|fs|));
    CountAppend(fs, [child], x);
    OutlineAppend(fs, [child]);
    ShapeAppend(fs, [child], 0);
    ConsParts(child, []);
    ShapeCons(child, [], 0);
  }

  /** Adding a root with a fresh id keeps ids unique and the type/children invariant. */
  lemma AddRootFieldKeepsInvariants(fs: seq<Field>, newId: string)
    ensures WellTyped(fs) ==> WellTyped(AddRootField(fs, newId))
    ensures UniqueIds(fs) && Count(fs, newId) == 0 ==> UniqueIds(AddRootField(fs, newId))
  {
    var child := NewField(newId, FreshName(|fs|));
    WellTypedAppend(fs, [child]);
    ConsParts(child, []);
    forall x ensures Count(AddRootField(fs, newId), x) == Count(fs, x) + (if x == newId then 1 else 0) {
      AddRootFieldShape(fs, newId, x);
    }
  }

  /** The generated name counts siblings, not names in use: after deleting the first of
      two fresh roots, a new root repeats the name of the one that is left. */
  lemma {:induction false} DefaultNameCanRepeat(a: string, b: string, c: string)
    requires a != b
    ensures var fs := DeleteFieldRecursive([NewField(a, FreshName(0)), NewField(b, FreshName(1))], a);
      var r := AddRootField(fs, c);
      |r| == 2 && r[0].name == r[1].name == "field_2"
  {
    var fs := [NewField(a, FreshName(0)), NewField(b, FreshName(1))];
    assert fs[1..] == [NewField(b, FreshName(1))];
    assert fs[1..][1..] == [];
    var g := NewField(b, FreshName(1));
    assert PruneNode(g, a) == g;
    assert DeleteFieldRecursive([g], a) == [g] + DeleteFieldRecursive([g][1..], a);
    assert DeleteFieldRecursive(fs, a) == [g];
    assert FreshName(1) == "field_" + ['2'];
  }
}
