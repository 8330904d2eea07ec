/** The data shape of the schema editor (src/types/schema.ts): typed, named fields
    arranged as an ordered forest, plus the queries over that forest that the
    editing and projection properties are stated with. */
module Schema {

  datatype Option<+T> = None | Some(value: T) {
    /** The wrapped value, or `default` when there is none. */
    function GetOr(default: T): T {
      match this
      case Some(v) => v
      case None => default
    }
  }

  /** The three types a field can be given in the type selector. */
  datatype FieldType = String | Number | Nested

  /** The optional `children` key of a field. `Absent` is a missing or `undefined` key;
      `Present([])` is an empty array, which is truthy and therefore different. */
  datatype Children = Absent | Present(fields: seq<Field>)

  datatype Field = Field(id: string, name: string, kind: FieldType, children: Children)

  /** `field.children || []` */
  function Kids(f: Field): seq<Field> {
    if f.children.Present? then f.children.fields else []
  }

  /** What a node says about itself, leaving its subtree out. */
  datatype Label = Label(id: string, name: string, kind: FieldType)

  function LabelOf(f: Field): Label {
    Label(f.id, f.name, f.kind)
  }

  /** Every node of the forest in depth-first pre-order, descending into every node
      that has a `children` array, whatever its type (the traversals do the same). */
  function Outline(fs: seq<Field>): seq<Label> {
    if fs == [] then [] else OutlineOf(fs[0]) + Outline(fs[1..])
  }

  function OutlineOf(f: Field): seq<Label> {
    [LabelOf(f)] + (if f.children.Present? then Outline(f.children.fields) else [])
  }

  /** How many nodes of the forest, at any depth, have id `x`. */
  function Count(fs: seq<Field>, x: string): nat {
    if fs == [] then 0 else CountOf(fs[0], x) + Count(fs[1..], x)
  }

  function CountOf(f: Field, x: string): nat {
    (if f.id == x then 1 else 0) + (if f.children.Present? then Count(f.children.fields, x) else 0)
  }

  /** No id occurs twice anywhere in the forest. */
  ghost predicate UniqueIds(fs: seq<Field>) {
    forall x :: Count(fs, x) <= 1
  }

  /** The editor's type/children invariant: a field has a `children` array exactly
      when it is nested, at every depth. */
  predicate WellTyped(fs: seq<Field>) {
    fs == [] || (WellTypedField(fs[0]) && WellTyped(fs[1..]))
  }

  predicate WellTypedField(f: Field) {
    (f.children.Present? <==> f.kind == Nested) &&
    (f.children.Present? ==> WellTyped(f.children.fields))
  }

  /** The first node in pre-order whose id is `id`: the node a row of the editor stands
      for, the only one when ids are unique. */
  function Find(fs: seq<Field>, id: string): (r: Option<Field>)
    ensures r.Some? <==> Count(fs, id) > 0
    ensures r.Some? ==> r.value.id == id
  {
    if fs == [] then None
    else if fs[0].id == id then Some(fs[0])
    else
      var below := FindBelow(fs[0], id);
      if below.Some? then below else Find(fs[1..], id)
  }

  /** The first node with id `id` strictly inside `f`'s subtree. */
  function FindBelow(f: Field, id: string): (r: Option<Field>)
    ensures f.children.Absent? ==> r.None?
    ensures f.children.Present? ==> r == Find(f.children.fields, id)
  {
    if f.children.Present? then Find(f.children.fields, id) else None
  }

  /** The node found in a forest that keeps the type/children invariant keeps it too. */
  lemma {:induction false} FindWellTyped(fs: seq<Field>, id: string)
    requires WellTyped(fs) && Find(fs, id).Some?
    ensures WellTypedField(Find(fs, id).value)
  {
    if fs[0].id != id {
      if FindBelow(fs[0], id).Some? {
        FindWellTyped(fs[0].children.fields, id);
      } else {
        FindWellTyped(fs[1..], id);
      }
    }
  }

  lemma {:induction false} OutlineAppend(a: seq<Field>, b: seq<Field>)
    ensures Outline(a + b) == Outline(a) + Outline(b)
  {
    if a == [] {
      assert a + b == b;
    } else {
      assert (a + b)[1..] == a[1..] + b;
      OutlineAppend(a[1..], b);
    }
  }

  lemma {:induction false} CountAppend(a: seq<Field>, b: seq<Field>, x: string)
    ensures Count(a + b, x) == Count(a, x) + Count(b, x)
  {
    if a == [] {
      assert a + b == b;
    } else {
      assert (a + b)[1..] == a[1..] + b;
      CountAppend(a[1..], b, x);
    }
  }

  /** The found node's subtree is part of the forest. */
  lemma {:induction false} FindCount(fs: seq<Field>, id: string, x: string)
    requires Find(fs, id).Some?
    ensures CountOf(Find(fs, id).value, x) <= Count(fs, x)
  {
    if fs[0].id != id {
      if FindBelow(fs[0], id).Some? {
        FindCount(fs[0].children.fields, id, x);
      } else {
        FindCount(fs[1..], id, x);
      }
    }
  }

  lemma {:induction false} WellTypedAppend(a: seq<Field>, b: seq<Field>)
    ensures WellTyped(a + b) <==> WellTyped(a) && WellTyped(b)
  {
    if a == [] {
      assert a + b == b;
    } else {
      assert (a + b)[1..] == a[1..] + b;
      WellTypedAppend(a[1..], b);
    }
  }

  /** The queries on a forest split at its first root. */
  lemma ConsParts(f: Field, rest: seq<Field>)
    ensures ([f] + rest)[0] == f && ([f] + rest)[1..] == rest
    ensures Outline([f] + rest) == OutlineOf(f) + Outline(rest)
    ensures WellTyped([f] + rest) <==> WellTypedField(f) && WellTyped(rest)
  {
  }

  /** With unique ids, the id of the first root occurs nowhere else, and each part of
      the forest has unique ids of its own. */
  lemma UniqueIdsParts(fs: seq<Field>)
    requires fs != [] && UniqueIds(fs)
    ensures UniqueIds(fs[1..]) && UniqueIds(Kids(fs[0]))
    ensures Count(fs[1..], fs[0].id) == 0 && Count(Kids(fs[0]), fs[0].id) == 0
    ensures forall x :: Count(Kids(fs[0]), x) > 0 ==> Count(fs[1..], x) == 0
  {
    forall x
      ensures Count(fs[1..], x) <= 1 && Count(Kids(fs[0]), x) <= 1
      ensures Count(Kids(fs[0]), x) > 0 ==> Count(fs[1..], x) == 0
    {
      assert Count(fs, x) <= 1;
    }
    assert Count(fs, fs[0].id) <= 1;
  }

  /** The measure the tree lemmas recurse on: a child list and the remaining siblings
      are both smaller than the forest they come from. */
  lemma OutlineShrinks(fs: seq<Field>)
    requires fs != []
    ensures |Outline(Kids(fs[0]))| < |Outline(fs)|
    ensures |Outline(fs[1..])| < |Outline(fs)|
  {
    assert Outline(fs) == OutlineOf(fs[0]) + Outline(fs[1..]);
  }

  // ---------------------------------------------------------------------------
  // The listing of a forest: every node with its depth
  // ---------------------------------------------------------------------------

  /** A node as the pre-order listing shows it: its depth, its own fields and whether it
      has a children array. */
  datatype Entry = Entry(depth: nat, node: Label, hasChildren: bool)

  /** The nodes of a forest whose roots sit at depth `d`, in depth-first pre-order.
      Unlike `Outline`, this listing determines the forest (ShapeDetermines), so a
      statement about it pins every node's fields and place. */
  function Shape(fs: seq<Field>, d: nat): seq<Entry> {
    if fs == [] then [] else ShapeOf(fs[0], d) + Shape(fs[1..], d)
  }

  function ShapeOf(f: Field, d: nat): seq<Entry> {
    [Entry(d, LabelOf(f), f.children.Present?)] + (if f.children.Present? then Shape(f.children.fields, d + 1) else [])
  }

  lemma ShapeCons(f: Field, rest: seq<Field>, d: nat)
    ensures Shape([f] + rest, d) == ShapeOf(f, d) + Shape(rest, d)
  {
    assert ([f] + rest)[1..] == rest;
  }

  lemma {:induction false} ShapeAppend(a: seq<Field>, b: seq<Field>, d: nat)
    ensures Shape(a + b, d) == Shape(a, d) + Shape(b, d)
  {
    if a == [] {
      assert a + b == b;
    } else {
      assert (a + b)[1..] == a[1..] + b;
      ShapeAppend(a[1..], b, d);
    }
  }

  /** Every node of a forest listed from depth `d` is at depth `d` or deeper, and the
      first one is a root. */
  lemma {:induction false} ShapeDepths(fs: seq<Field>, d: nat)
    ensures forall k :: 0 <= k < |Shape(fs, d)| ==> Shape(fs, d)[k].depth >= d
    ensures fs != [] ==> Shape(fs, d) != [] && Shape(fs, d)[0].depth == d
    decreases |Outline(fs)|
  {
    if fs != [] {
      OutlineShrinks(fs);
      ShapeDepths(Kids(fs[0]), d + 1);
      ShapeDepths(fs[1..], d);
    }
  }

  /** `x` lists one subtree whose root is at depth `d`: the root first, then only deeper
      nodes. */
  predicate Block(x: seq<Entry>, d: nat) {
    x != [] && x[0].depth == d && forall k :: 1 <= k < |x| ==> x[k].depth > d
  }

  lemma ShapeOfBlock(f: Field, d: nat)
    ensures Block(ShapeOf(f, d), d)
  {
    ShapeDepths(Kids(f), d + 1);
  }

  /** Where the subtree that starts a listing ends: the first position from `k` on
      whose node is at depth `d` or above. */
  function BlockEnd(s: seq<Entry>, d: nat, k: nat): (r: nat)
    requires k <= |s|
    ensures k <= r <= |s|
    decreases |s| - k
  {
    if k == |s| || s[k].depth <= d then k else BlockEnd(s, d, k + 1)
  }

  /** A subtree followed by nodes at its root's depth or above ends where BlockEnd says. */
  lemma {:induction false} BlockEndOf(x: seq<Entry>, y: seq<Entry>, d: nat, k: nat)
    requires Block(x, d) && (y == [] || y[0].depth <= d) && 1 <= k <= |x|
    ensures BlockEnd(x + y, d, k) == |x|
    decreases |x| - k
  {
    if k < |x| {
      assert (x + y)[k] == x[k];
      BlockEndOf(x, y, d, k + 1);
    } else if y != [] {
      assert (x + y)[k] == y[0];
    }
  }

  /** The listing of a forest determines the forest. */
  lemma {:induction false} ShapeDetermines(a: seq<Field>, b: seq<Field>, d: nat)
    requires Shape(a, d) == Shape(b, d)
    ensures a == b
    decreases |Outline(a)|
  {
    assert a != [] ==> |Shape(a, d)| > 0;
    assert b != [] ==> |Shape(b, d)| > 0;
    if a != [] && b != [] {
      var x, y := ShapeOf(a[0], d), Shape(a[1..], d);
      var x', y' := ShapeOf(b[0], d), Shape(b[1..], d);
      ShapeOfBlock(a[0], d);
      ShapeOfBlock(b[0], d);
      ShapeDepths(a[1..], d);
      ShapeDepths(b[1..], d);
      BlockEndOf(x, y, d, 1);
      BlockEndOf(x', y', d, 1);
      assert x == (x + y)[..|x|] && x' == (x' + y')[..|x'|];
      assert y == (x + y)[|x|..] && y' == (x' + y')[|x'|..];
      OutlineShrinks(a);
      ShapeDetermines(a[1..], b[1..], d);
      assert x[0] == x'[0];
      if a[0].children.Present? {
        assert x[1..] == Shape(Kids(a[0]), d + 1) && x'[1..] == Shape(Kids(b[0]), d + 1);
        ShapeDetermines(Kids(a[0]), Kids(b[0]), d + 1);
      }
      assert a == [a[0]] + a[1..] && b == [b[0]] + b[1..];
    }
  }

  /** `b` is `a` with the block `x` replaced by `y`, everything around it in place. */
  ghost predicate Spliced(a: seq<Entry>, x: seq<Entry>, b: seq<Entry>, y: seq<Entry>) {
    exists pre, post :: a == pre + x + post && b == pre + y + post
  }

  lemma SplicedHere(x: seq<Entry>, y: seq<Entry>, z: seq<Entry>)
    ensures Spliced(x + z, x, y + z, y)
  {
    assert x + z == [] + x + z && y + z == [] + y + z;
  }

  lemma SplicedWithin(a: seq<Entry>, x: seq<Entry>, b: seq<Entry>, y: seq<Entry>, u: seq<Entry>, v: seq<Entry>)
    requires Spliced(a, x, b, y)
    ensures Spliced(u + a + v, x, u + b + v, y)
  {
    var pre, post :| a == pre + x + post && b == pre + y + post;
    assert u + a + v == (u + pre) + x + (post + v);
    assert u + b + v == (u + pre) + y + (post + v);
  }
}
