/** The layout manager (src/analysis/layout.c): nodes filled in field by field, a limit on their number,
    and a failure flag that stops everything. */
module LayoutManager {
  import opened Wrappers
  import opened Alignment
  import opened LayoutSpec

  /** A node while it is being filled in. */
  class Node {
    var size: Size
    var align: Size
    var inhabited: bool
    var fields: seq<Field>

    constructor ()
      ensures State() == EMPTY
    {
      size, align, inhabited, fields := 0, 1, true, [];
    }

    ghost function State(): Placement
      reads this
    {
      Placement(fields, size, align, inhabited)
    }

    function Finished(kind: Kind): Layout
      reads this
    {
      Layout(kind, size, align, inhabited, fields, None, 0, [], 0)
    }
  }

  class Manager {
    const c: Context
    var failed: bool
    var count: nat

    constructor (c: Context)
      requires c.target.Valid()
      ensures this.c == c && Valid() && !failed && count == 0
    {
      this.c := c;
      failed, count := false, 0;
    }

    ghost predicate Valid()
      reads this
    {
      c.target.Valid() && count <= MAX_NODES
    }

    /** Some layout exactly as specified; None only after a failure, and then the type has no layout or
        the node limit was reached. */
    twostate predicate Answers(new r: Option<Layout>, new spec: Option<Layout>)
      reads this
    {
      && Valid() && old(count) <= count && (old(failed) ==> failed)
      && (r.Some? ==> !failed && r == spec)
      && (r.None? ==> failed && (old(failed) || spec == None || count == MAX_NODES))
    }

    method Fail()
      requires Valid()
      modifies this`failed
      ensures Valid() && failed
    {
      failed := true;
    }

    /** A new node, if the limit allows. */
    method NewNode() returns (node: Node?)
      requires Valid()
      modifies this
      ensures Valid() && old(count) <= count && (node == null <==> failed)
      ensures node == null ==> old(failed) || count == MAX_NODES
      ensures node != null ==> fresh(node) && node.State() == EMPTY
    {
      if failed { return null; }
      if count == MAX_NODES {
        Fail();
        return null;
      }
      node := new Node();
      count := count + 1;
    }

    method AlignTo(size: Size, alignment: Size) returns (r: Option<Size>)
      requires Valid() && !failed
      modifies this`failed
      ensures Valid() && r == AlignUp(c.target.maxObject, size, alignment) && (failed <==> r == None)
    {
      r := AlignUp(c.target.maxObject, size, alignment);
      if r == None { Fail(); }
    }

    method AppendField(node: Node, name: string, child: Option<Layout>, packed: bool) returns (ok: bool)
      requires Valid() && (child == None <==> failed)
      modifies this`failed, node
      ensures Valid() && (ok <==> !failed) && (old(failed) ==> failed)
      ensures child.Some? ==>
        match Place(c.target, old(node.State()), name, child.value, packed)
        case None => !ok
        case Some(p) => ok && node.State() == p
    {
      if child == None { return false; }
      var alignment := if packed then 1 else child.value.align;
      var offset := AlignTo(node.size, alignment);
      if offset == None { return false; }
      AlignUpMeaning(c.target.maxObject, node.size, alignment);
      if child.value.size > c.target.maxObject - offset.value {
        Fail();
        return false;
      }
      node.fields := node.fields + [Field(name, offset.value, child.value)];
      node.size := offset.value + child.value.size;
      if !packed && node.align < child.value.align { node.align := child.value.align; }
      node.inhabited := node.inhabited && child.value.inhabited;
      ok := true;
    }

    /** The node with its size rounded up to its alignment. */
    method Finish(node: Node, kind: Kind) returns (r: Option<Layout>)
      requires Valid() && !failed
      modifies this`failed, node
      ensures Answers(r, Round(c.target, old(node.Finished(kind))))
    {
      hide AlignUp;
      var size := AlignTo(node.size, node.align);
      if size == None { return None; }
      node.size := size.value;
      r := Some(node.Finished(kind));
    }

    // ----- resolution -----

    method Resolve(ty: Ty, env: Env, depth: nat) returns (r: Option<Layout>)
      requires Valid() && depth <= MAX_DEPTH + 1
      modifies this
      ensures Answers(r, LayoutSpec.Resolve(c, ty, env, depth))
      decreases MAX_DEPTH + 1 - depth, 2
    {
      hide Primitive, LayoutSpec.ArrayOf, ResolveTuple, Close, LayoutSpec.Enumeration, LayoutSpec.Record, LayoutSpec.ShortResult, Lookup;
      if failed { return None; }
      if depth >= MAX_DEPTH {
        Fail();
        return None;
      }
      match ty
      case Prim(k) => r := Scalar(k);
      case Unknown =>
        Fail();
        r := None;
      case Array(elem, length) => r := ArrayType(elem, length, env, depth);
      case Tuple(elems) => r := TupleType(elems, env, depth);
      case Named(name) => r := NamedType(name, env, depth);
      case Generic(name, args) => r := GenericType(name, args, env, depth);
    }

    /** A type parameter, an alias, an enum or a record, looked for in this order. */
    method NamedType(name: string, env: Env, depth: nat) returns (r: Option<Layout>)
      requires Valid() && depth < MAX_DEPTH && !failed
      modifies this
      ensures Answers(r, LayoutSpec.Resolve(c, Named(name), env, depth))
      decreases MAX_DEPTH + 1 - depth, 1
    {
      hide Primitive, LayoutSpec.ArrayOf, ResolveTuple, Close, LayoutSpec.Enumeration, LayoutSpec.Record, LayoutSpec.ShortResult, Lookup;
      var b := Lookup(env, name);
      if b.Some? {
        r := Resolve(b.value.0, b.value.1, depth + 1);
      } else if name in c.decls.aliases {
        r := Parse(c.decls.aliases[name], env, depth + 1);
      } else if name in c.decls.enums || name == "Option" || name == "Result" {
        r := EnumType(name, [], env, depth + 1);
      } else {
        r := RecordType(name, [], env, depth + 1);
      }
    }

    method GenericType(name: string, args: seq<Ty>, env: Env, depth: nat) returns (r: Option<Layout>)
      requires Valid() && depth < MAX_DEPTH && !failed
      modifies this
      ensures Answers(r, LayoutSpec.Resolve(c, Generic(name, args), env, depth))
      decreases MAX_DEPTH + 1 - depth, 1
    {
      hide Primitive, LayoutSpec.ArrayOf, ResolveTuple, Close, LayoutSpec.Enumeration, LayoutSpec.Record, LayoutSpec.ShortResult, Lookup;
      if name == "Result" && |args| == 2 && args[1] == Prim(I64) {
        r := ShortResultType(args[0], env, depth + 1);
      } else if name == "Option" || name == "Result" {
        r := EnumType(name, args, env, depth + 1);
      } else {
        r := RecordType(name, args, env, depth + 1);
      }
    }

    /** A spelling that does not parse has no layout. */
    method Parse(spelling: Option<Ty>, env: Env, depth: nat) returns (r: Option<Layout>)
      requires Valid() && depth <= MAX_DEPTH + 1
      modifies this
      ensures Answers(r, if spelling == None then None else LayoutSpec.Resolve(c, spelling.value, env, depth))
      decreases MAX_DEPTH + 1 - depth, 3
    {
      hide LayoutSpec.Resolve;
      if spelling == None {
        Fail();
        return None;
      }
      r := Resolve(spelling.value, env, depth);
    }

    method Scalar(k: Kind) returns (r: Option<Layout>)
      requires Valid() && !failed
      modifies this
      ensures Answers(r, if !IsPrim(k) || Primitive(c.target, k).size > c.target.maxObject then None else Some(Primitive(c.target, k)))
    {
      hide Primitive;
      var node := NewNode();
      if node == null { return None; }
      if !IsPrim(k) || Primitive(c.target, k).size > c.target.maxObject {
        Fail();
        return None;
      }
      r := Some(Primitive(c.target, k));
    }

    method ArrayType(elem: Ty, length: Size, env: Env, depth: nat) returns (r: Option<Layout>)
      requires Valid() && depth < MAX_DEPTH && !failed
      modifies this
      ensures Answers(r, match LayoutSpec.Resolve(c, elem, env, depth + 1)
                         case None => None
                         case Some(e) => ArrayOf(c.target, e, length))
      decreases MAX_DEPTH + 1 - depth, 1
    {
      hide LayoutSpec.Resolve;
      var node := NewNode();
      if node == null { return None; }
      var element := Resolve(elem, env, depth + 1);
      if element == None { return None; }
      var e := element.value;
      if length != 0 && e.size > c.target.maxObject / length {
        Fail();
        return None;
      }
      r := ArrayOf(c.target, e, length);
      if r == None { Fail(); }
    }

    method TupleType(elems: seq<Ty>, env: Env, depth: nat) returns (r: Option<Layout>)
      requires Valid() && depth < MAX_DEPTH && !failed
      modifies this
      ensures Answers(r, if |elems| > MAX_FIELDS then None
                         else match ResolveTuple(c, elems, env, depth + 1, |elems|)
                              case None => None
                              case Some(p) => Close(c.target, TupleK, p))
      decreases MAX_DEPTH + 1 - depth, 1
    {
      hide LayoutSpec.Resolve, Place, Round;
      var node := NewNode();
      if node == null { return None; }
      if |elems| > MAX_FIELDS {
        Fail();
        return None;
      }
      var i := 0;
      while i < |elems|
        invariant 0 <= i <= |elems| && Valid() && !failed && fresh(node) && old(count) <= count
        invariant ResolveTuple(c, elems, env, depth + 1, i) == Some(node.State())
      {
        var child := Resolve(elems[i], env, depth + 1);
        var ok := AppendField(node, IndexName(i), child, false);
        if !ok {
          TupleStops(c, elems, env, depth + 1, i + 1, |elems|);
          return None;
        }
        i := i + 1;
      }
      r := Finish(node, TupleK);
    }

    method RecordType(name: string, args: seq<Ty>, env: Env, depth: nat) returns (r: Option<Layout>)
      requires Valid() && depth <= MAX_DEPTH && !failed
      modifies this
      ensures Answers(r, LayoutSpec.Record(c, name, args, env, depth))
      decreases MAX_DEPTH + 1 - depth, 1
    {
      hide LayoutSpec.Resolve, Place, CloseRecord;
      if name !in c.decls.structs || |c.decls.structs[name].params| != |args| {
        Fail();
        return None;
      }
      var d := c.decls.structs[name];
      var inner := if |args| > 0 then [Binding(d.params, args)] + env else env;
      var node := NewNode();
      if node == null { return None; }
      if (d.packed && d.transparent) || |d.fields| > MAX_FIELDS {
        Fail();
        return None;
      }
      var i := 0;
      while i < |d.fields|
        invariant 0 <= i <= |d.fields| && Valid() && !failed && fresh(node) && old(count) <= count
        invariant ResolveFields(c, d, inner, depth + 1, i) == Some(node.State())
      {
        var child := Parse(d.fields[i].ty, inner, depth + 1);
        var ok := AppendField(node, d.fields[i].name, child, d.packed);
        if !ok {
          FieldsStop(c, d, inner, depth + 1, i + 1, |d.fields|);
          return None;
        }
        i := i + 1;
      }
      r := FinishRecord(node, d);
    }

    method FinishRecord(node: Node, d: StructDef) returns (r: Option<Layout>)
      requires Valid() && !failed
      modifies this`failed, node
      ensures Answers(r, CloseRecord(c.target, d, old(node.State())))
    {
      hide Round;
      if d.transparent {
        if |node.fields| != 1 || node.fields[0].ty.size == 0 {
          Fail();
          return None;
        }
        node.align := node.fields[0].ty.align;
        node.size := node.fields[0].ty.size;
        return Some(node.Finished(StructK));
      }
      if d.explicitAlign != 0 {
        if d.explicitAlign < node.align {
          Fail();
          return None;
        }
        node.align := d.explicitAlign;
      }
      r := Finish(node, StructK);
    }

    method ShortResultType(value: Ty, env: Env, depth: nat) returns (r: Option<Layout>)
      requires Valid() && depth <= MAX_DEPTH && !failed
      modifies this
      ensures Answers(r, LayoutSpec.ShortResult(c, value, env, depth))
      decreases MAX_DEPTH + 1 - depth, 3
    {
      hide LayoutSpec.Resolve, Place, Round;
      var node := NewNode();
      if node == null { return None; }
      var tag := Resolve(Prim(I64), env, depth);
      var child := Resolve(value, env, depth);
      if tag == None || child == None { return None; }
      ghost var items := [("tag", tag.value), ("value", child.value), ("error", tag.value), ("index", tag.value)];
      Unfold4(c.target, EMPTY, items);
      var ok := AppendField(node, "tag", tag, false);
      if !ok { return None; }
      ok := AppendField(node, "value", child, false);
      if !ok { return None; }
      ok := AppendField(node, "error", tag, false);
      if !ok { return None; }
      ok := AppendField(node, "index", tag, false);
      if !ok { return None; }
      r := Finish(node, StructK);
      if r.Some? { r := Some(r.value.(inhabited := true)); }
    }

    /** One payload, laid out like a tuple. */
    method Payload(types: seq<Option<Ty>>, env: Env, depth: nat) returns (r: Option<Layout>)
      requires Valid() && depth <= MAX_DEPTH + 1 && !failed
      modifies this
      ensures Answers(r, if |types| > MAX_FIELDS then None
                         else match ResolvePayload(c, types, env, depth, |types|)
                              case None => None
                              case Some(p) => Close(c.target, TupleK, p))
      decreases MAX_DEPTH + 1 - depth, 4
    {
      hide LayoutSpec.Resolve, Place, Round;
      var node := NewNode();
      if node == null { return None; }
      if |types| > MAX_FIELDS {
        Fail();
        return None;
      }
      var j := 0;
      while j < |types|
        invariant 0 <= j <= |types| && Valid() && !failed && fresh(node) && old(count) <= count
        invariant ResolvePayload(c, types, env, depth, j) == Some(node.State())
      {
        var child := Parse(types[j], env, depth);
        var ok := AppendField(node, IndexName(j), child, false);
        if !ok {
          PayloadStops(c, types, env, depth, j + 1, |types|);
          return None;
        }
        j := j + 1;
      }
      r := Finish(node, TupleK);
    }

    method EnumType(name: string, args: seq<Ty>, env: Env, depth: nat) returns (r: Option<Layout>)
      requires Valid() && depth <= MAX_DEPTH && !failed
      modifies this
      ensures Answers(r, LayoutSpec.Enumeration(c, name, args, env, depth))
      decreases MAX_DEPTH + 1 - depth, 1
    {
      hide LayoutSpec.Resolve, ResolvePayload, Close, Tagged, MaxSize, MaxAlign, SomeInhabited;
      var variants := VariantsOf(c, name, args);
      if variants == None || |variants.value| > MAX_FIELDS {
        Fail();
        return None;
      }
      var vs := variants.value;
      var node := NewNode();
      if node == null { return None; }
      var done: seq<Variant>, payloadSize: Size, payloadAlign: Size, inhabited := [], 0, 1, false;
      NoVariants();
      var i := 0;
      while i < |vs|
        invariant 0 <= i <= |vs| && Valid() && !failed && old(count) <= count
        invariant ResolveVariants(c, vs, env, depth + 1, i) == Some(done)
        invariant payloadSize == MaxSize(done) && payloadAlign == MaxAlign(done) && inhabited == SomeInhabited(done)
      {
        var payload := Payload(vs[i].types, env, depth + 1);
        if payload == None {
          VariantsStop(c, vs, env, depth + 1, i + 1, |vs|);
          return None;
        }
        var v := Variant(vs[i].name, i, payload.value);
        OneMoreVariant(done, v);
        done := done + [v];
        if payloadSize < v.payload.size { payloadSize := v.payload.size; }
        if payloadAlign < v.payload.align { payloadAlign := v.payload.align; }
        inhabited := inhabited || v.payload.inhabited;
        i := i + 1;
      }
      r := FinishEnum(done, payloadSize, payloadAlign, inhabited);
    }

    /** Tag first, then the payload union. */
    method FinishEnum(vs: seq<Variant>, payloadSize: Size, payloadAlign: Size, inhabited: bool) returns (r: Option<Layout>)
      requires Valid() && !failed
      requires payloadSize == MaxSize(vs) && payloadAlign == MaxAlign(vs) && inhabited == SomeInhabited(vs)
      modifies this`failed
      ensures Answers(r, Tagged(c.target, vs))
    {
      hide AlignUp, MaxSize, MaxAlign, SomeInhabited;
      if vs == [] { return Some(Layout(EnumK, 0, 1, false, [], None, 0, [], 0)); }
      var align := if payloadAlign > 8 then payloadAlign else 8;
      var offset := AlignTo(8, payloadAlign);
      if offset == None { return None; }
      AlignUpMeaning(c.target.maxObject, 8, payloadAlign);
      if payloadSize > c.target.maxObject - offset.value {
        Fail();
        return None;
      }
      var size := AlignTo(offset.value + payloadSize, align);
      if size == None { return None; }
      r := Some(Layout(EnumK, size.value, align, inhabited, [], None, 0, vs, offset.value));
    }
  }

  // ----- small facts about the specification -----

  lemma {:induction false} NoVariants()
    ensures MaxSize([]) == 0 && MaxAlign([]) == 1 && !SomeInhabited([])
  {
  }

  lemma {:induction false} OneMoreVariant(vs: seq<Variant>, v: Variant)
    ensures MaxSize(vs + [v]) == if MaxSize(vs) < v.payload.size then v.payload.size else MaxSize(vs)
    ensures MaxAlign(vs + [v]) == if MaxAlign(vs) < v.payload.align then v.payload.align else MaxAlign(vs)
    ensures SomeInhabited(vs + [v]) == (SomeInhabited(vs) || v.payload.inhabited)
  {
    var ws := vs + [v];
    assert ws[..|ws| - 1] == vs;
    assert forall i :: 0 <= i < |vs| ==> ws[i] == vs[i];
    assert ws[|vs|] == v;
    if SomeInhabited(vs) {
      var i :| 0 <= i < |vs| && vs[i].payload.inhabited;
      assert ws[i].payload.inhabited;
    }
    if SomeInhabited(ws) {
      var i :| 0 <= i < |ws| && ws[i].payload.inhabited;
      if i < |vs| { assert vs[i].payload.inhabited; }
    }
  }

  lemma {:induction false} Unfold4(t: Target, p: Placement, items: seq<(string, Layout)>)
    requires t.Valid() && |items| == 4
    ensures PlaceAll(t, p, items) ==
      match Place(t, p, items[0].0, items[0].1, false)
      case None => None
      case Some(a) =>
        match Place(t, a, items[1].0, items[1].1, false)
        case None => None
        case Some(b) =>
          match Place(t, b, items[2].0, items[2].1, false)
          case None => None
          case Some(d) => Place(t, d, items[3].0, items[3].1, false)
  {
    hide Place;
    assert items[1..][1..] == items[2..] && items[2..][1..] == items[3..] && items[3..][1..] == [];
    var a := Place(t, p, items[0].0, items[0].1, false);
    if a == None { return; }
    assert PlaceAll(t, p, items) == PlaceAll(t, a.value, items[1..]);
    var b := Place(t, a.value, items[1].0, items[1].1, false);
    if b == None { return; }
    assert PlaceAll(t, a.value, items[1..]) == PlaceAll(t, b.value, items[2..]);
    var d := Place(t, b.value, items[2].0, items[2].1, false);
    if d == None { return; }
    assert PlaceAll(t, b.value, items[2..]) == PlaceAll(t, d.value, items[3..]);
    var q := Place(t, d.value, items[3].0, items[3].1, false);
    assert items[3..][0] == items[3];
    if q.Some? { assert PlaceAll(t, d.value, items[3..]) == PlaceAll(t, q.value, []); }
  }

  lemma {:induction false} FieldsStop(c: Context, d: StructDef, env: Env, depth: nat, i: nat, n: nat)
    requires c.target.Valid() && depth <= MAX_DEPTH + 1 && i <= n <= |d.fields|
    ensures ResolveFields(c, d, env, depth, i) == None ==> ResolveFields(c, d, env, depth, n) == None
    decreases n
  {
    hide LayoutSpec.Resolve, Place;
    if i < n { FieldsStop(c, d, env, depth, i, n - 1); }
  }

  lemma {:induction false} PayloadStops(c: Context, types: seq<Option<Ty>>, env: Env, depth: nat, i: nat, n: nat)
    requires c.target.Valid() && depth <= MAX_DEPTH + 1 && i <= n <= |types|
    ensures ResolvePayload(c, types, env, depth, i) == None ==> ResolvePayload(c, types, env, depth, n) == None
    decreases n
  {
    hide LayoutSpec.Resolve, Place;
    if i < n { PayloadStops(c, types, env, depth, i, n - 1); }
  }

  lemma {:induction false} VariantsStop(c: Context, vs: seq<VariantDef>, env: Env, depth: nat, i: nat, n: nat)
    requires c.target.Valid() && depth <= MAX_DEPTH + 1 && i <= n <= |vs|
    ensures ResolveVariants(c, vs, env, depth, i) == None ==> ResolveVariants(c, vs, env, depth, n) == None
    decreases n
  {
    hide LayoutSpec.Resolve, Place;
    if i < n { VariantsStop(c, vs, env, depth, i, n - 1); }
  }

  /** Once a component fails, so does the whole list. */
  lemma {:induction false} TupleStops(c: Context, elems: seq<Ty>, env: Env, depth: nat, i: nat, n: nat)
    requires c.target.Valid() && depth <= MAX_DEPTH && i <= n <= |elems|
    ensures ResolveTuple(c, elems, env, depth, i) == None ==> ResolveTuple(c, elems, env, depth, n) == None
    decreases n
  {
    hide LayoutSpec.Resolve, Place;
    if i < n { TupleStops(c, elems, env, depth, i, n - 1); }
  }
}
