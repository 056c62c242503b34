/** Which layouts types have, in both directions: a type has a layout exactly when its parts have one and
    the object fits, and the layout is then the one described here (record, enumeration and resolve in
    src/analysis/layout.c). */
module LayoutExact {
  import opened Wrappers
  import opened Alignment
  import opened LayoutSpec
  import opened LayoutSound
  import Words
  import opened BitWords
  import N = NativeTypes

  // ----- descriptions -----

  /** The greatest of these numbers, or the least value allowed if that is greater. */
  ghost predicate Greatest(m: int, least: int, xs: seq<int>) {
    least <= m && (m == least || m in xs) && forall x :: x in xs ==> x <= m
  }

  lemma {:induction false} GreatestUnique(m: int, n: int, least: int, xs: seq<int>)
    requires Greatest(m, least, xs) && Greatest(n, least, xs)
    ensures m == n
  {
  }

  lemma {:induction false} GreatestSnoc(m: int, least: int, xs: seq<int>, x: int)
    requires Greatest(m, least, xs)
    ensures Greatest(if m < x then x else m, least, xs + [x])
  {
    forall y | y in xs + [x]
      ensures y <= if m < x then x else m
    {
    }
  }

  function Aligns(fs: seq<Field>): (xs: seq<int>)
    ensures |xs| == |fs|
  {
    seq(|fs|, i requires 0 <= i < |fs| => fs[i].ty.align)
  }

  predicate AllInhabited(fs: seq<Field>) { forall i :: 0 <= i < |fs| ==> fs[i].ty.inhabited }

  /** Fields at increasing offsets, each as early as its alignment allows (directly after the one before
      when packed); the natural alignment is that of the most demanding field. */
  ghost predicate Gathers(t: Target, p: Placement, packed: bool) {
    && InOrder(p.fields, packed) && p.size == End(p.fields, |p.fields|) <= t.maxObject
    && (if packed then p.align == 1 else Greatest(p.align, 1, Aligns(p.fields)))
    && (p.inhabited <==> AllInhabited(p.fields))
  }

  /** An aggregate that is no more than its fields, padded to its alignment. */
  ghost predicate Closed(t: Target, kind: Kind, p: Placement, align: Size, l: Layout) {
    && align > 0 && PowerTwoSize(align) && Up(p.size, align) <= t.maxObject
    && l == Layout(kind, Up(p.size, align), align, p.inhabited, p.fields, None, 0, [], 0)
  }

  ghost predicate PowerTwoSize(a: int) { exists k: nat :: k < 64 && a == Words.Pow2(k) }

  /** One field after the other, numbered, for these component types. */
  ghost predicate IsTuple(c: Context, types: seq<Option<Ty>>, env: Env, depth: nat, l: Layout)
    requires c.target.Valid() && depth <= MAX_DEPTH + 1
  {
    |types| <= MAX_FIELDS && Numbered(c, types, env, depth, l.fields) &&
    exists p: Placement :: p.fields == l.fields && Gathers(c.target, p, false) && Closed(c.target, TupleK, p, p.align, l)
  }

  /** How a record is finished, from the placement of its fields. */
  ghost predicate Finished(t: Target, d: StructDef, p: Placement, l: Layout) {
    if d.transparent then
      |p.fields| == 1 && p.fields[0].ty.size > 0
      && l == Layout(StructK, p.fields[0].ty.size, p.fields[0].ty.align, p.inhabited, p.fields, None, 0, [], 0)
    else if d.explicitAlign != 0 then p.align <= d.explicitAlign && Closed(t, StructK, p, d.explicitAlign, l)
    else Closed(t, StructK, p, p.align, l)
  }

  /** The declared fields, finished as the attributes of the declaration say. */
  ghost predicate IsRecord(c: Context, d: StructDef, env: Env, depth: nat, l: Layout)
    requires c.target.Valid() && depth <= MAX_DEPTH + 1
  {
    && |d.fields| <= MAX_FIELDS && !(d.packed && d.transparent)
    && |l.fields| == |d.fields| && Follows(c, d, env, depth, l.fields)
    && exists p: Placement :: p.fields == l.fields && Gathers(c.target, p, d.packed) && Finished(c.target, d, p, l)
  }

  function PayloadAligns(vs: seq<Variant>): (xs: seq<int>)
    ensures |xs| == |vs|
  {
    seq(|vs|, i requires 0 <= i < |vs| => vs[i].payload.align)
  }

  function PayloadSizes(vs: seq<Variant>): (xs: seq<int>)
    ensures |xs| == |vs|
  {
    seq(|vs|, i requires 0 <= i < |vs| => vs[i].payload.size)
  }

  /** These variants in order, tagged 0, 1, ..., their payloads laid out like tuples. */
  ghost predicate HasVariants(c: Context, vs: seq<VariantDef>, env: Env, depth: nat, done: seq<Variant>)
    requires c.target.Valid() && depth <= MAX_DEPTH + 1
  {
    |done| == |vs| && forall i :: 0 <= i < |done| ==>
      done[i].name == vs[i].name && done[i].tag == i && IsTuple(c, vs[i].types, env, depth, done[i].payload)
  }

  /** A 64-bit tag, then the payloads on top of each other at the first offset that suits them all. */
  ghost predicate IsUnion(t: Target, l: Layout, a: int, n: int) {
    && a > 0 && Greatest(a, 1, PayloadAligns(l.variants)) && Greatest(n, 0, PayloadSizes(l.variants))
    && Up(8, a) + n <= t.maxObject && Up(Up(8, a) + n, if a > 8 then a else 8) <= t.maxObject
    && l == Layout(EnumK, Up(Up(8, a) + n, if a > 8 then a else 8), if a > 8 then a else 8,
                   SomeInhabited(l.variants), [], None, 0, l.variants, Up(8, a))
  }

  ghost predicate IsEnum(c: Context, vs: seq<VariantDef>, env: Env, depth: nat, l: Layout)
    requires c.target.Valid() && depth <= MAX_DEPTH + 1
  {
    && |vs| <= MAX_FIELDS && HasVariants(c, vs, env, depth, l.variants)
    && if vs == [] then l == Layout(EnumK, 0, 1, false, [], None, 0, [], 0) else exists a, n :: IsUnion(c.target, l, a, n)
  }

  // ----- placing -----

  lemma {:induction false} GathersEmpty(t: Target, packed: bool)
    requires t.Valid()
    ensures Gathers(t, EMPTY, packed)
  {
  }

  /** A field can be placed exactly when it ends within the largest object. */
  lemma {:induction false} PlaceExactly(t: Target, p: Placement, name: string, child: Layout, packed: bool)
    requires t.Valid() && Gathers(t, p, packed) && Sound(t, child)
    ensures child.align > 0
    ensures Place(t, p, name, child, packed).Some? <==> Up(p.size, if packed then 1 else child.align) + child.size <= t.maxObject
    ensures Place(t, p, name, child, packed).Some? ==>
      var q := Place(t, p, name, child, packed).value;
      q.size <= t.maxObject && q.size >= child.size && q.fields == p.fields + [Field(name, q.size - child.size, child)] && q.size == Up(p.size, if packed then 1 else child.align) + child.size
      && q.align == (if !packed && p.align < child.align then child.align else p.align) && (q.inhabited <==> p.inhabited && child.inhabited)
  {
    hide PowerTwo, Up, Sound, AlignUp, Gathers;
    GathersFits(t, p, packed);
    SoundSized(t, child);
    SmallPowers();
    var a := if packed then 1 else child.align;
    AlignUpMeaning(t.maxObject, p.size, a);
    UpIsLeast(p.size, a);
  }

  lemma {:induction false} PlaceGathers(t: Target, p: Placement, name: string, child: Layout, packed: bool)
    requires t.Valid() && Gathers(t, p, packed) && Sound(t, child) && Place(t, p, name, child, packed).Some?
    ensures Gathers(t, Place(t, p, name, child, packed).value, packed)
  {
    hide Up, Sound, Place, Gathers;
    PlaceExactly(t, p, name, child, packed);
    SnocGathers(t, p, Place(t, p, name, child, packed).value, name, child, packed);
  }

  lemma {:induction false} SnocGathers(t: Target, p: Placement, q: Placement, name: string, child: Layout, packed: bool)
    requires Gathers(t, p, packed) && child.align > 0 && q.size <= t.maxObject && q.size >= child.size
    requires q.fields == p.fields + [Field(name, q.size - child.size, child)]
    requires q.size == Up(p.size, if packed then 1 else child.align) + child.size
    requires q.align == (if !packed && p.align < child.align then child.align else p.align)
    requires q.inhabited <==> p.inhabited && child.inhabited
    ensures Gathers(t, q, packed)
  {
    hide Up, InOrder, End, AllInhabited, Greatest;
    var f := Field(name, q.size - child.size, child);
    SnocOrder(p.fields, f, packed);
    InhabitedSnoc(p.fields, f);
    if !packed {
      GreatestSnoc(p.align, 1, Aligns(p.fields), child.align);
      assert Aligns(q.fields) == Aligns(p.fields) + [child.align];
    }
  }

  lemma {:induction false} InhabitedSnoc(fs: seq<Field>, f: Field)
    ensures AllInhabited(fs + [f]) <==> AllInhabited(fs) && f.ty.inhabited
  {
    var gs := fs + [f];
    if AllInhabited(gs) {
      assert gs[|fs|] == f;
      forall i | 0 <= i < |fs|
        ensures fs[i].ty.inhabited
      {
        assert gs[i] == fs[i];
      }
    }
  }

  /** With their order fixed, fields start and end where they must. */
  lemma {:induction false} EndGrows(fs: seq<Field>, packed: bool, i: nat)
    requires InOrder(fs, packed) && i < |fs|
    ensures Up(End(fs, i), if packed then 1 else fs[i].ty.align) + fs[i].ty.size <= End(fs, |fs|)
    decreases |fs| - i
  {
    hide Up, InOrder;
    FieldAt(fs, packed, i);
    if i + 1 < |fs| {
      EndGrows(fs, packed, i + 1);
      FieldAt(fs, packed, i + 1);
      UpIsLeast(End(fs, i + 1), if packed then 1 else fs[i + 1].ty.align);
    }
  }

  lemma {:induction false} FieldAt(fs: seq<Field>, packed: bool, i: nat)
    requires InOrder(fs, packed) && i < |fs|
    ensures fs[i].ty.align > 0 && fs[i].offset == Up(End(fs, i), if packed then 1 else fs[i].ty.align)
  {
    hide Up;
  }

  lemma {:induction false} EndPrefix(fs: seq<Field>, n: nat)
    requires n <= |fs|
    ensures End(fs[..n], n) == End(fs, n)
  {
  }

  /** One more field of a list that fits goes where the list has it. */
  lemma {:induction false} NextField(t: Target, fs: seq<Field>, packed: bool, i: nat, p: Placement)
    requires t.Valid() && i < |fs| && InOrder(fs, packed) && End(fs, |fs|) <= t.maxObject && Sound(t, fs[i].ty)
    requires p.fields == fs[..i] && Gathers(t, p, packed)
    ensures var q := Place(t, p, fs[i].name, fs[i].ty, packed);
      q.Some? && q.value.fields == fs[..i + 1] && Gathers(t, q.value, packed)
  {
    hide Up, Sound, InOrder, End, AllInhabited, Greatest, Place;
    EndGrows(fs, packed, i);
    EndPrefix(fs, i);
    FieldAt(fs, packed, i);
    PlaceExactly(t, p, fs[i].name, fs[i].ty, packed);
    PlaceGathers(t, p, fs[i].name, fs[i].ty, packed);
    assert fs[..i + 1] == fs[..i] + [Field(fs[i].name, fs[i].offset, fs[i].ty)];
  }

  // ----- tuples and payloads -----

  lemma {:induction false} TupleGathers(c: Context, elems: seq<Ty>, env: Env, depth: nat, n: nat)
    requires c.target.Valid() && depth <= MAX_DEPTH && n <= |elems| && ResolveTuple(c, elems, env, depth, n).Some?
    ensures Gathers(c.target, ResolveTuple(c, elems, env, depth, n).value, false)
    decreases n
  {
    hide Gathers, Place, Resolve;
    GathersEmpty(c.target, false);
    if n > 0 {
      TupleGathers(c, elems, env, depth, n - 1);
      ResolveSound(c, elems[n - 1], env, depth);
      PlaceGathers(c.target, ResolveTuple(c, elems, env, depth, n - 1).value, IndexName(n - 1), Resolve(c, elems[n - 1], env, depth).value, false);
    }
  }

  lemma {:induction false} TupleFound(c: Context, elems: seq<Ty>, env: Env, depth: nat, n: nat, fs: seq<Field>)
    requires c.target.Valid() && depth <= MAX_DEPTH && n <= |elems| && Numbered(c, Wrapped(elems), env, depth, fs)
    requires InOrder(fs, false) && End(fs, |fs|) <= c.target.maxObject
    ensures var r := ResolveTuple(c, elems, env, depth, n);
      r.Some? && r.value.fields == fs[..n] && Gathers(c.target, r.value, false)
    decreases n
  {
    hide Gathers, Place, Resolve, InOrder, End;
    GathersEmpty(c.target, false);
    if n > 0 {
      TupleFound(c, elems, env, depth, n - 1, fs);
      ResolveSound(c, elems[n - 1], env, depth);
      NextField(c.target, fs, false, n - 1, ResolveTuple(c, elems, env, depth, n - 1).value);
    }
  }

  lemma {:induction false} PayloadGathers(c: Context, types: seq<Option<Ty>>, env: Env, depth: nat, n: nat)
    requires c.target.Valid() && depth <= MAX_DEPTH + 1 && n <= |types| && ResolvePayload(c, types, env, depth, n).Some?
    ensures Gathers(c.target, ResolvePayload(c, types, env, depth, n).value, false)
    decreases n
  {
    hide Gathers, Place, Resolve;
    GathersEmpty(c.target, false);
    if n > 0 {
      PayloadGathers(c, types, env, depth, n - 1);
      ResolveSound(c, types[n - 1].value, env, depth);
      PlaceGathers(c.target, ResolvePayload(c, types, env, depth, n - 1).value, IndexName(n - 1), Resolve(c, types[n - 1].value, env, depth).value, false);
    }
  }

  lemma {:induction false} PayloadFound(c: Context, types: seq<Option<Ty>>, env: Env, depth: nat, n: nat, fs: seq<Field>)
    requires c.target.Valid() && depth <= MAX_DEPTH + 1 && n <= |types| && Numbered(c, types, env, depth, fs)
    requires InOrder(fs, false) && End(fs, |fs|) <= c.target.maxObject
    ensures var r := ResolvePayload(c, types, env, depth, n);
      r.Some? && r.value.fields == fs[..n] && Gathers(c.target, r.value, false)
    decreases n
  {
    hide Gathers, Place, Resolve, InOrder, End;
    GathersEmpty(c.target, false);
    if n > 0 {
      PayloadFound(c, types, env, depth, n - 1, fs);
      ResolveSound(c, types[n - 1].value, env, depth);
      NextField(c.target, fs, false, n - 1, ResolvePayload(c, types, env, depth, n - 1).value);
    }
  }

  lemma {:induction false} GathersUnique(t: Target, p: Placement, q: Placement, packed: bool)
    requires Gathers(t, p, packed) && Gathers(t, q, packed) && p.fields == q.fields
    ensures p == q
  {
    hide InOrder, End, AllInhabited;
    if !packed { GreatestUnique(p.align, q.align, 1, Aligns(p.fields)); }
  }

  lemma {:induction false} CloseExactly(t: Target, kind: Kind, p: Placement, l: Layout)
    requires t.Valid() && p.size <= t.maxObject
    ensures Close(t, kind, p) == Some(l) <==> Closed(t, kind, p, p.align, l)
  {
    hide PowerTwo, Up, AlignUp, PowerTwoSize;
    AlignUpMeaning(t.maxObject, p.size, p.align);
    PowerIs(p.align);
  }

  lemma {:induction false} PowerIs(a: Size)
    ensures PowerTwo(a) <==> a > 0 && PowerTwoSize(a)
  {
    PowerTwoMeaning(a);
    if PowerTwoSize(a) {
      var k: nat :| k < 64 && a == Words.Pow2(k);
      assert exists j: nat :: j < 64 && a == Words.Pow2(j);
      assert PowerTwo(a);
    }
    assert PowerTwo(a) ==> a > 0;
    assert PowerTwo(a) ==> PowerTwoSize(a);
  }

  lemma {:induction false} TupleExactly(c: Context, elems: seq<Ty>, env: Env, depth: nat, l: Layout)
    requires c.target.Valid() && depth < MAX_DEPTH
    ensures Resolve(c, Tuple(elems), env, depth) == Some(l) <==> IsTuple(c, Wrapped(elems), env, depth + 1, l)
  {
    hide Gathers, Closed, Numbered, ResolveTuple, Close, InOrder, End;
    var n, types := |elems|, Wrapped(elems);
    assert elems[..n] == elems;
    var r := ResolveTuple(c, elems, env, depth + 1, n);
    if Resolve(c, Tuple(elems), env, depth) == Some(l) {
      ComponentsFollow(c, elems, env, depth + 1, n);
      TupleGathers(c, elems, env, depth + 1, n);
      GathersFits(c.target, r.value, false);
      CloseExactly(c.target, TupleK, r.value, l);
      ClosedFields(c.target, TupleK, r.value, r.value.align, l);
    }
    if IsTuple(c, types, env, depth + 1, l) {
      var p: Placement :| p.fields == l.fields && Gathers(c.target, p, false) && Closed(c.target, TupleK, p, p.align, l);
      GathersFits(c.target, p, false);
      NumberedLength(c, types, env, depth + 1, l.fields);
      TupleFound(c, elems, env, depth + 1, n, l.fields);
      assert l.fields[..n] == l.fields;
      GathersUnique(c.target, p, r.value, false);
      CloseExactly(c.target, TupleK, p, l);
    }
  }

  lemma {:induction false} GathersFits(t: Target, p: Placement, packed: bool)
    requires Gathers(t, p, packed)
    ensures p.size <= t.maxObject && InOrder(p.fields, packed) && End(p.fields, |p.fields|) <= t.maxObject && p.align > 0
  {
    hide InOrder, End;
  }

  lemma {:induction false} ClosedFields(t: Target, kind: Kind, p: Placement, align: Size, l: Layout)
    requires Closed(t, kind, p, align, l)
    ensures l.fields == p.fields && l.kind == kind
  {
    hide Up;
  }

  lemma {:induction false} NumberedLength(c: Context, types: seq<Option<Ty>>, env: Env, depth: nat, fs: seq<Field>)
    requires c.target.Valid() && depth <= MAX_DEPTH + 1 && Numbered(c, types, env, depth, fs)
    ensures |fs| == |types|
  {
    hide Resolve;
  }

  // ----- records -----

  lemma {:induction false} FieldsGather(c: Context, d: StructDef, env: Env, depth: nat, n: nat)
    requires c.target.Valid() && depth <= MAX_DEPTH + 1 && n <= |d.fields| && ResolveFields(c, d, env, depth, n).Some?
    ensures Gathers(c.target, ResolveFields(c, d, env, depth, n).value, d.packed)
    decreases n
  {
    hide Gathers, Place, Resolve, Sound, ResolveFields;
    GathersEmpty(c.target, d.packed);
    FieldsUnfold(c, d, env, depth, n);
    if n > 0 {
      FieldsGather(c, d, env, depth, n - 1);
      var f := d.fields[n - 1];
      ResolveSound(c, f.ty.value, env, depth);
      PlaceGathers(c.target, ResolveFields(c, d, env, depth, n - 1).value, f.name, Resolve(c, f.ty.value, env, depth).value, d.packed);
    }
  }

  lemma {:induction false} FieldsUnfold(c: Context, d: StructDef, env: Env, depth: nat, n: nat)
    requires c.target.Valid() && depth <= MAX_DEPTH + 1 && n <= |d.fields| && ResolveFields(c, d, env, depth, n).Some?
    ensures n == 0 ==> ResolveFields(c, d, env, depth, n) == Some(EMPTY)
    ensures n > 0 ==>
      var f, p := d.fields[n - 1], ResolveFields(c, d, env, depth, n - 1);
      p.Some? && f.ty.Some? && Resolve(c, f.ty.value, env, depth).Some? &&
      ResolveFields(c, d, env, depth, n) == Place(c.target, p.value, f.name, Resolve(c, f.ty.value, env, depth).value, d.packed)
  {
    hide Place, Resolve;
  }

  lemma {:induction false} FieldsFound(c: Context, d: StructDef, env: Env, depth: nat, n: nat, fs: seq<Field>)
    requires c.target.Valid() && depth <= MAX_DEPTH + 1 && n <= |d.fields| == |fs| && Follows(c, d, env, depth, fs)
    requires InOrder(fs, d.packed) && End(fs, |fs|) <= c.target.maxObject
    ensures var r := ResolveFields(c, d, env, depth, n);
      r.Some? && r.value.fields == fs[..n] && Gathers(c.target, r.value, d.packed)
    decreases n
  {
    hide Gathers, Place, Resolve, InOrder, End, Sound, ResolveFields;
    GathersEmpty(c.target, d.packed);
    FieldsFolded(c, d, env, depth, n);
    if n > 0 {
      FieldsFound(c, d, env, depth, n - 1, fs);
      ResolveSound(c, d.fields[n - 1].ty.value, env, depth);
      NextField(c.target, fs, d.packed, n - 1, ResolveFields(c, d, env, depth, n - 1).value);
    }
  }

  lemma {:induction false} FieldsFolded(c: Context, d: StructDef, env: Env, depth: nat, n: nat)
    requires c.target.Valid() && depth <= MAX_DEPTH + 1 && n <= |d.fields|
    ensures n == 0 ==> ResolveFields(c, d, env, depth, n) == Some(EMPTY)
    ensures n > 0 ==>
      var f, p := d.fields[n - 1], ResolveFields(c, d, env, depth, n - 1);
      p.Some? && f.ty.Some? && Resolve(c, f.ty.value, env, depth).Some? ==>
        ResolveFields(c, d, env, depth, n) == Place(c.target, p.value, f.name, Resolve(c, f.ty.value, env, depth).value, d.packed)
  {
    hide Place, Resolve;
  }

  lemma {:induction false} CloseRecordExactly(t: Target, d: StructDef, p: Placement, l: Layout)
    requires t.Valid() && p.size <= t.maxObject
    ensures CloseRecord(t, d, p) == Some(l) <==> Finished(t, d, p, l)
    ensures Finished(t, d, p, l) ==> l.fields == p.fields && l.kind.StructK?
  {
    hide Closed, Close;
    CloseExactly(t, StructK, p, l);
    CloseExactly(t, StructK, p.(align := d.explicitAlign), l);
    if Closed(t, StructK, p, p.align, l) { ClosedFields(t, StructK, p, p.align, l); }
    var q := p.(align := d.explicitAlign);
    SameClosed(t, StructK, p, q, l);
  }

  lemma {:induction false} SameClosed(t: Target, kind: Kind, p: Placement, q: Placement, l: Layout)
    requires q == p.(align := q.align)
    ensures Closed(t, kind, q, q.align, l) <==> Closed(t, kind, p, q.align, l)
    ensures Closed(t, kind, p, q.align, l) ==> l.fields == p.fields && l.kind == kind
  {
    hide Up;
  }

  /** The record declared under this name, its parameters bound to the arguments. */
  ghost predicate IsDeclared(c: Context, name: string, args: seq<Ty>, env: Env, depth: nat, l: Layout)
    requires c.target.Valid() && depth <= MAX_DEPTH + 1
  {
    name in c.decls.structs && |args| == |c.decls.structs[name].params| &&
    IsRecord(c, c.decls.structs[name], if |args| > 0 then [Binding(c.decls.structs[name].params, args)] + env else env, depth, l)
  }

  /** A record has this layout exactly when it has the declared fields and attributes, and fits. */
  lemma {:induction false} StructExactly(c: Context, name: string, args: seq<Ty>, env: Env, depth: nat, l: Layout)
    requires c.target.Valid() && depth < MAX_DEPTH && name != "Option" && name != "Result"
    ensures Resolve(c, Generic(name, args), env, depth) == Some(l) <==> IsDeclared(c, name, args, env, depth + 2, l)
    ensures Plainly(c, name, env) && name !in c.decls.enums ==>
      (Resolve(c, Named(name), env, depth) == Some(l) <==> IsDeclared(c, name, [], env, depth + 2, l))
  {
    hide IsDeclared, Record, Enumeration, Lookup;
    RecordExactly(c, name, args, env, depth + 1, l);
    RecordExactly(c, name, [], env, depth + 1, l);
  }

  /** A name the bindings and the aliases leave alone. */
  ghost predicate Plainly(c: Context, name: string, env: Env) { Lookup(env, name) == None && name !in c.decls.aliases }

  lemma {:induction false} RecordExactly(c: Context, name: string, args: seq<Ty>, env: Env, depth: nat, l: Layout)
    requires c.target.Valid() && depth <= MAX_DEPTH
    ensures Record(c, name, args, env, depth) == Some(l) <==> IsDeclared(c, name, args, env, depth + 1, l)
  {
    hide Gathers, Finished, Follows, ResolveFields, CloseRecord, InOrder, End;
    if name in c.decls.structs && |args| == |c.decls.structs[name].params| {
      var d := c.decls.structs[name];
      var inner := if |args| > 0 then [Binding(d.params, args)] + env else env;
      var r := ResolveFields(c, d, inner, depth + 1, |d.fields|);
      if Record(c, name, args, env, depth) == Some(l) {
        FieldsFollow(c, d, inner, depth + 1, |d.fields|);
        FieldsGather(c, d, inner, depth + 1, |d.fields|);
        GathersFits(c.target, r.value, d.packed);
        CloseRecordExactly(c.target, d, r.value, l);
      }
      if IsRecord(c, d, inner, depth + 1, l) {
        var p: Placement :| p.fields == l.fields && Gathers(c.target, p, d.packed) && Finished(c.target, d, p, l);
        GathersFits(c.target, p, d.packed);
        FieldsFound(c, d, inner, depth + 1, |d.fields|, l.fields);
        assert l.fields[..|d.fields|] == l.fields;
        GathersUnique(c.target, p, r.value, d.packed);
        CloseRecordExactly(c.target, d, p, l);
      }
    }
  }

  // ----- enums -----

  /** Payloads are laid out like tuples, for any component types. */
  lemma {:induction false} PayloadExactly(c: Context, types: seq<Option<Ty>>, env: Env, depth: nat, l: Layout)
    requires c.target.Valid() && depth <= MAX_DEPTH + 1
    ensures IsTuple(c, types, env, depth, l) <==>
      |types| <= MAX_FIELDS && ResolvePayload(c, types, env, depth, |types|).Some? &&
      Close(c.target, TupleK, ResolvePayload(c, types, env, depth, |types|).value) == Some(l)
  {
    hide Gathers, Closed, Numbered, ResolvePayload, Close, InOrder, End;
    var n := |types|;
    assert types[..n] == types;
    var r := ResolvePayload(c, types, env, depth, n);
    if |types| <= MAX_FIELDS && r.Some? && Close(c.target, TupleK, r.value) == Some(l) {
      PayloadFollows(c, types, env, depth, n);
      PayloadGathers(c, types, env, depth, n);
      GathersFits(c.target, r.value, false);
      CloseExactly(c.target, TupleK, r.value, l);
      ClosedFields(c.target, TupleK, r.value, r.value.align, l);
    }
    if IsTuple(c, types, env, depth, l) {
      var p: Placement :| p.fields == l.fields && Gathers(c.target, p, false) && Closed(c.target, TupleK, p, p.align, l);
      GathersFits(c.target, p, false);
      NumberedLength(c, types, env, depth, l.fields);
      PayloadFound(c, types, env, depth, n, l.fields);
      assert l.fields[..n] == l.fields;
      GathersUnique(c.target, p, r.value, false);
      CloseExactly(c.target, TupleK, p, l);
    }
  }

  lemma {:induction false} VariantsExactly(c: Context, vs: seq<VariantDef>, env: Env, depth: nat, n: nat, done: seq<Variant>)
    requires c.target.Valid() && depth <= MAX_DEPTH + 1 && n <= |vs|
    ensures ResolveVariants(c, vs, env, depth, n) == Some(done) <==> HasVariants(c, vs[..n], env, depth, done)
    decreases n
  {
    hide IsTuple, ResolvePayload, Close, HasVariants, VariantsFollow;
    NoVariant(c, vs, env, depth, done);
    if n == 0 { return; }
    var before, v := ResolveVariants(c, vs, env, depth, n - 1), vs[n - 1];
    if ResolveVariants(c, vs, env, depth, n) == Some(done) {
      VariantsFollowed(c, vs, env, depth, n - 1);
      VariantsExactly(c, vs, env, depth, n - 1, before.value);
      var payload := Close(c.target, TupleK, ResolvePayload(c, v.types, env, depth, |v.types|).value).value;
      PayloadExactly(c, v.types, env, depth, payload);
      assert done == before.value + [Variant(v.name, n - 1, payload)];
      assert done[..n - 1] == before.value;
      MoreVariants(c, vs, env, depth, n, done);
    }
    if HasVariants(c, vs[..n], env, depth, done) {
      FrontVariants(c, vs, env, depth, n, done);
      VariantsExactly(c, vs, env, depth, n - 1, done[..n - 1]);
      PayloadExactly(c, v.types, env, depth, done[n - 1].payload);
      PayloadLimit(c, v.types, env, depth, done[n - 1].payload);
      assert done == done[..n - 1] + [Variant(v.name, n - 1, done[n - 1].payload)];
    }
  }

  lemma {:induction false} PayloadLimit(c: Context, types: seq<Option<Ty>>, env: Env, depth: nat, l: Layout)
    requires c.target.Valid() && depth <= MAX_DEPTH + 1 && IsTuple(c, types, env, depth, l)
    ensures |types| <= MAX_FIELDS
  {
    hide Gathers, Closed, Numbered;
  }

  lemma {:induction false} NoVariant(c: Context, vs: seq<VariantDef>, env: Env, depth: nat, done: seq<Variant>)
    requires c.target.Valid() && depth <= MAX_DEPTH + 1
    ensures HasVariants(c, vs[..0], env, depth, done) <==> done == []
  {
    hide IsTuple;
  }

  lemma {:induction false} FrontVariants(c: Context, vs: seq<VariantDef>, env: Env, depth: nat, n: nat, done: seq<Variant>)
    requires c.target.Valid() && depth <= MAX_DEPTH + 1 && 0 < n <= |vs| && HasVariants(c, vs[..n], env, depth, done)
    ensures |done| == n && HasVariants(c, vs[..n - 1], env, depth, done[..n - 1])
    ensures done[n - 1].name == vs[n - 1].name && done[n - 1].tag == n - 1 && IsTuple(c, vs[n - 1].types, env, depth, done[n - 1].payload)
  {
    hide IsTuple;
    assert vs[..n][n - 1] == vs[n - 1];
  }

  lemma {:induction false} MoreVariants(c: Context, vs: seq<VariantDef>, env: Env, depth: nat, n: nat, done: seq<Variant>)
    requires c.target.Valid() && depth <= MAX_DEPTH + 1 && 0 < n <= |vs| && |done| == n && HasVariants(c, vs[..n - 1], env, depth, done[..n - 1])
    requires done[n - 1].name == vs[n - 1].name && done[n - 1].tag == n - 1 && IsTuple(c, vs[n - 1].types, env, depth, done[n - 1].payload)
    ensures HasVariants(c, vs[..n], env, depth, done)
  {
    hide IsTuple;
    forall i | 0 <= i < n
      ensures done[i].name == vs[..n][i].name && done[i].tag == i && IsTuple(c, vs[..n][i].types, env, depth, done[i].payload)
    {
      if i < n - 1 { assert done[i] == done[..n - 1][i] && vs[..n - 1][i] == vs[..n][i]; }
    }
  }

  lemma {:induction false} MaxAlignGreatest(vs: seq<Variant>)
    ensures Greatest(MaxAlign(vs), 1, PayloadAligns(vs))
  {
    if vs != [] {
      var front := vs[..|vs| - 1];
      MaxAlignGreatest(front);
      GreatestSnoc(MaxAlign(front), 1, PayloadAligns(front), vs[|vs| - 1].payload.align);
      assert PayloadAligns(vs) == PayloadAligns(front) + [vs[|vs| - 1].payload.align];
    }
  }

  lemma {:induction false} MaxSizeGreatest(vs: seq<Variant>)
    ensures Greatest(MaxSize(vs), 0, PayloadSizes(vs))
  {
    if vs != [] {
      var front := vs[..|vs| - 1];
      MaxSizeGreatest(front);
      GreatestSnoc(MaxSize(front), 0, PayloadSizes(front), vs[|vs| - 1].payload.size);
      assert PayloadSizes(vs) == PayloadSizes(front) + [vs[|vs| - 1].payload.size];
    }
  }

  lemma {:induction false} TaggedExactly(t: Target, vs: seq<Variant>, l: Layout)
    requires t.Valid() && Payloads(t, vs)
    ensures Tagged(t, vs) == Some(l) <==>
      l.variants == vs && if vs == [] then l == Layout(EnumK, 0, 1, false, [], None, 0, [], 0) else exists a, n :: IsUnion(t, l, a, n)
  {
    hide Tagged, IsUnion, Payloads, MaxAlign, MaxSize;
    if vs == [] {
      TaggedEmpty(t);
      return;
    }
    var a, n := MaxAlign(vs), MaxSize(vs);
    MaxAlignPower(t, vs);
    MaxAlignGreatest(vs);
    MaxSizeGreatest(vs);
    TaggedForm(t, vs, l);
    forall b, m | l.variants == vs && IsUnion(t, l, b, m)
      ensures b == a && m == n
    {
      UnionGreatest(t, l, b, m);
      GreatestUnique(a, b, 1, PayloadAligns(vs));
      GreatestUnique(n, m, 0, PayloadSizes(vs));
    }
  }

  lemma {:induction false} TaggedEmpty(t: Target)
    requires t.Valid()
    ensures Tagged(t, []) == Some(Layout(EnumK, 0, 1, false, [], None, 0, [], 0))
  {
  }

  lemma {:induction false} UnionGreatest(t: Target, l: Layout, a: int, n: int)
    requires IsUnion(t, l, a, n)
    ensures Greatest(a, 1, PayloadAligns(l.variants)) && Greatest(n, 0, PayloadSizes(l.variants))
  {
    hide Up, Greatest, SomeInhabited;
  }

  lemma {:induction false} TaggedForm(t: Target, vs: seq<Variant>, l: Layout)
    requires t.Valid() && vs != [] && PowerTwo(MaxAlign(vs)) && MaxAlign(vs) > 0
    requires Greatest(MaxAlign(vs), 1, PayloadAligns(vs)) && Greatest(MaxSize(vs), 0, PayloadSizes(vs))
    ensures Tagged(t, vs) == Some(l) <==> l.variants == vs && IsUnion(t, l, MaxAlign(vs), MaxSize(vs))
  {
    hide PowerTwo, Up, AlignUp, MaxAlign, MaxSize, SomeInhabited, Greatest;
    var a, n := MaxAlign(vs), MaxSize(vs);
    var b := if a > 8 then a else 8;
    SmallPowers();
    AlignUpMeaning(t.maxObject, 8, a);
    UpIsLeast(8, a);
    if Up(8, a) + n <= t.maxObject {
      AlignUpMeaning(t.maxObject, Up(8, a) + n, b);
    }
  }

  /** An enum has this layout exactly when it has these variants, and fits. */
  lemma {:induction false} EnumExactly(c: Context, name: string, args: seq<Ty>, env: Env, depth: nat, vs: seq<VariantDef>, l: Layout)
    requires c.target.Valid() && depth <= MAX_DEPTH && VariantsOf(c, name, args) == Some(vs)
    ensures Enumeration(c, name, args, env, depth) == Some(l) <==> IsEnum(c, vs, env, depth + 1, l)
  {
    hide VariantsOf, ResolveVariants, Tagged, IsUnion, HasVariants, Payloads;
    var r := ResolveVariants(c, vs, env, depth + 1, |vs|);
    assert vs[..|vs|] == vs;
    VariantsLength(c, vs, env, depth + 1, l.variants);
    if r.Some? {
      VariantsExactly(c, vs, env, depth + 1, |vs|, r.value);
      VariantsLength(c, vs, env, depth + 1, r.value);
      VariantsSound(c, vs, env, depth + 1, |vs|);
      TaggedExactly(c.target, r.value, l);
    }
    VariantsExactly(c, vs, env, depth + 1, |vs|, l.variants);
  }

  lemma {:induction false} VariantsLength(c: Context, vs: seq<VariantDef>, env: Env, depth: nat, done: seq<Variant>)
    requires c.target.Valid() && depth <= MAX_DEPTH + 1
    ensures HasVariants(c, vs, env, depth, done) ==> |done| == |vs|
  {
    hide IsTuple;
  }

  /** A declared enum has exactly its declared variants. */
  lemma {:induction false} DeclaredEnumExactly(c: Context, name: string, env: Env, depth: nat, l: Layout)
    requires c.target.Valid() && depth < MAX_DEPTH && Plainly(c, name, env) && name in c.decls.enums
    ensures Resolve(c, Named(name), env, depth) == Some(l) <==> IsEnum(c, c.decls.enums[name].variants, env, depth + 2, l)
  {
    hide IsEnum, Enumeration, Lookup;
    EnumExactly(c, name, [], env, depth + 1, c.decls.enums[name].variants, l);
  }

  /** Unless the program declares Option itself, Option<t> is None without a payload, then Some with a t. */
  lemma {:induction false} OptionExactly(c: Context, t: Ty, env: Env, depth: nat, l: Layout)
    requires c.target.Valid() && depth < MAX_DEPTH && "Option" !in c.decls.enums
    ensures Resolve(c, Generic("Option", [t]), env, depth) == Some(l) <==>
      IsEnum(c, [VariantDef("None", []), VariantDef("Some", [Some(t)])], env, depth + 2, l)
  {
    hide IsEnum, Enumeration, ResolveVariants;
    EnumExactly(c, "Option", [t], env, depth + 1, [VariantDef("None", []), VariantDef("Some", [Some(t)])], l);
  }

  /** Unless the program declares Result itself, Result<t, e> is Ok with a t, then Err with an e. */
  lemma {:induction false} ResultExactly(c: Context, t: Ty, e: Ty, env: Env, depth: nat, l: Layout)
    requires c.target.Valid() && depth < MAX_DEPTH && "Result" !in c.decls.enums && e != Prim(I64)
    ensures Resolve(c, Generic("Result", [t, e]), env, depth) == Some(l) <==>
      IsEnum(c, [VariantDef("Ok", [Some(t)]), VariantDef("Err", [Some(e)])], env, depth + 2, l)
  {
    hide IsEnum, Enumeration, ShortResult;
    EnumExactly(c, "Result", [t, e], env, depth + 1, [VariantDef("Ok", [Some(t)]), VariantDef("Err", [Some(e)])], l);
  }

  /** Without arguments, i64 stands in for them. */
  lemma {:induction false} BareExactly(c: Context, name: string, env: Env, depth: nat, l: Layout)
    requires c.target.Valid() && depth < MAX_DEPTH && Plainly(c, name, env) && name !in c.decls.enums && (name == "Option" || name == "Result")
    ensures Resolve(c, Named(name), env, depth) == Some(l) <==>
      IsEnum(c, if name == "Option" then [VariantDef("None", []), VariantDef("Some", [Some(Prim(I64))])]
                else [VariantDef("Ok", [Some(Prim(I64))]), VariantDef("Err", [Some(Prim(I64))])], env, depth + 2, l)
    ensures Resolve(c, Generic(name, []), env, depth) == Resolve(c, Named(name), env, depth)
  {
    hide IsEnum, Enumeration, Lookup;
    EnumExactly(c, name, [], env, depth + 1, if name == "Option" then [VariantDef("None", []), VariantDef("Some", [Some(Prim(I64))])]
                else [VariantDef("Ok", [Some(Prim(I64))]), VariantDef("Err", [Some(Prim(I64))])], l);
  }

  /** Any other number of arguments is refused, and so are arguments of an Option or Result the program declares. */
  lemma {:induction false} ArgumentCount(c: Context, name: string, args: seq<Ty>, env: Env, depth: nat)
    requires c.target.Valid() && depth <= MAX_DEPTH && (name == "Option" || name == "Result") && args != []
    requires name in c.decls.enums || |args| != if name == "Option" then 1 else 2
    requires name == "Result" && |args| == 2 ==> args[1] != Prim(I64)
    ensures Resolve(c, Generic(name, args), env, depth) == None
  {
    hide ResolveVariants;
  }

  /** What the payloads of a laid-out Result are. */
  lemma {:induction false} ResultPayloads(c: Context, t: Ty, e: Ty, env: Env, depth: nat)
    requires c.target.Valid() && depth < MAX_DEPTH && "Result" !in c.decls.enums && e != Prim(I64)
    requires Resolve(c, Generic("Result", [t, e]), env, depth).Some?
    ensures var vs := Resolve(c, Generic("Result", [t, e]), env, depth).value.variants;
      && |vs| == 2 && vs[0].name == "Ok" && vs[1].name == "Err" && vs[0].tag == 0 && vs[1].tag == 1
      && |vs[0].payload.fields| == |vs[1].payload.fields| == 1
      && Resolve(c, t, env, depth + 2) == Some(vs[0].payload.fields[0].ty)
      && Resolve(c, e, env, depth + 2) == Some(vs[1].payload.fields[0].ty)
  {
    hide Resolve, Numbered, IsEnum;
    var l := Resolve(c, Generic("Result", [t, e]), env, depth).value;
    ResultExactly(c, t, e, env, depth, l);
    TwoVariants(c, [VariantDef("Ok", [Some(t)]), VariantDef("Err", [Some(e)])], env, depth + 2, l);
    OneComponent(c, t, env, depth + 2, l.variants[0].payload.fields);
    OneComponent(c, e, env, depth + 2, l.variants[1].payload.fields);
  }

  lemma {:induction false} OptionPayloads(c: Context, t: Ty, env: Env, depth: nat)
    requires c.target.Valid() && depth < MAX_DEPTH && "Option" !in c.decls.enums
    requires Resolve(c, Generic("Option", [t]), env, depth).Some?
    ensures var vs := Resolve(c, Generic("Option", [t]), env, depth).value.variants;
      && |vs| == 2 && vs[0].name == "None" && vs[1].name == "Some" && vs[0].tag == 0 && vs[1].tag == 1
      && vs[0].payload.fields == [] && |vs[1].payload.fields| == 1
      && Resolve(c, t, env, depth + 2) == Some(vs[1].payload.fields[0].ty)
  {
    hide Resolve, Numbered, IsEnum;
    var l := Resolve(c, Generic("Option", [t]), env, depth).value;
    OptionExactly(c, t, env, depth, l);
    TwoVariants(c, [VariantDef("None", []), VariantDef("Some", [Some(t)])], env, depth + 2, l);
    NumberedLength(c, [], env, depth + 2, l.variants[0].payload.fields);
    OneComponent(c, t, env, depth + 2, l.variants[1].payload.fields);
  }

  lemma {:induction false} OneComponent(c: Context, t: Ty, env: Env, depth: nat, fs: seq<Field>)
    requires c.target.Valid() && depth <= MAX_DEPTH + 1 && Numbered(c, [Some(t)], env, depth, fs)
    ensures |fs| == 1 && Resolve(c, t, env, depth) == Some(fs[0].ty)
  {
    hide Resolve;
  }

  lemma {:induction false} TwoVariants(c: Context, vs: seq<VariantDef>, env: Env, depth: nat, l: Layout)
    requires c.target.Valid() && depth <= MAX_DEPTH + 1 && IsEnum(c, vs, env, depth, l) && |vs| == 2
    ensures |l.variants| == 2 && forall i :: 0 <= i < 2 ==>
      l.variants[i].name == vs[i].name && l.variants[i].tag == i && Numbered(c, vs[i].types, env, depth, l.variants[i].payload.fields)
  {
    hide Numbered, Gathers, Closed, IsUnion;
  }

  // ----- Result with an i64 error, arrays, scalars -----

  lemma {:induction false} PlaceAllGathers(t: Target, p: Placement, items: seq<(string, Layout)>)
    requires t.Valid() && Gathers(t, p, false) && PlaceAll(t, p, items).Some?
    requires forall i :: 0 <= i < |items| ==> Sound(t, items[i].1)
    ensures var q := PlaceAll(t, p, items).value;
      Gathers(t, q, false) && Carries(q.fields, p.fields, items)
    decreases |items|
  {
    hide Gathers, Sound, Place;
    if items != [] {
      var (name, child) := items[0];
      PlaceGathers(t, p, name, child, false);
      PlaceExactly(t, p, name, child, false);
      PlaceAllGathers(t, Place(t, p, name, child, false).value, items[1..]);
    }
  }

  /** These fields, then one for each item. */
  ghost predicate Carries(fs: seq<Field>, front: seq<Field>, items: seq<(string, Layout)>) {
    && front <= fs && |fs| == |front| + |items|
    && forall i :: 0 <= i < |items| ==> fs[|front| + i].name == items[i].0 && fs[|front| + i].ty == items[i].1
  }

  lemma {:induction false} PlaceAllFound(t: Target, p: Placement, items: seq<(string, Layout)>, fs: seq<Field>)
    requires t.Valid() && Gathers(t, p, false) && InOrder(fs, false) && End(fs, |fs|) <= t.maxObject && Carries(fs, p.fields, items)
    requires forall i :: 0 <= i < |items| ==> Sound(t, items[i].1)
    ensures PlaceAll(t, p, items).Some? && PlaceAll(t, p, items).value.fields == fs
    decreases |items|
  {
    hide Gathers, Sound, Place, InOrder, End;
    if items != [] {
      var (name, child) := items[0];
      var k := |p.fields|;
      assert fs[k + 0].name == name && fs[k + 0].ty == child && fs[..k] == p.fields;
      NextField(t, fs, false, k, p);
      var q := Place(t, p, name, child, false).value;
      forall i | 0 <= i < |items[1..]|
        ensures fs[|q.fields| + i].name == items[1..][i].0 && fs[|q.fields| + i].ty == items[1..][i].1
      {
        assert fs[k + (i + 1)].name == items[i + 1].0;
      }
      PlaceAllFound(t, q, items[1..], fs);
    }
  }

  /** Result<t, i64>: tag, value, error and index, all but the value i64, and always inhabited. */
  ghost predicate IsShortResult(c: Context, t: Ty, env: Env, depth: nat, l: Layout)
    requires c.target.Valid() && depth <= MAX_DEPTH + 1
  {
    && |l.fields| == 4 && l.inhabited
    && l.fields[0].name == "tag" && l.fields[1].name == "value" && l.fields[2].name == "error" && l.fields[3].name == "index"
    && Resolve(c, Prim(I64), env, depth) == Some(l.fields[0].ty) && Resolve(c, t, env, depth) == Some(l.fields[1].ty)
    && l.fields[2].ty == l.fields[3].ty == l.fields[0].ty
    && exists p: Placement :: p.fields == l.fields && Gathers(c.target, p, false) && Closed(c.target, StructK, p, p.align, l.(inhabited := p.inhabited))
  }

  lemma {:induction false} ShortResultExactly(c: Context, t: Ty, env: Env, depth: nat, l: Layout)
    requires c.target.Valid() && depth < MAX_DEPTH
    ensures Resolve(c, Generic("Result", [t, Prim(I64)]), env, depth) == Some(l) <==> IsShortResult(c, t, env, depth + 1, l)
  {
    hide Gathers, Closed, PlaceAll, Close, Sound, Resolve, InOrder, End;
    ShortForm(c, t, env, depth);
    var tag, value := Resolve(c, Prim(I64), env, depth + 1), Resolve(c, t, env, depth + 1);
    if tag.Some? && value.Some? {
      var items := [("tag", tag.value), ("value", value.value), ("error", tag.value), ("index", tag.value)];
      ResolveSound(c, Prim(I64), env, depth + 1);
      ResolveSound(c, t, env, depth + 1);
      ItemsExactly(c.target, items, l);
      CarriesFour(l.fields, items);
    }
  }

  lemma {:induction false} ShortForm(c: Context, t: Ty, env: Env, depth: nat)
    requires c.target.Valid() && depth < MAX_DEPTH
    ensures var tag, value := Resolve(c, Prim(I64), env, depth + 1), Resolve(c, t, env, depth + 1);
      Resolve(c, Generic("Result", [t, Prim(I64)]), env, depth) ==
        if tag == None || value == None then None
        else CloseItems(c.target, [("tag", tag.value), ("value", value.value), ("error", tag.value), ("index", tag.value)])
  {
    hide PlaceAll, Close, Enumeration, Record;
  }

  function CloseItems(t: Target, items: seq<(string, Layout)>): Option<Layout>
    requires t.Valid()
  {
    match PlaceAll(t, EMPTY, items)
    case None => None
    case Some(p) =>
      match Close(t, StructK, p)
      case None => None
      case Some(l) => Some(l.(inhabited := true))
  }

  lemma {:induction false} ItemsExactly(t: Target, items: seq<(string, Layout)>, l: Layout)
    requires t.Valid() && forall i :: 0 <= i < |items| ==> Sound(t, items[i].1)
    ensures CloseItems(t, items) == Some(l) <==>
            && l.inhabited && Carries(l.fields, [], items)
            && exists p: Placement :: p.fields == l.fields && Gathers(t, p, false) && Closed(t, StructK, p, p.align, l.(inhabited := p.inhabited))
  {
    hide Gathers, Closed, PlaceAll, Close, Sound, Carries, InOrder, End;
    var p := PlaceAll(t, EMPTY, items);
    GathersEmpty(t, false);
    if p.Some? {
      PlaceAllGathers(t, EMPTY, items);
      GathersFits(t, p.value, false);
      CloseExactly(t, StructK, p.value, l.(inhabited := p.value.inhabited));
      ClosedInhabited(t, p.value, l);
      if Closed(t, StructK, p.value, p.value.align, l.(inhabited := p.value.inhabited)) {
        ClosedFields(t, StructK, p.value, p.value.align, l.(inhabited := p.value.inhabited));
      }
    }
    if l.inhabited && Carries(l.fields, [], items) {
      forall q: Placement | q.fields == l.fields && Gathers(t, q, false) && Closed(t, StructK, q, q.align, l.(inhabited := q.inhabited))
        ensures CloseItems(t, items) == Some(l)
      {
        GathersFits(t, q, false);
        PlaceAllFound(t, EMPTY, items, l.fields);
        GathersUnique(t, p.value, q, false);
        CloseExactly(t, StructK, q, l.(inhabited := q.inhabited));
      }
    }
  }

  lemma {:induction false} ClosedInhabited(t: Target, p: Placement, l: Layout)
    requires t.Valid()
    ensures Close(t, StructK, p).Some? && Close(t, StructK, p).value.(inhabited := true) == l ==>
      Close(t, StructK, p).value == l.(inhabited := p.inhabited)
  {
  }

  lemma {:induction false} CarriesFour(fs: seq<Field>, items: seq<(string, Layout)>)
    requires |items| == 4
    ensures Carries(fs, [], items) <==>
            && |fs| == 4 && fs[0].name == items[0].0 && fs[1].name == items[1].0 && fs[2].name == items[2].0 && fs[3].name == items[3].0
            && fs[0].ty == items[0].1 && fs[1].ty == items[1].1 && fs[2].ty == items[2].1 && fs[3].ty == items[3].1
  {
    if Carries(fs, [], items) {
      forall i | 0 <= i < 4
        ensures fs[i].name == items[i].0 && fs[i].ty == items[i].1
      {
        assert fs[0 + i].name == items[i].0;
      }
    }
  }

  ghost predicate IsArray(t: Target, e: Layout, length: Size, l: Layout) {
    && length * e.size <= t.maxObject
    && l == Layout(ArrayK, length * e.size, e.align, length == 0 || e.inhabited, [], Some(e), length, [], 0)
  }

  /** An array is its elements one after the other, uninhabited only if it has elements without values. */
  lemma {:induction false} ArrayExactly(c: Context, elem: Ty, length: Size, env: Env, depth: nat, l: Layout)
    requires c.target.Valid() && depth < MAX_DEPTH
    ensures Resolve(c, Array(elem, length), env, depth) == Some(l) <==>
      Resolve(c, elem, env, depth + 1).Some? && IsArray(c.target, Resolve(c, elem, env, depth + 1).value, length, l)
  {
    hide Resolve, ArrayOf, IsArray;
    ArrayForm(c, elem, length, env, depth);
    var r := Resolve(c, elem, env, depth + 1);
    if r.Some? { ArrayOfExactly(c.target, r.value, length, l); }
  }

  lemma {:induction false} ArrayOfExactly(t: Target, e: Layout, length: Size, l: Layout)
    requires t.Valid()
    ensures ArrayOf(t, e, length) == Some(l) <==> IsArray(t, e, length, l)
  {
    if length != 0 { Bound(length, e.size, t.maxObject); }
  }

  lemma {:induction false} ArrayForm(c: Context, elem: Ty, length: Size, env: Env, depth: nat)
    requires c.target.Valid() && depth < MAX_DEPTH
    ensures Resolve(c, Array(elem, length), env, depth) ==
      if Resolve(c, elem, env, depth + 1) == None then None else ArrayOf(c.target, Resolve(c, elem, env, depth + 1).value, length)
  {
    hide ArrayOf;
  }

  lemma {:induction false} Bound(n: nat, size: nat, max: nat)
    requires n > 0
    ensures n * size <= max <==> size <= max / n
  {
    var q, r := max / n, max % n;
    assert max == q * n + r;
    if size <= q {
      Words.MulLe(size, q, n);
    } else {
      Words.MulLe(q + 1, size, n);
    }
  }

  /** A parameter stands for its argument, read where the argument was written. */
  lemma {:induction false} ParameterExactly(c: Context, names: seq<string>, args: seq<Ty>, i: nat, env: Env, depth: nat)
    requires c.target.Valid() && depth < MAX_DEPTH && i < |names| == |args|
    requires forall j :: 0 <= j < i ==> names[j] != names[i]
    ensures Resolve(c, Named(names[i]), [Binding(names, args)] + env, depth) == Resolve(c, args[i], env, depth + 1)
  {
    hide Enumeration, Record;
    var inner := [Binding(names, args)] + env;
    assert inner[1..] == env;
    var found := FindName(names, names[i]);
    FirstName(names, names[i], 0, i);
    assert Lookup(inner, names[i]) == Some((args[i], env));
  }

  /** Any other name means what it means around the bindings. */
  lemma {:induction false} OuterParameter(b: Binding, env: Env, name: string)
    requires name !in b.names
    ensures Lookup([b] + env, name) == Lookup(env, name) && Lookup([], name) == None
  {
    var inner := [b] + env;
    assert inner[0] == b && inner[1..] == env;
    assert FindName(b.names, name) == None;
  }

  /** An alias stands for its target, also when an enum or a structure has the same name; one whose text does
      not parse has no layout. */
  lemma {:induction false} AliasExactly(c: Context, name: string, env: Env, depth: nat)
    requires c.target.Valid() && depth < MAX_DEPTH && Lookup(env, name) == None && name in c.decls.aliases
    ensures Resolve(c, Named(name), env, depth) ==
      if c.decls.aliases[name].Some? then Resolve(c, c.decls.aliases[name].value, env, depth + 1) else None
  {
    hide Lookup, Enumeration, Record;
  }

  lemma {:induction false} FirstName(names: seq<string>, name: string, k: nat, i: nat)
    requires k <= i < |names| && names[i] == name && forall j :: k <= j < i ==> names[j] != name
    ensures FindName(names, name, k) == Some(i)
    decreases i - k
  {
    if k < i { FirstName(names, name, k + 1, i); }
  }

  /** The kind of a native scalar. */
  function KindOf(n: N.NType): Kind
    requires !n.UnitT? && !n.Invalid?
  {
    match n
    case I8 => I8 case I16 => I16 case I32 => I32 case I64 => I64 case ISize => ISize
    case U8 => U8 case U16 => U16 case U32 => U32 case U64 => U64 case USize => USize
    case BoolT => Bool case CharT => Char
  }

  /** Scalars are as wide as the native backend computes with, 128-bit integers and descriptors of two
      pointers aside, and only never has no value. */
  lemma {:induction false} ScalarsAgree(t: Target, tg: N.Target, n: N.NType)
    requires t.Valid() && tg.pointerBits == 8 * t.pointerSize && !n.UnitT? && !n.Invalid?
    ensures 8 * Primitive(t, KindOf(n)).size == N.Bits(tg, n)
    ensures Primitive(t, KindOf(n)).align == if n.ISize? || n.USize? then t.pointerAlign else Primitive(t, KindOf(n)).size
  {
  }

  lemma {:induction false} PrimitiveMeaning(t: Target, k: Kind)
    requires IsPrim(k) && t.Valid()
    ensures var l := Primitive(t, k);
      && l.kind == k && (l.inhabited <==> !k.Never?) && (l.size == 0 <==> k.Never? || k.Unit?)
      && (k.F32? ==> l.size == l.align == 4) && (k.F64? ==> l.size == l.align == 8)
      && (k.I128? || k.U128? ==> l.size == 16 && l.align == t.int128Align)
      && (k.Slice? ==> l.size == 2 * t.pointerSize && l.align == t.pointerAlign)
      && (k in {ISize, USize, Str, Ptr, Vec, Fn, Reference} ==> l.size == t.pointerSize && l.align == t.pointerAlign)
      && l.fields == [] && l.variants == [] && l.element == None
  {
  }
}
