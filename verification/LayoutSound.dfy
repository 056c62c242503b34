/** What every computed layout satisfies. */
module LayoutSound {
  import opened Wrappers
  import opened Words
  import opened Alignment
  import opened LayoutSpec

  // ----- well-formed layouts -----

  /** A power-of-two alignment, a size that is a multiple of it, within the largest object. */
  ghost predicate Sized(t: Target, l: Layout) {
    PowerTwo(l.align) && l.size % l.align == 0 && l.size <= t.maxObject
  }

  /** Where the i-th field may start at the earliest. */
  function End(fs: seq<Field>, i: nat): nat
    requires i <= |fs|
  {
    if i == 0 then 0 else fs[i - 1].offset + fs[i - 1].ty.size
  }

  /** Each field sits at the first properly aligned offset after the one before it. */
  ghost predicate InOrder(fs: seq<Field>, packed: bool) {
    forall i :: 0 <= i < |fs| ==>
      fs[i].ty.align > 0 && fs[i].offset == Up(End(fs, i), if packed then 1 else fs[i].ty.align)
  }

  /** A record: fields in order, the size padded to the alignment and no further. */
  ghost predicate RecordOk(l: Layout, packed: bool) {
    && InOrder(l.fields, packed) && l.align > 0 && l.size == Up(End(l.fields, |l.fields|), l.align)
    && (!packed ==> forall f :: f in l.fields ==> f.ty.align <= l.align)
  }

  /** An enum: a 64-bit tag first, then room for the largest payload at an offset that suits them all. */
  ghost predicate EnumOk(l: Layout) {
    if l.variants == [] then l.size == 0 && !l.inhabited
    else
      && MaxAlign(l.variants) > 0 && l.align == (if MaxAlign(l.variants) > 8 then MaxAlign(l.variants) else 8)
      && l.payloadOffset == Up(8, MaxAlign(l.variants)) && l.size == Up(l.payloadOffset + MaxSize(l.variants), l.align)
      && forall i {:trigger l.variants[i]} :: 0 <= i < |l.variants| ==> l.variants[i].tag == i && PayloadFits(l, l.variants[i].payload)
  }

  ghost predicate PayloadFits(l: Layout, payload: Layout) {
    && payload.kind.TupleK? && payload.align > 0 && l.payloadOffset % payload.align == 0
    && l.payloadOffset >= 8 && l.payloadOffset + payload.size <= l.size
  }

  /** Sound all the way down. */
  ghost predicate Sound(t: Target, l: Layout)
    requires t.Valid()
    decreases l
  {
    && Sized(t, l)
    && (forall f :: f in l.fields ==> Sound(t, f.ty))
    && (forall v :: v in l.variants ==> Sound(t, v.payload))
    && (l.element.Some? ==> Sound(t, l.element.value))
    && match l.kind
       case StructK => exists packed :: RecordOk(l, packed)
       case TupleK => RecordOk(l, false)
       case EnumK => EnumOk(l)
       case ArrayK => l.element.Some? && l.align == l.element.value.align && l.size == l.length * l.element.value.size
       case k => l == Primitive(t, k)
  }

  // ----- what that means for fields -----

  /** Fields are disjoint, inside the object, aligned unless packed, and the padding is minimal. */
  lemma {:induction false} FieldsDisjoint(t: Target, l: Layout, packed: bool, i: nat, j: nat)
    requires t.Valid() && RecordOk(l, packed) && i < j < |l.fields|
    ensures l.fields[i].offset + l.fields[i].ty.size <= l.fields[j].offset
    ensures l.fields[j].offset + l.fields[j].ty.size <= l.size
    decreases j
  {
    hide Up, InOrder, RecordOk;
    OneField(l, packed, j);
    if i < j - 1 {
      FieldsDisjoint(t, l, packed, i, j - 1);
    }
    LastInside(l, packed, j);
  }

  lemma {:induction false} OneField(l: Layout, packed: bool, j: nat)
    requires RecordOk(l, packed) && j < |l.fields|
    ensures End(l.fields, j) <= l.fields[j].offset < End(l.fields, j) + (if packed then 1 else l.fields[j].ty.align)
    ensures !packed ==> l.fields[j].offset % l.fields[j].ty.align == 0
  {
    UpIsLeast(End(l.fields, j), if packed then 1 else l.fields[j].ty.align);
  }

  lemma {:induction false} LastInside(l: Layout, packed: bool, j: nat)
    requires RecordOk(l, packed) && j < |l.fields|
    ensures l.fields[j].offset + l.fields[j].ty.size <= l.size
    decreases |l.fields| - j
  {
    hide Up, InOrder;
    if j + 1 == |l.fields| {
      UpIsLeast(End(l.fields, |l.fields|), l.align);
    } else {
      LastInside(l, packed, j + 1);
      OneField(l, packed, j + 1);
    }
  }

  // ----- powers of two -----

  lemma {:induction false} PowerTwoDivides(a: Size, b: Size)
    requires PowerTwo(a) && PowerTwo(b) && a <= b
    ensures a > 0 && b % a == 0
  {
    hide PowerTwo;
    PowerTwoMeaning(a);
    PowerTwoMeaning(b);
    var j: nat :| j < 64 && a == Pow2(j);
    var k: nat :| k < 64 && b == Pow2(k);
    if k < j {
      Pow2Mono(k, j);
      Differ(b, 0, a, 1);
    } else {
      Pow2Add(k - j, j);
      Differ(b, 0, a, Pow2(k - j));
    }
  }

  lemma {:induction false} SmallPowers()
    ensures PowerTwo(1) && PowerTwo(2) && PowerTwo(4) && PowerTwo(8) && PowerTwo(16)
  {
    hide PowerTwo;
    assert Pow2(0) == 1 && Pow2(1) == 2 && Pow2(2) == 4 && Pow2(3) == 8 && Pow2(4) == 16;
    PowerTwoMeaning(1);
    PowerTwoMeaning(2);
    PowerTwoMeaning(4);
    PowerTwoMeaning(8);
    PowerTwoMeaning(16);
  }

  // ----- placing -----

  ghost predicate Placed(t: Target, p: Placement, packed: bool)
    requires t.Valid()
  {
    && InOrder(p.fields, packed) && p.size == End(p.fields, |p.fields|) <= t.maxObject && PowerTwo(p.align)
    && (!packed ==> forall f :: f in p.fields ==> f.ty.align <= p.align)
    && (forall f :: f in p.fields ==> Sound(t, f.ty))
  }

  lemma {:induction false} PlacedEmpty(t: Target, packed: bool)
    requires t.Valid()
    ensures Placed(t, EMPTY, packed)
  {
    SmallPowers();
  }

  lemma {:induction false} PlaceKeeps(t: Target, p: Placement, name: string, child: Layout, packed: bool)
    requires t.Valid() && Placed(t, p, packed) && Sound(t, child) && Place(t, p, name, child, packed).Some?
    ensures Placed(t, Place(t, p, name, child, packed).value, packed)
  {
    hide PowerTwo, Up, Sound, AlignUp, InOrder, End;
    SoundSized(t, child);
    SmallPowers();
    var a := if packed then 1 else child.align;
    AlignUpMeaning(t.maxObject, p.size, a);
    var offset := AlignUp(t.maxObject, p.size, a).value;
    SnocOrder(p.fields, Field(name, offset, child), packed);
  }

  lemma {:induction false} SnocOrder(fs: seq<Field>, f: Field, packed: bool)
    requires InOrder(fs, packed) && f.ty.align > 0 && f.offset == Up(End(fs, |fs|), if packed then 1 else f.ty.align)
    ensures InOrder(fs + [f], packed) && End(fs + [f], |fs + [f]|) == f.offset + f.ty.size
  {
    hide Up;
    var gs := fs + [f];
    forall i | 0 <= i < |gs|
      ensures gs[i].ty.align > 0 && gs[i].offset == Up(End(gs, i), if packed then 1 else gs[i].ty.align)
    {
      assert End(gs, i) == End(fs, i);
      if i < |fs| { assert gs[i] == fs[i]; }
    }
  }

  lemma {:induction false} SoundSized(t: Target, l: Layout)
    requires t.Valid() && Sound(t, l)
    ensures Sized(t, l) && l.align > 0
  {
  }

  // ----- closing -----

  lemma {:induction false} RoundMeaning(t: Target, l: Layout)
    requires t.Valid()
    ensures Round(t, l).Some? ==>
      PowerTwo(l.align) && l.align > 0 && Up(l.size, l.align) <= t.maxObject && Round(t, l).value == l.(size := Up(l.size, l.align))
    ensures Round(t, l).Some? ==> Sized(t, Round(t, l).value)
  {
    hide Up;
    AlignUpMeaning(t.maxObject, l.size, l.align);
    if Round(t, l).Some? { UpIsLeast(l.size, l.align); }
  }

  lemma {:induction false} CloseSound(t: Target, kind: Kind, p: Placement, packed: bool)
    requires t.Valid() && Placed(t, p, packed) && (kind.StructK? || (kind.TupleK? && !packed))
    requires Close(t, kind, p).Some?
    ensures Sound(t, Close(t, kind, p).value) && RecordOk(Close(t, kind, p).value, packed)
  {
    hide PowerTwo, Up, InOrder, End, Round, Sized;
    RoundMeaning(t, Layout(kind, p.size, p.align, p.inhabited, p.fields, None, 0, [], 0));
    assert RecordOk(Close(t, kind, p).value, packed);
  }

  lemma {:induction false} CloseRecordSound(t: Target, d: StructDef, p: Placement)
    requires t.Valid() && Placed(t, p, d.packed) && !(d.packed && d.transparent)
    requires CloseRecord(t, d, p).Some?
    ensures Sound(t, CloseRecord(t, d, p).value) && RecordOk(CloseRecord(t, d, p).value, d.packed)
  {
    hide PowerTwo, Up, InOrder, Sized, Close;
    if d.transparent {
      TransparentSound(t, p, CloseRecord(t, d, p).value);
    } else if d.explicitAlign != 0 {
      var q := p.(align := d.explicitAlign);
      RoundMeaning(t, Layout(StructK, q.size, q.align, q.inhabited, q.fields, None, 0, [], 0));
      CloseAligned(t, p, q, d.packed);
    } else {
      CloseSound(t, StructK, p, d.packed);
    }
  }

  lemma {:induction false} CloseAligned(t: Target, p: Placement, q: Placement, packed: bool)
    requires t.Valid() && Placed(t, p, packed) && q == p.(align := q.align) && q.align >= p.align && Close(t, StructK, q).Some?
    ensures Sound(t, Close(t, StructK, q).value) && RecordOk(Close(t, StructK, q).value, packed)
  {
    hide Up, InOrder, End, Sized, AlignUp;
    RoundMeaning(t, Layout(StructK, q.size, q.align, q.inhabited, q.fields, None, 0, [], 0));
    assert Placed(t, q, packed);
    CloseSound(t, StructK, q, packed);
  }

  lemma {:induction false} TransparentSound(t: Target, p: Placement, l: Layout)
    requires t.Valid() && Placed(t, p, false) && |p.fields| == 1
    requires l == Layout(StructK, p.fields[0].ty.size, p.fields[0].ty.align, p.inhabited, p.fields, None, 0, [], 0)
    ensures Sound(t, l) && RecordOk(l, false)
  {
    hide PowerTwo, Up, Sound;
    var f := p.fields[0];
    SoundSized(t, f.ty);
    UpAligned(0, f.ty.align);
    UpAligned(f.ty.size, f.ty.align);
    assert f in p.fields;
    OneFieldSound(t, p.fields, l);
  }

  lemma {:induction false} OneFieldSound(t: Target, fs: seq<Field>, l: Layout)
    requires t.Valid() && |fs| == 1 && InOrder(fs, false) && Sound(t, fs[0].ty) && fs[0].offset == 0 && Sized(t, fs[0].ty)
    requires fs[0].ty.align > 0 && fs[0].ty.size == Up(fs[0].ty.size, fs[0].ty.align)
    requires l.kind.StructK? && l.size == fs[0].ty.size && l.align == fs[0].ty.align && l.fields == fs && l.variants == [] && l.element == None
    ensures Sound(t, l) && RecordOk(l, false)
  {
    hide PowerTwo, Up, RecordOk;
    OneFieldRecord(fs, l);
    assert forall f :: f in fs ==> f == fs[0];
  }

  lemma {:induction false} OneFieldRecord(fs: seq<Field>, l: Layout)
    requires |fs| == 1 && InOrder(fs, false) && fs[0].offset == 0
    requires fs[0].ty.align > 0 && fs[0].ty.size == Up(fs[0].ty.size, fs[0].ty.align)
    requires l.size == fs[0].ty.size && l.align == fs[0].ty.align && l.fields == fs
    ensures RecordOk(l, false)
  {
    hide Up, InOrder;
  }

  lemma {:induction false} UpAligned(n: nat, a: int)
    requires a > 0 && n % a == 0
    ensures Up(n, a) == n
  {
    UpIsLeast(n, a);
  }

  // ----- the recursion -----

  /** Every successful layout is well formed, whatever the declarations and the type. */
  lemma {:induction false} ResolveSound(c: Context, ty: Ty, env: Env, depth: nat)
    requires c.target.Valid() && depth <= MAX_DEPTH + 1 && Resolve(c, ty, env, depth).Some?
    ensures Sound(c.target, Resolve(c, ty, env, depth).value)
    decreases MAX_DEPTH + 1 - depth, 2
  {
    hide Sound, Primitive, ArrayOf, ResolveTuple, Close, Enumeration, Record, ShortResult, Lookup;
    match ty
    case Prim(k) => PrimitiveSound(c.target, k);
    case Unknown =>
    case Array(elem, length) =>
      ResolveSound(c, elem, env, depth + 1);
      ArraySound(c.target, Resolve(c, elem, env, depth + 1).value, length);
    case Tuple(elems) =>
      TupleSound(c, elems, env, depth + 1, |elems|);
      CloseSound(c.target, TupleK, ResolveTuple(c, elems, env, depth + 1, |elems|).value, false);
    case Named(name) =>
      var b := Lookup(env, name);
      if b.Some? {
        ResolveSound(c, b.value.0, b.value.1, depth + 1);
      } else if name in c.decls.aliases {
        ResolveSound(c, c.decls.aliases[name].value, env, depth + 1);
      } else if name in c.decls.enums || name == "Option" || name == "Result" {
        EnumerationSound(c, name, [], env, depth + 1);
      } else {
        RecordSound(c, name, [], env, depth + 1);
      }
    case Generic(name, args) =>
      if name == "Result" && |args| == 2 && args[1] == Prim(I64) {
        ShortResultSound(c, args[0], env, depth + 1);
      } else if name == "Option" || name == "Result" {
        EnumerationSound(c, name, args, env, depth + 1);
      } else {
        RecordSound(c, name, args, env, depth + 1);
      }
  }

  lemma {:induction false} PrimitiveSound(t: Target, k: Kind)
    requires t.Valid() && IsPrim(k) && Primitive(t, k).size <= t.maxObject
    ensures Sound(t, Primitive(t, k))
  {
    hide PowerTwo;
    SmallPowers();
    PowerTwoDivides(t.int128Align, 16);
    assert PowerTwo(t.pointerSize);
    PowerTwoDivides(t.pointerAlign, t.pointerSize);
    PowerTwoDivides(t.pointerAlign, if t.pointerSize == 4 then 8 else 16);
  }

  lemma {:induction false} ArraySound(t: Target, e: Layout, length: Size)
    requires t.Valid() && Sound(t, e) && ArrayOf(t, e, length).Some?
    ensures Sound(t, ArrayOf(t, e, length).value)
  {
    hide PowerTwo;
    SoundSized(t, e);
    MultipleTimes(length, e.size, e.align);
  }

  lemma {:induction false} MultipleTimes(k: int, n: int, a: int)
    requires a > 0 && n % a == 0
    ensures (k * n) % a == 0
  {
    MulAssoc(k, n / a, a);
    ModUnique(k * n, a, k * (n / a), 0);
  }

  lemma {:induction false} TupleSound(c: Context, elems: seq<Ty>, env: Env, depth: nat, n: nat)
    requires c.target.Valid() && depth <= MAX_DEPTH && n <= |elems| && ResolveTuple(c, elems, env, depth, n).Some?
    ensures Placed(c.target, ResolveTuple(c, elems, env, depth, n).value, false)
    decreases MAX_DEPTH + 1 - depth, 3, n
  {
    hide Sound, Placed, Place, Resolve;
    if n == 0 {
      PlacedEmpty(c.target, false);
      return;
    }
    TupleSound(c, elems, env, depth, n - 1);
    ResolveSound(c, elems[n - 1], env, depth);
    PlaceKeeps(c.target, ResolveTuple(c, elems, env, depth, n - 1).value, IndexName(n - 1), Resolve(c, elems[n - 1], env, depth).value, false);
  }

  lemma {:induction false} FieldsSound(c: Context, d: StructDef, env: Env, depth: nat, n: nat)
    requires c.target.Valid() && depth <= MAX_DEPTH + 1 && n <= |d.fields| && ResolveFields(c, d, env, depth, n).Some?
    ensures Placed(c.target, ResolveFields(c, d, env, depth, n).value, d.packed)
    decreases MAX_DEPTH + 1 - depth, 3, n
  {
    hide Sound, Placed, Place, Resolve;
    if n == 0 {
      PlacedEmpty(c.target, d.packed);
      return;
    }
    FieldsSound(c, d, env, depth, n - 1);
    ResolveSound(c, d.fields[n - 1].ty.value, env, depth);
    PlaceKeeps(c.target, ResolveFields(c, d, env, depth, n - 1).value, d.fields[n - 1].name,
               Resolve(c, d.fields[n - 1].ty.value, env, depth).value, d.packed);
  }

  lemma {:induction false} RecordSound(c: Context, name: string, args: seq<Ty>, env: Env, depth: nat)
    requires c.target.Valid() && depth <= MAX_DEPTH && Record(c, name, args, env, depth).Some?
    ensures Sound(c.target, Record(c, name, args, env, depth).value)
    decreases MAX_DEPTH + 1 - depth, 1
  {
    hide Sound, Placed, ResolveFields, CloseRecord;
    var d := c.decls.structs[name];
    var inner := if |args| > 0 then [Binding(d.params, args)] + env else env;
    FieldsSound(c, d, inner, depth + 1, |d.fields|);
    CloseRecordSound(c.target, d, ResolveFields(c, d, inner, depth + 1, |d.fields|).value);
  }

  /** The fields laid out so far are the declared ones, in order, each with the layout of its type. */
  ghost predicate Follows(c: Context, d: StructDef, env: Env, depth: nat, fs: seq<Field>)
    requires c.target.Valid() && depth <= MAX_DEPTH + 1
  {
    |fs| <= |d.fields| && forall i :: 0 <= i < |fs| ==>
      fs[i].name == d.fields[i].name && d.fields[i].ty.Some? && Resolve(c, d.fields[i].ty.value, env, depth) == Some(fs[i].ty)
  }

  lemma {:induction false} FieldsFollow(c: Context, d: StructDef, env: Env, depth: nat, n: nat)
    requires c.target.Valid() && depth <= MAX_DEPTH + 1 && n <= |d.fields| && ResolveFields(c, d, env, depth, n).Some?
    ensures var fs := ResolveFields(c, d, env, depth, n).value.fields;
      |fs| == n && Follows(c, d, env, depth, fs)
    decreases n
  {
    hide Resolve, AlignUp;
    if n > 0 { FieldsFollow(c, d, env, depth, n - 1); }
  }

  /** A record follows its declaration: the declared fields in order, packed only if declared so, with the
      alignment it asks for; a transparent one looks like its only field. */
  lemma {:induction false} RecordFollowsDeclaration(c: Context, name: string, args: seq<Ty>, env: Env, depth: nat)
    requires c.target.Valid() && depth <= MAX_DEPTH && Record(c, name, args, env, depth).Some?
    ensures var l := Record(c, name, args, env, depth).value;
      && name in c.decls.structs && l.kind.StructK?
      && var d := c.decls.structs[name];
      && |args| == |d.params| && RecordOk(l, d.packed) && |l.fields| == |d.fields|
      && Follows(c, d, if |args| > 0 then [Binding(d.params, args)] + env else env, depth + 1, l.fields)
      && (d.explicitAlign != 0 && !d.transparent ==> l.align == d.explicitAlign)
      && (d.transparent ==> |l.fields| == 1 && l.size == l.fields[0].ty.size && l.align == l.fields[0].ty.align)
  {
    hide Sound, Placed, ResolveFields, RecordOk, Follows;
    var d := c.decls.structs[name];
    var inner := if |args| > 0 then [Binding(d.params, args)] + env else env;
    FieldsSound(c, d, inner, depth + 1, |d.fields|);
    FieldsFollow(c, d, inner, depth + 1, |d.fields|);
    CloseRecordSound(c.target, d, ResolveFields(c, d, inner, depth + 1, |d.fields|).value);
  }

  /** Components numbered from 0, each with the layout of its declared type. */
  ghost predicate Numbered(c: Context, types: seq<Option<Ty>>, env: Env, depth: nat, fs: seq<Field>)
    requires c.target.Valid() && depth <= MAX_DEPTH + 1
  {
    |fs| == |types| && forall i :: 0 <= i < |fs| ==>
      fs[i].name == IndexName(i) && types[i].Some? && Resolve(c, types[i].value, env, depth) == Some(fs[i].ty)
  }

  lemma {:induction false} ComponentsFollow(c: Context, elems: seq<Ty>, env: Env, depth: nat, n: nat)
    requires c.target.Valid() && depth <= MAX_DEPTH && n <= |elems| && ResolveTuple(c, elems, env, depth, n).Some?
    ensures Numbered(c, Wrapped(elems[..n]), env, depth, ResolveTuple(c, elems, env, depth, n).value.fields)
    decreases n
  {
    hide Resolve, AlignUp, IndexName;
    if n > 0 { ComponentsFollow(c, elems, env, depth, n - 1); }
  }

  function Wrapped(elems: seq<Ty>): (types: seq<Option<Ty>>)
    ensures |types| == |elems| && forall i :: 0 <= i < |elems| ==> types[i] == Some(elems[i])
  {
    seq(|elems|, i requires 0 <= i < |elems| => Some(elems[i]))
  }

  /** A tuple has one field for each component, in order. */
  lemma {:induction false} TupleFollowsDeclaration(c: Context, elems: seq<Ty>, env: Env, depth: nat)
    requires c.target.Valid() && depth < MAX_DEPTH && Resolve(c, Tuple(elems), env, depth).Some?
    ensures var l := Resolve(c, Tuple(elems), env, depth).value;
      l.kind.TupleK? && RecordOk(l, false) && Numbered(c, Wrapped(elems), env, depth + 1, l.fields)
  {
    hide Sound, Placed, RecordOk, Numbered, ResolveTuple, AlignUp;
    assert elems[..|elems|] == elems;
    ComponentsFollow(c, elems, env, depth + 1, |elems|);
    TupleSound(c, elems, env, depth + 1, |elems|);
    CloseSound(c.target, TupleK, ResolveTuple(c, elems, env, depth + 1, |elems|).value, false);
  }

  lemma {:induction false} PayloadFollows(c: Context, types: seq<Option<Ty>>, env: Env, depth: nat, n: nat)
    requires c.target.Valid() && depth <= MAX_DEPTH + 1 && n <= |types| && ResolvePayload(c, types, env, depth, n).Some?
    ensures Numbered(c, types[..n], env, depth, ResolvePayload(c, types, env, depth, n).value.fields)
    decreases n
  {
    hide Resolve, AlignUp, IndexName;
    if n > 0 { PayloadFollows(c, types, env, depth, n - 1); }
  }

  /** The declared variants, tagged in order, each with a payload of its declared types. */
  ghost predicate VariantsFollow(c: Context, vs: seq<VariantDef>, env: Env, depth: nat, done: seq<Variant>)
    requires c.target.Valid() && depth <= MAX_DEPTH + 1
  {
    |done| <= |vs| && forall i :: 0 <= i < |done| ==>
      && done[i].name == vs[i].name && done[i].tag == i && done[i].payload.kind.TupleK?
      && RecordOk(done[i].payload, false) && Numbered(c, vs[i].types, env, depth, done[i].payload.fields)
  }

  lemma {:induction false} VariantsFollowed(c: Context, vs: seq<VariantDef>, env: Env, depth: nat, n: nat)
    requires c.target.Valid() && depth <= MAX_DEPTH + 1 && n <= |vs| && ResolveVariants(c, vs, env, depth, n).Some?
    ensures var done := ResolveVariants(c, vs, env, depth, n).value;
      |done| == n && VariantsFollow(c, vs, env, depth, done)
    decreases n
  {
    hide ResolvePayload, RecordOk, Numbered, Placed, Sound, Close;
    if n > 0 {
      VariantsFollowed(c, vs, env, depth, n - 1);
      var v := vs[n - 1];
      assert v.types[..|v.types|] == v.types;
      PayloadFollows(c, v.types, env, depth, |v.types|);
      PayloadSound(c, v.types, env, depth, |v.types|);
      var p := ResolvePayload(c, v.types, env, depth, |v.types|).value;
      CloseSound(c.target, TupleK, p, false);
      CloseKeeps(c.target, TupleK, p);
    }
  }

  lemma {:induction false} CloseKeeps(t: Target, kind: Kind, p: Placement)
    requires t.Valid() && Close(t, kind, p).Some?
    ensures Close(t, kind, p).value.kind == kind && Close(t, kind, p).value.fields == p.fields
  {
    hide AlignUp;
  }

  /** An enum has exactly its declared variants, in order and tagged 0, 1, ..., each with its declared payload. */
  lemma {:induction false} EnumFollowsDeclaration(c: Context, name: string, args: seq<Ty>, env: Env, depth: nat)
    requires c.target.Valid() && depth <= MAX_DEPTH && Enumeration(c, name, args, env, depth).Some?
    ensures VariantsOf(c, name, args).Some?
    ensures var vs, l := VariantsOf(c, name, args).value, Enumeration(c, name, args, env, depth).value;
      l.kind.EnumK? && |l.variants| == |vs| && VariantsFollow(c, vs, env, depth + 1, l.variants)
  {
    hide ResolveVariants, VariantsFollow, VariantsOf, MaxSize, MaxAlign, AlignUp, SomeInhabited;
    var vs := VariantsOf(c, name, args).value;
    VariantsFollowed(c, vs, env, depth + 1, |vs|);
  }

  lemma {:induction false} PlaceAllSound(t: Target, p: Placement, items: seq<(string, Layout)>)
    requires t.Valid() && Placed(t, p, false) && PlaceAll(t, p, items).Some?
    requires forall i :: 0 <= i < |items| ==> Sound(t, items[i].1)
    ensures Placed(t, PlaceAll(t, p, items).value, false)
    decreases |items|
  {
    hide Sound, Placed, Place;
    if items == [] { return; }
    PlaceKeeps(t, p, items[0].0, items[0].1, false);
    PlaceAllSound(t, Place(t, p, items[0].0, items[0].1, false).value, items[1..]);
  }

  lemma {:induction false} ShortResultSound(c: Context, value: Ty, env: Env, depth: nat)
    requires c.target.Valid() && depth <= MAX_DEPTH && ShortResult(c, value, env, depth).Some?
    ensures Sound(c.target, ShortResult(c, value, env, depth).value)
    decreases MAX_DEPTH + 1 - depth, 3
  {
    hide Sound, Placed, Place, PlaceAll, Resolve, Close;
    ResolveSound(c, Prim(I64), env, depth);
    ResolveSound(c, value, env, depth);
    var tag, v := Resolve(c, Prim(I64), env, depth).value, Resolve(c, value, env, depth).value;
    var items := [("tag", tag), ("value", v), ("error", tag), ("index", tag)];
    PlacedEmpty(c.target, false);
    PlaceAllSound(c.target, EMPTY, items);
    CloseSound(c.target, StructK, PlaceAll(c.target, EMPTY, items).value, false);
    ClosedKind(c.target, StructK, PlaceAll(c.target, EMPTY, items).value);
    InhabitedSound(c.target, Close(c.target, StructK, PlaceAll(c.target, EMPTY, items).value).value);
  }

  lemma {:induction false} InhabitedSound(t: Target, l: Layout)
    requires t.Valid() && Sound(t, l) && l.kind.StructK?
    ensures Sound(t, l.(inhabited := true))
  {
    hide PowerTwo, Up, InOrder, End;
    var packed :| RecordOk(l, packed);
    assert RecordOk(l.(inhabited := true), packed);
  }

  // ----- enums -----

  lemma {:induction false} PayloadSound(c: Context, types: seq<Option<Ty>>, env: Env, depth: nat, n: nat)
    requires c.target.Valid() && depth <= MAX_DEPTH + 1 && n <= |types| && ResolvePayload(c, types, env, depth, n).Some?
    ensures Placed(c.target, ResolvePayload(c, types, env, depth, n).value, false)
    decreases MAX_DEPTH + 1 - depth, 3, n
  {
    hide Sound, Placed, Place, Resolve;
    if n == 0 {
      PlacedEmpty(c.target, false);
      return;
    }
    PayloadSound(c, types, env, depth, n - 1);
    ResolveSound(c, types[n - 1].value, env, depth);
    PlaceKeeps(c.target, ResolvePayload(c, types, env, depth, n - 1).value, IndexName(n - 1), Resolve(c, types[n - 1].value, env, depth).value, false);
  }

  ghost predicate Payloads(t: Target, vs: seq<Variant>)
    requires t.Valid()
  {
    forall i {:trigger vs[i]} :: 0 <= i < |vs| ==> vs[i].tag == i && vs[i].payload.kind.TupleK? && Sound(t, vs[i].payload)
  }

  lemma {:induction false} VariantsSound(c: Context, vs: seq<VariantDef>, env: Env, depth: nat, n: nat)
    requires c.target.Valid() && depth <= MAX_DEPTH + 1 && n <= |vs| && ResolveVariants(c, vs, env, depth, n).Some?
    ensures |ResolveVariants(c, vs, env, depth, n).value| == n && Payloads(c.target, ResolveVariants(c, vs, env, depth, n).value)
    decreases MAX_DEPTH + 1 - depth, 4, n
  {
    hide Sound, Placed, Place, Resolve, ResolvePayload, Close;
    if n == 0 { return; }
    VariantsSound(c, vs, env, depth, n - 1);
    var v := vs[n - 1];
    PayloadSound(c, v.types, env, depth, |v.types|);
    var p := ResolvePayload(c, v.types, env, depth, |v.types|).value;
    CloseSound(c.target, TupleK, p, false);
    ClosedKind(c.target, TupleK, p);
  }

  lemma {:induction false} ClosedKind(t: Target, kind: Kind, p: Placement)
    requires t.Valid()
    ensures Close(t, kind, p).Some? ==> Close(t, kind, p).value.kind == kind
  {
  }

  lemma {:induction false} MaxBounds(t: Target, vs: seq<Variant>, i: nat)
    requires t.Valid() && i < |vs|
    ensures vs[i].payload.size <= MaxSize(vs) && vs[i].payload.align <= MaxAlign(vs)
  {
    if i < |vs| - 1 { MaxBounds(t, vs[..|vs| - 1], i); }
  }

  lemma {:induction false} MaxAlignPower(t: Target, vs: seq<Variant>)
    requires t.Valid() && Payloads(t, vs)
    ensures PowerTwo(MaxAlign(vs)) && MaxAlign(vs) > 0
  {
    hide PowerTwo, Sound;
    SmallPowers();
    if vs != [] {
      var front := vs[..|vs| - 1];
      assert forall i {:trigger front[i]} :: 0 <= i < |front| ==> front[i] == vs[i];
      MaxAlignPower(t, front);
      SoundSized(t, vs[|vs| - 1].payload);
    }
  }

  lemma {:induction false} TaggedSound(t: Target, vs: seq<Variant>)
    requires t.Valid() && Payloads(t, vs) && Tagged(t, vs).Some?
    ensures Sound(t, Tagged(t, vs).value)
  {
    hide PowerTwo, Up, Sound, Round, AlignUp, MaxAlign, MaxSize, SomeInhabited;
    SmallPowers();
    if vs == [] {
      EmptyEnum(t);
      return;
    }
    MaxAlignPower(t, vs);
    var a := MaxAlign(vs);
    AlignUpMeaning(t.maxObject, 8, a);
    var offset := AlignUp(t.maxObject, 8, a).value;
    var raw := Layout(EnumK, offset + MaxSize(vs), if a > 8 then a else 8, SomeInhabited(vs), [], None, 0, vs, offset);
    RoundMeaning(t, raw);
    var l := Tagged(t, vs).value;
    UpIsLeast(8, a);
    UpIsLeast(raw.size, raw.align);
    forall i | 0 <= i < |vs|
      ensures vs[i].tag == i && PayloadFits(l, vs[i].payload)
    {
      MaxBounds(t, vs, i);
      SoundSized(t, vs[i].payload);
      PowerTwoDivides(vs[i].payload.align, a);
      MultipleOf(offset, vs[i].payload.align, a);
    }
    EnumSound(t, l);
  }

  lemma {:induction false} EmptyEnum(t: Target)
    requires t.Valid()
    ensures Sound(t, Layout(EnumK, 0, 1, false, [], None, 0, [], 0))
  {
    SmallPowers();
  }

  lemma {:induction false} EnumSound(t: Target, l: Layout)
    requires t.Valid() && l.kind.EnumK? && Sized(t, l) && EnumOk(l) && l.fields == [] && l.element == None && Payloads(t, l.variants)
    ensures Sound(t, l)
  {
    hide PowerTwo, Up, MaxAlign, MaxSize;
    forall v | v in l.variants
      ensures Sound(t, v.payload)
    {
      var i :| 0 <= i < |l.variants| && l.variants[i] == v;
    }
  }

  lemma {:induction false} MultipleOf(n: nat, a: int, b: int)
    requires a > 0 && b > 0 && n % b == 0 && b % a == 0
    ensures n % a == 0
  {
    assert n == (n / b) * b && b == (b / a) * a;
    MulAssoc(n / b, b / a, a);
    ModUnique(n, a, (n / b) * (b / a), 0);
  }

  lemma {:induction false} EnumerationSound(c: Context, name: string, args: seq<Ty>, env: Env, depth: nat)
    requires c.target.Valid() && depth <= MAX_DEPTH && Enumeration(c, name, args, env, depth).Some?
    ensures Sound(c.target, Enumeration(c, name, args, env, depth).value)
    decreases MAX_DEPTH + 1 - depth, 1
  {
    hide Sound, VariantsOf, ResolveVariants, Tagged, Payloads;
    var vs := VariantsOf(c, name, args).value;
    VariantsSound(c, vs, env, depth + 1, |vs|);
    TaggedSound(c.target, ResolveVariants(c, vs, env, depth + 1, |vs|).value);
  }
}
