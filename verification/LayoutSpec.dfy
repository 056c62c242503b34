/** Sizes, alignments and offsets of types (src/analysis/layout.c), as functions of the declarations. */
module LayoutSpec {
  import opened Wrappers
  import opened Alignment
  import DecimalText

  const MAX_DEPTH := 128
  const MAX_FIELDS := 1024
  const MAX_NODES := 16384

  datatype Kind =
    | I8 | I16 | I32 | I64 | I128 | ISize | U8 | U16 | U32 | U64 | U128 | USize
    | F32 | F64 | Bool | Char | Str | Ptr | Unit | Never | ArrayK | Slice | Vec | TupleK | StructK | EnumK | Fn | Reference

  /** A type as the checker hands it over. Prim covers every kind without by-value components. */
  datatype Ty =
    | Prim(kind: Kind)
    | Array(elem: Ty, length: Size)
    | Tuple(elems: seq<Ty>)
    | Named(name: string)
    | Generic(name: string, args: seq<Ty>)
    | Unknown

  predicate IsPrim(k: Kind) { !k.ArrayK? && !k.TupleK? && !k.StructK? && !k.EnumK? }

  /** Declared component types; None is a spelling that does not parse. */
  datatype FieldDef = FieldDef(name: string, ty: Option<Ty>)
  datatype StructDef = StructDef(params: seq<string>, fields: seq<FieldDef>, packed: bool, transparent: bool, explicitAlign: Size)
  datatype EnumDef = EnumDef(variants: seq<VariantDef>)
  datatype VariantDef = VariantDef(name: string, types: seq<Option<Ty>>)

  /** What names stand for. Option and Result are in enums only when the program declares them itself. */
  datatype Decls = Decls(structs: map<string, StructDef>, enums: map<string, EnumDef>, aliases: map<string, Option<Ty>>)

  datatype Target = Target(pointerSize: Size, pointerAlign: Size, int128Align: Size, maxObject: Size)
  {
    /** What re0_layout_init checks. */
    predicate Valid() {
      && (pointerSize == 4 || pointerSize == 8) && PowerTwo(pointerAlign) && pointerAlign <= pointerSize
      && PowerTwo(int128Align) && int128Align <= 16 && 0 < maxObject <= 0x7FFF_FFFF_FFFF_FFFF
    }
  }

  datatype Context = Context(target: Target, decls: Decls)

  datatype Layout = Layout(kind: Kind, size: Size, align: Size, inhabited: bool, fields: seq<Field>,
                           element: Option<Layout>, length: Size, variants: seq<Variant>, payloadOffset: Size)
  datatype Field = Field(name: string, offset: Size, ty: Layout)
  datatype Variant = Variant(name: string, tag: nat, payload: Layout)

  function Plain(kind: Kind, size: Size, align: Size, inhabited: bool): Layout {
    Layout(kind, size, align, inhabited, [], None, 0, [], 0)
  }

  // ----- generic parameters -----

  datatype Binding = Binding(names: seq<string>, args: seq<Ty>)
  type Env = seq<Binding>

  function FindName(names: seq<string>, name: string, i: nat := 0): (r: Option<nat>)
    requires i <= |names|
    ensures r.Some? ==> i <= r.value < |names| && names[r.value] == name
    decreases |names| - i
  {
    if i == |names| then None else if names[i] == name then Some(i) else FindName(names, name, i + 1)
  }

  /** The argument bound to a name, with the bindings it is to be read in. */
  function Lookup(env: Env, name: string): Option<(Ty, Env)> {
    if env == [] then None
    else
      match FindName(env[0].names, name)
      case Some(i) => if i < |env[0].args| then Some((env[0].args[i], env[1..])) else None
      case None => Lookup(env[1..], name)
  }

  // ----- placing fields -----

  /** Fields placed so far, with the size, alignment and inhabitedness they give. */
  datatype Placement = Placement(fields: seq<Field>, size: Size, align: Size, inhabited: bool)

  const EMPTY := Placement([], 0, 1, true)

  /** append_field. */
  function Place(t: Target, p: Placement, name: string, child: Layout, packed: bool): Option<Placement>
    requires t.Valid()
  {
    match AlignUp(t.maxObject, p.size, if packed then 1 else child.align)
    case None => None
    case Some(offset) =>
      if offset > t.maxObject || child.size > t.maxObject - offset then None
      else
        Some(Placement(p.fields + [Field(name, offset, child)], offset + child.size,
                       if !packed && p.align < child.align then child.align else p.align,
                       p.inhabited && child.inhabited))
  }

  /** The size rounded up to the alignment, if it still fits. */
  function Round(t: Target, l: Layout): Option<Layout>
    requires t.Valid()
  {
    match AlignUp(t.maxObject, l.size, l.align)
    case None => None
    case Some(size) => Some(l.(size := size))
  }

  function Close(t: Target, kind: Kind, p: Placement): Option<Layout>
    requires t.Valid()
  {
    Round(t, Layout(kind, p.size, p.align, p.inhabited, p.fields, None, 0, [], 0))
  }

  /** How a record's attributes finish its layout. */
  function CloseRecord(t: Target, d: StructDef, p: Placement): Option<Layout>
    requires t.Valid()
  {
    if d.transparent then
      if |p.fields| != 1 || p.fields[0].ty.size == 0 then None
      else Some(Layout(StructK, p.fields[0].ty.size, p.fields[0].ty.align, p.inhabited, p.fields, None, 0, [], 0))
    else if d.explicitAlign != 0 then
      if d.explicitAlign < p.align then None else Close(t, StructK, p.(align := d.explicitAlign))
    else Close(t, StructK, p)
  }

  /** Components are named by their positions. */
  function IndexName(i: nat): string { DecimalText.Decimal(i) }

  // ----- scalars -----

  /** Types without by-value components. */
  function Primitive(t: Target, k: Kind): (l: Layout)
    requires IsPrim(k) && t.Valid()
  {
    match k
    case I8 | U8 | Bool | Char => Plain(k, 1, 1, true)
    case I16 | U16 => Plain(k, 2, 2, true)
    case I32 | U32 | F32 => Plain(k, 4, 4, true)
    case I64 | U64 | F64 => Plain(k, 8, 8, true)
    case I128 | U128 => Plain(k, 16, t.int128Align, true)
    case Slice => Plain(k, 2 * t.pointerSize, t.pointerAlign, true)
    case Never => Plain(k, 0, 1, false)
    case Unit => Plain(k, 0, 1, true)
    case _ => Plain(k, t.pointerSize, t.pointerAlign, true)
  }

  // ----- resolution -----

  function Resolve(c: Context, ty: Ty, env: Env, depth: nat): Option<Layout>
    requires c.target.Valid() && depth <= MAX_DEPTH + 1
    decreases MAX_DEPTH + 1 - depth, 2
  {
    if depth >= MAX_DEPTH then None
    else
      match ty
      case Prim(k) =>
        if !IsPrim(k) || Primitive(c.target, k).size > c.target.maxObject then None else Some(Primitive(c.target, k))
      case Unknown => None
      case Array(elem, length) =>
        (match Resolve(c, elem, env, depth + 1)
         case None => None
         case Some(e) => ArrayOf(c.target, e, length))
      case Tuple(elems) =>
        if |elems| > MAX_FIELDS then None
        else
          (match ResolveTuple(c, elems, env, depth + 1, |elems|)
           case None => None
           case Some(p) => Close(c.target, TupleK, p))
      case Named(name) =>
        (match Lookup(env, name)
         case Some(b) => Resolve(c, b.0, b.1, depth + 1)
         case None =>
           if name in c.decls.aliases then
             match c.decls.aliases[name]
             case None => None
             case Some(target) => Resolve(c, target, env, depth + 1)
           else if name in c.decls.enums || name == "Option" || name == "Result" then
             Enumeration(c, name, [], env, depth + 1)
           else Record(c, name, [], env, depth + 1))
      case Generic(name, args) =>
        if name == "Result" && |args| == 2 && args[1] == Prim(I64) then ShortResult(c, args[0], env, depth + 1)
        else if name == "Option" || name == "Result" then Enumeration(c, name, args, env, depth + 1)
        else Record(c, name, args, env, depth + 1)
  }

  function ArrayOf(t: Target, e: Layout, length: Size): Option<Layout>
    requires t.Valid()
  {
    if length != 0 && e.size > t.maxObject / length then None
    else
      var size := length * e.size;
      if size > t.maxObject then None
      else Some(Layout(ArrayK, size, e.align, length == 0 || e.inhabited, [], Some(e), length, [], 0))
  }

  function ResolveTuple(c: Context, elems: seq<Ty>, env: Env, depth: nat, n: nat): Option<Placement>
    requires c.target.Valid() && depth <= MAX_DEPTH && n <= |elems|
    decreases MAX_DEPTH + 1 - depth, 3, n
  {
    if n == 0 then Some(EMPTY)
    else
      match ResolveTuple(c, elems, env, depth, n - 1)
      case None => None
      case Some(p) =>
        match Resolve(c, elems[n - 1], env, depth)
        case None => None
        case Some(child) => Place(c.target, p, IndexName(n - 1), child, false)
  }

  /** The first n fields of a record. */
  function ResolveFields(c: Context, d: StructDef, env: Env, depth: nat, n: nat): Option<Placement>
    requires c.target.Valid() && depth <= MAX_DEPTH + 1 && n <= |d.fields|
    decreases MAX_DEPTH + 1 - depth, 3, n
  {
    if n == 0 then Some(EMPTY)
    else
      match ResolveFields(c, d, env, depth, n - 1)
      case None => None
      case Some(p) =>
        if d.fields[n - 1].ty == None then None
        else
          match Resolve(c, d.fields[n - 1].ty.value, env, depth)
          case None => None
          case Some(child) => Place(c.target, p, d.fields[n - 1].name, child, d.packed)
  }

  function Record(c: Context, name: string, args: seq<Ty>, env: Env, depth: nat): Option<Layout>
    requires c.target.Valid() && depth <= MAX_DEPTH
    decreases MAX_DEPTH + 1 - depth, 1
  {
    if name !in c.decls.structs then None
    else
      var d := c.decls.structs[name];
      if |d.params| != |args| || (d.packed && d.transparent) || |d.fields| > MAX_FIELDS then None
      else
        match ResolveFields(c, d, if |args| > 0 then [Binding(d.params, args)] + env else env, depth + 1, |d.fields|)
        case None => None
        case Some(p) => CloseRecord(c.target, d, p)
  }

  /** Result with an i64 error is a record: tag, value, error, index. */
  function ShortResult(c: Context, value: Ty, env: Env, depth: nat): Option<Layout>
    requires c.target.Valid() && depth <= MAX_DEPTH
    decreases MAX_DEPTH + 1 - depth, 3
  {
    match Resolve(c, Prim(I64), env, depth)
    case None => None
    case Some(tag) =>
      match Resolve(c, value, env, depth)
      case None => None
      case Some(v) =>
        match PlaceAll(c.target, EMPTY, [("tag", tag), ("value", v), ("error", tag), ("index", tag)])
        case None => None
        case Some(p) =>
          match Close(c.target, StructK, p)
          case None => None
          case Some(l) => Some(l.(inhabited := true))
  }

  function PlaceAll(t: Target, p: Placement, items: seq<(string, Layout)>): Option<Placement>
    requires t.Valid()
    decreases |items|
  {
    if items == [] then Some(p)
    else
      match Place(t, p, items[0].0, items[0].1, false)
      case None => None
      case Some(q) => PlaceAll(t, q, items[1..])
  }

  /** The variants of an enum with the types of their payloads. Undeclared Option and Result take them
      from their arguments, i64 standing in for missing ones. */
  function VariantsOf(c: Context, name: string, args: seq<Ty>): Option<seq<VariantDef>>
  {
    var option, result, declared := name == "Option", name == "Result", name in c.decls.enums;
    if !declared && !option && !result then None
    else if (option && |args| > 1) || (result && |args| != 0 && |args| != 2) || (declared && |args| != 0) then None
    else if declared then Some(c.decls.enums[name].variants)
    else if option then Some([VariantDef("None", []), VariantDef("Some", [Some(if |args| > 0 then args[0] else Prim(I64))])])
    else
      Some([VariantDef("Ok", [Some(if |args| > 0 then args[0] else Prim(I64))]),
            VariantDef("Err", [Some(if |args| > 0 then args[1] else Prim(I64))])])
  }

  function ResolvePayload(c: Context, types: seq<Option<Ty>>, env: Env, depth: nat, n: nat): Option<Placement>
    requires c.target.Valid() && depth <= MAX_DEPTH + 1 && n <= |types|
    decreases MAX_DEPTH + 1 - depth, 3, n
  {
    if n == 0 then Some(EMPTY)
    else
      match ResolvePayload(c, types, env, depth, n - 1)
      case None => None
      case Some(p) =>
        if types[n - 1] == None then None
        else
          match Resolve(c, types[n - 1].value, env, depth)
          case None => None
          case Some(child) => Place(c.target, p, IndexName(n - 1), child, false)
  }

  /** The first n variants, each payload laid out like a tuple. */
  function ResolveVariants(c: Context, vs: seq<VariantDef>, env: Env, depth: nat, n: nat): Option<seq<Variant>>
    requires c.target.Valid() && depth <= MAX_DEPTH + 1 && n <= |vs|
    decreases MAX_DEPTH + 1 - depth, 4, n
  {
    if n == 0 then Some([])
    else
      match ResolveVariants(c, vs, env, depth, n - 1)
      case None => None
      case Some(done) =>
        var v := vs[n - 1];
        if |v.types| > MAX_FIELDS then None
        else
          match ResolvePayload(c, v.types, env, depth, |v.types|)
          case None => None
          case Some(p) =>
            match Close(c.target, TupleK, p)
            case None => None
            case Some(payload) => Some(done + [Variant(v.name, n - 1, payload)])
  }

  function MaxSize(vs: seq<Variant>): Size {
    if vs == [] then 0
    else
      var m, s := MaxSize(vs[..|vs| - 1]), vs[|vs| - 1].payload.size;
      if m < s then s else m
  }

  function MaxAlign(vs: seq<Variant>): Size {
    if vs == [] then 1
    else
      var m, a := MaxAlign(vs[..|vs| - 1]), vs[|vs| - 1].payload.align;
      if m < a then a else m
  }

  predicate SomeInhabited(vs: seq<Variant>) { exists i :: 0 <= i < |vs| && vs[i].payload.inhabited }

  /** A 64-bit tag, then the payloads on top of each other. */
  function Tagged(t: Target, vs: seq<Variant>): Option<Layout>
    requires t.Valid()
  {
    if vs == [] then Some(Layout(EnumK, 0, 1, false, [], None, 0, [], 0))
    else
      var a := MaxAlign(vs);
      match AlignUp(t.maxObject, 8, a)
      case None => None
      case Some(offset) =>
        if offset > t.maxObject || MaxSize(vs) > t.maxObject - offset then None
        else
          Round(t, Layout(EnumK, offset + MaxSize(vs), if a > 8 then a else 8, SomeInhabited(vs), [], None, 0, vs, offset))
  }

  function Enumeration(c: Context, name: string, args: seq<Ty>, env: Env, depth: nat): Option<Layout>
    requires c.target.Valid() && depth <= MAX_DEPTH
    decreases MAX_DEPTH + 1 - depth, 1
  {
    match VariantsOf(c, name, args)
    case None => None
    case Some(vs) =>
      if |vs| > MAX_FIELDS then None
      else
        match ResolveVariants(c, vs, env, depth + 1, |vs|)
        case None => None
        case Some(done) => Tagged(c.target, done)
  }
}
