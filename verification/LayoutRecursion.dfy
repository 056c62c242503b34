/** Types that contain themselves by value (resolve in src/analysis/layout.c): resolution always ends, and fails. */
module LayoutRecursion {
  import opened Wrappers
  import opened LayoutSpec
  import Words

  /** A type together with the bindings its names are read in. */
  type Node = (Ty, Env)

  // ----- what a type contains by value -----

  ghost predicate EnumPart(c: Context, name: string, args: seq<Ty>, part: Ty) {
    var vs := VariantsOf(c, name, args);
    vs.Some? && exists v :: v in vs.value && Some(part) in v.types
  }

  ghost predicate RecordPart(c: Context, name: string, args: seq<Ty>, env: Env, part: Node) {
    name in c.decls.structs &&
    var d := c.decls.structs[name];
    (exists f :: f in d.fields && f.ty == Some(part.0)) && part.1 == if |args| > 0 then [Binding(d.params, args)] + env else env
  }

  /** What a name that is no parameter stands for. */
  ghost predicate NamedPart(c: Context, name: string, env: Env, part: Node) {
    if name in c.decls.aliases then c.decls.aliases[name] == Some(part.0) && part.1 == env
    else if name in c.decls.enums || name == "Option" || name == "Result" then EnumPart(c, name, [], part.0) && part.1 == env
    else RecordPart(c, name, [], env, part)
  }

  /** One step: an element, a component, a field under its bindings, a payload, an argument of Option or
      Result, the target of an alias, or what a parameter is bound to. */
  ghost predicate ByValue(c: Context, a: Node, b: Node) {
    match a.0
    case Prim(_) => false
    case Unknown => false
    case Array(elem, _) => b == (elem, a.1)
    case Tuple(elems) => b.0 in elems && b.1 == a.1
    case Named(name) => (match Lookup(a.1, name) case Some(bound) => b == bound case None => NamedPart(c, name, a.1, b))
    case Generic(name, args) =>
      if name == "Result" && |args| == 2 && args[1] == Prim(I64) then (b.0 == Prim(I64) || b.0 == args[0]) && b.1 == a.1
      else if name == "Option" || name == "Result" then EnumPart(c, name, args, b.0) && b.1 == a.1
      else RecordPart(c, name, args, a.1, b)
  }

  // ----- a part without a layout -----

  /** No layout for the node at this nesting or one level deeper. */
  ghost predicate Lacks(c: Context, n: Node, depth: nat)
    requires c.target.Valid()
  {
    (depth <= MAX_DEPTH + 1 ==> Resolve(c, n.0, n.1, depth) == None) && (depth <= MAX_DEPTH ==> Resolve(c, n.0, n.1, depth + 1) == None)
  }

  lemma {:induction false} TupleFails(c: Context, elems: seq<Ty>, env: Env, depth: nat, i: nat, n: nat)
    requires c.target.Valid() && depth <= MAX_DEPTH && i < n <= |elems| && Resolve(c, elems[i], env, depth) == None
    ensures ResolveTuple(c, elems, env, depth, n) == None
    decreases n
  {
    hide Place, Resolve;
    if i < n - 1 { TupleFails(c, elems, env, depth, i, n - 1); }
  }

  lemma {:induction false} FieldFails(c: Context, d: StructDef, env: Env, depth: nat, i: nat, n: nat)
    requires c.target.Valid() && depth <= MAX_DEPTH + 1 && i < n <= |d.fields|
    requires d.fields[i].ty.Some? && Resolve(c, d.fields[i].ty.value, env, depth) == None
    ensures ResolveFields(c, d, env, depth, n) == None
    decreases n
  {
    hide Place, Resolve;
    if i < n - 1 { FieldFails(c, d, env, depth, i, n - 1); }
  }

  lemma {:induction false} PayloadFails(c: Context, types: seq<Option<Ty>>, env: Env, depth: nat, i: nat, n: nat)
    requires c.target.Valid() && depth <= MAX_DEPTH + 1 && i < n <= |types|
    requires types[i].Some? && Resolve(c, types[i].value, env, depth) == None
    ensures ResolvePayload(c, types, env, depth, n) == None
    decreases n
  {
    hide Place, Resolve;
    if i < n - 1 { PayloadFails(c, types, env, depth, i, n - 1); }
  }

  lemma {:induction false} VariantFails(c: Context, vs: seq<VariantDef>, env: Env, depth: nat, i: nat, n: nat)
    requires c.target.Valid() && depth <= MAX_DEPTH + 1 && i < n <= |vs|
    requires |vs[i].types| <= MAX_FIELDS ==> ResolvePayload(c, vs[i].types, env, depth, |vs[i].types|) == None
    ensures ResolveVariants(c, vs, env, depth, n) == None
    decreases n
  {
    hide ResolvePayload, Close;
    if i < n - 1 { VariantFails(c, vs, env, depth, i, n - 1); }
  }

  lemma {:induction false} EnumFails(c: Context, name: string, args: seq<Ty>, env: Env, depth: nat, part: Ty)
    requires c.target.Valid() && depth <= MAX_DEPTH && EnumPart(c, name, args, part) && Resolve(c, part, env, depth + 1) == None
    ensures Enumeration(c, name, args, env, depth) == None
  {
    hide Resolve, ResolvePayload, ResolveVariants, Tagged, VariantsOf;
    var vs := VariantsOf(c, name, args).value;
    var v :| v in vs && Some(part) in v.types;
    var i :| 0 <= i < |vs| && vs[i] == v;
    var j :| 0 <= j < |v.types| && v.types[j] == Some(part);
    PayloadFails(c, v.types, env, depth + 1, j, |v.types|);
    VariantFails(c, vs, env, depth + 1, i, |vs|);
  }

  lemma {:induction false} RecordFails(c: Context, name: string, args: seq<Ty>, env: Env, depth: nat, part: Node)
    requires c.target.Valid() && depth <= MAX_DEPTH && RecordPart(c, name, args, env, part) && Resolve(c, part.0, part.1, depth + 1) == None
    ensures Record(c, name, args, env, depth) == None
  {
    hide Resolve, ResolveFields, CloseRecord;
    var d := c.decls.structs[name];
    var f :| f in d.fields && f.ty == Some(part.0);
    var i :| 0 <= i < |d.fields| && d.fields[i] == f;
    FieldFails(c, d, part.1, depth + 1, i, |d.fields|);
  }

  /** A type fails with any of its parts. */
  lemma {:induction false} StepFails(c: Context, a: Node, b: Node, depth: nat)
    requires c.target.Valid() && depth <= MAX_DEPTH + 1 && ByValue(c, a, b) && Lacks(c, b, depth + 1)
    ensures Resolve(c, a.0, a.1, depth) == None
  {
    hide Primitive, ArrayOf, Close, Enumeration, Record, EnumPart, RecordPart, ResolveTuple, PlaceAll;
    if depth >= MAX_DEPTH { return; }
    match a.0
    case Tuple(elems) =>
      var i :| 0 <= i < |elems| && elems[i] == b.0;
      if |elems| <= MAX_FIELDS { TupleFails(c, elems, a.1, depth + 1, i, |elems|); }
    case Named(name) =>
      if Lookup(a.1, name) == None && name !in c.decls.aliases {
        if name in c.decls.enums || name == "Option" || name == "Result" {
          EnumFails(c, name, [], a.1, depth + 1, b.0);
        } else {
          RecordFails(c, name, [], a.1, depth + 1, b);
        }
      }
    case Generic(name, args) =>
      if name == "Result" && |args| == 2 && args[1] == Prim(I64) {
      } else if name == "Option" || name == "Result" {
        EnumFails(c, name, args, a.1, depth + 1, b.0);
      } else {
        RecordFails(c, name, args, a.1, depth + 1, b);
      }
    case _ =>
  }

  // ----- chains -----

  ghost predicate Chain(c: Context, chain: seq<Node>) {
    chain != [] && forall i :: 0 <= i < |chain| - 1 ==> ByValue(c, chain[i], chain[i + 1])
  }

  /** As many steps as levels are left: no layout, whatever the types on the way are. */
  lemma {:induction false} ChainFails(c: Context, chain: seq<Node>, depth: nat)
    requires c.target.Valid() && depth <= MAX_DEPTH + 1 && Chain(c, chain) && |chain| - 1 >= MAX_DEPTH - depth
    ensures Resolve(c, chain[0].0, chain[0].1, depth) == None
    decreases MAX_DEPTH + 1 - depth
  {
    hide Resolve, ByValue;
    if depth >= MAX_DEPTH {
      TooDeep(c, chain[0].0, chain[0].1, depth);
    } else {
      var rest := chain[1..];
      forall i | 0 <= i < |rest| - 1
        ensures ByValue(c, rest[i], rest[i + 1])
      {
        assert ByValue(c, chain[i + 1], chain[i + 2]);
      }
      ChainFails(c, rest, depth + 1);
      if depth + 2 <= MAX_DEPTH + 1 { ChainFails(c, rest, depth + 2); }
      StepFails(c, chain[0], chain[1], depth);
    }
  }

  lemma {:induction false} TooDeep(c: Context, ty: Ty, env: Env, depth: nat)
    requires c.target.Valid() && MAX_DEPTH <= depth <= MAX_DEPTH + 1
    ensures Resolve(c, ty, env, depth) == None
  {
  }

  ghost predicate Unfolds(c: Context, unfolding: nat -> Node, i: nat) { ByValue(c, unfolding(i), unfolding(i + 1)) }

  /** A type that can be unfolded for ever has no layout, at any nesting. */
  lemma {:induction false} EndlessFails(c: Context, unfolding: nat -> Node, depth: nat)
    requires c.target.Valid() && depth <= MAX_DEPTH + 1 && forall i :: Unfolds(c, unfolding, i)
    ensures Resolve(c, unfolding(0).0, unfolding(0).1, depth) == None
  {
    hide Resolve, ByValue;
    var chain := seq(MAX_DEPTH + 1, i requires 0 <= i => unfolding(i));
    forall i | 0 <= i < |chain| - 1
      ensures ByValue(c, chain[i], chain[i + 1])
    {
      assert Unfolds(c, unfolding, i);
    }
    ChainFails(c, chain, depth);
  }

  // ----- circles -----

  /** A way from a type back to itself. The bindings at the start are base; on the way more may be put in
      front of them, as every generic structure does, and those at the end are what one round adds. Names that
      are no parameters at the start are none afterwards either. */
  ghost predicate Circle(c: Context, types: seq<Ty>, added: seq<Env>, base: Env) {
    && |types| == |added| > 1 && types[0] == types[|types| - 1] && added[0] == []
    && (forall i :: 0 <= i < |types| - 1 ==> CircleStep(c, types, added, base, i))
    && forall i, name :: 0 <= i < |types| - 1 && types[i] == Named(name) && Lookup(added[i] + base, name) == None ==>
         Lookup(added[|added| - 1], name) == None
  }

  ghost predicate CircleStep(c: Context, types: seq<Ty>, added: seq<Env>, base: Env, i: nat)
    requires i + 1 < |types| == |added|
  {
    ByValue(c, (types[i], added[i] + base), (types[i + 1], added[i + 1] + base))
  }

  ghost function Repeat(x: Env, k: nat): Env { if k == 0 then [] else x + Repeat(x, k - 1) }

  lemma {:induction false} LookupShorter(env: Env, name: string)
    ensures Lookup(env, name).Some? ==> |Lookup(env, name).value.1| < |env|
  {
    if env != [] { LookupShorter(env[1..], name); }
  }

  /** A lookup that leaves base alone does not depend on it. */
  lemma {:induction false} LookupAbove(xs: Env, base: Env, other: Env, name: string, ty: Ty, ys: Env)
    requires Lookup(xs + base, name) == Some((ty, ys + base))
    ensures Lookup(xs + other, name) == Some((ty, ys + other))
  {
    LookupShorter(base, name);
    assert xs == [] ==> xs + base == base;
    if xs != [] {
      assert (xs + base)[1..] == xs[1..] + base && (xs + other)[1..] == xs[1..] + other;
      if FindName(xs[0].names, name) == None {
        LookupAbove(xs[1..], base, other, name, ty, ys);
      } else {
        SameFront(ys, xs[1..], base);
      }
    }
  }

  lemma {:induction false} SameFront(xs: Env, ys: Env, base: Env)
    requires xs + base == ys + base
    ensures xs == ys
  {
    assert |xs| == |ys|;
    assert xs == (xs + base)[..|xs|] && ys == (ys + base)[..|ys|];
  }

  lemma {:induction false} LookupNone(xs: Env, base: Env, other: Env, name: string)
    requires Lookup(xs + base, name) == None && (Lookup(base, name) == None ==> Lookup(other, name) == None)
    ensures Lookup(xs + other, name) == None
  {
    if xs == [] {
      assert xs + base == base && xs + other == other;
    } else {
      assert (xs + base)[1..] == xs[1..] + base && (xs + other)[1..] == xs[1..] + other;
      if FindName(xs[0].names, name) == None { LookupNone(xs[1..], base, other, name); }
    }
  }

  lemma {:induction false} LookupRepeat(x: Env, k: nat, base: Env, name: string)
    requires Lookup(x, name) == None && Lookup(base, name) == None
    ensures Lookup(Repeat(x, k) + base, name) == None
  {
    if k == 0 {
      assert Repeat(x, 0) + base == base;
    } else {
      LookupRepeat(x, k - 1, base, name);
      assert Repeat(x, k) + base == x + (Repeat(x, k - 1) + base) && x + [] == x;
      LookupNone(x, [], Repeat(x, k - 1) + base, name);
    }
  }

  /** A step that leaves base alone can be taken over any other base. */
  lemma {:induction false} StepAbove(c: Context, t: Ty, xs: Env, u: Ty, ys: Env, base: Env, other: Env)
    requires ByValue(c, (t, xs + base), (u, ys + base))
    requires t.Named? && Lookup(xs + base, t.name) == None ==> Lookup(xs + other, t.name) == None
    ensures ByValue(c, (t, xs + other), (u, ys + other))
  {
    hide Lookup, EnumPart;
    if ys + base == xs + base { SameFront(ys, xs, base); }
    if t.Named? {
      if Lookup(xs + base, t.name).Some? {
        LookupAbove(xs, base, other, t.name, u, ys);
      }
    } else if t.Generic? && t.name in c.decls.structs {
      var binding := Binding(c.decls.structs[t.name].params, t.args);
      assert [binding] + (xs + base) == [binding] + xs + base && [binding] + (xs + other) == [binding] + xs + other;
      if ys + base == [binding] + (xs + base) { SameFront(ys, [binding] + xs, base); }
    }
  }

  ghost function Unrolled(types: seq<Ty>, added: seq<Env>, base: Env, i: nat): Node
    requires |types| == |added| > 1
  {
    var round := |types| - 1;
    (types[i % round], added[i % round] + (Repeat(added[round], i / round) + base))
  }

  lemma {:induction false} UnrolledStep(c: Context, types: seq<Ty>, added: seq<Env>, base: Env, i: nat)
    requires Circle(c, types, added, base)
    ensures ByValue(c, Unrolled(types, added, base, i), Unrolled(types, added, base, i + 1))
  {
    hide ByValue, Lookup;
    var round := |types| - 1;
    var r, k, x := i % round, i / round, added[round];
    var other := Repeat(x, k) + base;
    assert CircleStep(c, types, added, base, r);
    if types[r].Named? && Lookup(added[r] + base, types[r].name) == None {
      if Lookup(base, types[r].name) == None { LookupRepeat(x, k, base, types[r].name); }
      LookupNone(added[r], base, other, types[r].name);
    }
    StepAbove(c, types[r], added[r], types[r + 1], added[r + 1], base, other);
    NextRound(i, round);
    if r + 1 == round {
      assert x + other == added[0] + (Repeat(x, k + 1) + base);
    }
  }

  lemma {:induction false} NextRound(i: nat, round: nat)
    requires round > 0
    ensures (i + 1) % round == (if i % round + 1 == round then 0 else i % round + 1)
    ensures (i + 1) / round == (if i % round + 1 == round then i / round + 1 else i / round)
  {
    if i % round + 1 == round {
      Words.ModUnique(i + 1, round, i / round + 1, 0);
    } else {
      Words.ModUnique(i + 1, round, i / round, i % round + 1);
    }
  }

  /** Whatever comes back to itself has no layout, at any nesting: records, generic ones included, enums,
      Option and Result, aliases, arrays and tuples, in any combination. */
  lemma {:induction false} CircleFails(c: Context, types: seq<Ty>, added: seq<Env>, base: Env, depth: nat)
    requires c.target.Valid() && depth <= MAX_DEPTH + 1 && Circle(c, types, added, base)
    ensures Resolve(c, types[0], base, depth) == None
  {
    hide Resolve, ByValue, Circle;
    CircleShape(c, types, added, base);
    var start := (types[0], base);
    var unfolding := (i: nat) => if |types| == |added| > 1 then Unrolled(types, added, base, i) else start;
    forall i: nat
      ensures Unfolds(c, unfolding, i)
    {
      UnrolledStep(c, types, added, base, i);
    }
    assert unfolding(0) == (types[0], base);
    EndlessFails(c, unfolding, depth);
  }

  lemma {:induction false} CircleShape(c: Context, types: seq<Ty>, added: seq<Env>, base: Env)
    requires Circle(c, types, added, base)
    ensures |types| == |added| > 1 && Unrolled(types, added, base, 0) == (types[0], base)
  {
    assert added[0] + (Repeat(added[|types| - 1], 0) + base) == base;
  }

  // ----- declarations that contain each other -----

  /** Mentions one of these names by value, perhaps inside arrays, tuples, Option or Result. */
  predicate Holds(ty: Ty, names: set<string>)
    decreases ty
  {
    match ty
    case Named(n) => n in names
    case Array(elem, _) => Holds(elem, names)
    case Tuple(elems) => exists i :: 0 <= i < |elems| && Holds(elems[i], names)
    case Generic(n, args) =>
      if n == "Option" || n == "Result" then (n in names && args == []) || exists i :: 0 <= i < |args| && Holds(args[i], names)
      else n in names
    case _ => false
  }

  ghost predicate HoldsSome(ty: Option<Ty>, names: set<string>) { ty.Some? && Holds(ty.value, names) }

  /** Declarations that contain each other by value, all the way round: aliases, enums and structures, also
      generic ones as long as no parameter has one of the names. */
  ghost predicate Knot(c: Context, names: set<string>) {
    forall n :: n in names ==> Knotted(c, names, n)
  }

  ghost predicate Knotted(c: Context, names: set<string>, n: string) {
    && (n in c.decls.aliases ==> c.decls.aliases[n] == None || HoldsSome(c.decls.aliases[n], names))
    && (n in c.decls.enums ==> exists v, ty :: v in c.decls.enums[n].variants && ty in v.types && HoldsSome(ty, names))
    && (n in c.decls.structs ==>
          && (exists f :: f in c.decls.structs[n].fields && HoldsSome(f.ty, names))
          && forall m :: m in names ==> m !in c.decls.structs[n].params)
    && (n !in c.decls.enums ==> n != "Option" && n != "Result")
  }

  ghost predicate Unbound(env: Env, names: set<string>) { forall n :: n in names ==> Lookup(env, n) == None }

  lemma {:induction false} StillUnbound(env: Env, names: set<string>, b: Binding)
    requires Unbound(env, names) && forall m :: m in names ==> m !in b.names
    ensures Unbound([b] + env, names)
  {
    assert ([b] + env)[1..] == env;
    forall m | m in names
      ensures Lookup([b] + env, m) == None
    {
      assert FindName(b.names, m) == None;
    }
  }

  /** If such a type had a layout, a part of it would be such a type again. */
  lemma {:induction false} KnotStep(c: Context, names: set<string>, ty: Ty, env: Env, depth: nat) returns (part: Node)
    requires c.target.Valid() && depth <= MAX_DEPTH + 1 && Knot(c, names) && Unbound(env, names) && Holds(ty, names)
    requires Resolve(c, ty, env, depth).Some?
    ensures ByValue(c, (ty, env), part) && Holds(part.0, names) && Unbound(part.1, names)
  {
    hide Primitive, ArrayOf, Close, Enumeration, Record, ResolveTuple, ShortResult, Knotted, Lookup;
    match ty
    case Array(elem, _) => part := (elem, env);
    case Tuple(elems) =>
      var i :| 0 <= i < |elems| && Holds(elems[i], names);
      part := (elems[i], env);
    case Named(n) =>
      assert Knotted(c, names, n);
      if n in c.decls.aliases {
        part := KnottedAlias(c, names, n, env);
      } else if n in c.decls.enums {
        var t := KnottedEnum(c, names, n);
        part := (t, env);
      } else {
        KnottedPlain(c, names, n);
        part := KnottedRecord(c, names, n, [], env, depth + 1);
      }
    case Generic(n, args) =>
      if n == "Result" && |args| == 2 && args[1] == Prim(I64) {
        part := (args[0], env);
        ShortArgument(names, n, args);
      } else if n == "Option" || n == "Result" {
        var t := KnottedArgument(c, names, n, args, env, depth + 1);
        part := (t, env);
      } else {
        assert Knotted(c, names, n);
        part := KnottedRecord(c, names, n, args, env, depth + 1);
      }
  }

  lemma {:induction false} KnottedAlias(c: Context, names: set<string>, n: string, env: Env) returns (part: Node)
    requires Knotted(c, names, n) && n in c.decls.aliases && c.decls.aliases[n].Some?
    ensures NamedPart(c, n, env, part) && Holds(part.0, names) && part.1 == env
  {
    part := (c.decls.aliases[n].value, env);
  }

  lemma {:induction false} KnottedPlain(c: Context, names: set<string>, n: string)
    requires Knotted(c, names, n) && n !in c.decls.aliases && n !in c.decls.enums
    ensures n != "Option" && n != "Result"
  {
  }

  lemma {:induction false} KnottedEnum(c: Context, names: set<string>, n: string) returns (part: Ty)
    requires Knotted(c, names, n) && n in c.decls.enums
    ensures EnumPart(c, n, [], part) && Holds(part, names)
  {
    hide Holds;
    var v, ty :| v in c.decls.enums[n].variants && ty in v.types && HoldsSome(ty, names);
    part := ty.value;
  }

  lemma {:induction false} KnottedRecord(c: Context, names: set<string>, n: string, args: seq<Ty>, env: Env, depth: nat) returns (part: Node)
    requires c.target.Valid() && depth <= MAX_DEPTH && Knotted(c, names, n) && Unbound(env, names)
    requires Record(c, n, args, env, depth).Some?
    ensures RecordPart(c, n, args, env, part) && Holds(part.0, names) && Unbound(part.1, names)
  {
    hide Holds, ResolveFields, CloseRecord, Unbound;
    var d := c.decls.structs[n];
    var f :| f in d.fields && HoldsSome(f.ty, names);
    if |args| > 0 { StillUnbound(env, names, Binding(d.params, args)); }
    part := (f.ty.value, if |args| > 0 then [Binding(d.params, args)] + env else env);
  }

  lemma {:induction false} ShortArgument(names: set<string>, n: string, args: seq<Ty>)
    requires n == "Result" && |args| == 2 && args[1] == Prim(I64) && Holds(Generic(n, args), names)
    ensures Holds(args[0], names)
  {
    var i :| 0 <= i < |args| && Holds(args[i], names);
  }

  lemma {:induction false} KnottedArgument(c: Context, names: set<string>, n: string, args: seq<Ty>, env: Env, depth: nat) returns (part: Ty)
    requires c.target.Valid() && depth <= MAX_DEPTH && Knot(c, names) && (n == "Option" || n == "Result")
    requires Holds(Generic(n, args), names) && Enumeration(c, n, args, env, depth).Some?
    ensures EnumPart(c, n, args, part) && Holds(part, names)
  {
    hide ResolveVariants, Tagged, Knotted, VariantsOf, EnumPart;
    if args == [] {
      assert Knotted(c, names, n);
      KnottedBuiltin(c, names, n);
      part := KnottedEnum(c, names, n);
    } else {
      var i :| 0 <= i < |args| && Holds(args[i], names);
      part := args[i];
      ArgumentPart(c, n, args, i);
    }
  }

  lemma {:induction false} KnottedBuiltin(c: Context, names: set<string>, n: string)
    requires Knotted(c, names, n) && (n == "Option" || n == "Result")
    ensures n in c.decls.enums
  {
  }

  /** Every argument of Option or Result is the payload of a variant. */
  lemma {:induction false} ArgumentPart(c: Context, n: string, args: seq<Ty>, i: nat)
    requires (n == "Option" || n == "Result") && VariantsOf(c, n, args).Some? && i < |args|
    ensures EnumPart(c, n, args, args[i])
  {
    var vs := VariantsOf(c, n, args).value;
    var v := vs[if n == "Option" then 1 else i];
    assert v in vs && v.types[0] == Some(args[i]);
  }

  /** Laying out such a type fails, whatever the nesting it is met at; nothing recursive ever gets a size. */
  lemma {:induction false} KnotFails(c: Context, names: set<string>, ty: Ty, env: Env, depth: nat)
    requires c.target.Valid() && depth <= MAX_DEPTH + 1 && Knot(c, names) && Unbound(env, names) && Holds(ty, names)
    ensures Resolve(c, ty, env, depth) == None
    decreases MAX_DEPTH + 1 - depth
  {
    hide Resolve, Knot, Unbound, Holds, ByValue;
    if depth >= MAX_DEPTH {
      TooDeep(c, ty, env, depth);
    } else if Resolve(c, ty, env, depth).Some? {
      var part := KnotStep(c, names, ty, env, depth);
      KnotFails(c, names, part.0, part.1, depth + 1);
      if depth + 2 <= MAX_DEPTH + 1 { KnotFails(c, names, part.0, part.1, depth + 2); }
      StepFails(c, (ty, env), part, depth);
    }
  }

  // ----- two familiar cases -----

  predicate HasField(d: StructDef, ty: Ty) { exists f :: f in d.fields && f.ty == Some(ty) }

  /** struct N { next: Option<N> } */
  lemma {:induction false} ListFails(c: Context, n: string, depth: nat)
    requires c.target.Valid() && depth <= MAX_DEPTH + 1
    requires n in c.decls.structs && n !in c.decls.aliases && n !in c.decls.enums && n != "Option" && n != "Result"
    requires n !in c.decls.structs[n].params && HasField(c.decls.structs[n], Generic("Option", [Named(n)]))
    ensures Resolve(c, Named(n), [], depth) == None
  {
    hide Resolve;
    var next := Generic("Option", [Named(n)]);
    assert Holds(next.args[0], {n});
    assert HoldsSome(Some(next), {n});
    KnotFails(c, {n}, Named(n), [], depth);
  }

  /** struct W<T> { v: T } and struct N { w: W<N> }: back to N through the parameter. */
  lemma {:induction false} WrapperFails(c: Context, n: string, w: string, t: string, depth: nat)
    requires c.target.Valid() && depth <= MAX_DEPTH + 1
    requires forall m :: m in [n, w] ==> m in c.decls.structs && m !in c.decls.aliases && m !in c.decls.enums && m != "Option" && m != "Result"
    requires c.decls.structs[w].params == [t] && HasField(c.decls.structs[w], Named(t)) && HasField(c.decls.structs[n], Generic(w, [Named(n)]))
    ensures Resolve(c, Named(n), [], depth) == None
  {
    hide Resolve;
    assert n in [n, w] && w in [n, w];
    var bound: Env := [Binding([t], [Named(n)])];
    var types := [Named(n), Generic(w, [Named(n)]), Named(t), Named(n)];
    var added: seq<Env> := [[], [], bound, []];
    assert [] + bound == bound && bound[1..] == [];
    assert CircleStep(c, types, added, [], 0);
    assert CircleStep(c, types, added, [], 1);
    assert CircleStep(c, types, added, [], 2);
    CircleFails(c, types, added, [], depth);
  }
}
