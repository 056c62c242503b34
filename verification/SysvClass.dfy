/** How the System V AMD64 ABI passes a value (section 3.2.3 of its psABI): classify and
    re0_layout_sysv_classify in src/analysis/layout.c. */
module SysvClass {
  import opened Wrappers

  import opened Alignment
  import opened LayoutSpec
  import opened LayoutSound
  import Words

  datatype Class = NoClass | Integer | Sse | Memory

  datatype Passing = Passing(word0: Class, word1: Class, words: nat, indirect: bool)

  // ----- the reference: scalar leaves -----

  /** A scalar at its place in the outermost object. */
  datatype Leaf = Leaf(offset: nat, size: nat, abi: Class)

  function ClassOf(k: Kind): Class { if k.F32? || k.F64? then Sse else Integer }

  predicate IsScalar(k: Kind) { !k.ArrayK? && !k.EnumK? && !k.StructK? && !k.TupleK? }

  /** Where the i-th element of an array starts. */
  function Elem(l: Layout, offset: nat, i: nat): nat
    requires l.element.Some?
  {
    offset + i * l.element.value.size
  }

  /** The leaf is one of the scalars of l placed at offset; the variants of an enum lie on top of each
      other, and objects without size have no scalars. */
  ghost predicate IsLeaf(l: Layout, offset: nat, leaf: Leaf)
    decreases l
  {
    l.size > 0 &&
    match l.kind
    case ArrayK => l.element.Some? && exists i: nat :: i < l.length && IsLeaf(l.element.value, Elem(l, offset, i), leaf)
    case EnumK =>
      leaf == Leaf(offset, 8, Integer) ||
      exists v :: v in l.variants && IsLeaf(v.payload, offset + l.payloadOffset, leaf)
    case StructK | TupleK => exists f :: f in l.fields && IsLeaf(f.ty, offset + f.offset, leaf)
    case k => leaf == Leaf(offset, l.size, ClassOf(k))
  }

  /** The leaf lies, at least in part, in eightbyte w. */
  predicate Overlaps(leaf: Leaf, w: nat) { leaf.size > 0 && leaf.offset < 8 * (w + 1) && 8 * w < leaf.offset + leaf.size }

  ghost predicate Touches(l: Layout, offset: nat, abi: Class, w: nat) {
    exists leaf :: IsLeaf(l, offset, leaf) && leaf.abi == abi && Overlaps(leaf, w)
  }

  /** INTEGER dominates SSE; an eightbyte of padding has no class. */
  ghost function Merged(l: Layout, w: nat): Class {
    if Touches(l, 0, Integer, w) then Integer else if Touches(l, 0, Sse, w) then Sse else NoClass
  }

  /** Every object with size that l at offset consists of is aligned, and so are the objects directly inside. */
  ghost predicate Aligned(l: Layout, offset: nat)
    decreases l
  {
    l.align > 0 && offset % l.align == 0 &&
    (l.size > 0 ==>
       match l.kind
       case ArrayK => l.element.Some? ==> forall i: nat :: i < l.length ==> Aligned(l.element.value, Elem(l, offset, i))
       case EnumK => offset % 8 == 0 && forall v :: v in l.variants ==> Aligned(v.payload, offset + l.payloadOffset)
       case StructK | TupleK => forall f :: f in l.fields ==> Aligned(f.ty, offset + f.offset)
       case _ => true)
  }

  /** Levels of nesting the classifier goes through; the tag of an enum is one more level. */
  ghost predicate NestsWithin(l: Layout, levels: int)
    decreases l
  {
    levels > 0 &&
    (l.size > 0 ==>
       match l.kind
       case ArrayK => l.element.Some? && l.length > 0 ==> NestsWithin(l.element.value, levels - 1)
       case EnumK => levels > 1 && forall v :: v in l.variants ==> NestsWithin(v.payload, levels - 1)
       case StructK | TupleK => forall f :: f in l.fields ==> NestsWithin(f.ty, levels - 1)
       case _ => true)
  }

  // ----- the classifier -----

  /** Which words get an INTEGER part and which an SSE part. */
  datatype Parts = Parts(int0: bool, int1: bool, sse0: bool, sse1: bool)

  function Union(a: Parts, b: Parts): Parts {
    Parts(a.int0 || b.int0, a.int1 || b.int1, a.sse0 || b.sse0, a.sse1 || b.sse1)
  }

  const NOTHING := Parts(false, false, false, false)

  ghost function PartsOf(l: Layout, offset: nat): Parts {
    Parts(Touches(l, offset, Integer, 0), Touches(l, offset, Integer, 1), Touches(l, offset, Sse, 0), Touches(l, offset, Sse, 1))
  }

  predicate WordAdded(before: Class, after: Class, integer: bool, sse: bool) {
    && (after == Integer <==> before == Integer || integer)
    && (after != NoClass <==> before != NoClass || integer || sse)
    && before != Memory && after != Memory
  }

  /** Both words after adding these parts. */
  ghost predicate Added(before: seq<Class>, after: seq<Class>, p: Parts) {
    |before| == |after| == 2 && WordAdded(before[0], after[0], p.int0, p.sse0) && WordAdded(before[1], after[1], p.int1, p.sse1)
  }

  ghost predicate NoMemory(out: seq<Class>) { |out| == 2 && out[0] != Memory && out[1] != Memory }

  lemma {:induction false} ScalarParts(l: Layout, offset: nat)
    requires l.size > 0 && IsScalar(l.kind)
    ensures forall w :: (Touches(l, offset, Integer, w) <==> ClassOf(l.kind) == Integer && Overlaps(Leaf(offset, l.size, Integer), w))
                     && (Touches(l, offset, Sse, w) <==> ClassOf(l.kind) == Sse && Overlaps(Leaf(offset, l.size, Sse), w))
  {
    assert IsLeaf(l, offset, Leaf(offset, l.size, ClassOf(l.kind)));
  }

  /** An eightbyte of a record of scalars: INTEGER as soon as something other than a float lies in it, even
      in part, SSE when only floats do. */
  lemma {:induction false} FlatClass(l: Layout, w: nat)
    requires (l.kind.StructK? || l.kind.TupleK?) && l.size > 0
    requires forall f :: f in l.fields ==> f.ty.size > 0 && !f.ty.kind.ArrayK? && !f.ty.kind.EnumK? && !f.ty.kind.StructK? && !f.ty.kind.TupleK?
    ensures Merged(l, w) == Integer <==> exists f :: f in l.fields && InWord(f, w) && !f.ty.kind.F32? && !f.ty.kind.F64?
    ensures Merged(l, w) == NoClass <==> forall f :: f in l.fields ==> !InWord(f, w)
    ensures Merged(l, w) != Memory
  {
    hide IsLeaf;
    forall f | f in l.fields && InWord(f, w)
      ensures Touches(l, 0, if f.ty.kind.F32? || f.ty.kind.F64? then Sse else Integer, w)
    {
      var leaf := Leaf(f.offset, f.ty.size, if f.ty.kind.F32? || f.ty.kind.F64? then Sse else Integer);
      FlatLeaf(l, f, leaf);
    }
    forall abi | abi != Memory && Touches(l, 0, abi, w)
      ensures exists f :: f in l.fields && InWord(f, w) && abi == if f.ty.kind.F32? || f.ty.kind.F64? then Sse else Integer
    {
      var leaf :| IsLeaf(l, 0, leaf) && leaf.abi == abi && Overlaps(leaf, w);
      var f := LeafOfFlat(l, leaf);
      assert InWord(f, w);
    }
  }

  lemma {:induction false} FlatLeaf(l: Layout, f: Field, leaf: Leaf)
    requires (l.kind.StructK? || l.kind.TupleK?) && l.size > 0 && f in l.fields && f.ty.size > 0 && IsScalar(f.ty.kind)
    requires leaf == Leaf(f.offset, f.ty.size, if f.ty.kind.F32? || f.ty.kind.F64? then Sse else Integer)
    ensures IsLeaf(l, 0, leaf)
  {
    assert IsLeaf(f.ty, 0 + f.offset, leaf);
  }

  lemma {:induction false} LeafOfFlat(l: Layout, leaf: Leaf) returns (f: Field)
    requires (l.kind.StructK? || l.kind.TupleK?) && IsLeaf(l, 0, leaf)
    requires forall f :: f in l.fields ==> IsScalar(f.ty.kind)
    ensures f in l.fields && leaf == Leaf(f.offset, f.ty.size, if f.ty.kind.F32? || f.ty.kind.F64? then Sse else Integer)
  {
    f :| f in l.fields && IsLeaf(f.ty, 0 + f.offset, leaf);
  }

  ghost predicate InWord(f: Field, w: nat) { f.offset < 8 * w + 8 && 8 * w < f.offset + f.ty.size }

  /** Mark the eightbytes a scalar lies in. */
  method MarkScalar(offset: nat, size: nat, abi: Class, out: array<Class>)
    requires size > 0 && offset + size <= 16 && (abi == Integer || abi == Sse) && NoMemory(out[..])
    modifies out
    ensures var leaf := Leaf(offset, size, abi);
      Added(old(out[..]), out[..], Parts(abi == Integer && Overlaps(leaf, 0), abi == Integer && Overlaps(leaf, 1),
                                         abi == Sse && Overlaps(leaf, 0), abi == Sse && Overlaps(leaf, 1)))
  {
    var i := offset / 8;
    while i <= (offset + size - 1) / 8
      invariant offset / 8 <= i <= (offset + size - 1) / 8 + 1
      invariant forall w :: 0 <= w < 2 ==>
        out[w] == if offset / 8 <= w < i && (old(out[w]) == NoClass || abi == Integer) then abi else old(out[w])
    {
      if out[i] == NoClass || abi == Integer { out[i] := abi; }
      i := i + 1;
    }
  }

  // ----- parts of compound objects -----

  ghost function PartsOfElems(l: Layout, offset: nat, n: nat): Parts
    requires l.element.Some?
  {
    if n == 0 then NOTHING else Union(PartsOfElems(l, offset, n - 1), PartsOf(l.element.value, Elem(l, offset, n - 1)))
  }

  ghost function PartsOfFields(fs: seq<Field>, offset: nat): Parts {
    if fs == [] then NOTHING
    else Union(PartsOfFields(fs[..|fs| - 1], offset), PartsOf(fs[|fs| - 1].ty, offset + fs[|fs| - 1].offset))
  }

  ghost function PartsOfVariants(vs: seq<Variant>, offset: nat): Parts {
    if vs == [] then NOTHING else Union(PartsOfVariants(vs[..|vs| - 1], offset), PartsOf(vs[|vs| - 1].payload, offset))
  }

  /** One of the parts, by class and word. */
  predicate Has(p: Parts, abi: Class, w: nat) {
    (abi == Integer && ((w == 0 && p.int0) || (w == 1 && p.int1))) || (abi == Sse && ((w == 0 && p.sse0) || (w == 1 && p.sse1)))
  }

  lemma {:induction false} HasPart(l: Layout, offset: nat, abi: Class, w: nat)
    requires w < 2 && (abi == Integer || abi == Sse)
    ensures Has(PartsOf(l, offset), abi, w) <==> Touches(l, offset, abi, w)
  {
  }

  lemma {:induction false} HasElems(l: Layout, offset: nat, n: nat, abi: Class, w: nat)
    requires l.element.Some? && w < 2 && (abi == Integer || abi == Sse)
    ensures Has(PartsOfElems(l, offset, n), abi, w) <==>
      exists i: nat :: i < n && Touches(l.element.value, Elem(l, offset, i), abi, w)
  {
    hide Elem, Touches;
    if n > 0 {
      HasElems(l, offset, n - 1, abi, w);
      HasPart(l.element.value, Elem(l, offset, n - 1), abi, w);
      if Has(PartsOfElems(l, offset, n), abi, w) && Touches(l.element.value, Elem(l, offset, n - 1), abi, w) {
        assert n - 1 < n;
      }
    }
  }

  lemma {:induction false} HasFields(fs: seq<Field>, offset: nat, abi: Class, w: nat)
    requires w < 2 && (abi == Integer || abi == Sse)
    ensures Has(PartsOfFields(fs, offset), abi, w) <==> exists f :: f in fs && Touches(f.ty, offset + f.offset, abi, w)
  {
    hide Touches;
    if fs != [] {
      var front, last := fs[..|fs| - 1], fs[|fs| - 1];
      HasFields(front, offset, abi, w);
      HasPart(last.ty, offset + last.offset, abi, w);
      assert forall f :: f in fs <==> f in front || f == last;
    }
  }

  lemma {:induction false} HasVariants(vs: seq<Variant>, offset: nat, abi: Class, w: nat)
    requires w < 2 && (abi == Integer || abi == Sse)
    ensures Has(PartsOfVariants(vs, offset), abi, w) <==> exists v :: v in vs && Touches(v.payload, offset, abi, w)
  {
    hide Touches;
    if vs != [] {
      var front, last := vs[..|vs| - 1], vs[|vs| - 1];
      HasVariants(front, offset, abi, w);
      HasPart(last.payload, offset, abi, w);
      assert forall v :: v in vs <==> v in front || v == last;
    }
  }

  lemma {:induction false} SameParts(p: Parts, q: Parts)
    requires forall abi, w: nat {:trigger Has(p, abi, w)} :: w < 2 && (abi == Integer || abi == Sse) ==> (Has(p, abi, w) <==> Has(q, abi, w))
    ensures p == q
  {
    assert Has(p, Integer, 0) <==> p.int0;
    assert Has(p, Integer, 1) <==> p.int1;
    assert Has(p, Sse, 0) <==> p.sse0;
    assert Has(p, Sse, 1) <==> p.sse1;
  }

  lemma {:induction false} ArrayParts(l: Layout, offset: nat)
    requires l.kind.ArrayK? && l.element.Some? && l.size > 0
    ensures PartsOf(l, offset) == PartsOfElems(l, offset, l.length)
  {
    forall abi, w: nat | w < 2 && (abi == Integer || abi == Sse)
      ensures Has(PartsOf(l, offset), abi, w) <==> Has(PartsOfElems(l, offset, l.length), abi, w)
    {
      HasPart(l, offset, abi, w);
      HasElems(l, offset, l.length, abi, w);
      ArrayTouches(l, offset, abi, w);
    }
    SameParts(PartsOf(l, offset), PartsOfElems(l, offset, l.length));
  }

  lemma {:induction false} ArrayLeaf(l: Layout, offset: nat, leaf: Leaf)
    requires l.kind.ArrayK? && l.element.Some? && l.size > 0
    ensures IsLeaf(l, offset, leaf) <==> exists i: nat :: i < l.length && IsLeaf(l.element.value, Elem(l, offset, i), leaf)
  {
    hide Elem;
  }

  lemma {:induction false} ArrayTouches(l: Layout, offset: nat, abi: Class, w: nat)
    requires l.kind.ArrayK? && l.element.Some? && l.size > 0
    ensures Touches(l, offset, abi, w) <==> exists i: nat :: i < l.length && Touches(l.element.value, Elem(l, offset, i), abi, w)
  {
    hide Elem, IsLeaf, Overlaps;
    if Touches(l, offset, abi, w) {
      var leaf :| IsLeaf(l, offset, leaf) && leaf.abi == abi && Overlaps(leaf, w);
      ArrayLeaf(l, offset, leaf);
      var i: nat :| i < l.length && IsLeaf(l.element.value, Elem(l, offset, i), leaf);
      assert Touches(l.element.value, Elem(l, offset, i), abi, w);
    }
    if exists i: nat :: i < l.length && Touches(l.element.value, Elem(l, offset, i), abi, w) {
      var i: nat :| i < l.length && Touches(l.element.value, Elem(l, offset, i), abi, w);
      var leaf :| IsLeaf(l.element.value, Elem(l, offset, i), leaf) && leaf.abi == abi && Overlaps(leaf, w);
      ArrayLeaf(l, offset, leaf);
      assert IsLeaf(l, offset, leaf);
    }
  }

  lemma {:induction false} RecordParts(l: Layout, offset: nat)
    requires (l.kind.StructK? || l.kind.TupleK?) && l.size > 0
    ensures PartsOf(l, offset) == PartsOfFields(l.fields, offset)
  {
    forall abi, w: nat | w < 2 && (abi == Integer || abi == Sse)
      ensures Has(PartsOf(l, offset), abi, w) <==> Has(PartsOfFields(l.fields, offset), abi, w)
    {
      HasPart(l, offset, abi, w);
      HasFields(l.fields, offset, abi, w);
      RecordTouches(l, offset, abi, w);
    }
    SameParts(PartsOf(l, offset), PartsOfFields(l.fields, offset));
  }

  lemma {:induction false} RecordLeaf(l: Layout, offset: nat, leaf: Leaf)
    requires (l.kind.StructK? || l.kind.TupleK?) && l.size > 0
    ensures IsLeaf(l, offset, leaf) <==> exists f :: f in l.fields && IsLeaf(f.ty, offset + f.offset, leaf)
  {
  }

  lemma {:induction false} RecordTouches(l: Layout, offset: nat, abi: Class, w: nat)
    requires (l.kind.StructK? || l.kind.TupleK?) && l.size > 0
    ensures Touches(l, offset, abi, w) <==> exists f :: f in l.fields && Touches(f.ty, offset + f.offset, abi, w)
  {
    hide IsLeaf, Overlaps;
    if Touches(l, offset, abi, w) {
      var leaf :| IsLeaf(l, offset, leaf) && leaf.abi == abi && Overlaps(leaf, w);
      RecordLeaf(l, offset, leaf);
      var f :| f in l.fields && IsLeaf(f.ty, offset + f.offset, leaf);
      assert Touches(f.ty, offset + f.offset, abi, w);
    }
    if exists f :: f in l.fields && Touches(f.ty, offset + f.offset, abi, w) {
      var f :| f in l.fields && Touches(f.ty, offset + f.offset, abi, w);
      var leaf :| IsLeaf(f.ty, offset + f.offset, leaf) && leaf.abi == abi && Overlaps(leaf, w);
      RecordLeaf(l, offset, leaf);
      assert IsLeaf(l, offset, leaf);
    }
  }

  function TagParts(offset: nat): Parts {
    Parts(Overlaps(Leaf(offset, 8, Integer), 0), Overlaps(Leaf(offset, 8, Integer), 1), false, false)
  }

  lemma {:induction false} EnumParts(l: Layout, offset: nat)
    requires l.kind.EnumK? && l.size > 0
    ensures PartsOf(l, offset) == Union(TagParts(offset), PartsOfVariants(l.variants, offset + l.payloadOffset))
  {
    hide Touches, IsLeaf;
    var q := Union(TagParts(offset), PartsOfVariants(l.variants, offset + l.payloadOffset));
    forall abi, w: nat | w < 2 && (abi == Integer || abi == Sse)
      ensures Has(PartsOf(l, offset), abi, w) <==> Has(q, abi, w)
    {
      HasPart(l, offset, abi, w);
      HasVariants(l.variants, offset + l.payloadOffset, abi, w);
      EnumTouches(l, offset, abi, w);
    }
    SameParts(PartsOf(l, offset), q);
  }

  lemma {:induction false} EnumLeaf(l: Layout, offset: nat, leaf: Leaf)
    requires l.kind.EnumK? && l.size > 0
    ensures IsLeaf(l, offset, leaf) <==>
      leaf == Leaf(offset, 8, Integer) || exists v :: v in l.variants && IsLeaf(v.payload, offset + l.payloadOffset, leaf)
  {
  }

  lemma {:induction false} EnumTouches(l: Layout, offset: nat, abi: Class, w: nat)
    requires l.kind.EnumK? && l.size > 0
    ensures Touches(l, offset, abi, w) <==>
      (abi == Integer && Overlaps(Leaf(offset, 8, Integer), w)) ||
      exists v :: v in l.variants && Touches(v.payload, offset + l.payloadOffset, abi, w)
  {
    hide IsLeaf, Overlaps;
    EnumLeaf(l, offset, Leaf(offset, 8, Integer));
    if Touches(l, offset, abi, w) {
      var leaf :| IsLeaf(l, offset, leaf) && leaf.abi == abi && Overlaps(leaf, w);
      EnumLeaf(l, offset, leaf);
      if leaf != Leaf(offset, 8, Integer) {
        var v :| v in l.variants && IsLeaf(v.payload, offset + l.payloadOffset, leaf);
        assert Touches(v.payload, offset + l.payloadOffset, abi, w);
      }
    }
    if exists v :: v in l.variants && Touches(v.payload, offset + l.payloadOffset, abi, w) {
      var v :| v in l.variants && Touches(v.payload, offset + l.payloadOffset, abi, w);
      var leaf :| IsLeaf(v.payload, offset + l.payloadOffset, leaf) && leaf.abi == abi && Overlaps(leaf, w);
      EnumLeaf(l, offset, leaf);
      assert IsLeaf(l, offset, leaf);
    }
  }

  // ----- the recursion -----

  lemma {:induction false} AddNothing(words: seq<Class>)
    requires NoMemory(words)
    ensures Added(words, words, NOTHING)
  {
  }

  lemma {:induction false} AddBoth(a: seq<Class>, b: seq<Class>, c: seq<Class>, p: Parts, q: Parts)
    requires Added(a, b, p) && Added(b, c, q)
    ensures Added(a, c, Union(p, q))
  {
  }

  /** What a successful classification means, and when there is none. */
  ghost predicate Classified(l: Layout, offset: nat, depth: nat, before: seq<Class>, after: seq<Class>, ok: bool) {
    && NoMemory(after)
    && (ok <==> offset + l.size <= 16 && Aligned(l, offset) && NestsWithin(l, MAX_DEPTH - depth))
    && (ok ==> Added(before, after, PartsOf(l, offset)))
  }

  method Classify(t: Target, l: Layout, offset: nat, out: array<Class>, depth: nat) returns (ok: bool)
    requires t.Valid() && Sound(t, l) && NoMemory(out[..])
    modifies out
    ensures Classified(l, offset, depth, old(out[..]), out[..], ok)
    decreases l, 1
  {
    hide Touches, IsLeaf, PowerTwo, PartsOf, Sound, Aligned, NestsWithin, Overlaps, Union;
    Here(t, l, offset, MAX_DEPTH - depth);
    if depth >= MAX_DEPTH || offset > 16 || l.size > 16 - offset || !PowerTwo(l.align) || offset % l.align != 0 {
      return false;
    }
    if l.size == 0 {
      NoParts(l, offset);
      AddNothing(out[..]);
      return true;
    }
    match l.kind
    case ArrayK => ok := ClassifyArray(t, l, offset, out, depth);
    case EnumK => ok := ClassifyEnum(t, l, offset, out, depth);
    case StructK | TupleK => ok := ClassifyRecord(t, l, offset, out, depth);
    case _ =>
      MarkScalar(offset, l.size, ClassOf(l.kind), out);
      ScalarPartsOf(l, offset);
      ok := true;
  }

  /** The part of the conditions that concerns the object itself. */
  lemma {:induction false} Here(t: Target, l: Layout, offset: nat, levels: int)
    requires t.Valid() && Sound(t, l)
    ensures PowerTwo(l.align) && l.align > 0
    ensures levels <= 0 ==> !NestsWithin(l, levels)
    ensures offset % l.align != 0 ==> !Aligned(l, offset)
    ensures (l.size == 0 || IsScalar(l.kind)) && levels > 0 && offset % l.align == 0 ==> Aligned(l, offset) && NestsWithin(l, levels)
  {
    hide RecordOk, EnumOk;
  }

  lemma {:induction false} NoParts(l: Layout, offset: nat)
    requires l.size == 0
    ensures PartsOf(l, offset) == NOTHING
  {
  }

  lemma {:induction false} ScalarPartsOf(l: Layout, offset: nat)
    requires l.size > 0 && IsScalar(l.kind)
    ensures var leaf, abi := Leaf(offset, l.size, ClassOf(l.kind)), ClassOf(l.kind);
      PartsOf(l, offset) == Parts(abi == Integer && Overlaps(leaf, 0), abi == Integer && Overlaps(leaf, 1),
                                  abi == Sse && Overlaps(leaf, 0), abi == Sse && Overlaps(leaf, 1))
  {
    hide Touches, IsLeaf, Overlaps;
    ScalarParts(l, offset);
  }

  ghost predicate ElemsOk(l: Layout, offset: nat, levels: int, n: nat)
    requires l.element.Some?
  {
    forall i: nat :: i < n ==> Aligned(l.element.value, Elem(l, offset, i)) && NestsWithin(l.element.value, levels)
  }

  method ClassifyArray(t: Target, l: Layout, offset: nat, out: array<Class>, depth: nat) returns (ok: bool)
    requires t.Valid() && Sound(t, l) && NoMemory(out[..]) && l.kind.ArrayK? && l.size > 0
    requires depth < MAX_DEPTH && offset + l.size <= 16 && l.align > 0 && offset % l.align == 0
    modifies out
    ensures Classified(l, offset, depth, old(out[..]), out[..], ok)
    decreases l, 0
  {
    hide Touches, IsLeaf, PowerTwo, PartsOf, Elem, Union, Added, Sound, Aligned, NestsWithin, ElemsOk;
    ArrayFacts(t, l);
    var e := l.element.value;
    var i := 0;
    ok := true;
    AddNothing(out[..]);
    ElemNone(l, offset, MAX_DEPTH - depth - 1);
    while i < l.length && ok
      invariant 0 <= i <= l.length && NoMemory(out[..])
      invariant ok ==> Added(old(out[..]), out[..], PartsOfElems(l, offset, i)) && ElemsOk(l, offset, MAX_DEPTH - depth - 1, i)
      invariant !ok ==> !ElemsOk(l, offset, MAX_DEPTH - depth - 1, l.length)
      decreases l.length - i, ok
    {
      ElemInside(l, offset, i);
      ElemNext(l, offset, MAX_DEPTH - depth - 1, i);
      ghost var before := out[..];
      ok := Classify(t, e, offset + i * e.size, out, depth + 1);
      if ok { AddBoth(old(out[..]), before, out[..], PartsOfElems(l, offset, i), PartsOf(e, Elem(l, offset, i))); }
      i := i + 1;
    }
    ArrayParts(l, offset);
    ArrayOk(l, offset, MAX_DEPTH - depth);
  }

  lemma {:induction false} ArrayFacts(t: Target, l: Layout)
    requires t.Valid() && Sound(t, l) && l.kind.ArrayK?
    ensures l.element.Some? && Sound(t, l.element.value) && l.size == l.length * l.element.value.size && l.element.value < l
  {
  }

  lemma {:induction false} ElemNone(l: Layout, offset: nat, levels: int)
    requires l.element.Some?
    ensures ElemsOk(l, offset, levels, 0)
  {
  }

  /** One more element: the first n + 1 are fine when the first n are and this one is; and all are only if this one is. */
  lemma {:induction false} ElemNext(l: Layout, offset: nat, levels: int, n: nat)
    requires l.element.Some? && n < l.length
    ensures ElemsOk(l, offset, levels, n + 1) <==>
            ElemsOk(l, offset, levels, n) && Aligned(l.element.value, Elem(l, offset, n)) && NestsWithin(l.element.value, levels)
    ensures ElemsOk(l, offset, levels, l.length) ==> ElemsOk(l, offset, levels, n + 1)
  {
    hide Elem, Aligned, NestsWithin;
    var e := l.element.value;
    if ElemsOk(l, offset, levels, n + 1) {
      assert Aligned(e, Elem(l, offset, n));
    }
    if ElemsOk(l, offset, levels, l.length) {
      forall i: nat | i < n + 1
        ensures Aligned(e, Elem(l, offset, i)) && NestsWithin(e, levels)
      {
        assert i < l.length;
      }
    }
  }

  lemma {:induction false} ElemInside(l: Layout, offset: nat, i: nat)
    requires l.element.Some? && i < l.length && l.size == l.length * l.element.value.size
    ensures Elem(l, offset, i) == offset + i * l.element.value.size && Elem(l, offset, i) + l.element.value.size <= offset + l.size
  {
    Words.MulLe(i + 1, l.length, l.element.value.size);
    Words.MulAdd(i, 0 - 1, l.element.value.size);
  }

  lemma {:induction false} ArrayOk(l: Layout, offset: nat, levels: int)
    requires l.kind.ArrayK? && l.element.Some? && l.size > 0 && levels > 0 && l.align > 0 && offset % l.align == 0
    requires l.size == l.length * l.element.value.size
    ensures ElemsOk(l, offset, levels - 1, l.length) <==> Aligned(l, offset) && NestsWithin(l, levels)
  {
    hide Elem;
    assert l.length > 0;
    if ElemsOk(l, offset, levels - 1, l.length) {
      assert NestsWithin(l.element.value, levels - 1) by { assert Aligned(l.element.value, Elem(l, offset, 0)); }
    }
  }

  ghost predicate FieldsOk(fs: seq<Field>, offset: nat, levels: int, n: nat)
    requires n <= |fs|
  {
    forall i :: 0 <= i < n ==> Aligned(fs[i].ty, offset + fs[i].offset) && NestsWithin(fs[i].ty, levels)
  }

  method ClassifyRecord(t: Target, l: Layout, offset: nat, out: array<Class>, depth: nat) returns (ok: bool)
    requires t.Valid() && Sound(t, l) && NoMemory(out[..]) && (l.kind.StructK? || l.kind.TupleK?) && l.size > 0
    requires depth < MAX_DEPTH && offset + l.size <= 16 && l.align > 0 && offset % l.align == 0
    modifies out
    ensures Classified(l, offset, depth, old(out[..]), out[..], ok)
    decreases l, 0
  {
    hide Touches, IsLeaf, PowerTwo, PartsOf, PartsOfFields, Union, Added, Sound, Aligned, NestsWithin, FieldsOk;
    var i := 0;
    ok := true;
    StartFields(l, offset, MAX_DEPTH - depth - 1, out[..]);
    while i < |l.fields| && ok
      invariant 0 <= i <= |l.fields| && NoMemory(out[..])
      invariant ok ==> Added(old(out[..]), out[..], PartsOfFields(l.fields[..i], offset)) && FieldsOk(l.fields, offset, MAX_DEPTH - depth - 1, i)
      invariant !ok ==> !FieldsOk(l.fields, offset, MAX_DEPTH - depth - 1, |l.fields|)
      decreases |l.fields| - i, ok
    {
      FieldInside(t, l, i);
      FieldNext(l, offset, MAX_DEPTH - depth - 1, i);
      ghost var before := out[..];
      ok := Classify(t, l.fields[i].ty, offset + l.fields[i].offset, out, depth + 1);
      if ok {
        PartsSnoc(l.fields, offset, i);
        AddBoth(old(out[..]), before, out[..], PartsOfFields(l.fields[..i], offset), PartsOf(l.fields[i].ty, offset + l.fields[i].offset));
      }
      i := i + 1;
    }
    assert ok ==> l.fields[..i] == l.fields;
    RecordParts(l, offset);
    RecordOkAligned(l, offset, MAX_DEPTH - depth);
  }

  lemma {:induction false} FieldInside(t: Target, l: Layout, i: nat)
    requires t.Valid() && Sound(t, l) && (l.kind.StructK? || l.kind.TupleK?) && i < |l.fields|
    ensures l.fields[i].offset + l.fields[i].ty.size <= l.size
    ensures Sound(t, l.fields[i].ty) && l.fields[i].ty < l
  {
    hide RecordOk, Sized, EnumOk, PayloadFits;
    assert l.fields[i] in l.fields;
    var packed :| RecordOk(l, packed);
    LastInside(l, packed, i);
  }

  lemma {:induction false} StartFields(l: Layout, offset: nat, levels: int, words: seq<Class>)
    ensures FieldsOk(l.fields, offset, levels, 0) && (NoMemory(words) ==> Added(words, words, PartsOfFields(l.fields[..0], offset)))
  {
    hide Aligned, NestsWithin;
    if NoMemory(words) { AddNothing(words); }
  }

  /** One more field, as for the elements of an array. */
  lemma {:induction false} FieldNext(l: Layout, offset: nat, levels: int, n: nat)
    requires n < |l.fields|
    ensures FieldsOk(l.fields, offset, levels, n + 1) <==>
            FieldsOk(l.fields, offset, levels, n) && Aligned(l.fields[n].ty, offset + l.fields[n].offset) && NestsWithin(l.fields[n].ty, levels)
    ensures FieldsOk(l.fields, offset, levels, |l.fields|) ==> FieldsOk(l.fields, offset, levels, n + 1)
  {
    hide Aligned, NestsWithin;
  }

  lemma {:induction false} PartsSnoc(fs: seq<Field>, offset: nat, n: nat)
    requires n < |fs|
    ensures PartsOfFields(fs[..n + 1], offset) == Union(PartsOfFields(fs[..n], offset), PartsOf(fs[n].ty, offset + fs[n].offset))
  {
    hide PartsOf, Union;
    assert fs[..n + 1][..n] == fs[..n];
  }

  lemma {:induction false} RecordOkAligned(l: Layout, offset: nat, levels: int)
    requires (l.kind.StructK? || l.kind.TupleK?) && l.size > 0 && levels > 0 && l.align > 0 && offset % l.align == 0
    ensures FieldsOk(l.fields, offset, levels - 1, |l.fields|) <==> Aligned(l, offset) && NestsWithin(l, levels)
  {
    if FieldsOk(l.fields, offset, levels - 1, |l.fields|) {
      forall f | f in l.fields
        ensures Aligned(f.ty, offset + f.offset) && NestsWithin(f.ty, levels - 1)
      {
        var i :| 0 <= i < |l.fields| && l.fields[i] == f;
      }
    }
  }

  ghost predicate VariantsOk(vs: seq<Variant>, offset: nat, levels: int, n: nat)
    requires n <= |vs|
  {
    forall i :: 0 <= i < n ==> Aligned(vs[i].payload, offset) && NestsWithin(vs[i].payload, levels)
  }

  method ClassifyEnum(t: Target, l: Layout, offset: nat, out: array<Class>, depth: nat) returns (ok: bool)
    requires t.Valid() && Sound(t, l) && NoMemory(out[..]) && l.kind.EnumK? && l.size > 0
    requires depth < MAX_DEPTH && offset + l.size <= 16 && l.align > 0 && offset % l.align == 0
    modifies out
    ensures Classified(l, offset, depth, old(out[..]), out[..], ok)
    decreases l, 0
  {
    hide Touches, IsLeaf, PowerTwo, PartsOf, Union, Added, EnumOk, Sized, Aligned, NestsWithin, Overlaps, Sound;
    TagInside(t, l);
    EnumOkAligned(l, offset, MAX_DEPTH - depth);
    if depth + 1 >= MAX_DEPTH || offset % 8 != 0 { return false; }
    MarkScalar(offset, 8, Integer, out);
    var at := offset + l.payloadOffset;
    var i := 0;
    ok := true;
    StartVariants(old(out[..]), out[..], offset, at);
    while i < |l.variants| && ok
      invariant 0 <= i <= |l.variants| && NoMemory(out[..])
      invariant ok ==> Added(old(out[..]), out[..], Union(TagParts(offset), PartsOfVariants(l.variants[..i], at)))
      invariant ok ==> VariantsOk(l.variants, at, MAX_DEPTH - depth - 1, i)
      invariant !ok ==> !VariantsOk(l.variants, at, MAX_DEPTH - depth - 1, |l.variants|)
      decreases |l.variants| - i, ok
    {
      PayloadInside(t, l, i);
      ghost var before := out[..];
      ok := Classify(t, l.variants[i].payload, at, out, depth + 1);
      if ok {
        assert l.variants[..i + 1][..i] == l.variants[..i];
        AddBoth(old(out[..]), before, out[..], Union(TagParts(offset), PartsOfVariants(l.variants[..i], at)), PartsOf(l.variants[i].payload, at));
        UnionAssoc(TagParts(offset), PartsOfVariants(l.variants[..i], at), PartsOf(l.variants[i].payload, at));
      }
      i := i + 1;
    }
    assert ok ==> l.variants[..i] == l.variants;
    EnumParts(l, offset);
  }

  lemma {:induction false} UnionAssoc(a: Parts, b: Parts, c: Parts)
    ensures Union(Union(a, b), c) == Union(a, Union(b, c))
  {
  }

  lemma {:induction false} StartVariants(before: seq<Class>, after: seq<Class>, offset: nat, at: nat)
    requires var leaf := Leaf(offset, 8, Integer); Added(before, after, Parts(Overlaps(leaf, 0), Overlaps(leaf, 1), false, false))
    ensures NoMemory(after) && Added(before, after, Union(TagParts(offset), PartsOfVariants([], at)))
  {
  }

  lemma {:induction false} TagInside(t: Target, l: Layout)
    requires t.Valid() && Sound(t, l) && l.kind.EnumK? && l.size > 0
    ensures l.size >= 8
  {
    hide Up;
    UpIsLeast(8, MaxAlign(l.variants));
    UpIsLeast(l.payloadOffset + MaxSize(l.variants), l.align);
  }

  lemma {:induction false} EnumPayload(t: Target, l: Layout, v: Variant)
    requires t.Valid() && Sound(t, l) && l.kind.EnumK? && v in l.variants
    ensures Sound(t, v.payload) && v.payload < l && PayloadFits(l, v.payload)
  {
    hide Up, PayloadFits, Sized, RecordOk;
  }

  lemma {:induction false} PayloadInside(t: Target, l: Layout, i: nat)
    requires t.Valid() && Sound(t, l) && l.kind.EnumK? && i < |l.variants|
    ensures Sound(t, l.variants[i].payload) && l.variants[i].payload < l
    ensures l.payloadOffset + l.variants[i].payload.size <= l.size
  {
    hide Up, RecordOk;
    EnumPayload(t, l, l.variants[i]);
  }

  lemma {:induction false} EnumOkAligned(l: Layout, offset: nat, levels: int)
    requires l.kind.EnumK? && l.size > 0 && levels > 0 && l.align > 0 && offset % l.align == 0
    ensures levels > 1 && offset % 8 == 0 && VariantsOk(l.variants, offset + l.payloadOffset, levels - 1, |l.variants|) <==>
            Aligned(l, offset) && NestsWithin(l, levels)
  {
    if VariantsOk(l.variants, offset + l.payloadOffset, levels - 1, |l.variants|) {
      forall v | v in l.variants
        ensures Aligned(v.payload, offset + l.payloadOffset) && NestsWithin(v.payload, levels - 1)
      {
        var i :| 0 <= i < |l.variants| && l.variants[i] == v;
      }
    }
  }

  // ----- the whole classification -----

  /** None for uninhabited types. In memory exactly when the value is larger than two eightbytes, has a
      misaligned part, or nests too deeply; otherwise each word has its merged class. */
  method SysvClassify(t: Target, l: Layout) returns (r: Option<Passing>)
    requires t.Valid() && Sound(t, l)
    ensures r == None <==> !l.inhabited
    ensures r.Some? ==> (r.value.indirect <==> !(l.size <= 16 && Aligned(l, 0) && NestsWithin(l, MAX_DEPTH)))
    ensures r.Some? && r.value.indirect ==> r.value == Passing(Memory, NoClass, 0, true)
    ensures r.Some? && !r.value.indirect ==> r.value == Passing(Merged(l, 0), Merged(l, 1), (l.size + 7) / 8, false)
  {
    hide Sound, Aligned, NestsWithin, Touches;
    if !l.inhabited { return None; }
    var out := new Class[2](_ => NoClass);
    var ok := l.size <= 16;
    if ok { ok := Classify(t, l, 0, out, 0); }
    if !ok { return Some(Passing(Memory, NoClass, 0, true)); }
    r := Some(Passing(out[0], out[1], (l.size + 7) / 8, false));
  }
}
