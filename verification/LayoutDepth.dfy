/** A value the classifier sends to memory although it is small and aligned: the tag of an enum counts as
    one more level of nesting than the layout manager counted. */
module LayoutDepth {
  import opened Wrappers
  import opened Alignment
  import opened LayoutSpec
  import opened LayoutSound
  import opened SysvClass

  const X86_64 := Target(8, 8, 16, 0x7FFF_FFFF_FFFF_FFFF)

  /** enum E { A } */
  const PROGRAM := Context(X86_64, Decls(map[], map["E" := EnumDef([VariantDef("A", [])])], map[]))

  /** E inside n one-element tuples. */
  function Tower(n: nat): Ty { if n == 0 then Named("E") else Tuple([Tower(n - 1)]) }

  const UNIT_PAYLOAD := Layout(TupleK, 0, 1, true, [], None, 0, [], 0)

  function TowerLayout(n: nat): Layout {
    if n == 0 then Layout(EnumK, 8, 8, true, [], None, 0, [Variant("A", 0, UNIT_PAYLOAD)], 8)
    else Layout(TupleK, 8, 8, true, [Field(IndexName(0), 0, TowerLayout(n - 1))], None, 0, [], 0)
  }

  lemma {:induction false} TargetValid()
    ensures X86_64.Valid()
  {
    hide PowerTwo;
    SmallPowers();
  }

  lemma {:induction false} Whole(n: Size, a: Size)
    requires X86_64.Valid() && PowerTwo(a) && a > 0 && n % a == 0 && n <= 8
    ensures AlignUp(X86_64.maxObject, n, a) == Some(n)
  {
    hide PowerTwo, AlignUp, Up;
    AlignUpMeaning(X86_64.maxObject, n, a);
    UpAligned(n, a);
  }

  lemma {:induction false} Eights()
    ensures X86_64.Valid()
    ensures AlignUp(X86_64.maxObject, 0, 1) == Some(0) && AlignUp(X86_64.maxObject, 8, 1) == Some(8)
    ensures AlignUp(X86_64.maxObject, 0, 8) == Some(0) && AlignUp(X86_64.maxObject, 8, 8) == Some(8)
  {
    hide PowerTwo, AlignUp, Up;
    TargetValid();
    SmallPowers();
    Whole(0, 1);
    Whole(8, 1);
    Whole(0, 8);
    Whole(8, 8);
  }

  lemma {:induction false} BottomResolves(depth: nat)
    requires depth < MAX_DEPTH
    ensures X86_64.Valid() && Resolve(PROGRAM, Named("E"), [], depth) == Some(TowerLayout(0))
  {
    hide AlignUp, PowerTwo;
    Eights();
    var vs := PROGRAM.decls.enums["E"].variants;
    assert ResolvePayload(PROGRAM, [], [], depth + 2, 0) == Some(EMPTY);
    assert Close(X86_64, TupleK, EMPTY) == Some(UNIT_PAYLOAD);
    var one := [Variant("A", 0, UNIT_PAYLOAD)];
    assert ResolveVariants(PROGRAM, vs, [], depth + 2, 0) == Some([]);
    assert vs[0] == VariantDef("A", []) && [] + one == one;
    assert ResolveVariants(PROGRAM, vs, [], depth + 2, 1) == Some(one);
    assert one[..0] == [];
    assert MaxSize(one) == 0 && MaxAlign(one) == 1;
    assert one[0].payload.inhabited;
    assert Tagged(X86_64, one) == Some(TowerLayout(0));
    assert Enumeration(PROGRAM, "E", [], [], depth + 1) == Some(TowerLayout(0));
  }

  lemma {:induction false} PlaceFirst(name: string, child: Layout)
    requires child.size == 8 && child.align == 8 && child.inhabited
    ensures X86_64.Valid() && Place(X86_64, EMPTY, name, child, false) == Some(Placement([Field(name, 0, child)], 8, 8, true))
  {
    hide AlignUp, PowerTwo;
    Eights();
    assert [] + [Field(name, 0, child)] == [Field(name, 0, child)];
  }

  lemma {:induction false} TowerResolves(n: nat, depth: nat)
    requires n + depth < MAX_DEPTH
    ensures X86_64.Valid() && Resolve(PROGRAM, Tower(n), [], depth) == Some(TowerLayout(n))
    decreases n
  {
    hide Resolve, Close, ResolveTuple, TowerLayout, PowerTwo, Around, Tower;
    TowerIs(n);
    if n == 0 {
      BottomResolves(depth);
    } else {
      TowerResolves(n - 1, depth + 1);
      assert X86_64.Valid();
      OneComponent(n - 1, depth + 1);
      CloseOne(n - 1);
      TupleResolves([Tower(n - 1)], depth);
    }
  }

  lemma {:induction false} TowerIs(n: nat)
    ensures Tower(n) == if n == 0 then Named("E") else Tuple([Tower(n - 1)])
  {
  }

  function Around(n: nat): Placement { Placement([Field(IndexName(0), 0, TowerLayout(n))], 8, 8, true) }

  lemma {:induction false} OneComponent(n: nat, depth: nat)
    requires depth <= MAX_DEPTH && X86_64.Valid() && Resolve(PROGRAM, Tower(n), [], depth) == Some(TowerLayout(n))
    ensures ResolveTuple(PROGRAM, [Tower(n)], [], depth, 1) == Some(Around(n))
  {
    hide Resolve, Place, IndexName, PowerTwo;
    TowerAligned(n);
    PlaceFirst(IndexName(0), TowerLayout(n));
    assert ResolveTuple(PROGRAM, [Tower(n)], [], depth, 0) == Some(EMPTY);
  }

  lemma {:induction false} CloseOne(n: nat)
    requires X86_64.Valid()
    ensures Close(X86_64, TupleK, Around(n)) == Some(TowerLayout(n + 1))
  {
    hide AlignUp, PowerTwo, IndexName;
    Eights();
  }

  /** The tuple case of resolution. */
  lemma {:induction false} TupleResolves(elems: seq<Ty>, depth: nat)
    requires depth < MAX_DEPTH && |elems| <= MAX_FIELDS && X86_64.Valid() && ResolveTuple(PROGRAM, elems, [], depth + 1, |elems|).Some?
    ensures Resolve(PROGRAM, Tuple(elems), [], depth) == Close(X86_64, TupleK, ResolveTuple(PROGRAM, elems, [], depth + 1, |elems|).value)
  {
    hide ResolveTuple, Close, PowerTwo;
  }

  lemma {:induction false} TowerNests(n: nat, levels: int)
    ensures NestsWithin(TowerLayout(n), levels) <==> levels >= n + 2
  {
    if n == 0 {
      assert NestsWithin(UNIT_PAYLOAD, levels - 1) <==> levels > 1;
    } else {
      TowerNests(n - 1, levels - 1);
      assert TowerLayout(n).fields == [Field(IndexName(0), 0, TowerLayout(n - 1))];
    }
  }

  lemma {:induction false} TowerAligned(n: nat)
    ensures TowerLayout(n).size == 8 && TowerLayout(n).align == 8 && TowerLayout(n).inhabited && Aligned(TowerLayout(n), 0)
  {
    if n == 0 {
      assert Aligned(UNIT_PAYLOAD, 8);
    } else {
      TowerAligned(n - 1);
      assert TowerLayout(n).fields == [Field(IndexName(0), 0, TowerLayout(n - 1))];
    }
  }

  /** The manager lays the type out in one aligned eightbyte, yet the classifier sends it to memory: it nests
      too deeply. */
  method SmallButInMemory() returns (r: Option<Passing>)
    ensures X86_64.Valid() && Resolve(PROGRAM, Tower(127), [], 0) == Some(TowerLayout(127))
    ensures TowerLayout(127).size == 8 && TowerLayout(127).inhabited && Aligned(TowerLayout(127), 0)
    ensures !NestsWithin(TowerLayout(127), MAX_DEPTH) && r == Some(Passing(Memory, NoClass, 0, true))
  {
    hide Resolve, Sound, Aligned, NestsWithin, PowerTwo, TowerLayout;
    var n := 127;
    TowerResolves(n, 0);
    TowerAligned(n);
    TowerNests(n, MAX_DEPTH);
    ResolveSound(PROGRAM, Tower(n), [], 0);
    r := SysvClassify(X86_64, TowerLayout(n));
  }
}
