/** Everything the lowering accepts passes the verifier, unless a non-unit function can reach its end. */
module LowerVerifies {
  import opened Wrappers
  import opened Numeric
  import opened NativeTypes
  import opened Ast
  import opened LowerSpec
  import opened Divergence
  import opened LowerHeights
  import opened Verifier
  import LowerLabels
  import IR = NativeIr

  /** One function of a module with a height for every instruction. */
  datatype View = View(funcs: seq<IR.Func>, f: IR.Func, a: seq<int>)

  /** The signatures of the module are those the lowering worked with; labels are marked at most once. */
  ghost predicate Valid(v: View, c: Unit) {
    && |v.a| == |v.f.code| && |v.funcs| == |c.sigs|
    && (forall id: nat :: LowerLabels.Marks(v.f.code, id) <= 1)
    && (forall g :: 0 <= g < |v.funcs| ==> |v.funcs[g].params| == |c.sigs[g].params|)
  }

  /** The code is at pc, and so are its heights. */
  ghost predicate Laid(v: View, pc: nat, code: seq<IR.Inst>, hs: seq<int>) {
    && |v.a| == |v.f.code| && |hs| == |code| && pc + |code| <= |v.f.code|
    && v.f.code[pc..pc + |code|] == code && v.a[pc..pc + |code|] == hs
  }

  lemma {:induction false} LaidConcat(v: View, pc: nat, a: seq<IR.Inst>, b: seq<IR.Inst>, x: seq<int>, y: seq<int>)
    requires Laid(v, pc, a + b, x + y) && |a| == |x|
    ensures Laid(v, pc, a, x) && Laid(v, pc + |a|, b, y)
  {
    var code, hs := v.f.code[pc..pc + |a + b|], v.a[pc..pc + |a + b|];
    assert a == code[..|a|] == v.f.code[pc..pc + |a|];
    assert b == code[|a|..] == v.f.code[pc + |a|..pc + |a| + |b|];
    assert x == hs[..|a|] == v.a[pc..pc + |a|];
    assert y == hs[|a|..] == v.a[pc + |a|..pc + |a| + |b|];
  }

  lemma {:induction false} LaidAll(v: View)
    ensures forall pc: nat, a, b, x, y {:trigger Laid(v, pc, a + b, x + y)} ::
      Laid(v, pc, a + b, x + y) && |a| == |x| ==> Laid(v, pc, a, x) && Laid(v, pc + |a|, b, y)
  {
    forall pc: nat, a, b, x, y | Laid(v, pc, a + b, x + y) && |a| == |x|
      ensures Laid(v, pc, a, x) && Laid(v, pc + |a|, b, y)
    {
      LaidConcat(v, pc, a, b, x, y);
    }
  }

  lemma {:induction false} LaidOne(v: View, pc: nat, i: IR.Inst, h: int)
    requires Laid(v, pc, [i], [h])
    ensures pc < |v.f.code| == |v.a| && v.f.code[pc] == i && v.a[pc] == h
  {
    assert v.f.code[pc..pc + 1][0] == v.f.code[pc] && v.a[pc..pc + 1][0] == v.a[pc];
  }

  ghost predicate Exit(v: View, pc: nat, h: int) { pc < |v.a| && v.a[pc] == h }

  /** Control comes in at height h, and each of the next n instructions it can reach flows on properly. */
  ghost predicate Good(v: View, pc: nat, n: nat, h: int) {
    && |v.a| == |v.f.code| && pc + n <= |v.a| && Exit(v, pc, h)
    && forall q :: pc <= q < pc + n && v.a[q] >= 0 ==> NodeOk(v.funcs, v.f, v.a, q)
  }

  lemma {:induction false} Then(v: View, pc: nat, m: nat, n: nat, h: int, h2: int)
    requires Good(v, pc, m, h) && Good(v, pc + m, n, h2)
    ensures Good(v, pc, m + n, h)
  {
    hide NodeOk;
  }

  lemma {:induction false} GoodNone(v: View, pc: nat, h: int)
    requires |v.a| == |v.f.code| && Exit(v, pc, h)
    ensures Good(v, pc, 0, h)
  {
  }

  // ----- single instructions -----

  predicate Plain(i: IR.Inst) { !i.Jump? && !i.Jz? && !i.Return? && !i.End? }

  lemma {:induction false} Falls(v: View, pc: nat, i: IR.Inst, h: int)
    requires Laid(v, pc, [i], [h]) && Plain(i)
    requires h >= 0 ==> Need(v.funcs, i) <= h && Exit(v, pc + 1, h + Change(v.funcs, i))
    ensures Good(v, pc, 1, h)
  {
    hide Need, Change;
    LaidOne(v, pc, i, h);
    assert Successors(v.f, pc) == [Some(pc + 1)];
  }

  /** Where the mark of a label is, and the height there. */
  ghost predicate MarkAt(v: View, id: nat, to: nat, h: int) {
    to < |v.f.code| == |v.a| && v.f.code[to] == IR.Label(id) && v.a[to] == h
  }

  lemma {:induction false} Jumps(v: View, c: Unit, pc: nat, id: nat, to: nat, h: int)
    requires Valid(v, c) && Laid(v, pc, [IR.Jump(id)], [h]) && (h >= 0 ==> MarkAt(v, id, to, h))
    ensures Good(v, pc, 1, h)
  {
    LaidOne(v, pc, IR.Jump(id), h);
    if h >= 0 {
      LowerLabels.FindUnique(v.f.code, id, to);
    }
  }

  lemma {:induction false} JumpsIfZero(v: View, c: Unit, pc: nat, id: nat, to: nat, h: int)
    requires Valid(v, c) && Laid(v, pc, [IR.Jz(id)], [h]) && h >= 1 && MarkAt(v, id, to, h - 1) && Exit(v, pc + 1, h - 1)
    ensures Good(v, pc, 1, h)
  {
    LaidOne(v, pc, IR.Jz(id), h);
    LowerLabels.FindUnique(v.f.code, id, to);
    assert Successors(v.f, pc) == [Some(pc + 1), Some(to)];
  }

  lemma {:induction false} Returns(v: View, pc: nat, t: NType)
    requires Laid(v, pc, [IR.Return(t)], [1])
    ensures Good(v, pc, 1, 1)
  {
    LaidOne(v, pc, IR.Return(t), 1);
  }

  lemma {:induction false} Converts(v: View, pc: nat, from: NType, to: NType, h: int)
    requires Laid(v, pc, ConvertCode(from, to), ConvertHeights(from, to, h)) && h >= 1
    requires |v.a| == |v.f.code| && Exit(v, pc + |ConvertCode(from, to)|, h)
    ensures Good(v, pc, |ConvertCode(from, to)|, h)
  {
    if from == to {
      GoodNone(v, pc, h);
    } else {
      Falls(v, pc, IR.Convert(to, from), h);
    }
  }

  // ----- expressions -----

  lemma {:induction false} GoodE(v: View, c: Unit, ctx: seq<Local>, e: Expr, lab: nat, pc: nat, h: int)
    requires Valid(v, c) && h >= 0 && TypeE(c, ctx, e) != Invalid
    requires Laid(v, pc, CodeE(c, ctx, e, lab), HeightsE(c, ctx, e, h))
    requires Exit(v, pc + |CodeE(c, ctx, e, lab)|, h + 1)
    ensures Good(v, pc, |CodeE(c, ctx, e, lab)|, h)
    decreases e, 1
  {
    hide Good, Laid, Valid, IntegerFits, PlanOf, Lookup, FindFunction, ArgsOk, CodeArgs, HeightsArgs, CodeBlock, HeightsBlock;
    hide LogicalCode, LogicalHeights, IfCode, IfElseHeights, ConvertCode, ConvertHeights, LabelsE, TypeBlock;
    match e
    case IntLit(_, _, _) | BoolLit(_, _) | CharLit(_, _) | UnitLit(_) | Ident(_, _) => GoodLeaf(v, c, ctx, e, lab, pc, h);
    case Binary(_, op, _, _) =>
      if op.And? || op.Or? { GoodLogical(v, c, ctx, e, lab, pc, h); } else { GoodStrict(v, c, ctx, e, lab, pc, h); }
    case Unary(_, op, x) => GoodOperator(v, c, ctx, x, lab, pc, h, IR.Unary(TypeE(c, ctx, x), op));
    case Cast(ty, _, x) => GoodOperator(v, c, ctx, x, lab, pc, h, IR.Convert(ty, TypeE(c, ctx, x)));
    case Call(_, _, _) => GoodCall(v, c, ctx, e, lab, pc, h);
    case IfExpr(_, _, _, _) => GoodIf(v, c, ctx, e, lab, pc, h);
    case Block(_, es) =>
      if es == [] { Falls(v, pc, IR.Const(UnitT, 0), h); } else { GoodBlock(v, c, ctx, es, lab, pc, h); }
  }

  lemma {:induction false} GoodLeaf(v: View, c: Unit, ctx: seq<Local>, e: Expr, lab: nat, pc: nat, h: int)
    requires e.IntLit? || e.BoolLit? || e.CharLit? || e.UnitLit? || e.Ident?
    requires h >= 0 && TypeE(c, ctx, e) != Invalid && Laid(v, pc, CodeE(c, ctx, e, lab), HeightsE(c, ctx, e, h))
    requires Exit(v, pc + |CodeE(c, ctx, e, lab)|, h + 1)
    ensures Good(v, pc, |CodeE(c, ctx, e, lab)|, h)
  {
    hide Good, Laid, IntegerFits, Lookup;
    Falls(v, pc, CodeE(c, ctx, e, lab)[0], h);
  }

  /** An operand followed by an instruction that replaces the top of the stack. */
  lemma {:induction false} GoodOperator(v: View, c: Unit, ctx: seq<Local>, x: Expr, lab: nat, pc: nat, h: int, i: IR.Inst)
    requires Valid(v, c) && h >= 0 && TypeE(c, ctx, x) != Invalid
    requires i.Unary? || i.Convert?
    requires Laid(v, pc, CodeE(c, ctx, x, lab) + [i], HeightsE(c, ctx, x, h) + [h + 1])
    requires Exit(v, pc + |CodeE(c, ctx, x, lab)| + 1, h + 1)
    ensures Good(v, pc, |CodeE(c, ctx, x, lab)| + 1, h)
    decreases x, 2
  {
    hide Good, Laid, Valid, TypeE, CodeE, HeightsE;
    var n := |CodeE(c, ctx, x, lab)|;
    LengthE(c, ctx, x, lab, h);
    LaidConcat(v, pc, CodeE(c, ctx, x, lab), [i], HeightsE(c, ctx, x, h), [h + 1]);
    Falls(v, pc + n, i, h + 1);
    ExitOf(v, pc + n, 1, h + 1);
    GoodE(v, c, ctx, x, lab, pc, h);
    Then(v, pc, n, 1, h, h + 1);
  }

  lemma {:induction false} ExitOf(v: View, pc: nat, n: nat, h: int)
    requires Good(v, pc, n, h)
    ensures Exit(v, pc, h)
  {
  }

  lemma {:induction false} GoodStrict(v: View, c: Unit, ctx: seq<Local>, e: Expr, lab: nat, pc: nat, h: int)
    requires Valid(v, c) && h >= 0 && e.Binary? && !e.op.And? && !e.op.Or? && TypeE(c, ctx, e) != Invalid
    requires Laid(v, pc, CodeE(c, ctx, e, lab), HeightsE(c, ctx, e, h))
    requires Exit(v, pc + |CodeE(c, ctx, e, lab)|, h + 1)
    ensures Good(v, pc, |CodeE(c, ctx, e, lab)|, h)
    decreases e, 0
  {
    hide Good, Laid, Valid, PlanOf, TypeE, CodeE, HeightsE, LabelsE, ConvertCode, ConvertHeights, Exit;
    BinaryAccepted(c, ctx, e);
    BinaryForm(c, ctx, e, lab);
    BinaryHeights(c, ctx, e, h);
    var lab' := lab + LabelsE(e.left);
    var plan := PlanOf(c.target, e.ty, e.op, e.left, e.right);
    var from1, from2 := if plan.convert then e.left.ty else plan.operand, if plan.convert then e.right.ty else plan.operand;
    var l, r := CodeE(c, ctx, e.left, lab), CodeE(c, ctx, e.right, lab');
    LengthE(c, ctx, e.left, lab, h);
    LengthE(c, ctx, e.right, lab', h + 1);
    ValidLength(v, c);
    var p2 := StrictRight(v, pc, l, r, HeightsE(c, ctx, e.left, h), HeightsE(c, ctx, e.right, h + 1), from1, from2, plan.operand, e.op, h);
    GoodE(v, c, ctx, e.right, lab', p2, h + 1);
    StrictLeft(v, pc, p2, l, r, HeightsE(c, ctx, e.left, h), HeightsE(c, ctx, e.right, h + 1), from1, from2, plan.operand, e.op, h);
    GoodE(v, c, ctx, e.left, lab, pc, h);
    Then(v, pc, |l|, |CodeE(c, ctx, e, lab)| - |l|, h, h + 1);
  }

  /** From the right operand's end to the end of the operation. */
  lemma {:induction false} StrictRight(v: View, pc: nat, l: seq<IR.Inst>, r: seq<IR.Inst>, x: seq<int>, y: seq<int>,
                    from1: NType, from2: NType, t: NType, op: BinOp, h: int) returns (p2: nat)
    requires h >= 0 && |l| == |x| && |r| == |y| && |v.a| == |v.f.code|
    requires Laid(v, pc, l + ConvertCode(from1, t) + r + ConvertCode(from2, t) + [IR.Binary(t, op)],
                  x + ConvertHeights(from1, t, h + 1) + y + ConvertHeights(from2, t, h + 2) + [h + 2])
    requires Exit(v, pc + |l| + |ConvertCode(from1, t)| + |r| + |ConvertCode(from2, t)| + 1, h + 1)
    ensures p2 == pc + |l| + |ConvertCode(from1, t)|
    ensures Laid(v, p2, r, y) && Good(v, p2 + |r|, |ConvertCode(from2, t)| + 1, h + 2) && Exit(v, p2 + |r|, h + 2)
  {
    hide Good, Laid, ConvertCode, ConvertHeights;
    ConvertLength(from1, t, h + 1);
    ConvertLength(from2, t, h + 2);
    LaidAll(v);
    p2 := pc + |l| + |ConvertCode(from1, t)|;
    var p3, k2 := p2 + |r|, |ConvertCode(from2, t)|;
    Falls(v, p3 + k2, IR.Binary(t, op), h + 2);
    ExitOf(v, p3 + k2, 1, h + 2);
    Converts(v, p3, from2, t, h + 2);
    ExitOf(v, p3, k2, h + 2);
    Then(v, p3, k2, 1, h + 2, h + 2);
  }

  lemma {:induction false} StrictLeft(v: View, pc: nat, p2: nat, l: seq<IR.Inst>, r: seq<IR.Inst>, x: seq<int>, y: seq<int>,
                   from1: NType, from2: NType, t: NType, op: BinOp, h: int)
    requires h >= 0 && |l| == |x| && |r| == |y| && |v.a| == |v.f.code|
    requires Laid(v, pc, l + ConvertCode(from1, t) + r + ConvertCode(from2, t) + [IR.Binary(t, op)],
                  x + ConvertHeights(from1, t, h + 1) + y + ConvertHeights(from2, t, h + 2) + [h + 2])
    requires p2 == pc + |l| + |ConvertCode(from1, t)|
    requires Good(v, p2, |r|, h + 1) && Good(v, p2 + |r|, |ConvertCode(from2, t)| + 1, h + 2)
    ensures Laid(v, pc, l, x) && Exit(v, pc + |l|, h + 1)
    ensures Good(v, pc + |l|, |ConvertCode(from1, t)| + |r| + |ConvertCode(from2, t)| + 1, h + 1)
  {
    hide Good, Laid, ConvertCode, ConvertHeights, Exit;
    ConvertLength(from1, t, h + 1);
    ConvertLength(from2, t, h + 2);
    LaidAll(v);
    var p1, k1, k2 := pc + |l|, |ConvertCode(from1, t)|, |ConvertCode(from2, t)|;
    ExitOf(v, p2, |r|, h + 1);
    Converts(v, p1, from1, t, h + 1);
    ExitOf(v, p1, k1, h + 1);
    Then(v, p2, |r|, k2 + 1, h + 1, h + 2);
    Then(v, p1, k1, |r| + k2 + 1, h + 1, h + 1);
  }

  lemma {:induction false} ConvertLength(from: NType, to: NType, h: int)
    ensures |ConvertCode(from, to)| == |ConvertHeights(from, to, h)|
  {
  }

  /** A label: control passes it, and jumps to it land at its height. */
  lemma {:induction false} Lands(v: View, pc: nat, id: nat, h: int)
    requires Laid(v, pc, [IR.Label(id)], [h]) && (h >= 0 ==> Exit(v, pc + 1, h))
    ensures Good(v, pc, 1, h) && MarkAt(v, id, pc, h) && Exit(v, pc, h)
  {
    LaidOne(v, pc, IR.Label(id), h);
    Falls(v, pc, IR.Label(id), h);
  }

  lemma {:induction false} GoodLogical(v: View, c: Unit, ctx: seq<Local>, e: Expr, lab: nat, pc: nat, h: int)
    requires Valid(v, c) && h >= 0 && e.Binary? && (e.op.And? || e.op.Or?) && TypeE(c, ctx, e) != Invalid
    requires Laid(v, pc, CodeE(c, ctx, e, lab), HeightsE(c, ctx, e, h))
    requires Exit(v, pc + |CodeE(c, ctx, e, lab)|, h + 1)
    ensures Good(v, pc, |CodeE(c, ctx, e, lab)|, h)
    decreases e, 0
  {
    hide Good, Laid, Valid, PlanOf, TypeE, CodeE, HeightsE, LabelsE, Exit, LogicalCode, LogicalHeights;
    BinaryAccepted(c, ctx, e);
    BinaryForm(c, ctx, e, lab);
    BinaryHeights(c, ctx, e, h);
    var lab' := lab + 2 + LabelsE(e.left);
    LengthE(c, ctx, e.left, lab + 2, h);
    LengthE(c, ctx, e.right, lab', h);
    var l, r := CodeE(c, ctx, e.left, lab + 2), CodeE(c, ctx, e.right, lab');
    var x, y := HeightsE(c, ctx, e.left, h), HeightsE(c, ctx, e.right, h);
    LogicalParts(v, pc, e.op.And?, lab, l, r, x, y, h);
    GoodE(v, c, ctx, e.left, lab + 2, pc, h);
    GoodE(v, c, ctx, e.right, lab', pc + |l| + (if e.op.And? then 1 else 4), h);
    LogicalWhole(v, c, pc, e.op.And?, lab, l, r, x, y, h);
  }

  lemma {:induction false} LogicalParts(v: View, pc: nat, isAnd: bool, lab: nat, l: seq<IR.Inst>, r: seq<IR.Inst>, x: seq<int>, y: seq<int>, h: int)
    requires |l| == |x| && |r| == |y| && Laid(v, pc, LogicalCode(isAnd, lab, l, r), LogicalHeights(isAnd, h, x, y))
    ensures Laid(v, pc, l, x) && Exit(v, pc + |l|, h + 1)
    ensures var right := pc + |l| + (if isAnd then 1 else 4);
      Laid(v, right, r, y) && Exit(v, right + |r|, h + 1)
  {
    hide Laid;
    LaidAll(v);
    LaidOne(v, pc + |l|, IR.Jz(lab), h + 1);
    if isAnd {
      LaidOne(v, pc + |l| + 1 + |r|, IR.Jump(lab + 1), h + 1);
    } else {
      LaidOne(v, pc + |l| + 4 + |r|, IR.Label(lab + 1), h + 1);
    }
  }

  lemma {:induction false} AndWhole(v: View, c: Unit, pc: nat, lab: nat, l: seq<IR.Inst>, r: seq<IR.Inst>, x: seq<int>, y: seq<int>, h: int)
    requires Valid(v, c) && h >= 0 && |l| == |x| && |r| == |y|
    requires Laid(v, pc, LogicalCode(true, lab, l, r), LogicalHeights(true, h, x, y))
    requires Exit(v, pc + |l| + |r| + 5, h + 1)
    requires Good(v, pc, |l|, h) && Good(v, pc + |l| + 1, |r|, h)
    ensures Good(v, pc, |l| + |r| + 5, h)
  {
    hide Good, Laid, Valid, Exit, MarkAt;
    LaidAll(v);
    var test := pc + |l|;
    var over := test + 1 + |r|;
    var end := test + |r| + 4;
    Lands(v, end, lab + 1, h + 1);
    Falls(v, end - 1, IR.Const(BoolT, 0), h);
    ExitOf(v, end - 1, 1, h);
    ExitOf(v, test + 1, |r|, h);
    Then(v, end - 1, 1, 1, h, h + 1);
    Lands(v, over + 1, lab, h);
    Jumps(v, c, over, lab + 1, end, h + 1);
    ExitOf(v, over, 1, h + 1);
    Then(v, over + 1, 1, end - over - 1, h, h);
    Then(v, over, 1, end - over, h + 1, h);
    Then(v, test + 1, |r|, 4, h, h + 1);
    JumpsIfZero(v, c, test, lab, over + 1, h + 1);
    Then(v, test, 1, |r| + 4, h + 1, h);
    Then(v, pc, |l|, |r| + 5, h, h + 1);
  }

  lemma {:induction false} OrWhole(v: View, c: Unit, pc: nat, lab: nat, l: seq<IR.Inst>, r: seq<IR.Inst>, x: seq<int>, y: seq<int>, h: int)
    requires Valid(v, c) && h >= 0 && |l| == |x| && |r| == |y|
    requires Laid(v, pc, LogicalCode(false, lab, l, r), LogicalHeights(false, h, x, y))
    requires Exit(v, pc + |l| + |r| + 5, h + 1)
    requires Good(v, pc, |l|, h) && Good(v, pc + |l| + 4, |r|, h)
    ensures Good(v, pc, |l| + |r| + 5, h)
  {
    hide Good, Laid, Valid, Exit, MarkAt;
    LaidAll(v);
    var test := pc + |l|;
    var over := test + 2;
    var end := test + |r| + 4;
    Lands(v, end, lab + 1, h + 1);
    ExitOf(v, over + 2, |r|, h);
    Then(v, over + 2, |r|, 1, h, h + 1);
    Lands(v, over + 1, lab, h);
    Jumps(v, c, over, lab + 1, end, h + 1);
    ExitOf(v, over, 1, h + 1);
    Then(v, over + 1, 1, end - over - 1, h, h);
    Then(v, over, 1, end - over, h + 1, h);
    Falls(v, test + 1, IR.Const(BoolT, 1), h);
    ExitOf(v, test + 1, 1, h);
    Then(v, test + 1, 1, |r| + 3, h, h + 1);
    JumpsIfZero(v, c, test, lab, over + 1, h + 1);
    Then(v, test, 1, |r| + 4, h + 1, h);
    Then(v, pc, |l|, |r| + 5, h, h + 1);
  }

  lemma {:induction false} LogicalWhole(v: View, c: Unit, pc: nat, isAnd: bool, lab: nat, l: seq<IR.Inst>, r: seq<IR.Inst>, x: seq<int>, y: seq<int>, h: int)
    requires Valid(v, c) && h >= 0 && |l| == |x| && |r| == |y|
    requires Laid(v, pc, LogicalCode(isAnd, lab, l, r), LogicalHeights(isAnd, h, x, y))
    requires Exit(v, pc + |LogicalCode(isAnd, lab, l, r)|, h + 1)
    requires Good(v, pc, |l|, h) && Good(v, pc + |l| + (if isAnd then 1 else 4), |r|, h)
    ensures Good(v, pc, |LogicalCode(isAnd, lab, l, r)|, h)
  {
    hide Good, Laid, Valid, Exit, LogicalHeights;
    if isAnd {
      AndWhole(v, c, pc, lab, l, r, x, y, h);
    } else {
      OrWhole(v, c, pc, lab, l, r, x, y, h);
    }
  }

  lemma {:induction false} GoodElse(v: View, c: Unit, ctx: seq<Local>, els: Option<Expr>, lab: nat, pc: nat, h: int)
    requires Valid(v, c) && h >= 0 && TypeElse(c, ctx, els) != Invalid
    requires Laid(v, pc, CodeElse(c, ctx, els, lab), HeightsElse(c, ctx, els, h))
    requires Exit(v, pc + |CodeElse(c, ctx, els, lab)|, h + 1)
    ensures Good(v, pc, |CodeElse(c, ctx, els, lab)|, h)
    decreases els, 2
  {
    hide Good, Laid, Valid, TypeE, CodeE, HeightsE, LabelsE, Exit;
    if els.Some? {
      GoodE(v, c, ctx, els.value, lab, pc, h);
    } else {
      Falls(v, pc, IR.Const(UnitT, 0), h);
    }
  }

  lemma {:induction false} GoodIf(v: View, c: Unit, ctx: seq<Local>, e: Expr, lab: nat, pc: nat, h: int)
    requires Valid(v, c) && h >= 0 && e.IfExpr? && TypeE(c, ctx, e) != Invalid
    requires Laid(v, pc, CodeE(c, ctx, e, lab), HeightsE(c, ctx, e, h))
    requires Exit(v, pc + |CodeE(c, ctx, e, lab)|, h + 1)
    ensures Good(v, pc, |CodeE(c, ctx, e, lab)|, h)
    decreases e, 0
  {
    hide Good, Laid, Valid, TypeE, CodeE, HeightsE, LabelsE, Exit, MarkAt, TypeElse, CodeElse, HeightsElse;
    Accepted(c, ctx, e);
    IfForm(c, ctx, e, lab);
    IfHeights(c, ctx, e, h);
    var n1 := lab + 2 + LabelsE(e.cond);
    var n2 := n1 + LabelsE(e.thn);
    LengthE(c, ctx, e.cond, lab + 2, h);
    LengthE(c, ctx, e.thn, n1, h);
    LengthElse(c, ctx, e.els, n2, h);
    var t, a, b := CodeE(c, ctx, e.cond, lab + 2), CodeE(c, ctx, e.thn, n1), CodeElse(c, ctx, e.els, n2);
    LaidAll(v);
    var test := pc + |t|;
    var over := test + 1 + |a|;
    var end := over + 2 + |b|;
    Lands(v, end, lab + 1, h + 1);
    GoodElse(v, c, ctx, e.els, n2, over + 2, h);
    ExitOf(v, over + 2, |b|, h);
    Lands(v, over + 1, lab, h);
    Jumps(v, c, over, lab + 1, end, h + 1);
    ExitOf(v, over, 1, h + 1);
    GoodE(v, c, ctx, e.thn, n1, test + 1, h);
    ExitOf(v, test + 1, |a|, h);
    JumpsIfZero(v, c, test, lab, over + 1, h + 1);
    ExitOf(v, test, 1, h + 1);
    GoodE(v, c, ctx, e.cond, lab + 2, pc, h);
    Then(v, over + 2, |b|, 1, h, h + 1);
    Then(v, over + 1, 1, |b| + 1, h, h);
    Then(v, over, 1, |b| + 2, h + 1, h);
    Then(v, test + 1, |a|, |b| + 3, h, h + 1);
    Then(v, test, 1, |a| + |b| + 3, h + 1, h);
    Then(v, pc, |t|, |a| + |b| + 4, h, h + 1);
  }

  lemma {:induction false} LengthElse(c: Unit, ctx: seq<Local>, els: Option<Expr>, lab: nat, h: int)
    requires TypeElse(c, ctx, els) != Invalid
    ensures |CodeElse(c, ctx, els, lab)| == |HeightsElse(c, ctx, els, h)|
  {
    hide TypeE, CodeE, HeightsE;
    if els.Some? {
      LengthE(c, ctx, els.value, lab, h);
    }
  }

  lemma {:induction false} GoodCall(v: View, c: Unit, ctx: seq<Local>, e: Expr, lab: nat, pc: nat, h: int)
    requires Valid(v, c) && h >= 0 && e.Call? && TypeE(c, ctx, e) != Invalid
    requires Laid(v, pc, CodeE(c, ctx, e, lab), HeightsE(c, ctx, e, h))
    requires Exit(v, pc + |CodeE(c, ctx, e, lab)|, h + 1)
    ensures Good(v, pc, |CodeE(c, ctx, e, lab)|, h)
    decreases e, 0
  {
    hide Good, Laid, TypeE, CodeE, HeightsE, LabelsE, CodeArgs, HeightsArgs, ArgsOk, FindFunction;
    Accepted(c, ctx, e);
    LaidAll(v);
    if e.name == "assert" {
      AssertForm(c, ctx, e, lab);
      AssertHeights(c, ctx, e, h);
      var n := |CodeE(c, ctx, e.args[0], lab)|;
      LengthE(c, ctx, e.args[0], lab, h);
      Falls(v, pc + n + 1, IR.Const(UnitT, 0), h);
      ExitOf(v, pc + n + 1, 1, h);
      Falls(v, pc + n, IR.Assert, h + 1);
      ExitOf(v, pc + n, 1, h + 1);
      GoodE(v, c, ctx, e.args[0], lab, pc, h);
      Then(v, pc + n, 1, 1, h + 1, h);
      Then(v, pc, n, 2, h, h + 1);
    } else {
      CallForm(c, ctx, e, lab);
      CallHeights(c, ctx, e, h);
      var g := FindFunction(c.sigs, e.name).value;
      var n := |CodeArgs(c, ctx, e.args, c.sigs[g].params, lab)|;
      LengthArgs(c, ctx, e.args, c.sigs[g].params, lab, h);
      Falls(v, pc + n, IR.Call(c.sigs[g].result, g), h + |e.args|);
      ExitOf(v, pc + n, 1, h + |e.args|);
      GoodArgs(v, c, ctx, e.args, c.sigs[g].params, lab, pc, h);
      Then(v, pc, n, 1, h, h + |e.args|);
    }
  }

  lemma {:induction false} GoodArgs(v: View, c: Unit, ctx: seq<Local>, args: seq<Expr>, params: seq<Param>, lab: nat, pc: nat, h: int)
    requires Valid(v, c) && h >= 0 && |args| == |params| && ArgsOk(c, ctx, args, params)
    requires Laid(v, pc, CodeArgs(c, ctx, args, params, lab), HeightsArgs(c, ctx, args, params, h))
    requires Exit(v, pc + |CodeArgs(c, ctx, args, params, lab)|, h + |args|)
    ensures Good(v, pc, |CodeArgs(c, ctx, args, params, lab)|, h)
    decreases args, 0
  {
    hide Good, Laid, TypeE, CodeE, HeightsE, LabelsE, Compatible, ConvertCode, ConvertHeights, Exit;
    if args == [] {
      ValidLength(v, c);
      GoodNone(v, pc, h);
      return;
    }
    var t := TypeE(c, ctx, args[0]);
    var lab' := lab + LabelsE(args[0]);
    LengthE(c, ctx, args[0], lab, h);
    ConvertLength(t, params[0].ty, h + 1);
    LaidAll(v);
    var n, k := |CodeE(c, ctx, args[0], lab)|, |ConvertCode(t, params[0].ty)|;
    var m := |CodeArgs(c, ctx, args[1..], params[1..], lab')|;
    hide Valid, CodeArgs, HeightsArgs, ArgsOk;
    GoodArgs(v, c, ctx, args[1..], params[1..], lab', pc + n + k, h + 1);
    ExitOf(v, pc + n + k, m, h + 1);
    ValidLength(v, c);
    Converts(v, pc + n, t, params[0].ty, h + 1);
    ExitOf(v, pc + n, k, h + 1);
    GoodE(v, c, ctx, args[0], lab, pc, h);
    Then(v, pc + n, k, m, h + 1, h + 1);
    Then(v, pc, n, k + m, h, h + 1);
  }

  lemma {:induction false} ValidLength(v: View, c: Unit)
    requires Valid(v, c)
    ensures |v.a| == |v.f.code|
  {
  }

  lemma {:induction false} GoodBlock(v: View, c: Unit, ctx: seq<Local>, es: seq<Expr>, lab: nat, pc: nat, h: int)
    requires Valid(v, c) && h >= 0 && es != [] && TypeBlock(c, ctx, es) != Invalid
    requires Laid(v, pc, CodeBlock(c, ctx, es, lab), HeightsBlock(c, ctx, es, h))
    requires Exit(v, pc + |CodeBlock(c, ctx, es, lab)|, h + 1)
    ensures Good(v, pc, |CodeBlock(c, ctx, es, lab)|, h)
    decreases es, 0
  {
    hide Good, Laid, Valid, TypeE, CodeE, HeightsE, LabelsE;
    if |es| == 1 {
      GoodE(v, c, ctx, es[0], lab, pc, h);
      return;
    }
    var lab' := lab + LabelsE(es[0]);
    LengthE(c, ctx, es[0], lab, h);
    LaidAll(v);
    var n, m := |CodeE(c, ctx, es[0], lab)|, |CodeBlock(c, ctx, es[1..], lab')|;
    hide CodeBlock, HeightsBlock, TypeBlock;
    GoodBlock(v, c, ctx, es[1..], lab', pc + n + 1, h);
    ExitOf(v, pc + n + 1, m, h);
    Falls(v, pc + n, IR.Drop, h + 1);
    ExitOf(v, pc + n, 1, h + 1);
    GoodE(v, c, ctx, es[0], lab, pc, h);
    Then(v, pc + n, 1, m, h + 1, h);
    Then(v, pc, n, 1 + m, h, h + 1);
  }

  // ----- statements -----

  /** Where the labels of the innermost loop are; both are reached at height 0. */
  datatype Targets = Targets(brk: nat, cont: nat)

  ghost predicate LoopMarked(v: View, loop: Loop, x: Targets) {
    loop.Loop? ==> MarkAt(v, loop.brk, x.brk, 0) && MarkAt(v, loop.cont, x.cont, 0)
  }

  /** An expression, its conversion, and what uses the value. */
  lemma {:induction false} GoodValue(v: View, c: Unit, ctx: seq<Local>, e: Expr, lab: nat, pc: nat, h: int, to: NType,
                                     rest: seq<IR.Inst>, z: seq<int>)
    requires Valid(v, c) && h >= 0 && TypeE(c, ctx, e) != Invalid && |rest| == |z|
    requires Laid(v, pc, CodeE(c, ctx, e, lab) + ConvertCode(TypeE(c, ctx, e), to) + rest,
                  HeightsE(c, ctx, e, h) + ConvertHeights(TypeE(c, ctx, e), to, h + 1) + z)
    requires Laid(v, pc + |CodeE(c, ctx, e, lab) + ConvertCode(TypeE(c, ctx, e), to)|, rest, z) ==>
      Good(v, pc + |CodeE(c, ctx, e, lab) + ConvertCode(TypeE(c, ctx, e), to)|, |rest|, h + 1)
    ensures Good(v, pc, |CodeE(c, ctx, e, lab) + ConvertCode(TypeE(c, ctx, e), to) + rest|, h)
  {
    hide Good, Laid, TypeE, CodeE, HeightsE, ConvertCode, ConvertHeights, Exit, Valid;
    var t := TypeE(c, ctx, e);
    LengthE(c, ctx, e, lab, h);
    ConvertLength(t, to, h + 1);
    LaidAll(v);
    ValidLength(v, c);
    var n, k := |CodeE(c, ctx, e, lab)|, |ConvertCode(t, to)|;
    ExitOf(v, pc + n + k, |rest|, h + 1);
    Converts(v, pc + n, t, to, h + 1);
    ExitOf(v, pc + n, k, h + 1);
    GoodE(v, c, ctx, e, lab, pc, h);
    Then(v, pc + n, k, |rest|, h + 1, h + 1);
    Then(v, pc, n, k + |rest|, h, h + 1);
  }

  lemma {:induction false} GoodStore(v: View, pc: nat, t: NType, slot: nat)
    requires Laid(v, pc, [IR.Store(t, slot)], [1]) ==> Exit(v, pc + 1, 0)
    ensures Laid(v, pc, [IR.Store(t, slot)], [1]) ==> Good(v, pc, 1, 1)
  {
    hide Good, Laid;
    if Laid(v, pc, [IR.Store(t, slot)], [1]) {
      Falls(v, pc, IR.Store(t, slot), 1);
    }
  }

  lemma {:induction false} GoodUpdate(v: View, pc: nat, t: NType, op: BinOp, slot: nat)
    requires Exit(v, pc + 2, 0)
    ensures Laid(v, pc, [IR.Binary(t, op)] + [IR.Store(t, slot)], [2] + [1]) ==> Good(v, pc, 2, 2)
  {
    hide Good, Laid;
    if Laid(v, pc, [IR.Binary(t, op)] + [IR.Store(t, slot)], [2] + [1]) {
      LaidConcat(v, pc, [IR.Binary(t, op)], [IR.Store(t, slot)], [2], [1]);
      GoodStore(v, pc + 1, t, slot);
      ExitOf(v, pc + 1, 1, 1);
      Falls(v, pc, IR.Binary(t, op), 2);
      Then(v, pc, 1, 1, 2, 1);
    }
  }

  lemma {:induction false} GoodAssign(v: View, k: Analysis, c: Unit, ctx: seq<Local>, loop: Loop, s: Stmt, lab: nat, slot: nat, pc: nat)
    requires Valid(v, c) && s.Assign? && OkS(c, ctx, loop.Loop?, slot, s)
    requires Laid(v, pc, CodeS(c, ctx, loop, s, lab, slot), HeightsS(k, c, ctx, slot, s))
    requires Exit(v, pc + |CodeS(c, ctx, loop, s, lab, slot)|, 0)
    ensures Good(v, pc, |CodeS(c, ctx, loop, s, lab, slot)|, 0)
  {
    hide Good, Laid, Valid, TypeE, CodeE, HeightsE, ConvertCode, ConvertHeights, Lookup, Compatible;
    var l := Lookup(ctx, s.name).value;
    var value, conv := CodeE(c, ctx, s.value, lab), ConvertCode(TypeE(c, ctx, s.value), l.ty);
    if s.compound.Some? {
      var op := s.compound.value;
      var y := HeightsE(c, ctx, s.value, 1) + ConvertHeights(TypeE(c, ctx, s.value), l.ty, 2);
      var whole := [IR.Load(l.ty, l.slot)] + value + conv + [IR.Binary(l.ty, op)] + [IR.Store(l.ty, l.slot)];
      assert whole == [IR.Load(l.ty, l.slot)] + (value + conv + ([IR.Binary(l.ty, op)] + [IR.Store(l.ty, l.slot)]));
      assert HeightsS(k, c, ctx, slot, s) == [0] + (y + ([2] + [1]));
      LaidConcat(v, pc, [IR.Load(l.ty, l.slot)], value + conv + ([IR.Binary(l.ty, op)] + [IR.Store(l.ty, l.slot)]), [0], y + ([2] + [1]));
      GoodUpdate(v, pc + 1 + |value + conv|, l.ty, op, l.slot);
      GoodValue(v, c, ctx, s.value, lab, pc + 1, 1, l.ty, [IR.Binary(l.ty, op)] + [IR.Store(l.ty, l.slot)], [2] + [1]);
      ExitOf(v, pc + 1, |value + conv| + 2, 1);
      Falls(v, pc, IR.Load(l.ty, l.slot), 0);
      Then(v, pc, 1, |value + conv| + 2, 0, 1);
    } else {
      var y := HeightsE(c, ctx, s.value, 0) + ConvertHeights(TypeE(c, ctx, s.value), l.ty, 1);
      assert CodeS(c, ctx, loop, s, lab, slot) == value + conv + [IR.Store(l.ty, l.slot)];
      assert HeightsS(k, c, ctx, slot, s) == y + [1];
      GoodStore(v, pc + |value + conv|, l.ty, l.slot);
      GoodValue(v, c, ctx, s.value, lab, pc, 0, l.ty, [IR.Store(l.ty, l.slot)], [1]);
    }
  }

  lemma {:induction false} GoodReturn(v: View, k: Analysis, c: Unit, ctx: seq<Local>, loop: Loop, s: Stmt, lab: nat, slot: nat, pc: nat)
    requires Valid(v, c) && s.ReturnStmt? && OkS(c, ctx, loop.Loop?, slot, s)
    requires Laid(v, pc, CodeS(c, ctx, loop, s, lab, slot), HeightsS(k, c, ctx, slot, s))
    ensures Good(v, pc, |CodeS(c, ctx, loop, s, lab, slot)|, 0)
  {
    hide Good, Laid, Valid, TypeE, CodeE, HeightsE, ConvertCode, ConvertHeights, Compatible, Exit;
    match s.result
    case Some(e) =>
      var at := pc + |CodeE(c, ctx, e, lab) + ConvertCode(TypeE(c, ctx, e), c.result)|;
      if Laid(v, at, [IR.Return(c.result)], [1]) { Returns(v, at, c.result); }
      GoodValue(v, c, ctx, e, lab, pc, 0, c.result, [IR.Return(c.result)], [1]);
    case None =>
      ValidLength(v, c);
      GoodReturnUnit(v, c, pc);
  }

  lemma {:induction false} GoodReturnUnit(v: View, c: Unit, pc: nat)
    requires |v.a| == |v.f.code|
    requires Laid(v, pc, [IR.Const(UnitT, 0)] + ConvertCode(UnitT, c.result) + [IR.Return(c.result)], [0] + ConvertHeights(UnitT, c.result, 1) + [1])
    ensures Good(v, pc, |[IR.Const(UnitT, 0)] + ConvertCode(UnitT, c.result) + [IR.Return(c.result)]|, 0)
  {
    hide Good, Laid, ConvertCode, ConvertHeights;
    ConvertLength(UnitT, c.result, 1);
    LaidAll(v);
    var k := |ConvertCode(UnitT, c.result)|;
    Returns(v, pc + 1 + k, c.result);
    ExitOf(v, pc + 1 + k, 1, 1);
    Converts(v, pc + 1, UnitT, c.result, 1);
    ExitOf(v, pc + 1, k, 1);
    Falls(v, pc, IR.Const(UnitT, 0), 0);
    Then(v, pc + 1, k, 1, 1, 1);
    Then(v, pc, 1, k + 1, 0, 1);
  }

  lemma {:induction false} GoodS(v: View, k: Analysis, c: Unit, ctx: seq<Local>, loop: Loop, x: Targets, s: Stmt, lab: nat, slot: nat, pc: nat)
    requires Valid(v, c) && Faithful(k) && LoopMarked(v, loop, x) && OkS(c, ctx, loop.Loop?, slot, s)
    requires Laid(v, pc, CodeS(c, ctx, loop, s, lab, slot), HeightsS(k, c, ctx, slot, s))
    requires !StmtDiverges(k, s) ==> Exit(v, pc + |CodeS(c, ctx, loop, s, lab, slot)|, 0)
    ensures Good(v, pc, |CodeS(c, ctx, loop, s, lab, slot)|, 0)
    decreases s, 1
  {
    hide Good, Laid, Valid, TypeE, CodeE, HeightsE, ConvertCode, ConvertHeights, Compatible, Exit, Lookup, LabelsE, MarkAt, Faithful;
    hide CodeBody, HeightsBody, OkBody, CodeBranches, HeightsBranches, OkBranches, SlotsBs, LabelsBs, SlotsBody, LabelsBody, WhileCode, WhileHeights;
    hide ExprDiverges, AllBranchesDiverge, BlockDiverges;
    match s
    case Let(_, declared, init) =>
      var t := LetType(c, ctx, declared, init);
      GoodStore(v, pc + |CodeE(c, ctx, init, lab) + ConvertCode(TypeE(c, ctx, init), t)|, t, slot);
      GoodValue(v, c, ctx, init, lab, pc, 0, t, [IR.Store(t, slot)], [1]);
    case Assign(_, _, _) => GoodAssign(v, k, c, ctx, loop, s, lab, slot, pc);
    case ExprStmt(e) =>
      AcceptedDoesNotDiverge(k, c, ctx, e);
      GoodDropped(v, c, ctx, e, lab, pc);
    case ReturnStmt(_) => GoodReturn(v, k, c, ctx, loop, s, lab, slot, pc);
    case IfStmt(_, _) => GoodIfStmt(v, k, c, ctx, loop, x, s, lab, slot, pc);
    case While(_, _) => GoodWhile(v, k, c, ctx, loop, s, lab, slot, pc);
    case Break(_) => Jumps(v, c, pc, loop.brk, x.brk, 0);
    case Continue => Jumps(v, c, pc, loop.cont, x.cont, 0);
    case OtherStmt =>
  }

  lemma {:induction false} GoodDropped(v: View, c: Unit, ctx: seq<Local>, e: Expr, lab: nat, pc: nat)
    requires Valid(v, c) && TypeE(c, ctx, e) != Invalid
    requires Laid(v, pc, CodeE(c, ctx, e, lab) + [IR.Drop], HeightsE(c, ctx, e, 0) + [1])
    requires Exit(v, pc + |CodeE(c, ctx, e, lab) + [IR.Drop]|, 0)
    ensures Good(v, pc, |CodeE(c, ctx, e, lab) + [IR.Drop]|, 0)
  {
    hide Good, Laid, Valid, TypeE, CodeE, HeightsE;
    var n := |CodeE(c, ctx, e, lab)|;
    LengthE(c, ctx, e, lab, 0);
    LaidConcat(v, pc, CodeE(c, ctx, e, lab), [IR.Drop], HeightsE(c, ctx, e, 0), [1]);
    Falls(v, pc + n, IR.Drop, 1);
    ExitOf(v, pc + n, 1, 1);
    GoodE(v, c, ctx, e, lab, pc, 0);
    Then(v, pc, n, 1, 0, 1);
  }

  lemma {:induction false} GoodIfStmt(v: View, k: Analysis, c: Unit, ctx: seq<Local>, loop: Loop, x: Targets, s: Stmt, lab: nat, slot: nat, pc: nat)
    requires Valid(v, c) && Faithful(k) && LoopMarked(v, loop, x) && s.IfStmt? && OkS(c, ctx, loop.Loop?, slot, s)
    requires Laid(v, pc, CodeS(c, ctx, loop, s, lab, slot), HeightsS(k, c, ctx, slot, s))
    requires !StmtDiverges(k, s) ==> Exit(v, pc + |CodeS(c, ctx, loop, s, lab, slot)|, 0)
    ensures Good(v, pc, |CodeS(c, ctx, loop, s, lab, slot)|, 0)
    decreases s, 0
  {
    hide Good, Laid, Valid, Exit, MarkAt, Faithful, LoopMarked, AllBranchesDiverge, BlockDiverges;
    hide CodeBody, HeightsBody, OkBody, CodeBranches, HeightsBranches, OkBranches, SlotsBs, LabelsBs;
    var bs, els := s.branches, s.elseBody;
    var lab', slot' := lab + 1 + LabelsBs(bs), slot + SlotsBs(bs);
    LengthBranches(k, c, ctx, loop, bs, lab, lab + 1, slot);
    LengthBody(k, c, ctx, loop, els, lab', slot');
    LaidAll(v);
    var n, m := |CodeBranches(c, ctx, loop, bs, lab, lab + 1, slot)|, |CodeBody(c, ctx, loop, els, lab', slot')|;
    var end, out := pc + n + m, Out(StmtDiverges(k, s));
    Lands(v, end, lab, out);
    ElseDiverges(k, s);
    GoodBody(v, k, c, ctx, loop, x, els, lab', slot', pc + n);
    ExitOf(v, pc + n, m, 0);
    GoodBranches(v, k, c, ctx, loop, x, bs, lab, end, lab + 1, slot, pc);
    Then(v, pc + n, m, 1, 0, out);
    Then(v, pc, n, m + 1, 0, 0);
  }

  /** An if that does not diverge has an else or a branch that does not. */
  lemma {:induction false} ElseDiverges(k: Analysis, s: Stmt)
    requires s.IfStmt?
    ensures StmtDiverges(k, s) ==> AllBranchesDiverge(k, s.branches) && BlockDiverges(k, s.elseBody)
    ensures !BlockDiverges(k, s.elseBody) ==> !StmtDiverges(k, s)
  {
  }

  lemma {:induction false} GoodBranches(v: View, k: Analysis, c: Unit, ctx: seq<Local>, loop: Loop, x: Targets, bs: seq<Branch>,
                                        end: nat, endAt: nat, lab: nat, slot: nat, pc: nat)
    requires Valid(v, c) && Faithful(k) && LoopMarked(v, loop, x) && OkBranches(c, ctx, loop.Loop?, slot, bs)
    requires !AllBranchesDiverge(k, bs) ==> MarkAt(v, end, endAt, 0)
    requires Laid(v, pc, CodeBranches(c, ctx, loop, bs, end, lab, slot), HeightsBranches(k, c, ctx, slot, bs))
    requires Exit(v, pc + |CodeBranches(c, ctx, loop, bs, end, lab, slot)|, 0)
    ensures Good(v, pc, |CodeBranches(c, ctx, loop, bs, end, lab, slot)|, 0)
    decreases bs, 0
  {
    hide Good, Laid, Valid, Exit, MarkAt, Faithful, LoopMarked, BlockDiverges, BranchCode, BranchHeights;
    hide TypeE, CodeE, HeightsE, LabelsE, CodeBody, HeightsBody, OkBody, SlotsBody, LabelsBody;
    if bs == [] {
      ValidLength(v, c);
      GoodNone(v, pc, 0);
      return;
    }
    BranchParts(c, ctx, loop, bs, end, lab, slot);
    var b := bs[0];
    var n1 := lab + 1 + LabelsE(b.cond);
    var lab', slot' := n1 + LabelsBody(b.body), slot + SlotsBody(b.body);
    var test, body := CodeE(c, ctx, b.cond, lab + 1), CodeBody(c, ctx, loop, b.body, n1, slot);
    var rest := CodeBranches(c, ctx, loop, bs[1..], end, lab', slot');
    var x1, x2, x3 := HeightsE(c, ctx, b.cond, 0), HeightsBody(k, c, ctx, slot, b.body), HeightsBranches(k, c, ctx, slot', bs[1..]);
    var out := Out(BlockDiverges(k, b.body));
    assert HeightsBranches(k, c, ctx, slot, bs) == BranchHeights(out, x1, x2, x3);
    assert AllBranchesDiverge(k, bs) <==> BlockDiverges(k, b.body) && AllBranchesDiverge(k, bs[1..]);
    LengthE(c, ctx, b.cond, lab + 1, 0);
    LengthBody(k, c, ctx, loop, b.body, n1, slot);
    LengthBranches(k, c, ctx, loop, bs[1..], end, lab', slot');
    hide AllBranchesDiverge, CodeBranches, HeightsBranches, OkBranches;
    BranchPieces(v, pc, end, lab, test, body, rest, x1, x2, x3, out);
    var next := pc + |test| + 1 + |body| + 1;
    GoodBranches(v, k, c, ctx, loop, x, bs[1..], end, endAt, lab', slot', next + 1);
    GoodBody(v, k, c, ctx, loop, x, b.body, n1, slot, pc + |test| + 1);
    GoodE(v, c, ctx, b.cond, lab + 1, pc, 0);
    BranchWhole(v, c, pc, end, endAt, lab, test, body, rest, x1, x2, x3, out);
  }

  lemma {:induction false} BranchPieces(v: View, pc: nat, end: nat, lab: nat, test: seq<IR.Inst>, body: seq<IR.Inst>, rest: seq<IR.Inst>,
                     x1: seq<int>, x2: seq<int>, x3: seq<int>, out: int)
    requires |test| == |x1| && |body| == |x2| && |rest| == |x3|
    requires Laid(v, pc, BranchCode(end, lab, test, body, rest), BranchHeights(out, x1, x2, x3))
    requires Exit(v, pc + |BranchCode(end, lab, test, body, rest)|, 0)
    ensures Laid(v, pc, test, x1) && Exit(v, pc + |test|, 1)
    ensures Laid(v, pc + |test| + 1, body, x2) && (out == 0 ==> Exit(v, pc + |test| + 1 + |body|, 0))
    ensures Laid(v, pc + |test| + 1 + |body| + 2, rest, x3) && Exit(v, pc + |test| + 1 + |body| + 2 + |rest|, 0)
  {
    hide Laid;
    LaidAll(v);
    LaidOne(v, pc + |test|, IR.Jz(lab), 1);
    LaidOne(v, pc + |test| + 1 + |body|, IR.Jump(end), out);
  }

  lemma {:induction false} BranchWhole(v: View, c: Unit, pc: nat, end: nat, endAt: nat, lab: nat, test: seq<IR.Inst>, body: seq<IR.Inst>, rest: seq<IR.Inst>,
                    x1: seq<int>, x2: seq<int>, x3: seq<int>, out: int)
    requires Valid(v, c) && |test| == |x1| && |body| == |x2| && |rest| == |x3|
    requires Laid(v, pc, BranchCode(end, lab, test, body, rest), BranchHeights(out, x1, x2, x3))
    requires out == -1 || (out == 0 && MarkAt(v, end, endAt, 0))
    requires Good(v, pc, |test|, 0) && Good(v, pc + |test| + 1, |body|, 0) && Good(v, pc + |test| + 1 + |body| + 2, |rest|, 0)
    ensures Good(v, pc, |BranchCode(end, lab, test, body, rest)|, 0)
  {
    hide Good, Laid, Valid, Exit, MarkAt;
    LaidAll(v);
    var t := pc + |test|;
    var j := t + 1 + |body|;
    ExitOf(v, j + 2, |rest|, 0);
    Lands(v, j + 1, lab, 0);
    Jumps(v, c, j, end, endAt, out);
    ExitOf(v, t + 1, |body|, 0);
    JumpsIfZero(v, c, t, lab, j + 1, 1);
    Then(v, j + 1, 1, |rest|, 0, 0);
    Then(v, j, 1, 1 + |rest|, out, 0);
    Then(v, t + 1, |body|, 2 + |rest|, 0, out);
    Then(v, t, 1, |body| + 2 + |rest|, 1, 0);
    Then(v, pc, |test|, |body| + 3 + |rest|, 0, 1);
  }

  lemma {:induction false} GoodWhile(v: View, k: Analysis, c: Unit, ctx: seq<Local>, loop: Loop, s: Stmt, lab: nat, slot: nat, pc: nat)
    requires Valid(v, c) && Faithful(k) && s.While? && OkS(c, ctx, loop.Loop?, slot, s)
    requires Laid(v, pc, CodeS(c, ctx, loop, s, lab, slot), HeightsS(k, c, ctx, slot, s))
    requires Exit(v, pc + |CodeS(c, ctx, loop, s, lab, slot)|, 0)
    ensures Good(v, pc, |CodeS(c, ctx, loop, s, lab, slot)|, 0)
    decreases s, 0
  {
    hide Good, Laid, Valid, Exit, MarkAt, Faithful, BlockDiverges, WhileCode, WhileHeights;
    hide TypeE, CodeE, HeightsE, LabelsE, CodeBody, HeightsBody, OkBody;
    var inner := Loop(lab + 1, lab);
    var lab' := lab + 2 + LabelsE(s.cond);
    var test, body := CodeE(c, ctx, s.cond, lab + 2), CodeBody(c, ctx, inner, s.body, lab', slot);
    var x1, x2, out := HeightsE(c, ctx, s.cond, 0), HeightsBody(k, c, ctx, slot, s.body), Out(BlockDiverges(k, s.body));
    LengthE(c, ctx, s.cond, lab + 2, 0);
    LengthBody(k, c, ctx, inner, s.body, lab', slot);
    WhilePieces(v, pc, lab, test, body, x1, x2, out);
    var x := Targets(pc + 1 + |test| + 1 + |body| + 1, pc);
    GoodBody(v, k, c, ctx, inner, x, s.body, lab', slot, pc + 1 + |test| + 1);
    GoodE(v, c, ctx, s.cond, lab + 2, pc + 1, 0);
    WhileWhole(v, c, pc, lab, test, body, x1, x2, out);
  }

  lemma {:induction false} WhilePieces(v: View, pc: nat, lab: nat, test: seq<IR.Inst>, body: seq<IR.Inst>, x1: seq<int>, x2: seq<int>, out: int)
    requires |test| == |x1| && |body| == |x2|
    requires Laid(v, pc, WhileCode(lab, test, body), WhileHeights(out, x1, x2))
    ensures Laid(v, pc + 1, test, x1) && Exit(v, pc + 1 + |test|, 1)
    ensures Laid(v, pc + 1 + |test| + 1, body, x2) && (out == 0 ==> Exit(v, pc + 1 + |test| + 1 + |body|, 0))
    ensures MarkAt(v, lab, pc, 0) && MarkAt(v, lab + 1, pc + 1 + |test| + 1 + |body| + 1, 0)
  {
    hide Laid;
    LaidAll(v);
    LaidOne(v, pc, IR.Label(lab), 0);
    LaidOne(v, pc + 1 + |test|, IR.Jz(lab + 1), 1);
    LaidOne(v, pc + 1 + |test| + 1 + |body|, IR.Jump(lab), out);
    LaidOne(v, pc + 1 + |test| + 1 + |body| + 1, IR.Label(lab + 1), 0);
  }

  lemma {:induction false} WhileWhole(v: View, c: Unit, pc: nat, lab: nat, test: seq<IR.Inst>, body: seq<IR.Inst>, x1: seq<int>, x2: seq<int>, out: int)
    requires Valid(v, c) && |test| == |x1| && |body| == |x2| && (out == 0 || out == -1)
    requires Laid(v, pc, WhileCode(lab, test, body), WhileHeights(out, x1, x2))
    requires Exit(v, pc + |WhileCode(lab, test, body)|, 0) && MarkAt(v, lab, pc, 0)
    requires Good(v, pc + 1, |test|, 0) && Good(v, pc + 1 + |test| + 1, |body|, 0)
    ensures Good(v, pc, |WhileCode(lab, test, body)|, 0)
  {
    hide Good, Laid, Valid, Exit, MarkAt;
    LaidAll(v);
    var t := pc + 1 + |test|;
    var j := t + 1 + |body|;
    Lands(v, j + 1, lab + 1, 0);
    Jumps(v, c, j, lab, pc, out);
    ExitOf(v, t + 1, |body|, 0);
    JumpsIfZero(v, c, t, lab + 1, j + 1, 1);
    ExitOf(v, pc + 1, |test|, 0);
    Lands(v, pc, lab, 0);
    Then(v, j, 1, 1, out, 0);
    Then(v, t + 1, |body|, 2, 0, out);
    Then(v, t, 1, |body| + 2, 1, 0);
    Then(v, pc + 1, |test|, |body| + 3, 0, 1);
    Then(v, pc, 1, |test| + |body| + 3, 0, 0);
  }

  lemma {:induction false} GoodDead(v: View, pc: nat, code: seq<IR.Inst>)
    requires code != [] && Laid(v, pc, code, Dead(|code|))
    ensures Good(v, pc, |code|, -1)
  {
    forall q | pc <= q < pc + |code|
      ensures v.a[q] == -1
    {
      assert v.a[pc..pc + |code|][q - pc] == v.a[q];
    }
  }

  lemma {:induction false} GoodBody(v: View, k: Analysis, c: Unit, ctx: seq<Local>, loop: Loop, x: Targets, ss: seq<Stmt>, lab: nat, slot: nat, pc: nat)
    requires Valid(v, c) && Faithful(k) && LoopMarked(v, loop, x) && OkBody(c, ctx, loop.Loop?, slot, ss)
    requires Laid(v, pc, CodeBody(c, ctx, loop, ss, lab, slot), HeightsBody(k, c, ctx, slot, ss))
    requires !BlockDiverges(k, ss) ==> Exit(v, pc + |CodeBody(c, ctx, loop, ss, lab, slot)|, 0)
    ensures Good(v, pc, |CodeBody(c, ctx, loop, ss, lab, slot)|, 0)
    decreases ss, 0
  {
    hide Good, Laid, Valid, Exit, Faithful, LoopMarked, StmtDiverges;
    hide CodeS, HeightsS, OkS, SlotsS, LabelsS, CtxAfter, Dead;
    if ss == [] {
      ValidLength(v, c);
      GoodNone(v, pc, 0);
      return;
    }
    var ctx', lab', slot' := CtxAfter(c, ctx, slot, ss[0]), lab + LabelsS(ss[0]), slot + SlotsS(ss[0]);
    LengthS(k, c, ctx, loop, ss[0], lab, slot);
    LengthBody(k, c, ctx', loop, ss[1..], lab', slot');
    LaidAll(v);
    var n, rest := |CodeS(c, ctx, loop, ss[0], lab, slot)|, CodeBody(c, ctx', loop, ss[1..], lab', slot');
    hide CodeBody, HeightsBody, OkBody;
    if StmtDiverges(k, ss[0]) {
      GoodS(v, k, c, ctx, loop, x, ss[0], lab, slot, pc);
      if rest != [] {
        DeadLength(|rest|);
        GoodDead(v, pc + n, rest);
        Then(v, pc, n, |rest|, 0, -1);
      }
    } else {
      GoodBody(v, k, c, ctx', loop, x, ss[1..], lab', slot', pc + n);
      ExitOf(v, pc + n, |rest|, 0);
      GoodS(v, k, c, ctx, loop, x, ss[0], lab, slot, pc);
      Then(v, pc, n, |rest|, 0, 0);
    }
  }

  lemma {:induction false} DeadLength(n: nat)
    ensures |Dead(n)| == n
  {
  }
}
