/** Every instruction of lowered code is sound by itself: typed, in range, and encodable. */
module LowerStatic {
  import opened Wrappers
  import opened Numeric
  import opened NativeTypes
  import opened Ast
  import opened LowerSpec
  import opened VerifierSound
  import opened Verifier
  import IR = NativeIr

  // ----- trees as the parser and the checker build them -----

  /** Integer literals carry an integer type, ranges have no native type, and the marker for plain
      assignment is never an operator (src/analysis/sema.c:449-471, 570-571; include/front/ast.h:26). */
  predicate WellBuiltE(e: Expr)
    decreases e
  {
    match e
    case IntLit(ty, _, _) => IsInteger(ty) || ty == Invalid
    case Binary(ty, op, l, r) => WellBuiltE(l) && WellBuiltE(r) && (op.Range? ==> ty == Invalid) && !op.AssignSentinel?
    case Unary(_, _, x) => WellBuiltE(x)
    case Cast(_, _, x) => WellBuiltE(x)
    case Call(_, _, args) => WellBuiltEs(args)
    case IfExpr(_, cond, thn, els) => WellBuiltE(cond) && WellBuiltE(thn) && (els.Some? ==> WellBuiltE(els.value))
    case Block(_, es) => WellBuiltEs(es)
    case _ => true
  }

  predicate WellBuiltEs(es: seq<Expr>)
    decreases es
  {
    es == [] || (WellBuiltE(es[0]) && WellBuiltEs(es[1..]))
  }

  /** Compound assignment has the four operators the parser knows (src/front/parser.c:600-605). */
  predicate WellBuiltS(s: Stmt)
    decreases s
  {
    match s
    case Let(_, _, init) => WellBuiltE(init)
    case Assign(_, op, value) => WellBuiltE(value) && (op.Some? ==> op.value.Add? || op.value.Sub? || op.value.Mul? || op.value.Div?)
    case ExprStmt(e) => WellBuiltE(e)
    case ReturnStmt(Some(e)) => WellBuiltE(e)
    case IfStmt(bs, els) => WellBuiltBranches(bs) && WellBuiltBody(els)
    case While(cond, body) => WellBuiltE(cond) && WellBuiltBody(body)
    case _ => true
  }

  predicate WellBuiltBody(ss: seq<Stmt>)
    decreases ss
  {
    ss == [] || (WellBuiltS(ss[0]) && WellBuiltBody(ss[1..]))
  }

  predicate WellBuiltBranches(bs: seq<Branch>)
    decreases bs
  {
    bs == [] || (WellBuiltE(bs[0].cond) && WellBuiltBody(bs[0].body) && WellBuiltBranches(bs[1..]))
  }

  // ----- instructions -----

  /** All but the label number, which LabelsMarkedOnce accounts for. */
  predicate Sound(functions: nat, slots: nat, i: IR.Inst) {
    TypeOk(i) && Encodable(i) &&
    match i
    case Load(_, s) => s < slots
    case Store(_, s) => s < slots
    case Call(_, g) => g < functions
    case _ => true
  }

  ghost predicate AllSound(c: Unit, slots: nat, code: seq<IR.Inst>) {
    forall i :: i in code ==> Sound(|c.sigs|, slots, i)
  }

  lemma {:induction false} Joined(c: Unit, slots: nat)
    ensures AllSound(c, slots, [])
    ensures forall i {:trigger AllSound(c, slots, [i])} :: AllSound(c, slots, [i]) <==> Sound(|c.sigs|, slots, i)
    ensures forall a, b {:trigger AllSound(c, slots, a + b)} :: AllSound(c, slots, a + b) <==> AllSound(c, slots, a) && AllSound(c, slots, b)
  {
    hide Sound;
    forall i
      ensures AllSound(c, slots, [i]) <==> Sound(|c.sigs|, slots, i)
    {
      assert i in [i];
    }
    forall a, b
      ensures AllSound(c, slots, a + b) <==> AllSound(c, slots, a) && AllSound(c, slots, b)
    {
      assert forall i :: i in a + b <==> i in a || i in b;
    }
  }

  ghost predicate Slotted(ctx: seq<Local>, slots: nat) { forall l :: l in ctx ==> l.slot < slots }

  lemma {:induction false} ConversionSound(c: Unit, ctx: seq<Local>, slots: nat, e: Expr, to: NType)
    requires WellBuiltE(e) && TypeE(c, ctx, e) != Invalid && Compatible(c.target, TypeE(c, ctx, e), to, Some(e))
    ensures AllSound(c, slots, ConvertCode(TypeE(c, ctx, e), to)) && to != Invalid
  {
    hide IntegerFits;
    hide PlanOf, Lookup, FindFunction, ArgsOk, TypeBlock;
    Joined(c, slots);
    LowerSpec.Accepted(c, ctx, e);
    var t := TypeE(c, ctx, e);
    if t != to {
      assert Sound(|c.sigs|, slots, IR.Convert(to, t));
    }
  }

  lemma {:induction false} SoundE(c: Unit, ctx: seq<Local>, e: Expr, lab: nat, slots: nat)
    requires TypeE(c, ctx, e) != Invalid && WellBuiltE(e) && Slotted(ctx, slots)
    ensures AllSound(c, slots, CodeE(c, ctx, e, lab))
    decreases e, 1
  {
    hide IntegerFits, PlanOf, AllSound, LogicalCode, IfCode, ConvertCode, CodeArgs, CodeBlock, ArgsOk, TypeBlock, LabelsE;
    Joined(c, slots);
    match e
    case Binary(_, _, _, _) => SoundBinary(c, ctx, e, lab, slots);
    case Unary(_, _, x) => SoundE(c, ctx, x, lab, slots);
    case Cast(_, _, x) => SoundE(c, ctx, x, lab, slots);
    case Call(_, _, _) => SoundCall(c, ctx, e, lab, slots);
    case IfExpr(_, _, _, _) => SoundIf(c, ctx, e, lab, slots);
    case Block(_, es) => if es != [] { SoundBlock(c, ctx, es, lab, slots); }
    case _ =>
  }

  lemma {:induction false} PlanSound(tg: Target, ty: NType, op: BinOp, l: Expr, r: Expr)
    requires ty != Invalid && PlanOf(tg, ty, op, l, r).Strict? && !op.Range? && !op.AssignSentinel?
    ensures var p := PlanOf(tg, ty, op, l, r);
      p.operand != Invalid && Encodable(IR.Binary(p.operand, op)) &&
      (p.convert ==> IsInteger(p.operand) && IsInteger(l.ty) && IsInteger(r.ty))
  {
    hide Compatible;
  }

  lemma {:induction false} LayoutsSound(c: Unit, slots: nat)
    ensures forall isAnd, lab, l, r {:trigger LogicalCode(isAnd, lab, l, r)} ::
      AllSound(c, slots, l) && AllSound(c, slots, r) ==> AllSound(c, slots, LogicalCode(isAnd, lab, l, r))
    ensures forall lab, x, y, z {:trigger IfCode(lab, x, y, z)} ::
      AllSound(c, slots, x) && AllSound(c, slots, y) && AllSound(c, slots, z) ==> AllSound(c, slots, IfCode(lab, x, y, z))
    ensures forall lab, x, y {:trigger WhileCode(lab, x, y)} ::
      AllSound(c, slots, x) && AllSound(c, slots, y) ==> AllSound(c, slots, WhileCode(lab, x, y))
    ensures forall end, lab, x, y, z {:trigger BranchCode(end, lab, x, y, z)} ::
      AllSound(c, slots, x) && AllSound(c, slots, y) && AllSound(c, slots, z) ==> AllSound(c, slots, BranchCode(end, lab, x, y, z))
  {
    hide AllSound;
    Joined(c, slots);
  }

  lemma {:induction false} PlanConversions(c: Unit, slots: nat, p: Plan, from: NType)
    requires p.Strict? && (p.convert ==> IsInteger(p.operand) && IsInteger(from))
    ensures AllSound(c, slots, ConvertCode(if p.convert then from else p.operand, p.operand))
  {
  }

  lemma {:induction false} SoundBinary(c: Unit, ctx: seq<Local>, e: Expr, lab: nat, slots: nat)
    requires e.Binary? && TypeE(c, ctx, e) != Invalid && WellBuiltE(e) && Slotted(ctx, slots)
    ensures AllSound(c, slots, CodeE(c, ctx, e, lab))
    decreases e, 0
  {
    hide PlanOf, AllSound, TypeE, CodeE, LabelsE, Slotted, LogicalCode, ConvertCode;
    Joined(c, slots);
    LayoutsSound(c, slots);
    BinaryAccepted(c, ctx, e);
    BinaryForm(c, ctx, e, lab);
    if e.op.And? || e.op.Or? {
      SoundE(c, ctx, e.left, lab + 2, slots);
      SoundE(c, ctx, e.right, lab + 2 + LabelsE(e.left), slots);
    } else {
      PlanSound(c.target, e.ty, e.op, e.left, e.right);
      PlanConversions(c, slots, PlanOf(c.target, e.ty, e.op, e.left, e.right), e.left.ty);
      PlanConversions(c, slots, PlanOf(c.target, e.ty, e.op, e.left, e.right), e.right.ty);
      SoundE(c, ctx, e.left, lab, slots);
      SoundE(c, ctx, e.right, lab + LabelsE(e.left), slots);
    }
  }

  lemma {:induction false} SoundIf(c: Unit, ctx: seq<Local>, e: Expr, lab: nat, slots: nat)
    requires e.IfExpr? && TypeE(c, ctx, e) != Invalid && WellBuiltE(e) && Slotted(ctx, slots)
    ensures AllSound(c, slots, CodeE(c, ctx, e, lab))
    decreases e, 0
  {
    hide AllSound, TypeE, CodeE, LabelsE, Slotted, IfCode;
    Joined(c, slots);
    LayoutsSound(c, slots);
    LowerSpec.Accepted(c, ctx, e);
    IfForm(c, ctx, e, lab);
    var n1 := lab + 2 + LabelsE(e.cond);
    SoundE(c, ctx, e.cond, lab + 2, slots);
    SoundE(c, ctx, e.thn, n1, slots);
    if e.els.Some? { SoundE(c, ctx, e.els.value, n1 + LabelsE(e.thn), slots); }
  }

  lemma {:induction false} SoundCall(c: Unit, ctx: seq<Local>, e: Expr, lab: nat, slots: nat)
    requires e.Call? && TypeE(c, ctx, e) != Invalid && WellBuiltE(e) && Slotted(ctx, slots)
    ensures AllSound(c, slots, CodeE(c, ctx, e, lab))
    decreases e, 0
  {
    hide AllSound, TypeE, CodeE, LabelsE, Slotted, CodeArgs, ArgsOk;
    Joined(c, slots);
    LowerSpec.Accepted(c, ctx, e);
    if e.name == "assert" {
      AssertForm(c, ctx, e, lab);
      SoundE(c, ctx, e.args[0], lab, slots);
    } else {
      CallForm(c, ctx, e, lab);
      SoundArgs(c, ctx, e.args, c.sigs[FindFunction(c.sigs, e.name).value].params, lab, slots);
    }
  }

  lemma {:induction false} SoundArgs(c: Unit, ctx: seq<Local>, args: seq<Expr>, params: seq<Param>, lab: nat, slots: nat)
    requires |args| == |params| && ArgsOk(c, ctx, args, params) && WellBuiltEs(args) && Slotted(ctx, slots)
    ensures AllSound(c, slots, CodeArgs(c, ctx, args, params, lab))
    decreases args, 0
  {
    hide AllSound, TypeE, CodeE, LabelsE, Slotted, WellBuiltE, Compatible, ConvertCode;
    Joined(c, slots);
    if args == [] { return; }
    SoundE(c, ctx, args[0], lab, slots);
    ConversionSound(c, ctx, slots, args[0], params[0].ty);
    SoundArgs(c, ctx, args[1..], params[1..], lab + LabelsE(args[0]), slots);
  }

  lemma {:induction false} SoundBlock(c: Unit, ctx: seq<Local>, es: seq<Expr>, lab: nat, slots: nat)
    requires es != [] && TypeBlock(c, ctx, es) != Invalid && WellBuiltEs(es) && Slotted(ctx, slots)
    ensures AllSound(c, slots, CodeBlock(c, ctx, es, lab))
    decreases es, 0
  {
    hide AllSound, TypeE, CodeE, LabelsE, Slotted, WellBuiltE;
    Joined(c, slots);
    SoundE(c, ctx, es[0], lab, slots);
    if |es| > 1 {
      SoundBlock(c, ctx, es[1..], lab + LabelsE(es[0]), slots);
    }
  }

  lemma {:induction false} SoundS(c: Unit, ctx: seq<Local>, loop: Loop, s: Stmt, lab: nat, slot: nat, slots: nat)
    requires c.result != Invalid && OkS(c, ctx, loop.Loop?, slot, s) && WellBuiltS(s) && Slotted(ctx, slots) && slot + SlotsS(s) <= slots
    ensures AllSound(c, slots, CodeS(c, ctx, loop, s, lab, slot))
    decreases s
  {
    hide AllSound, TypeE, CodeE, LabelsE, WellBuiltE, Compatible, ConvertCode, CodeBody, CodeBranches, OkBody, OkBranches;
    hide SlotsBs, SlotsBody, LabelsBs, LabelsBody, WellBuiltBody, WellBuiltBranches, WhileCode, IfCode, BranchCode, Lookup, Slotted;
    Joined(c, slots);
    LayoutsSound(c, slots);
    match s
    case Let(_, _, _) | Assign(_, _, _) | ExprStmt(_) | ReturnStmt(_) => SoundSimple(c, ctx, loop, s, lab, slot, slots);
    case IfStmt(bs, els) =>
      SoundBranches(c, ctx, loop, bs, lab, lab + 1, slot, slots);
      SoundBody(c, ctx, loop, els, lab + 1 + LabelsBs(bs), slot + SlotsBs(bs), slots);
    case While(cond, body) =>
      SoundE(c, ctx, cond, lab + 2, slots);
      SoundBody(c, ctx, Loop(lab + 1, lab), body, lab + 2 + LabelsE(cond), slot, slots);
    case _ =>
  }

  lemma {:induction false} SoundSimple(c: Unit, ctx: seq<Local>, loop: Loop, s: Stmt, lab: nat, slot: nat, slots: nat)
    requires s.Let? || s.Assign? || s.ExprStmt? || s.ReturnStmt?
    requires c.result != Invalid && OkS(c, ctx, loop.Loop?, slot, s) && WellBuiltS(s) && Slotted(ctx, slots) && slot + SlotsS(s) <= slots
    ensures AllSound(c, slots, CodeS(c, ctx, loop, s, lab, slot))
  {
    hide AllSound, TypeE, CodeE, LabelsE, WellBuiltE, Compatible, ConvertCode, CodeBody, CodeBranches, OkBody, OkBranches;
    hide SlotsBs, SlotsBody, LabelsBs, LabelsBody, WellBuiltBody, WellBuiltBranches, WhileCode, IfCode, BranchCode, Lookup, Slotted;
    Joined(c, slots);
    match s
    case Let(_, declared, init) =>
      SoundE(c, ctx, init, lab, slots);
      ConversionSound(c, ctx, slots, init, LetType(c, ctx, declared, init));
    case Assign(name, op, value) =>
      SoundE(c, ctx, value, lab, slots);
      ConversionSound(c, ctx, slots, value, Lookup(ctx, name).value.ty);
      SlotOf(ctx, name, slots);
    case ExprStmt(e) => SoundE(c, ctx, e, lab, slots);
    case ReturnStmt(Some(e)) =>
      SoundE(c, ctx, e, lab, slots);
      ConversionSound(c, ctx, slots, e, c.result);
    case ReturnStmt(None) => UnitReturned(c);
  }

  lemma {:induction false} SlotOf(ctx: seq<Local>, name: string, slots: nat)
    requires Slotted(ctx, slots) && Lookup(ctx, name).Some?
    ensures Lookup(ctx, name).value.slot < slots
  {
  }

  lemma {:induction false} UnitReturned(c: Unit)
    requires Compatible(c.target, UnitT, c.result, None)
    ensures ConvertCode(UnitT, c.result) == []
  {
  }

  lemma {:induction false} SoundBody(c: Unit, ctx: seq<Local>, loop: Loop, ss: seq<Stmt>, lab: nat, slot: nat, slots: nat)
    requires c.result != Invalid && OkBody(c, ctx, loop.Loop?, slot, ss) && WellBuiltBody(ss) && Slotted(ctx, slots) && slot + SlotsBody(ss) <= slots
    ensures AllSound(c, slots, CodeBody(c, ctx, loop, ss, lab, slot))
    decreases ss
  {
    hide AllSound, CodeS, OkS, WellBuiltS, LabelsS, LetType;
    Joined(c, slots);
    if ss == [] { return; }
    SoundS(c, ctx, loop, ss[0], lab, slot, slots);
    SoundBody(c, CtxAfter(c, ctx, slot, ss[0]), loop, ss[1..], lab + LabelsS(ss[0]), slot + SlotsS(ss[0]), slots);
  }

  lemma {:induction false} SoundBranches(c: Unit, ctx: seq<Local>, loop: Loop, bs: seq<Branch>, end: nat, lab: nat, slot: nat, slots: nat)
    requires c.result != Invalid && OkBranches(c, ctx, loop.Loop?, slot, bs) && WellBuiltBranches(bs) && Slotted(ctx, slots) && slot + SlotsBs(bs) <= slots
    ensures AllSound(c, slots, CodeBranches(c, ctx, loop, bs, end, lab, slot))
    decreases bs
  {
    hide AllSound, TypeE, CodeE, LabelsE, CodeBody, OkBody, WellBuiltBody, WellBuiltE, SlotsBody, LabelsBody, Slotted, BranchCode;
    Joined(c, slots);
    LayoutsSound(c, slots);
    if bs == [] { return; }
    BranchParts(c, ctx, loop, bs, end, lab, slot);
    hide CodeBranches, OkBranches, SlotsBs, LabelsBs;
    var n := lab + 1 + LabelsE(bs[0].cond);
    SoundE(c, ctx, bs[0].cond, lab + 1, slots);
    SoundBody(c, ctx, loop, bs[0].body, n, slot, slots);
    SoundBranches(c, ctx, loop, bs[1..], end, n + LabelsBody(bs[0].body), slot + SlotsBody(bs[0].body), slots);
  }
}
