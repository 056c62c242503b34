/** What the lowering accepts and the code it produces (src/backend/native_lower.c), as functions.
    Label and slot numbers are handed out in the order the lowering asks for them. */
module LowerSpec {
  import opened Wrappers
  import opened Numeric
  import opened NativeTypes
  import opened Ast
  import IR = NativeIr

  datatype Local = Local(name: string, ty: NType, slot: nat)

  /** What is fixed while one function is lowered. */
  datatype Unit = Unit(target: Target, sigs: seq<FunDecl>, result: NType)

  /** Labels that break and continue jump to. */
  datatype Loop = NoLoop | Loop(brk: nat, cont: nat)

  function Lookup(ctx: seq<Local>, name: string): (r: Option<Local>)
    ensures r.Some? ==> r.value in ctx && r.value.name == name
  {
    if ctx == [] then None
    else if ctx[|ctx| - 1].name == name then Some(ctx[|ctx| - 1])
    else Lookup(ctx[..|ctx| - 1], name)
  }

  /** The innermost local of the name, if there is one: later ones shadow earlier ones. */
  lemma {:induction false} LookupInnermost(ctx: seq<Local>, name: string)
    ensures Lookup(ctx, name) == None ==> forall i :: 0 <= i < |ctx| ==> ctx[i].name != name
    ensures Lookup(ctx, name).Some? ==>
      exists i :: 0 <= i < |ctx| && ctx[i] == Lookup(ctx, name).value && ctx[i].name == name && forall j :: i < j < |ctx| ==> ctx[j].name != name
  {
    if ctx != [] && ctx[|ctx| - 1].name != name {
      var front := ctx[..|ctx| - 1];
      LookupInnermost(front, name);
      if Lookup(front, name).Some? {
        var i :| 0 <= i < |front| && front[i] == Lookup(front, name).value && front[i].name == name && forall j :: i < j < |front| ==> front[j].name != name;
        assert ctx[i] == front[i];
      }
    }
  }

  function FindFunction(sigs: seq<FunDecl>, name: string, i: nat := 0): (r: Option<nat>)
    requires i <= |sigs|
    ensures r.Some? ==> i <= r.value < |sigs| && sigs[r.value].name == name
    ensures r.Some? ==> forall j :: i <= j < r.value ==> sigs[j].name != name
    ensures r.None? ==> forall j :: i <= j < |sigs| ==> sigs[j].name != name
    decreases |sigs| - i
  {
    if i == |sigs| then None else if sigs[i].name == name then Some(i) else FindFunction(sigs, name, i + 1)
  }

  // ----- static rules -----

  /** Whether a value of type actual may stand where expected is wanted; e is its expression, if any. */
  predicate Compatible(tg: Target, actual: NType, expected: NType, e: Option<Expr>) {
    if actual == expected && actual != Invalid then true
    else if e.Some? && e.value.IntLit? && !e.value.suffixed && IsInteger(expected) then
      IntegerFits(e.value.lit, Bits(tg, expected), IsSigned(expected))
    else actual != Invalid && expected != Invalid && Coercible(tg, actual, expected)
  }

  /** How a binary expression is computed. */
  datatype Plan =
    | Logical                                                // short-circuit && and ||
    | Strict(operand: NType, convert: bool, result: NType)   // both operands, converted if asked
    | Reject

  function PlanOf(tg: Target, ty: NType, op: BinOp, left: Expr, right: Expr): (p: Plan)
    ensures !p.Reject? ==> (p.Logical? <==> op.And? || op.Or?)
    ensures p.Strict? && ty != Invalid ==> p.operand != Invalid && p.result != Invalid
  {
    var a, b := left.ty, right.ty;
    if op.And? || op.Or? then
      if a != BoolT || b != BoolT then Reject else Logical
    else
      var comparison := IsComparison(op);
      if !comparison && IsInteger(ty) && IsInteger(a) && IsInteger(b) then Strict(ty, true, ty)
      else
        var a' := if a != b && Compatible(tg, a, b, Some(left)) then b else a;
        var b' := if a' != b && Compatible(tg, b, a', Some(right)) then a' else b;
        if a' != b'
           || (!IsInteger(a') && !(a' == BoolT && (op.Eq? || op.Ne?)) && !(a' == CharT && comparison))
           || op.Range? || op.AssignSentinel?
        then Reject
        else Strict(a', false, if comparison then BoolT else a')
  }

  predicate UnaryOk(op: UnOp, t: NType) {
    (op.Not? && t == BoolT) || ((op.Neg? || op.BNot?) && IsInteger(t))
  }

  predicate Castable(t: NType) { IsInteger(t) || t == BoolT || t == CharT }

  /** The type lowering gives an expression; Invalid when it reports an error. */
  function TypeE(c: Unit, ctx: seq<Local>, e: Expr): NType
    decreases e
  {
    if e.ty == Invalid then Invalid
    else
      match e
      case IntLit(ty, lit, _) => if IntegerFits(lit, Bits(c.target, ty), IsSigned(ty)) then ty else Invalid
      case BoolLit(_, _) => BoolT
      case CharLit(_, _) => CharT
      case UnitLit(_) => UnitT
      case Ident(_, name) => (match Lookup(ctx, name) case Some(l) => l.ty case None => Invalid)
      case Binary(ty, op, l, r) =>
        var plan := PlanOf(c.target, ty, op, l, r);
        if plan.Reject? || TypeE(c, ctx, l) == Invalid || TypeE(c, ctx, r) == Invalid then Invalid
        else if plan.Logical? then BoolT else plan.result
      case Unary(ty, op, x) => if UnaryOk(op, TypeE(c, ctx, x)) then ty else Invalid
      case Cast(ty, checked, x) =>
        if checked || !Castable(TypeE(c, ctx, x)) || !Castable(ty) then Invalid else ty
      case Call(_, name, args) =>
        if name == "assert" then
          if |args| == 1 && TypeE(c, ctx, args[0]) == BoolT then UnitT else Invalid
        else
          (match FindFunction(c.sigs, name)
           case None => Invalid
           case Some(i) =>
             if |args| == |c.sigs[i].params| && ArgsOk(c, ctx, args, c.sigs[i].params) then c.sigs[i].result
             else Invalid)
      case IfExpr(_, cond, thn, els) =>
        var a := TypeE(c, ctx, thn);
        var b := if els.Some? then TypeE(c, ctx, els.value) else UnitT;
        if TypeE(c, ctx, cond) != BoolT || a != b then Invalid else a
      case Block(_, es) => TypeBlock(c, ctx, es)
      case OtherExpr(_) => Invalid
  }

  predicate ArgsOk(c: Unit, ctx: seq<Local>, args: seq<Expr>, params: seq<Param>)
    requires |args| == |params|
    decreases args
  {
    args == [] ||
    (TypeE(c, ctx, args[0]) != Invalid &&
     Compatible(c.target, TypeE(c, ctx, args[0]), params[0].ty, Some(args[0])) &&
     ArgsOk(c, ctx, args[1..], params[1..]))
  }

  function TypeBlock(c: Unit, ctx: seq<Local>, es: seq<Expr>): NType
    decreases es
  {
    if es == [] then UnitT
    else if |es| == 1 then TypeE(c, ctx, es[0])
    else if TypeE(c, ctx, es[0]) == Invalid then Invalid
    else TypeBlock(c, ctx, es[1..])
  }

  // ----- resources an expression takes -----

  function LabelsE(e: Expr): nat
    decreases e
  {
    match e
    case Binary(_, op, l, r) => (if op.And? || op.Or? then 2 else 0) + LabelsE(l) + LabelsE(r)
    case Unary(_, _, x) => LabelsE(x)
    case Cast(_, _, x) => LabelsE(x)
    case Call(_, _, args) => LabelsEs(args)
    case IfExpr(_, cond, thn, els) =>
      2 + LabelsE(cond) + LabelsE(thn) + (if els.Some? then LabelsE(els.value) else 0)
    case Block(_, es) => LabelsEs(es)
    case _ => 0
  }

  function LabelsEs(es: seq<Expr>): nat
    decreases es
  {
    if es == [] then 0 else LabelsE(es[0]) + LabelsEs(es[1..])
  }

  // ----- code -----

  function ConvertCode(from: NType, to: NType): seq<IR.Inst> {
    if from != to then [IR.Convert(to, from)] else []
  }

  /** The 64-bit word a literal is emitted as. */
  function LiteralWord(lit: Integer): int {
    if lit.negative then (WORD64 - lit.low) % WORD64 else lit.low
  }

  // Shapes: how the pieces of a construct are laid out.

  function LogicalCode(isAnd: bool, lab: nat, left: seq<IR.Inst>, right: seq<IR.Inst>): seq<IR.Inst> {
    left + [IR.Jz(lab)] + (if isAnd then right else [IR.Const(BoolT, 1)]) + [IR.Jump(lab + 1)]
    + [IR.Label(lab)] + (if isAnd then [IR.Const(BoolT, 0)] else right) + [IR.Label(lab + 1)]
  }

  function IfCode(lab: nat, cond: seq<IR.Inst>, thn: seq<IR.Inst>, els: seq<IR.Inst>): seq<IR.Inst> {
    cond + [IR.Jz(lab)] + thn + [IR.Jump(lab + 1)] + [IR.Label(lab)] + els + [IR.Label(lab + 1)]
  }

  function BranchCode(end: nat, lab: nat, cond: seq<IR.Inst>, body: seq<IR.Inst>, rest: seq<IR.Inst>): seq<IR.Inst> {
    cond + [IR.Jz(lab)] + body + [IR.Jump(end)] + [IR.Label(lab)] + rest
  }

  function WhileCode(lab: nat, cond: seq<IR.Inst>, body: seq<IR.Inst>): seq<IR.Inst> {
    [IR.Label(lab)] + cond + [IR.Jz(lab + 1)] + body + [IR.Jump(lab)] + [IR.Label(lab + 1)]
  }

  function CodeE(c: Unit, ctx: seq<Local>, e: Expr, lab: nat): seq<IR.Inst>
    decreases e
  {
    match e
    case IntLit(ty, lit, _) => [IR.Const(ty, LiteralWord(lit))]
    case BoolLit(_, b) => [IR.Const(BoolT, Truth(b))]
    case CharLit(_, ch) => [IR.Const(CharT, ch)]
    case UnitLit(_) => [IR.Const(UnitT, 0)]
    case Ident(_, name) =>
      (match Lookup(ctx, name) case Some(l) => [IR.Load(l.ty, l.slot)] case None => [])
    case Binary(ty, op, l, r) =>
      (match PlanOf(c.target, ty, op, l, r)
       case Logical =>
         LogicalCode(op.And?, lab, CodeE(c, ctx, l, lab + 2), CodeE(c, ctx, r, lab + 2 + LabelsE(l)))
       case Strict(t, convert, _) =>
         CodeE(c, ctx, l, lab) + ConvertCode(if convert then l.ty else t, t)
         + CodeE(c, ctx, r, lab + LabelsE(l)) + ConvertCode(if convert then r.ty else t, t)
         + [IR.Binary(t, op)]
       case Reject => [])
    case Unary(_, op, x) => CodeE(c, ctx, x, lab) + [IR.Unary(TypeE(c, ctx, x), op)]
    case Cast(ty, _, x) => CodeE(c, ctx, x, lab) + [IR.Convert(ty, TypeE(c, ctx, x))]
    case Call(_, name, args) =>
      if name == "assert" then
        (if |args| == 1 then CodeE(c, ctx, args[0], lab) else []) + [IR.Assert] + [IR.Const(UnitT, 0)]
      else
        (match FindFunction(c.sigs, name)
         case Some(i) =>
           if |args| == |c.sigs[i].params| then
             CodeArgs(c, ctx, args, c.sigs[i].params, lab) + [IR.Call(c.sigs[i].result, i)]
           else []
         case None => [])
    case IfExpr(_, cond, thn, els) =>
      var n1 := lab + 2 + LabelsE(cond);
      IfCode(lab, CodeE(c, ctx, cond, lab + 2), CodeE(c, ctx, thn, n1),
             if els.Some? then CodeE(c, ctx, els.value, n1 + LabelsE(thn)) else [IR.Const(UnitT, 0)])
    case Block(_, es) => if es == [] then [IR.Const(UnitT, 0)] else CodeBlock(c, ctx, es, lab)
    case OtherExpr(_) => []
  }

  function CodeArgs(c: Unit, ctx: seq<Local>, args: seq<Expr>, params: seq<Param>, lab: nat): seq<IR.Inst>
    requires |args| == |params|
    decreases args
  {
    if args == [] then []
    else
      CodeE(c, ctx, args[0], lab) + ConvertCode(TypeE(c, ctx, args[0]), params[0].ty)
      + CodeArgs(c, ctx, args[1..], params[1..], lab + LabelsE(args[0]))
  }

  /** A non-empty expression block: every value but the last is dropped. */
  function CodeBlock(c: Unit, ctx: seq<Local>, es: seq<Expr>, lab: nat): seq<IR.Inst>
    decreases es
  {
    if es == [] then []
    else if |es| == 1 then CodeE(c, ctx, es[0], lab)
    else CodeE(c, ctx, es[0], lab) + [IR.Drop] + CodeBlock(c, ctx, es[1..], lab + LabelsE(es[0]))
  }

  // ----- the pieces of an expression, one level deep -----

  lemma {:induction false} BinaryForm(c: Unit, ctx: seq<Local>, e: Expr, lab: nat)
    requires e.Binary? && e.ty != Invalid && !PlanOf(c.target, e.ty, e.op, e.left, e.right).Reject?
    ensures var plan := PlanOf(c.target, e.ty, e.op, e.left, e.right);
      TypeE(c, ctx, e) ==
        if TypeE(c, ctx, e.left) == Invalid || TypeE(c, ctx, e.right) == Invalid then Invalid
        else if plan.Logical? then BoolT else plan.result
    ensures (e.op.And? || e.op.Or?) ==>
      LabelsE(e) == 2 + LabelsE(e.left) + LabelsE(e.right) &&
      CodeE(c, ctx, e, lab) ==
        LogicalCode(e.op.And?, lab, CodeE(c, ctx, e.left, lab + 2), CodeE(c, ctx, e.right, lab + 2 + LabelsE(e.left)))
    ensures !(e.op.And? || e.op.Or?) ==>
      LabelsE(e) == LabelsE(e.left) + LabelsE(e.right) &&
      var plan := PlanOf(c.target, e.ty, e.op, e.left, e.right);
      CodeE(c, ctx, e, lab) ==
        CodeE(c, ctx, e.left, lab) + ConvertCode(if plan.convert then e.left.ty else plan.operand, plan.operand)
        + CodeE(c, ctx, e.right, lab + LabelsE(e.left))
        + ConvertCode(if plan.convert then e.right.ty else plan.operand, plan.operand)
        + [IR.Binary(plan.operand, e.op)]
  {
    hide IfCode, PlanOf, LogicalCode, ConvertCode, FindFunction, Lookup, IntegerFits, ArgsOk, TypeBlock, CodeArgs, CodeBlock;
  }

  lemma {:induction false} BinaryAccepted(c: Unit, ctx: seq<Local>, e: Expr)
    requires e.Binary? && TypeE(c, ctx, e) != Invalid
    ensures e.ty != Invalid && !PlanOf(c.target, e.ty, e.op, e.left, e.right).Reject?
    ensures TypeE(c, ctx, e.left) != Invalid && TypeE(c, ctx, e.right) != Invalid
  {
    hide PlanOf;
  }

  /** The else arm of an if expression; a missing one is the unit value. */
  function TypeElse(c: Unit, ctx: seq<Local>, els: Option<Expr>): NType {
    if els.Some? then TypeE(c, ctx, els.value) else UnitT
  }

  function CodeElse(c: Unit, ctx: seq<Local>, els: Option<Expr>, lab: nat): seq<IR.Inst> {
    if els.Some? then CodeE(c, ctx, els.value, lab) else [IR.Const(UnitT, 0)]
  }

  function LabelsElse(els: Option<Expr>): nat { if els.Some? then LabelsE(els.value) else 0 }

  lemma {:induction false} IfForm(c: Unit, ctx: seq<Local>, e: Expr, lab: nat)
    requires e.IfExpr? && e.ty != Invalid
    ensures TypeE(c, ctx, e) ==
      if TypeE(c, ctx, e.cond) != BoolT || TypeE(c, ctx, e.thn) != TypeElse(c, ctx, e.els) then Invalid
      else TypeE(c, ctx, e.thn)
    ensures LabelsE(e) == 2 + LabelsE(e.cond) + LabelsE(e.thn) + LabelsElse(e.els)
    ensures var n1 := lab + 2 + LabelsE(e.cond);
      CodeE(c, ctx, e, lab) ==
        IfCode(lab, CodeE(c, ctx, e.cond, lab + 2), CodeE(c, ctx, e.thn, n1), CodeElse(c, ctx, e.els, n1 + LabelsE(e.thn)))
  {
    hide TypeE, CodeE;
    IfType(c, ctx, e);
    IfLaid(c, ctx, e, lab);
  }

  lemma {:induction false} IfType(c: Unit, ctx: seq<Local>, e: Expr)
    requires e.IfExpr? && e.ty != Invalid
    ensures TypeE(c, ctx, e) ==
      if TypeE(c, ctx, e.cond) != BoolT || TypeE(c, ctx, e.thn) != TypeElse(c, ctx, e.els) then Invalid
      else TypeE(c, ctx, e.thn)
  {
  }

  lemma {:induction false} IfLaid(c: Unit, ctx: seq<Local>, e: Expr, lab: nat)
    requires e.IfExpr?
    ensures var n1 := lab + 2 + LabelsE(e.cond);
      CodeE(c, ctx, e, lab) ==
        IfCode(lab, CodeE(c, ctx, e.cond, lab + 2), CodeE(c, ctx, e.thn, n1), CodeElse(c, ctx, e.els, n1 + LabelsE(e.thn)))
  {
    hide IfCode, TypeE, LabelsE;
  }

  lemma {:induction false} AssertForm(c: Unit, ctx: seq<Local>, e: Expr, lab: nat)
    requires e.Call? && e.name == "assert" && e.ty != Invalid
    ensures TypeE(c, ctx, e) == if |e.args| == 1 && TypeE(c, ctx, e.args[0]) == BoolT then UnitT else Invalid
    ensures |e.args| == 1 ==>
      LabelsE(e) == LabelsE(e.args[0]) &&
      CodeE(c, ctx, e, lab) == CodeE(c, ctx, e.args[0], lab) + [IR.Assert] + [IR.Const(UnitT, 0)]
  {
    hide CodeArgs, ArgsOk, FindFunction;
    if |e.args| == 1 {
      assert LabelsEs(e.args[1..]) == 0;
    }
  }

  lemma {:induction false} CallForm(c: Unit, ctx: seq<Local>, e: Expr, lab: nat)
    requires e.Call? && e.name != "assert" && e.ty != Invalid
    ensures var g := FindFunction(c.sigs, e.name);
      TypeE(c, ctx, e) ==
        if g.Some? && |e.args| == |c.sigs[g.value].params| && ArgsOk(c, ctx, e.args, c.sigs[g.value].params)
        then c.sigs[g.value].result else Invalid
    ensures LabelsE(e) == LabelsEs(e.args)
    ensures var g := FindFunction(c.sigs, e.name);
      g.Some? && |e.args| == |c.sigs[g.value].params| ==>
        CodeE(c, ctx, e, lab) == CodeArgs(c, ctx, e.args, c.sigs[g.value].params, lab) + [IR.Call(c.sigs[g.value].result, g.value)]
  {
    hide CodeArgs, ArgsOk;
  }

  lemma {:induction false} OperatorForm(c: Unit, ctx: seq<Local>, e: Expr, lab: nat)
    requires (e.Unary? || e.Cast?) && TypeE(c, ctx, e) != Invalid
    ensures TypeE(c, ctx, e) == e.ty && TypeE(c, ctx, e.operand) != Invalid
    ensures e.Unary? ==> UnaryOk(e.uop, TypeE(c, ctx, e.operand))
    ensures e.Cast? ==> Castable(e.ty) && Castable(TypeE(c, ctx, e.operand))
    ensures CodeE(c, ctx, e, lab) == CodeE(c, ctx, e.operand, lab) +
      [if e.Unary? then IR.Unary(TypeE(c, ctx, e.operand), e.uop) else IR.Convert(e.ty, TypeE(c, ctx, e.operand))]
  {
    hide IfCode, PlanOf, LogicalCode, ConvertCode, FindFunction, Lookup, IntegerFits, ArgsOk, TypeBlock, CodeArgs, CodeBlock;
  }

  lemma {:induction false} BlockForm(c: Unit, ctx: seq<Local>, e: Expr, lab: nat)
    requires e.Block? && e.ty != Invalid
    ensures TypeE(c, ctx, e) == TypeBlock(c, ctx, e.exprs) && LabelsE(e) == LabelsEs(e.exprs)
    ensures CodeE(c, ctx, e, lab) == if e.exprs == [] then [IR.Const(UnitT, 0)] else CodeBlock(c, ctx, e.exprs, lab)
  {
    hide CodeBlock, TypeBlock, LabelsEs;
  }

  lemma {:induction false} Accepted(c: Unit, ctx: seq<Local>, e: Expr)
    requires TypeE(c, ctx, e) != Invalid
    ensures e.ty != Invalid
  {
  }

  // ----- statements -----

  /** Type of the local a let introduces. */
  function LetType(c: Unit, ctx: seq<Local>, declared: Option<NType>, init: Expr): NType {
    if declared.Some? then declared.value else TypeE(c, ctx, init)
  }

  predicate OkS(c: Unit, ctx: seq<Local>, inLoop: bool, slot: nat, s: Stmt)
    decreases s
  {
    match s
    case Let(_, declared, init) =>
      var t := LetType(c, ctx, declared, init);
      TypeE(c, ctx, init) != Invalid && t != UnitT && Compatible(c.target, TypeE(c, ctx, init), t, Some(init))
    case Assign(name, op, value) =>
      (match Lookup(ctx, name)
       case None => false
       case Some(l) =>
         TypeE(c, ctx, value) != Invalid && Compatible(c.target, TypeE(c, ctx, value), l.ty, Some(value))
         && (op.Some? ==> IsInteger(l.ty)))
    case ExprStmt(e) => TypeE(c, ctx, e) != Invalid
    case ReturnStmt(None) => Compatible(c.target, UnitT, c.result, None)
    case ReturnStmt(Some(e)) =>
      TypeE(c, ctx, e) != Invalid && Compatible(c.target, TypeE(c, ctx, e), c.result, Some(e))
    case IfStmt(bs, els) =>
      OkBranches(c, ctx, inLoop, slot, bs) && OkBody(c, ctx, inLoop, slot + SlotsBs(bs), els)
    case While(cond, body) => TypeE(c, ctx, cond) == BoolT && OkBody(c, ctx, true, slot, body)
    case Break(hasValue) => inLoop && !hasValue
    case Continue => inLoop
    case OtherStmt => false
  }

  predicate OkBody(c: Unit, ctx: seq<Local>, inLoop: bool, slot: nat, ss: seq<Stmt>)
    decreases ss
  {
    ss == [] ||
    (OkS(c, ctx, inLoop, slot, ss[0]) &&
     OkBody(c, CtxAfter(c, ctx, slot, ss[0]), inLoop, slot + SlotsS(ss[0]), ss[1..]))
  }

  predicate OkBranches(c: Unit, ctx: seq<Local>, inLoop: bool, slot: nat, bs: seq<Branch>)
    decreases bs
  {
    bs == [] ||
    (TypeE(c, ctx, bs[0].cond) == BoolT && OkBody(c, ctx, inLoop, slot, bs[0].body) &&
     OkBranches(c, ctx, inLoop, slot + SlotsBody(bs[0].body), bs[1..]))
  }

  /** Only a let extends the locals that later statements of the body see. */
  function CtxAfter(c: Unit, ctx: seq<Local>, slot: nat, s: Stmt): seq<Local> {
    match s
    case Let(name, declared, init) => ctx + [Local(name, LetType(c, ctx, declared, init), slot)]
    case _ => ctx
  }

  function SlotsS(s: Stmt): nat
    decreases s
  {
    match s
    case Let(_, _, _) => 1
    case IfStmt(bs, els) => SlotsBs(bs) + SlotsBody(els)
    case While(_, body) => SlotsBody(body)
    case _ => 0
  }

  function SlotsBody(ss: seq<Stmt>): nat
    decreases ss
  {
    if ss == [] then 0 else SlotsS(ss[0]) + SlotsBody(ss[1..])
  }

  function SlotsBs(bs: seq<Branch>): nat
    decreases bs
  {
    if bs == [] then 0 else SlotsBody(bs[0].body) + SlotsBs(bs[1..])
  }

  function LabelsS(s: Stmt): nat
    decreases s
  {
    match s
    case Let(_, _, init) => LabelsE(init)
    case Assign(_, _, value) => LabelsE(value)
    case ExprStmt(e) => LabelsE(e)
    case ReturnStmt(Some(e)) => LabelsE(e)
    case IfStmt(bs, els) => 1 + LabelsBs(bs) + LabelsBody(els)
    case While(cond, body) => 2 + LabelsE(cond) + LabelsBody(body)
    case _ => 0
  }

  function LabelsBody(ss: seq<Stmt>): nat
    decreases ss
  {
    if ss == [] then 0 else LabelsS(ss[0]) + LabelsBody(ss[1..])
  }

  function LabelsBs(bs: seq<Branch>): nat
    decreases bs
  {
    if bs == [] then 0 else 1 + LabelsE(bs[0].cond) + LabelsBody(bs[0].body) + LabelsBs(bs[1..])
  }

  function CodeS(c: Unit, ctx: seq<Local>, loop: Loop, s: Stmt, lab: nat, slot: nat): seq<IR.Inst>
    decreases s
  {
    match s
    case Let(_, declared, init) =>
      var t := LetType(c, ctx, declared, init);
      CodeE(c, ctx, init, lab) + ConvertCode(TypeE(c, ctx, init), t) + [IR.Store(t, slot)]
    case Assign(name, op, value) =>
      (match Lookup(ctx, name)
       case None => []
       case Some(l) =>
         (if op.Some? then [IR.Load(l.ty, l.slot)] else []) + CodeE(c, ctx, value, lab)
         + ConvertCode(TypeE(c, ctx, value), l.ty)
         + (if op.Some? then [IR.Binary(l.ty, op.value)] else []) + [IR.Store(l.ty, l.slot)])
    case ExprStmt(e) => CodeE(c, ctx, e, lab) + [IR.Drop]
    case ReturnStmt(None) => [IR.Const(UnitT, 0)] + ConvertCode(UnitT, c.result) + [IR.Return(c.result)]
    case ReturnStmt(Some(e)) =>
      CodeE(c, ctx, e, lab) + ConvertCode(TypeE(c, ctx, e), c.result) + [IR.Return(c.result)]
    case IfStmt(bs, els) =>
      CodeBranches(c, ctx, loop, bs, lab, lab + 1, slot)
      + CodeBody(c, ctx, loop, els, lab + 1 + LabelsBs(bs), slot + SlotsBs(bs)) + [IR.Label(lab)]
    case While(cond, body) =>
      WhileCode(lab, CodeE(c, ctx, cond, lab + 2),
                CodeBody(c, ctx, Loop(lab + 1, lab), body, lab + 2 + LabelsE(cond), slot))
    case Break(_) => (match loop case Loop(b, _) => [IR.Jump(b)] case NoLoop => [])
    case Continue => (match loop case Loop(_, k) => [IR.Jump(k)] case NoLoop => [])
    case OtherStmt => []
  }

  function CodeBody(c: Unit, ctx: seq<Local>, loop: Loop, ss: seq<Stmt>, lab: nat, slot: nat): seq<IR.Inst>
    decreases ss
  {
    if ss == [] then []
    else
      CodeS(c, ctx, loop, ss[0], lab, slot)
      + CodeBody(c, CtxAfter(c, ctx, slot, ss[0]), loop, ss[1..], lab + LabelsS(ss[0]), slot + SlotsS(ss[0]))
  }

  /** The branches of an if; each ends with a jump to the label end. */
  function CodeBranches(c: Unit, ctx: seq<Local>, loop: Loop, bs: seq<Branch>, end: nat, lab: nat, slot: nat): seq<IR.Inst>
    decreases bs
  {
    if bs == [] then []
    else
      var n := lab + 1 + LabelsE(bs[0].cond);
      BranchCode(end, lab, CodeE(c, ctx, bs[0].cond, lab + 1), CodeBody(c, ctx, loop, bs[0].body, n, slot),
                 CodeBranches(c, ctx, loop, bs[1..], end, n + LabelsBody(bs[0].body), slot + SlotsBody(bs[0].body)))
  }

  lemma {:induction false} BranchParts(c: Unit, ctx: seq<Local>, loop: Loop, bs: seq<Branch>, end: nat, lab: nat, slot: nat)
    requires bs != [] && OkBranches(c, ctx, loop.Loop?, slot, bs)
    ensures TypeE(c, ctx, bs[0].cond) == BoolT && OkBody(c, ctx, loop.Loop?, slot, bs[0].body)
    ensures OkBranches(c, ctx, loop.Loop?, slot + SlotsBody(bs[0].body), bs[1..])
    ensures SlotsBs(bs) == SlotsBody(bs[0].body) + SlotsBs(bs[1..])
    ensures LabelsBs(bs) == 1 + LabelsE(bs[0].cond) + LabelsBody(bs[0].body) + LabelsBs(bs[1..])
    ensures var n := lab + 1 + LabelsE(bs[0].cond);
      CodeBranches(c, ctx, loop, bs, end, lab, slot) ==
        BranchCode(end, lab, CodeE(c, ctx, bs[0].cond, lab + 1), CodeBody(c, ctx, loop, bs[0].body, n, slot),
                   CodeBranches(c, ctx, loop, bs[1..], end, n + LabelsBody(bs[0].body), slot + SlotsBody(bs[0].body)))
  {
    hide TypeE, CodeE, OkBody, CodeBody, BranchCode;
  }

  // ----- functions -----

  function ParamLocals(params: seq<Param>): seq<Local> {
    seq(|params|, i requires 0 <= i < |params| => Local(params[i].name, params[i].ty, i))
  }

  function CodeF(c: Unit, params: seq<Param>, body: seq<Stmt>): seq<IR.Inst> {
    CodeBody(c, ParamLocals(params), NoLoop, body, 0, |params|) + [IR.End(c.result)]
  }

  function ParamTypes(params: seq<Param>): seq<NType> {
    seq(|params|, i requires 0 <= i < |params| => params[i].ty)
  }

  function LowerFun(tg: Target, sigs: seq<FunDecl>, d: FunDecl): IR.Func {
    var types := ParamTypes(d.params);
    match d.body
    case None => IR.Func(types, d.result, true, [], 0, 0)
    case Some(body) =>
      IR.Func(types, d.result, false, CodeF(Unit(tg, sigs, d.result), d.params, body),
              |d.params| + SlotsBody(body), LabelsBody(body))
  }

  /** Whether the lowering accepts a function. */
  predicate OkFun(tg: Target, sigs: seq<FunDecl>, d: FunDecl) {
    d.result != Invalid &&
    (d.body.Some? ==> OkBody(Unit(tg, sigs, d.result), ParamLocals(d.params), false, |d.params|, d.body.value))
  }

  function LowerModule(tg: Target, sigs: seq<FunDecl>): seq<IR.Func> {
    seq(|sigs|, i requires 0 <= i < |sigs| => LowerFun(tg, sigs, sigs[i]))
  }
}
