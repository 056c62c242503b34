/** The lowering itself (src/backend/native_lower.c): one pass over the syntax tree that appends to
    an instruction buffer, hands out labels and slots, and gives up at the first error or limit. */
module Lower {
  import opened Wrappers
  import opened Numeric
  import opened NativeTypes
  import opened Ast
  import opened LowerSpec
  import IR = NativeIr

  const MAX_FUNCTIONS := 1024
  const MAX_LOCALS := 1024
  const MAX_IR := 65536
  const MAX_TOTAL_IR := 262144
  const MAX_DEPTH := 128
  const MAX_PARAMS := 6

  // ----- nesting depth a construct needs -----

  function Max(a: nat, b: nat): nat { if a < b then b else a }

  function DepthE(e: Expr): nat
    decreases e, 1
  {
    1 + DepthInside(e)
  }

  function DepthInside(e: Expr): nat
    decreases e, 0
  {
    match e
    case Binary(_, _, l, r) => Max(DepthE(l), DepthE(r))
    case Unary(_, _, x) => DepthE(x)
    case Cast(_, _, x) => DepthE(x)
    case Call(_, _, args) => DepthEs(args)
    case IfExpr(_, cond, thn, els) => Max(Max(DepthE(cond), DepthE(thn)), DepthElse(els))
    case Block(_, es) => DepthEs(es)
    case _ => 0
  }

  function DepthElse(els: Option<Expr>): nat
    decreases els, 0
  {
    if els.Some? then DepthE(els.value) else 0
  }

  function DepthEs(es: seq<Expr>): nat
    decreases es, 0
  {
    if es == [] then 0 else Max(DepthE(es[0]), DepthEs(es[1..]))
  }

  function DepthS(s: Stmt): nat
    decreases s
  {
    match s
    case Let(_, _, init) => DepthE(init)
    case Assign(_, _, value) => DepthE(value)
    case ExprStmt(e) => DepthE(e)
    case ReturnStmt(Some(e)) => DepthE(e)
    case IfStmt(bs, els) => Max(DepthBs(bs), 1 + DepthSs(els))
    case While(cond, body) => Max(DepthE(cond), 1 + DepthSs(body))
    case _ => 0
  }

  function DepthSs(ss: seq<Stmt>): nat
    decreases ss
  {
    if ss == [] then 0 else Max(DepthS(ss[0]), DepthSs(ss[1..]))
  }

  function DepthBs(bs: seq<Branch>): nat
    decreases bs
  {
    if bs == [] then 0 else Max(Max(DepthE(bs[0].cond), 1 + DepthSs(bs[0].body)), DepthBs(bs[1..]))
  }

  /** Registered signatures only mention native types. */
  ghost predicate ValidSigs(sigs: seq<FunDecl>) {
    forall d :: d in sigs ==> d.result != Invalid
  }

  lemma {:induction false} IfDepth(e: Expr, room: int)
    requires e.IfExpr?
    ensures DepthInside(e) <= room <==> DepthE(e.cond) <= room && DepthE(e.thn) <= room && DepthElse(e.els) <= room
  {
    hide DepthE, DepthElse;
  }

  lemma {:induction false} BinaryDepth(e: Expr, room: int)
    requires e.Binary?
    ensures DepthInside(e) <= room <==> DepthE(e.left) <= room && DepthE(e.right) <= room
  {
    hide DepthE;
  }

  lemma {:induction false} CompatibleType(tg: Target, actual: NType, expected: NType, e: Option<Expr>)
    requires Compatible(tg, actual, expected, e)
    ensures expected != Invalid
  {
  }

  class Lowerer {
    const unit: Unit
    var hadError: bool
    var totalIr: nat
    var ir: seq<IR.Inst>
    var labels: nat
    var slots: nat
    var locals: seq<Local>
    var breaks: seq<nat>
    var continues: seq<nat>
    var depth: nat

    constructor (unit: Unit, totalIr: nat)
      requires totalIr <= MAX_TOTAL_IR && ValidSigs(unit.sigs)
      ensures this.unit == unit && this.totalIr == totalIr && !hadError && Valid()
      ensures ir == [] && labels == 0 && slots == 0 && locals == [] && breaks == [] && depth == 0
    {
      this.unit := unit;
      this.totalIr := totalIr;
      hadError := false;
      ir, locals, breaks, continues := [], [], [], [];
      labels, slots, depth := 0, 0, 0;
    }

    ghost predicate Valid()
      reads this
    {
      && Budget() >= 0 && |locals| <= slots <= MAX_LOCALS
      && |breaks| == |continues| && |breaks| <= depth <= MAX_DEPTH
      && (forall l :: l in locals ==> l.ty != Invalid) && ValidSigs(unit.sigs)
    }

    ghost function CurrentLoop(): Loop
      reads this
      requires |breaks| == |continues|
    {
      if breaks == [] then NoLoop else Loop(breaks[|breaks| - 1], continues[|continues| - 1])
    }

    /** How many more instructions both limits allow. */
    ghost function Budget(): int
      reads this`ir, this`totalIr
    {
      if MAX_IR - |ir| < MAX_TOTAL_IR - totalIr then MAX_IR - |ir| else MAX_TOTAL_IR - totalIr
    }

    /** Room for n more instructions, d more levels of nesting and l more locals. */
    ghost predicate Room(n: nat, d: nat, l: nat)
      reads this
    {
      n <= Budget() && depth + d <= MAX_DEPTH && slots + l <= MAX_LOCALS
    }

    /** What lowering an expression leaves alone, error or not. */
    twostate predicate SameScope()
      reads this
    {
      slots == old(slots) && locals == old(locals) && breaks == old(breaks) && continues == old(continues) && depth == old(depth)
    }

    /** n instructions and k labels more, no error. */
    twostate predicate Emitted(code: seq<IR.Inst>, k: nat)
      reads this
    {
      ir == old(ir) + code && totalIr == old(totalIr) + |code| && Budget() == old(Budget()) - |code| && labels == old(labels) + k
    }

    ghost predicate AcceptsE(e: Expr)
      reads this
    {
      TypeE(unit, locals, e) != Invalid && Room(|CodeE(unit, locals, e, labels)|, DepthE(e), 0)
    }

    method Fail()
      modifies this`hadError
      ensures hadError && (old(Valid()) ==> Valid())
    {
      hadError := true;
    }

    method Emit(i: IR.Inst)
      requires Valid()
      modifies this`ir, this`totalIr, this`hadError
      ensures Valid()
      ensures hadError <==> old(hadError) || !old(Room(1, 0, 0))
      ensures !hadError ==> Emitted([i], 0)
    {
      if hadError { return; }
      if |ir| == MAX_IR || totalIr == MAX_TOTAL_IR {
        Fail();
        return;
      }
      ir := ir + [i];
      totalIr := totalIr + 1;
    }

    method NewLabel() returns (id: nat)
      requires Valid()
      modifies this`labels
      ensures Valid() && id == old(labels) && labels == old(labels) + 1 && Budget() == old(Budget())
    {
      id := labels;
      labels := labels + 1;
    }

    method Expression(e: Expr) returns (t: NType)
      requires Valid()
      modifies this
      ensures Valid() && SameScope()
      ensures hadError <==> old(hadError) || !old(AcceptsE(e))
      ensures !hadError ==> t == old(TypeE(unit, locals, e)) && Emitted(old(CodeE(unit, locals, e, labels)), LabelsE(e))
      decreases e, 3
    {
      if hadError { return Invalid; }
      depth := depth + 1;
      if depth > MAX_DEPTH {
        Fail();
        depth := depth - 1;
        return Invalid;
      }
      t := ExpressionImpl(e);
      depth := depth - 1;
    }

    ghost predicate AcceptsInside(e: Expr)
      reads this
    {
      TypeE(unit, locals, e) != Invalid && Room(|CodeE(unit, locals, e, labels)|, DepthInside(e), 0)
    }

    method ExpressionImpl(e: Expr) returns (t: NType)
      requires Valid() && !hadError
      modifies this
      ensures Valid() && SameScope()
      ensures hadError <==> !old(AcceptsInside(e))
      ensures !hadError ==> t == old(TypeE(unit, locals, e)) && Emitted(old(CodeE(unit, locals, e, labels)), LabelsE(e))
      decreases e, 2
    {
      t := e.ty;
      if t == Invalid {
        Fail();
        return;
      }
      match e
      case IntLit(ty, lit, _) =>
        if !IntegerFits(lit, Bits(unit.target, ty), IsSigned(ty)) {
          Fail();
          return Invalid;
        }
        Emit(IR.Const(ty, LiteralWord(lit)));
      case BoolLit(_, b) =>
        Emit(IR.Const(BoolT, Truth(b)));
        t := BoolT;
      case CharLit(_, c) =>
        Emit(IR.Const(CharT, c));
        t := CharT;
      case UnitLit(_) =>
        Emit(IR.Const(UnitT, 0));
        t := UnitT;
      case Ident(_, name) =>
        var v := Lookup(locals, name);
        if v == None {
          Fail();
          return Invalid;
        }
        Emit(IR.Load(v.value.ty, v.value.slot));
        t := v.value.ty;
      case Binary(_, _, _, _) => t := BinaryExpression(e);
      case Unary(_, _, _) => t := UnaryExpression(e);
      case Cast(_, _, _) => t := CastExpression(e);
      case Call(_, name, _) => if name == "assert" { t := AssertCall(e); } else { t := DirectCall(e); }
      case IfExpr(_, _, _, _) => t := IfExpression(e);
      case Block(_, _) => t := BlockExpression(e);
      case OtherExpr(_) =>
        Fail();
        return Invalid;
    }

    method UnaryExpression(e: Expr) returns (t: NType)
      requires Valid() && !hadError && e.Unary? && e.ty != Invalid
      modifies this
      ensures Valid() && SameScope()
      ensures hadError <==> !old(AcceptsInside(e))
      ensures !hadError ==> t == old(TypeE(unit, locals, e)) && Emitted(old(CodeE(unit, locals, e, labels)), LabelsE(e))
      decreases e, 1
    {
      t := e.ty;
      var operand := Expression(e.operand);
      if !((e.uop.Not? && operand == BoolT) || ((e.uop.Neg? || e.uop.BNot?) && IsInteger(operand))) {
        Fail();
        return Invalid;
      }
      Emit(IR.Unary(operand, e.uop));
    }

    method CastExpression(e: Expr) returns (t: NType)
      requires Valid() && !hadError && e.Cast? && e.ty != Invalid
      modifies this
      ensures Valid() && SameScope()
      ensures hadError <==> !old(AcceptsInside(e))
      ensures !hadError ==> t == old(TypeE(unit, locals, e)) && Emitted(old(CodeE(unit, locals, e, labels)), LabelsE(e))
      decreases e, 1
    {
      t := e.ty;
      if e.checked {
        Fail();
        return Invalid;
      }
      var from := Expression(e.operand);
      var fromScalar := IsInteger(from) || from == BoolT || from == CharT;
      var toScalar := IsInteger(e.ty) || e.ty == BoolT || e.ty == CharT;
      if !fromScalar || !toScalar {
        Fail();
        return Invalid;
      }
      Emit(IR.Convert(e.ty, from));
    }

    method BinaryExpression(e: Expr) returns (t: NType)
      requires Valid() && !hadError && e.Binary? && e.ty != Invalid
      modifies this
      ensures Valid() && SameScope()
      ensures hadError <==> !old(AcceptsInside(e))
      ensures !hadError ==> t == old(TypeE(unit, locals, e)) && Emitted(old(CodeE(unit, locals, e, labels)), LabelsE(e))
      decreases e, 1
    {
      var plan := PlanOf(unit.target, e.ty, e.op, e.left, e.right);
      match plan
      case Reject =>
        Fail();
        t := Invalid;
      case Logical => t := LogicalExpression(e);
      case Strict(_, _, _) => t := StrictExpression(e);
    }

    method LogicalExpression(e: Expr) returns (t: NType)
      requires Valid() && !hadError && e.Binary? && e.ty != Invalid
      requires PlanOf(unit.target, e.ty, e.op, e.left, e.right).Logical?
      modifies this
      ensures Valid() && SameScope()
      ensures hadError <==> !old(AcceptsInside(e))
      ensures !hadError ==> t == old(TypeE(unit, locals, e)) && Emitted(old(CodeE(unit, locals, e, labels)), LabelsE(e))
      decreases e, 0
    {
      hide TypeE, CodeE, LabelsE, PlanOf, LogicalCode, Budget, DepthE, DepthInside, Valid;
      BinaryDepth(e, MAX_DEPTH - depth);
      BinaryForm(unit, locals, e, labels);
      ghost var lab := labels;
      ghost var left := CodeE(unit, locals, e.left, lab + 2);
      ghost var right := CodeE(unit, locals, e.right, lab + 2 + LabelsE(e.left));
      LayLogical(e.op.And?, lab, left, right);
      var alternate := NewLabel();
      var end := NewLabel();
      LogicalParts(e, alternate, end);
      t := BoolT;
    }

    method LogicalParts(e: Expr, alternate: nat, end: nat)
      requires Valid() && e.Binary? && (e.op.And? || e.op.Or?)
      modifies this
      ensures Valid() && SameScope()
      ensures hadError <==> old(hadError) || !old(
        TypeE(unit, locals, e.left) != Invalid && TypeE(unit, locals, e.right) != Invalid
        && Room(|CodeE(unit, locals, e.left, labels)| + |CodeE(unit, locals, e.right, labels + LabelsE(e.left))| + 5, 0, 0)
        && Room(0, DepthE(e.left), 0) && Room(0, DepthE(e.right), 0))
      ensures !hadError ==>
        Emitted(old(((CodeE(unit, locals, e.left, labels) + [IR.Jz(alternate)]) + ValueOr(e.op.And?, e.right, labels + LabelsE(e.left), 1))
                    + ([IR.Jump(end)] + [IR.Label(alternate)] + ValueOr(e.op.Or?, e.right, labels + LabelsE(e.left), 0) + [IR.Label(end)])),
                LabelsE(e.left) + LabelsE(e.right))
      decreases e, 0, 1
    {
      hide TypeE, CodeE, LabelsE, DepthE, Budget, Valid;
      Lay2(ir, (CodeE(unit, locals, e.left, labels) + [IR.Jz(alternate)]) + ValueOr(e.op.And?, e.right, labels + LabelsE(e.left), 1),
           [IR.Jump(end)] + [IR.Label(alternate)] + ValueOr(e.op.Or?, e.right, labels + LabelsE(e.left), 0) + [IR.Label(end)]);
      LogicalFirst(e, e.left, e.right, e.op.And?, alternate);
      LogicalSecond(e.right, e.op.Or?, end, alternate);
    }

    /** The left operand, the branch on it, and what follows when the branch is not taken. */
    method LogicalFirst(e: Expr, l: Expr, r: Expr, isAnd: bool, alternate: nat)
      requires Valid() && e.Binary? && l == e.left && r == e.right
      modifies this
      ensures Valid() && SameScope()
      ensures hadError <==> old(hadError) || !old(
        TypeE(unit, locals, l) != Invalid && (isAnd ==> TypeE(unit, locals, r) != Invalid)
        && Room(|CodeE(unit, locals, l, labels)| + 1 + |ValueOr(isAnd, r, labels + LabelsE(l), 1)|, DepthE(l), 0)
        && (isAnd ==> Room(0, DepthE(r), 0)))
      ensures !hadError ==>
        Emitted(old((CodeE(unit, locals, l, labels) + [IR.Jz(alternate)]) + ValueOr(isAnd, r, labels + LabelsE(l), 1)),
                LabelsE(l) + if isAnd then LabelsE(r) else 0)
      decreases e, 0, 0
    {
      hide TypeE, CodeE, LabelsE, DepthE, Budget;
      Lay2(ir, CodeE(unit, locals, l, labels) + [IR.Jz(alternate)], ValueOr(isAnd, r, labels + LabelsE(l), 1));
      ExpressionJz(l, false, alternate);
      ExpressionOr(isAnd, r, 1);
    }

    method LogicalSecond(r: Expr, isOr: bool, end: nat, alternate: nat)
      requires Valid()
      modifies this
      ensures Valid() && SameScope()
      ensures hadError <==> old(hadError) || !old(
        (isOr ==> TypeE(unit, locals, r) != Invalid) && Room(3 + |ValueOr(isOr, r, labels, 0)|, if isOr then DepthE(r) else 0, 0))
      ensures !hadError ==>
        Emitted(old([IR.Jump(end)] + [IR.Label(alternate)] + ValueOr(isOr, r, labels, 0) + [IR.Label(end)]), if isOr then LabelsE(r) else 0)
      decreases r, 5
    {
      hide TypeE, CodeE, LabelsE, DepthE, Budget;
      Lay3(ir, [IR.Jump(end)] + [IR.Label(alternate)], ValueOr(isOr, r, labels, 0), [IR.Label(end)]);
      JumpThenLabel(end, alternate);
      ExpressionOr(isOr, r, 0);
      Emit(IR.Label(end));
    }

    ghost function ValueOr(evaluate: bool, x: Expr, lab: nat, constant: int): Code
      reads this
    {
      if evaluate then CodeE(unit, locals, x, lab) else [IR.Const(BoolT, constant)]
    }

    /** An expression and the branch that consumes it; a condition must be bool. */
    method ExpressionJz(x: Expr, condition: bool, id: nat)
      requires Valid()
      modifies this
      ensures Valid() && SameScope()
      ensures hadError <==> old(hadError) || !old(
        TypeE(unit, locals, x) != Invalid && (condition ==> TypeE(unit, locals, x) == BoolT)
        && Room(|CodeE(unit, locals, x, labels)| + 1, DepthE(x), 0))
      ensures !hadError ==> Emitted(old(CodeE(unit, locals, x, labels)) + [IR.Jz(id)], LabelsE(x))
      decreases x, 4
    {
      hide TypeE, CodeE, LabelsE;
      Lay2(ir, CodeE(unit, locals, x, labels), [IR.Jz(id)]);
      var t := Expression(x);
      if condition && t != BoolT { Fail(); }
      Emit(IR.Jz(id));
    }

    method JumpThenLabel(jump: nat, id: nat)
      requires Valid()
      modifies this`ir, this`totalIr, this`hadError
      ensures Valid()
      ensures hadError <==> old(hadError) || !old(Room(2, 0, 0))
      ensures !hadError ==> Emitted([IR.Jump(jump)] + [IR.Label(id)], 0)
    {
      Lay2(ir, [IR.Jump(jump)], [IR.Label(id)]);
      Emit(IR.Jump(jump));
      Emit(IR.Label(id));
    }

    /** The right operand, or the constant that stands for it. */
    method ExpressionOr(evaluate: bool, x: Expr, constant: int)
      requires Valid()
      modifies this
      ensures Valid() && SameScope()
      ensures hadError <==> old(hadError) || !old(if evaluate then AcceptsE(x) else Room(1, 0, 0))
      ensures !hadError ==>
        Emitted(old(ValueOr(evaluate, x, labels, constant)), if evaluate then LabelsE(x) else 0)
      decreases x, 4
    {
      if evaluate {
        var _ := Expression(x);
      } else {
        Emit(IR.Const(BoolT, constant));
      }
    }

    method StrictExpression(e: Expr) returns (t: NType)
      requires Valid() && !hadError && e.Binary? && e.ty != Invalid
      requires PlanOf(unit.target, e.ty, e.op, e.left, e.right).Strict?
      modifies this
      ensures Valid() && SameScope()
      ensures hadError <==> !old(AcceptsInside(e))
      ensures !hadError ==> t == old(TypeE(unit, locals, e)) && Emitted(old(CodeE(unit, locals, e, labels)), LabelsE(e))
      decreases e, 0
    {
      hide TypeE, CodeE, LabelsE, PlanOf, ConvertCode, Budget;
      var plan := PlanOf(unit.target, e.ty, e.op, e.left, e.right);
      BinaryForm(unit, locals, e, labels);
      ghost var lab, start := labels, ir;
      ghost var from, from' := if plan.convert then e.left.ty else plan.operand, if plan.convert then e.right.ty else plan.operand;
      LayStrict(start, CodeE(unit, locals, e.left, lab), ConvertCode(from, plan.operand),
                CodeE(unit, locals, e.right, lab + LabelsE(e.left)), ConvertCode(from', plan.operand), [IR.Binary(plan.operand, e.op)]);
      NoConvert(plan.operand);
      var _ := Expression(e.left);
      if plan.convert { EmitConvert(e.left.ty, plan.operand); }
      var _ := Expression(e.right);
      if plan.convert { EmitConvert(e.right.ty, plan.operand); }
      Emit(IR.Binary(plan.operand, e.op));
      t := plan.result;
    }

    method EmitConvert(from: NType, to: NType)
      requires Valid()
      modifies this`ir, this`totalIr, this`hadError
      ensures Valid()
      ensures hadError <==> old(hadError) || !old(Room(|ConvertCode(from, to)|, 0, 0))
      ensures !hadError ==> Emitted(ConvertCode(from, to), 0)
    {
      if from != to {
        Emit(IR.Convert(to, from));
      }
    }

    method AssertCall(e: Expr) returns (t: NType)
      requires Valid() && !hadError && e.Call? && e.name == "assert" && e.ty != Invalid
      modifies this
      ensures Valid() && SameScope()
      ensures hadError <==> !old(AcceptsInside(e))
      ensures !hadError ==> t == old(TypeE(unit, locals, e)) && Emitted(old(CodeE(unit, locals, e, labels)), LabelsE(e))
      decreases e, 1
    {
      hide TypeE, CodeE, LabelsE;
      AssertForm(unit, locals, e, labels);
      if |e.args| != 1 {
        Fail();
      } else {
        Lay3(ir, CodeE(unit, locals, e.args[0], labels), [IR.Assert], [IR.Const(UnitT, 0)]);
        assert DepthEs(e.args) == Max(DepthE(e.args[0]), DepthEs(e.args[1..]));
        var a := Expression(e.args[0]);
        if a != BoolT { Fail(); }
      }
      Emit(IR.Assert);
      Emit(IR.Const(UnitT, 0));
      t := UnitT;
    }

    method DirectCall(e: Expr) returns (t: NType)
      requires Valid() && !hadError && e.Call? && e.name != "assert" && e.ty != Invalid
      modifies this
      ensures Valid() && SameScope()
      ensures hadError <==> !old(AcceptsInside(e))
      ensures !hadError ==> t == old(TypeE(unit, locals, e)) && Emitted(old(CodeE(unit, locals, e, labels)), LabelsE(e))
      decreases e, 1
    {
      hide TypeE, CodeE, LabelsE, CodeArgs, ArgsOk, Budget;
      CallForm(unit, locals, e, labels);
      var found := FindFunction(unit.sigs, e.name);
      if found == None {
        Fail();
        return Invalid;
      }
      var f := unit.sigs[found.value];
      if |e.args| != |f.params| {
        Fail();
        return Invalid;
      }
      Lay2(ir, CodeArgs(unit, locals, e.args, f.params, labels), [IR.Call(f.result, found.value)]);
      Arguments(e.args, f.params);
      Emit(IR.Call(f.result, found.value));
      t := f.result;
    }

    ghost predicate AcceptsArgs(args: seq<Expr>, params: seq<Param>)
      reads this
      requires |args| == |params|
    {
      ArgsOk(unit, locals, args, params) && Room(|CodeArgs(unit, locals, args, params, labels)|, DepthEs(args), 0)
    }

    /** Arguments in order, each converted to its parameter's type. */
    method Arguments(args: seq<Expr>, params: seq<Param>)
      requires Valid() && !hadError && |args| == |params|
      modifies this
      ensures Valid() && SameScope()
      ensures hadError <==> !old(AcceptsArgs(args, params))
      ensures !hadError ==> Emitted(old(CodeArgs(unit, locals, args, params, labels)), LabelsEs(args))
      decreases args, 0
    {
      hide TypeE, CodeE, LabelsE, DepthE, Compatible, ConvertCode, Budget;
      ghost var code, total := CodeArgs(unit, locals, args, params, labels), labels + LabelsEs(args);
      var i := 0;
      while i < |args|
        invariant 0 <= i <= |args| && Valid() && SameScope()
        invariant !hadError ==> old(ArgsOk(unit, locals, args, params)) == ArgsOk(unit, locals, args[i..], params[i..])
        invariant !hadError ==> ir + CodeArgs(unit, locals, args[i..], params[i..], labels) == old(ir) + code
        invariant !hadError ==> totalIr - |ir| == old(totalIr) - |old(ir)| && Budget() + |ir| == old(Budget()) + |old(ir)|
        invariant !hadError ==> labels + LabelsEs(args[i..]) == total
        invariant !hadError ==> (depth + DepthEs(args) <= MAX_DEPTH <==> depth + DepthEs(args[i..]) <= MAX_DEPTH)
        invariant hadError ==> !old(AcceptsArgs(args, params))
      {
        ArgsStep(unit, locals, args[i..], params[i..], labels);
        Lay3(ir, CodeE(unit, locals, args[i], labels), ConvertCode(TypeE(unit, locals, args[i]), params[i].ty),
             CodeArgs(unit, locals, args[i..][1..], params[i..][1..], labels + LabelsE(args[i])));
        assert args[i..][1..] == args[i + 1..] && params[i..][1..] == params[i + 1..];
        var t := Expression(args[i]);
        if !Compatible(unit.target, t, params[i].ty, Some(args[i])) {
          Fail();
        } else {
          EmitConvert(t, params[i].ty);
        }
        i := i + 1;
      }
    }

    method IfExpression(e: Expr) returns (t: NType)
      requires Valid() && !hadError && e.IfExpr? && e.ty != Invalid
      modifies this
      ensures Valid() && SameScope()
      ensures hadError <==> !old(AcceptsInside(e))
      ensures !hadError ==> t == old(TypeE(unit, locals, e)) && Emitted(old(CodeE(unit, locals, e, labels)), LabelsE(e))
      decreases e, 1
    {
      hide TypeE, CodeE, LabelsE, IfCode, DepthE, DepthInside, Budget, TypeElse, CodeElse, LabelsElse, DepthElse, Max;
      IfForm(unit, locals, e, labels);
      IfDepth(e, MAX_DEPTH - depth);
      ghost var n1 := labels + 2 + LabelsE(e.cond);
      LayIf(ir, labels, CodeE(unit, locals, e.cond, labels + 2), CodeE(unit, locals, e.thn, n1),
            CodeElse(unit, locals, e.els, n1 + LabelsE(e.thn)));
      var alternate := NewLabel();
      var end := NewLabel();
      ExpressionJz(e.cond, true, alternate);
      t := Expression(e.thn);
      JumpThenLabel(end, alternate);
      ElseThenLabel(e.els, t, end);
    }

    /** The else arm, whose type must be that of the then arm, and the end label. */
    method ElseThenLabel(els: Option<Expr>, thenType: NType, end: nat)
      requires Valid()
      modifies this
      ensures Valid() && SameScope()
      ensures hadError <==> old(hadError) || !old(
        TypeElse(unit, locals, els) != Invalid && TypeElse(unit, locals, els) == thenType
        && Room(|CodeElse(unit, locals, els, labels)| + 1, DepthElse(els), 0))
      ensures !hadError ==> Emitted(old(CodeElse(unit, locals, els, labels)) + [IR.Label(end)], LabelsElse(els))
      decreases els, 4
    {
      hide TypeE, CodeE, LabelsE, DepthE;
      Lay2(ir, CodeElse(unit, locals, els, labels), [IR.Label(end)]);
      var t := UnitT;
      if els.Some? {
        t := Expression(els.value);
      } else {
        Emit(IR.Const(UnitT, 0));
      }
      if t != thenType { Fail(); }
      Emit(IR.Label(end));
    }

    method BlockExpression(e: Expr) returns (t: NType)
      requires Valid() && !hadError && e.Block? && e.ty != Invalid
      modifies this
      ensures Valid() && SameScope()
      ensures hadError <==> !old(AcceptsInside(e))
      ensures !hadError ==> t == old(TypeE(unit, locals, e)) && Emitted(old(CodeE(unit, locals, e, labels)), LabelsE(e))
      decreases e, 1
    {
      hide TypeE, CodeE, LabelsE, DepthE, DepthInside, Budget, CodeBlock, TypeBlock, LabelsEs, DepthEs;
      BlockEnd(unit, locals, e);
      BlockForm(unit, locals, e, labels);
      t := UnitT;
      var es := e.exprs;
      if es == [] {
        Emit(IR.Const(UnitT, 0));
        return;
      }
      ghost var code, total := ir + CodeBlock(unit, locals, es, labels), labels + LabelsEs(es);
      var i := 0;
      while i < |es|
        invariant 0 <= i <= |es| && Valid() && SameScope()
        invariant hadError || BlockLeft(es[i..], code, total)
        invariant !hadError ==> totalIr - |ir| == old(totalIr) - |old(ir)| && Budget() + |ir| == old(Budget()) + |old(ir)|
        invariant !hadError && i < |es| ==> old(TypeBlock(unit, locals, es)) == TypeBlock(unit, locals, es[i..])
        invariant !hadError && i == |es| ==> t == old(TypeBlock(unit, locals, es)) != Invalid
        invariant !hadError ==> (depth + DepthEs(es) <= MAX_DEPTH <==> depth + DepthEs(es[i..]) <= MAX_DEPTH)
        invariant hadError ==> !old(AcceptsInside(e))
      {
        assert es[i..][1..] == es[i + 1..];
        BlockStep(unit, locals, es[i..], labels);
        Lay2(ir, ItemCode(es[i], i + 1 == |es|), CodeBlock(unit, locals, es[i..][1..], labels + LabelsE(es[i])));
        t := BlockItem(es[i], i + 1 == |es|);
        i := i + 1;
      }
    }

    /** The expressions still to come complete the code. */
    ghost predicate BlockLeft(rest: seq<Expr>, code: Code, total: nat)
      reads this
    {
      ir + CodeBlock(unit, locals, rest, labels) == code && labels + LabelsEs(rest) == total
    }

    ghost function ItemCode(e: Expr, last: bool): Code
      reads this
    {
      CodeE(unit, locals, e, labels) + if last then [] else [IR.Drop]
    }

    /** An expression of a block; every value but the last is dropped. */
    method BlockItem(e: Expr, last: bool) returns (t: NType)
      requires Valid()
      modifies this
      ensures Valid() && SameScope()
      ensures hadError <==> old(hadError) || !old(TypeE(unit, locals, e) != Invalid && Room(|ItemCode(e, last)|, DepthE(e), 0))
      ensures !hadError ==> t == old(TypeE(unit, locals, e)) && Emitted(old(ItemCode(e, last)), LabelsE(e))
      decreases e, 4
    {
      hide TypeE, CodeE, LabelsE, DepthE, Budget;
      Lay2(ir, CodeE(unit, locals, e, labels), if last then [] else [IR.Drop]);
      t := Expression(e);
      if !last { Emit(IR.Drop); }
    }

    // ----- statements -----

    /** What lowering a statement leaves alone, error or not. */
    twostate predicate SameLoops()
      reads this
    {
      breaks == old(breaks) && continues == old(continues) && depth == old(depth) && old(locals) <= locals
    }

    ghost predicate AcceptsS(s: Stmt)
      reads this
      requires |breaks| == |continues|
    {
      OkS(unit, locals, CurrentLoop().Loop?, slots, s)
      && Room(|CodeS(unit, locals, CurrentLoop(), s, labels, slots)|, DepthS(s), SlotsS(s))
    }

    ghost function StmtCode(s: Stmt): Code
      reads this
      requires |breaks| == |continues|
    {
      CodeS(unit, locals, CurrentLoop(), s, labels, slots)
    }

    /** The locals after a statement. */
    ghost function StmtLocals(s: Stmt): seq<Local>
      reads this
    {
      CtxAfter(unit, locals, slots, s)
    }

    method AddLocal(name: string, ty: NType)
      requires Valid() && ty != Invalid
      modifies this`locals, this`slots, this`hadError
      ensures Valid() && slots >= 1
      ensures hadError <==> old(hadError) || old(slots) == MAX_LOCALS
      ensures old(slots) < MAX_LOCALS ==> locals == old(locals) + [Local(name, ty, old(slots))] && slots == old(slots) + 1
      ensures old(slots) == MAX_LOCALS ==> locals == old(locals) && slots == old(slots)
    {
      if slots == MAX_LOCALS || |locals| == MAX_LOCALS {
        Fail();
        return;
      }
      locals := locals + [Local(name, ty, slots)];
      slots := slots + 1;
    }

    method Statement(s: Stmt)
      requires Valid() && !hadError && |breaks| < depth
      modifies this
      ensures Valid() && SameLoops()
      ensures hadError <==> !old(AcceptsS(s))
      ensures !hadError ==> locals == old(StmtLocals(s)) && slots == old(slots) + SlotsS(s) && Emitted(old(StmtCode(s)), LabelsS(s))
      decreases s, 2
    {
      hide TypeE, CodeE, LabelsE, DepthE, Compatible, CodeBranches, CodeBody, OkBranches, OkBody, Budget, IfCode, WhileCode;
      match s
      case Let(_, _, _) => LetStatement(s);
      case Assign(_, _, _) => AssignStatement(s);
      case ExprStmt(e) =>
        Lay2(ir, CodeE(unit, locals, e, labels), [IR.Drop]);
        var _ := Expression(e);
        Emit(IR.Drop);
      case ReturnStmt(_) => ReturnStatement(s);
      case IfStmt(_, _) => IfStatement(s);
      case While(_, _) => WhileStatement(s);
      case Break(hasValue) =>
        if breaks == [] || hasValue {
          Fail();
        } else {
          Emit(IR.Jump(breaks[|breaks| - 1]));
        }
      case Continue =>
        if breaks == [] {
          Fail();
        } else {
          Emit(IR.Jump(continues[|continues| - 1]));
        }
      case OtherStmt => Fail();
    }

    method LetStatement(s: Stmt)
      requires Valid() && !hadError && s.Let?
      modifies this
      ensures Valid() && SameLoops()
      ensures hadError <==> !old(AcceptsS(s))
      ensures !hadError ==> locals == old(StmtLocals(s)) && slots == old(slots) + SlotsS(s) && Emitted(old(StmtCode(s)), LabelsS(s))
      decreases s, 0
    {
      hide TypeE, CodeE, LabelsE, DepthE, ConvertCode, Budget, Compatible;
      hide OkBody, OkBranches, CodeBody, CodeBranches, WhileCode, LabelsBs, LabelsBody, SlotsBs, SlotsBody, DepthSs, DepthBs;
      ghost var t0 := LetType(unit, locals, s.declared, s.init);
      Lay3(ir, CodeE(unit, locals, s.init, labels), ConvertCode(TypeE(unit, locals, s.init), t0), [IR.Store(t0, slots)]);
      var value := Expression(s.init);
      var ty := if s.declared.Some? then s.declared.value else value;
      if ty == UnitT || !Compatible(unit.target, value, ty, Some(s.init)) {
        Fail();
        return;
      }
      CompatibleType(unit.target, value, ty, Some(s.init));
      AddLocal(s.name, ty);
      EmitConvert(value, ty);
      Emit(IR.Store(ty, slots - 1));
    }

    method AssignStatement(s: Stmt)
      requires Valid() && !hadError && s.Assign?
      modifies this
      ensures Valid() && SameLoops()
      ensures hadError <==> !old(AcceptsS(s))
      ensures !hadError ==> locals == old(StmtLocals(s)) && slots == old(slots) + SlotsS(s) && Emitted(old(StmtCode(s)), LabelsS(s))
      decreases s, 0
    {
      hide TypeE, CodeE, LabelsE, DepthE, ConvertCode, Budget, Compatible, Lookup, Valid;
      hide OkBody, OkBranches, CodeBody, CodeBranches, WhileCode, LabelsBs, LabelsBody, SlotsBs, SlotsBody, DepthSs, DepthBs;
      var found := Lookup(locals, s.name);
      if found == None {
        Fail();
        return;
      }
      var v := found.value;
      ghost var loads := if s.compound.Some? then [IR.Load(v.ty, v.slot)] else [];
      ghost var ops := if s.compound.Some? then [IR.Binary(v.ty, s.compound.value)] else [];
      LayStrict(ir, loads, CodeE(unit, locals, s.value, labels), ConvertCode(TypeE(unit, locals, s.value), v.ty), ops, [IR.Store(v.ty, v.slot)]);
      EmitIf(s.compound.Some?, IR.Load(v.ty, v.slot));
      var value := Expression(s.value);
      if !Compatible(unit.target, value, v.ty, Some(s.value)) {
        Fail();
      } else {
        EmitConvert(value, v.ty);
      }
      if s.compound.Some? && !IsInteger(v.ty) { Fail(); }
      EmitIf(s.compound.Some?, IR.Binary(v.ty, if s.compound.Some? then s.compound.value else AssignSentinel));
      Emit(IR.Store(v.ty, v.slot));
    }

    method EmitIf(emit: bool, i: IR.Inst)
      requires Valid()
      modifies this`ir, this`totalIr, this`hadError
      ensures Valid()
      ensures hadError <==> old(hadError) || !old(Room(if emit then 1 else 0, 0, 0))
      ensures !hadError ==> Emitted(if emit then [i] else [], 0)
    {
      if emit { Emit(i); }
    }

    method ReturnStatement(s: Stmt)
      requires Valid() && !hadError && s.ReturnStmt?
      modifies this
      ensures Valid() && SameLoops()
      ensures hadError <==> !old(AcceptsS(s))
      ensures !hadError ==> locals == old(StmtLocals(s)) && slots == old(slots) + SlotsS(s) && Emitted(old(StmtCode(s)), LabelsS(s))
      decreases s, 0
    {
      hide TypeE, CodeE, LabelsE, DepthE, ConvertCode, Budget, Compatible;
      hide OkBody, OkBranches, CodeBody, CodeBranches, WhileCode, LabelsBs, LabelsBody, SlotsBs, SlotsBody, DepthSs, DepthBs;
      var value := UnitT;
      if s.result.Some? {
        var e := s.result.value;
        Lay3(ir, CodeE(unit, locals, e, labels), ConvertCode(TypeE(unit, locals, e), unit.result), [IR.Return(unit.result)]);
        value := Expression(e);
      } else {
        Lay3(ir, [IR.Const(UnitT, 0)], ConvertCode(UnitT, unit.result), [IR.Return(unit.result)]);
        Emit(IR.Const(UnitT, 0));
      }
      if !Compatible(unit.target, value, unit.result, s.result) {
        Fail();
      } else {
        EmitConvert(value, unit.result);
      }
      Emit(IR.Return(unit.result));
    }

    ghost predicate AcceptsBody(ss: seq<Stmt>)
      reads this
      requires |breaks| == |continues|
    {
      OkBody(unit, locals, CurrentLoop().Loop?, slots, ss)
      && Room(|CodeBody(unit, locals, CurrentLoop(), ss, labels, slots)|, 1 + DepthSs(ss), SlotsBody(ss))
    }

    ghost function BodyCode(ss: seq<Stmt>): Code
      reads this
      requires |breaks| == |continues|
    {
      CodeBody(unit, locals, CurrentLoop(), ss, labels, slots)
    }

    /** A body is a scope of its own. */
    method Body(ss: seq<Stmt>)
      requires Valid()
      modifies this
      ensures Valid() && SameLoops() && locals == old(locals)
      ensures hadError <==> old(hadError) || !old(AcceptsBody(ss))
      ensures !hadError ==> slots == old(slots) + SlotsBody(ss) && Emitted(old(BodyCode(ss)), LabelsBody(ss))
      decreases ss, 2
    {
      hide CodeBody, OkBody, SlotsBody, LabelsBody, DepthSs, CodeS, OkS, SlotsS, LabelsS, DepthS, CtxAfter, Budget, Max;
      depth := depth + 1;
      if depth > MAX_DEPTH {
        Fail();
        depth := depth - 1;
        return;
      }
      var saved := |locals|;
      ghost var code, total, last, loop := BodyCode(ss), labels + LabelsBody(ss), slots + SlotsBody(ss), CurrentLoop();
      BodyEnd(unit, loop);
      var i := 0;
      while i < |ss| && !hadError
        invariant 0 <= i <= |ss| && Valid() && depth == old(depth) + 1
        invariant breaks == old(breaks) && continues == old(continues) && old(locals) <= locals
        invariant !hadError ==> old(OkBody(unit, locals, loop.Loop?, slots, ss)) == OkBody(unit, locals, loop.Loop?, slots, ss[i..])
        invariant !hadError ==> ir + BodyCode(ss[i..]) == old(ir) + code
        invariant !hadError ==> totalIr - |ir| == old(totalIr) - |old(ir)| && Budget() + |ir| == old(Budget()) + |old(ir)|
        invariant !hadError ==> labels + LabelsBody(ss[i..]) == total && slots + SlotsBody(ss[i..]) == last
        invariant !hadError ==> (depth + DepthSs(ss) <= MAX_DEPTH <==> depth + DepthSs(ss[i..]) <= MAX_DEPTH)
        invariant old(hadError) ==> hadError
        invariant hadError ==> old(hadError) || !old(AcceptsBody(ss))
      {
        assert ss[i..][1..] == ss[i + 1..];
        BodyStep(unit, locals, loop, ss[i..], labels, slots, MAX_DEPTH - depth);
        Lay2(ir, StmtCode(ss[i]), CodeBody(unit, CtxAfter(unit, locals, slots, ss[i]), loop, ss[i + 1..], labels + LabelsS(ss[i]), slots + SlotsS(ss[i])));
        Statement(ss[i]);
        i := i + 1;
      }
      locals := locals[..saved];
      depth := depth - 1;
    }

    ghost predicate AcceptsBranch(b: Branch)
      reads this
      requires |breaks| == |continues|
    {
      TypeE(unit, locals, b.cond) == BoolT && OkBody(unit, locals, CurrentLoop().Loop?, slots, b.body)
      && Room(|CondCode(b)| + |BranchBody(b)| + 3, Max(DepthE(b.cond), 1 + DepthSs(b.body)), SlotsBody(b.body))
    }

    ghost function CondCode(b: Branch): Code
      reads this
    {
      CodeE(unit, locals, b.cond, labels + 1)
    }

    ghost function BranchBody(b: Branch): Code
      reads this
      requires |breaks| == |continues|
    {
      CodeBody(unit, locals, CurrentLoop(), b.body, labels + 1 + LabelsE(b.cond), slots)
    }

    method OneBranch(b: Branch, end: nat)
      requires Valid()
      modifies this
      ensures Valid() && SameLoops() && locals == old(locals)
      ensures hadError <==> old(hadError) || !old(AcceptsBranch(b))
      ensures !hadError ==> slots == old(slots) + SlotsBody(b.body)
      ensures !hadError ==>
        Emitted(BranchCode(end, old(labels), old(CondCode(b)), old(BranchBody(b)), []), 1 + LabelsE(b.cond) + LabelsBody(b.body))
      decreases b, 5
    {
      hide TypeE, CodeE, LabelsE, DepthE, CodeBody, OkBody, SlotsBody, LabelsBody, DepthSs, Budget, Max, BranchCode;
      LayBranch(ir, end, labels, CondCode(b), BranchBody(b));
      MaxWithin(DepthE(b.cond), 1 + DepthSs(b.body), MAX_DEPTH - depth);
      var next := NewLabel();
      ExpressionJz(b.cond, true, next);
      Body(b.body);
      JumpThenLabel(end, next);
    }

    method IfStatement(s: Stmt)
      requires Valid() && !hadError && s.IfStmt?
      modifies this
      ensures Valid() && SameLoops()
      ensures hadError <==> !old(AcceptsS(s))
      ensures !hadError ==> locals == old(StmtLocals(s)) && slots == old(slots) + SlotsS(s) && Emitted(old(StmtCode(s)), LabelsS(s))
      decreases s, 0
    {
      hide CodeBody, OkBody, SlotsBody, LabelsBody, DepthSs, Budget, Max, CodeBranches, OkBranches, SlotsBs, LabelsBs, DepthBs;
      var bs, els := s.branches, s.elseBody;
      ghost var loop := CurrentLoop();
      ghost var elseCode := CodeBody(unit, locals, loop, els, labels + 1 + LabelsBs(bs), slots + SlotsBs(bs));
      Lay3(ir, CodeBranches(unit, locals, loop, bs, labels, labels + 1, slots), elseCode, [IR.Label(labels)]);
      MaxWithin(DepthBs(bs), 1 + DepthSs(els), MAX_DEPTH - depth);
      var end := NewLabel();
      Branches(bs, end);
      Body(els);
      Emit(IR.Label(end));
    }

    ghost predicate AcceptsBranches(bs: seq<Branch>, end: nat)
      reads this
      requires |breaks| == |continues|
    {
      OkBranches(unit, locals, CurrentLoop().Loop?, slots, bs)
      && Room(|BranchesCode(bs, end)|, DepthBs(bs), SlotsBs(bs))
    }

    ghost function BranchesCode(bs: seq<Branch>, end: nat): Code
      reads this
      requires |breaks| == |continues|
    {
      CodeBranches(unit, locals, CurrentLoop(), bs, end, labels, slots)
    }

    method Branches(bs: seq<Branch>, end: nat)
      requires Valid() && !hadError
      modifies this
      ensures Valid() && SameLoops() && locals == old(locals)
      ensures hadError <==> !old(AcceptsBranches(bs, end))
      ensures !hadError ==> slots == old(slots) + SlotsBs(bs) && Emitted(old(BranchesCode(bs, end)), LabelsBs(bs))
      decreases bs, 6
    {
      hide TypeE, CodeE, LabelsE, DepthE, CodeBody, OkBody, SlotsBody, LabelsBody, DepthSs, Budget, Max, BranchCode;
      hide CodeBranches, OkBranches, SlotsBs, LabelsBs, DepthBs;
      ghost var code, total, last, loop := BranchesCode(bs, end), labels + LabelsBs(bs), slots + SlotsBs(bs), CurrentLoop();
      BranchesEnd(unit, loop);
      var i := 0;
      while i < |bs|
        invariant 0 <= i <= |bs| && Valid() && SameLoops() && locals == old(locals)
        invariant !hadError ==> old(OkBranches(unit, locals, loop.Loop?, slots, bs)) == OkBranches(unit, locals, loop.Loop?, slots, bs[i..])
        invariant !hadError ==> ir + BranchesCode(bs[i..], end) == old(ir) + code
        invariant !hadError ==> totalIr - |ir| == old(totalIr) - |old(ir)| && Budget() + |ir| == old(Budget()) + |old(ir)|
        invariant !hadError ==> labels + LabelsBs(bs[i..]) == total && slots + SlotsBs(bs[i..]) == last
        invariant !hadError ==> (depth + DepthBs(bs) <= MAX_DEPTH <==> depth + DepthBs(bs[i..]) <= MAX_DEPTH)
        invariant hadError ==> !old(AcceptsBranches(bs, end))
      {
        assert bs[i..][1..] == bs[i + 1..];
        BranchesStep(unit, locals, loop, bs[i..], end, labels, slots, MAX_DEPTH - depth);
        ghost var n := labels + 1 + LabelsE(bs[i].cond) + LabelsBody(bs[i].body);
        SplitBranch(ir, end, labels, CondCode(bs[i]), BranchBody(bs[i]),
                    CodeBranches(unit, locals, loop, bs[i + 1..], end, n, slots + SlotsBody(bs[i].body)));
        OneBranch(bs[i], end);
        i := i + 1;
      }
    }

    method WhileStatement(s: Stmt)
      requires Valid() && !hadError && s.While? && |breaks| < depth
      modifies this
      ensures Valid() && SameLoops()
      ensures hadError <==> !old(AcceptsS(s))
      ensures !hadError ==> locals == old(StmtLocals(s)) && slots == old(slots) + SlotsS(s) && Emitted(old(StmtCode(s)), LabelsS(s))
      decreases s, 1
    {
      hide TypeE, CodeE, LabelsE, DepthE, CodeBody, OkBody, SlotsBody, LabelsBody, DepthSs, Budget, Max, WhileCode;
      if |breaks| == MAX_DEPTH {
        assert false;  // nesting runs out of depth before it runs out of loops
      }
      ghost var lab := labels;
      WhileSize(lab, CodeE(unit, locals, s.cond, lab + 2),
                CodeBody(unit, locals, Loop(lab + 1, lab), s.body, lab + 2 + LabelsE(s.cond), slots));
      MaxWithin(DepthE(s.cond), 1 + DepthSs(s.body), MAX_DEPTH - depth);
      var start := NewLabel();
      var end := NewLabel();
      breaks := breaks + [end];
      continues := continues + [start];
      LoopParts(s, start);
      breaks := breaks[..|breaks| - 1];
      continues := continues[..|continues| - 1];
    }

    ghost predicate AcceptsLoop(cond: Expr, body: seq<Stmt>)
      reads this
      requires labels >= 2
    {
      TypeE(unit, locals, cond) == BoolT && OkBody(unit, locals, true, slots, body)
      && Room(|CodeE(unit, locals, cond, labels)| + |LoopBody(cond, body)| + 4, DepthE(cond), SlotsBody(body))
      && depth + 1 + DepthSs(body) <= MAX_DEPTH
    }

    ghost function LoopBody(cond: Expr, body: seq<Stmt>): Code
      reads this
      requires labels >= 2
    {
      CodeBody(unit, locals, Loop(labels - 1, labels - 2), body, labels + LabelsE(cond), slots)
    }

    /** The code of a loop whose labels have just been allocated and pushed. */
    method LoopParts(s: Stmt, start: nat)
      requires Valid() && !hadError && s.While? && labels == start + 2
      requires breaks != [] && breaks[|breaks| - 1] == start + 1 && continues[|continues| - 1] == start
      modifies this
      ensures Valid() && SameLoops() && locals == old(locals)
      ensures hadError <==> !old(AcceptsLoop(s.cond, s.body))
      ensures !hadError ==> slots == old(slots) + SlotsBody(s.body)
      ensures !hadError ==>
        Emitted(WhileCode(start, old(CodeE(unit, locals, s.cond, labels)), old(LoopBody(s.cond, s.body))), LabelsE(s.cond) + LabelsBody(s.body))
      decreases s, 0
    {
      hide TypeE, CodeE, LabelsE, DepthE, CodeBody, OkBody, SlotsBody, LabelsBody, DepthSs, Budget, Max, WhileCode;
      LayWhile(ir, start, CodeE(unit, locals, s.cond, labels), LoopBody(s.cond, s.body));
      Emit(IR.Label(start));
      ExpressionJz(s.cond, true, start + 1);
      Body(s.body);
      JumpThenLabel(start, start + 1);
    }
  }

  // ----- appending code piece by piece -----

  type Code = seq<IR.Inst>

  lemma {:induction false} Lay2(s: Code, a: Code, b: Code)
    ensures s + a + b == s + (a + b)
  {
  }

  lemma {:induction false} Lay3(s: Code, a: Code, b: Code, c: Code)
    ensures s + a + b + c == s + (a + b + c)
    ensures s + (a + b) + c == s + (a + b + c)
  {
  }

  lemma {:induction false} NoConvert(t: NType)
    ensures ConvertCode(t, t) == []
    ensures forall s: Code {:trigger s + ConvertCode(t, t)} :: s + ConvertCode(t, t) == s
  {
  }

  lemma {:induction false} LayStrict(s: Code, a: Code, b: Code, c: Code, d: Code, e: Code)
    ensures s + a + b + c + d + e == s + (a + b + c + d + e)
  {
    Lay3(s, a, b, c);
    Lay3(s, a + b + c, d, e);
  }

  lemma {:induction false} LayLogical(isAnd: bool, lab: nat, left: Code, right: Code)
    ensures var second, last := if isAnd then right else [IR.Const(BoolT, 1)], if isAnd then [IR.Const(BoolT, 0)] else right;
      ((left + [IR.Jz(lab)]) + second) + ([IR.Jump(lab + 1)] + [IR.Label(lab)] + last + [IR.Label(lab + 1)])
      == LogicalCode(isAnd, lab, left, right)
    ensures |LogicalCode(isAnd, lab, left, right)| == |left| + |right| + 5
  {
    var second, last := if isAnd then right else [IR.Const(BoolT, 1)], if isAnd then [IR.Const(BoolT, 0)] else right;
    LayDiamond([], left, [IR.Jz(lab)], second, [IR.Jump(lab + 1)], [IR.Label(lab)], last, [IR.Label(lab + 1)]);
  }

  lemma {:induction false} LayIf(s: Code, lab: nat, cond: Code, thn: Code, els: Code)
    ensures s + (cond + [IR.Jz(lab)]) + thn + ([IR.Jump(lab + 1)] + [IR.Label(lab)]) + (els + [IR.Label(lab + 1)])
      == s + IfCode(lab, cond, thn, els)
    ensures |IfCode(lab, cond, thn, els)| == |cond| + |thn| + |els| + 4
  {
    LayDiamond(s, cond, [IR.Jz(lab)], thn, [IR.Jump(lab + 1)], [IR.Label(lab)], els, [IR.Label(lab + 1)]);
    Lay2(s + (cond + [IR.Jz(lab)]) + thn + ([IR.Jump(lab + 1)] + [IR.Label(lab)]), els, [IR.Label(lab + 1)]);
  }

  lemma {:induction false} LayDiamond(s: Code, a: Code, b: Code, c: Code, d: Code, e: Code, f: Code, g: Code)
    ensures s + (a + b) + c + (d + e) + f + g == s + (a + b + c + d + e + f + g)
  {
    Lay3(s, a + b, c, d + e);
    Lay2(a + b + c, d, e);
    Lay3(s, a + b + c + d + e, f, g);
  }

  lemma {:induction false} LayBranch(s: Code, end: nat, lab: nat, cond: Code, body: Code)
    ensures s + (cond + [IR.Jz(lab)]) + body + ([IR.Jump(end)] + [IR.Label(lab)]) == s + BranchCode(end, lab, cond, body, [])
    ensures |BranchCode(end, lab, cond, body, [])| == |cond| + |body| + 3
  {
    Lay3(s, cond + [IR.Jz(lab)], body, [IR.Jump(end)] + [IR.Label(lab)]);
    Lay2(cond + [IR.Jz(lab)] + body, [IR.Jump(end)], [IR.Label(lab)]);
    assert BranchCode(end, lab, cond, body, []) == cond + [IR.Jz(lab)] + body + [IR.Jump(end)] + [IR.Label(lab)];
  }

  lemma {:induction false} SplitBranch(s: Code, end: nat, lab: nat, cond: Code, body: Code, rest: Code)
    ensures s + BranchCode(end, lab, cond, body, []) + rest == s + BranchCode(end, lab, cond, body, rest)
    ensures |BranchCode(end, lab, cond, body, rest)| == |cond| + |body| + 3 + |rest|
    ensures |BranchCode(end, lab, cond, body, [])| == |cond| + |body| + 3
  {
    var one := BranchCode(end, lab, cond, body, []);
    assert one == cond + [IR.Jz(lab)] + body + [IR.Jump(end)] + [IR.Label(lab)];
    assert BranchCode(end, lab, cond, body, rest) == one + rest;
    Lay2(s, one, rest);
  }

  lemma {:induction false} WhileSize(lab: nat, cond: Code, body: Code)
    ensures |WhileCode(lab, cond, body)| == |cond| + |body| + 4
  {
  }

  lemma {:induction false} LayWhile(s: Code, lab: nat, cond: Code, body: Code)
    ensures s + [IR.Label(lab)] + (cond + [IR.Jz(lab + 1)]) + body + ([IR.Jump(lab)] + [IR.Label(lab + 1)]) == s + WhileCode(lab, cond, body)
    ensures |WhileCode(lab, cond, body)| == |cond| + |body| + 4
  {
    Lay2(s + [IR.Label(lab)], cond, [IR.Jz(lab + 1)]);
    Lay2(s + [IR.Label(lab)] + (cond + [IR.Jz(lab + 1)]) + body, [IR.Jump(lab)], [IR.Label(lab + 1)]);
    LayStrict(s, [IR.Label(lab)], cond, [IR.Jz(lab + 1)], body, [IR.Jump(lab)]);
    Lay2(s, [IR.Label(lab)] + cond + [IR.Jz(lab + 1)] + body + [IR.Jump(lab)], [IR.Label(lab + 1)]);
  }

  lemma {:induction false} MaxWithin(a: nat, b: nat, room: int)
    ensures Max(a, b) <= room <==> a <= room && b <= room
  {
  }

  lemma {:induction false} BodyEnd(c: Unit, loop: Loop)
    ensures forall ctx, lab, slot {:trigger CodeBody(c, ctx, loop, [], lab, slot)} :: CodeBody(c, ctx, loop, [], lab, slot) == []
    ensures forall ctx, slot {:trigger OkBody(c, ctx, loop.Loop?, slot, [])} :: OkBody(c, ctx, loop.Loop?, slot, [])
    ensures LabelsBody([]) == 0 && SlotsBody([]) == 0 && DepthSs([]) == 0
  {
  }

  lemma {:induction false} BodyStep(c: Unit, ctx: seq<Local>, loop: Loop, ss: seq<Stmt>, lab: nat, slot: nat, room: int)
    requires ss != []
    ensures OkBody(c, ctx, loop.Loop?, slot, ss) <==>
      OkS(c, ctx, loop.Loop?, slot, ss[0]) && OkBody(c, CtxAfter(c, ctx, slot, ss[0]), loop.Loop?, slot + SlotsS(ss[0]), ss[1..])
    ensures CodeBody(c, ctx, loop, ss, lab, slot) ==
      CodeS(c, ctx, loop, ss[0], lab, slot)
      + CodeBody(c, CtxAfter(c, ctx, slot, ss[0]), loop, ss[1..], lab + LabelsS(ss[0]), slot + SlotsS(ss[0]))
    ensures LabelsBody(ss) == LabelsS(ss[0]) + LabelsBody(ss[1..]) && SlotsBody(ss) == SlotsS(ss[0]) + SlotsBody(ss[1..])
    ensures DepthSs(ss) <= room <==> DepthS(ss[0]) <= room && DepthSs(ss[1..]) <= room
  {
    hide CodeS, OkS, SlotsS, LabelsS, DepthS, CtxAfter;
  }

  lemma {:induction false} BranchesEnd(c: Unit, loop: Loop)
    ensures forall ctx, end, lab, slot {:trigger CodeBranches(c, ctx, loop, [], end, lab, slot)} :: CodeBranches(c, ctx, loop, [], end, lab, slot) == []
    ensures forall ctx, slot {:trigger OkBranches(c, ctx, loop.Loop?, slot, [])} :: OkBranches(c, ctx, loop.Loop?, slot, [])
    ensures LabelsBs([]) == 0 && SlotsBs([]) == 0 && DepthBs([]) == 0
  {
  }

  lemma {:induction false} BranchesStep(c: Unit, ctx: seq<Local>, loop: Loop, bs: seq<Branch>, end: nat, lab: nat, slot: nat, room: int)
    requires bs != []
    ensures OkBranches(c, ctx, loop.Loop?, slot, bs) <==>
      TypeE(c, ctx, bs[0].cond) == BoolT && OkBody(c, ctx, loop.Loop?, slot, bs[0].body)
      && OkBranches(c, ctx, loop.Loop?, slot + SlotsBody(bs[0].body), bs[1..])
    ensures var n := lab + 1 + LabelsE(bs[0].cond);
      CodeBranches(c, ctx, loop, bs, end, lab, slot) ==
        BranchCode(end, lab, CodeE(c, ctx, bs[0].cond, lab + 1), CodeBody(c, ctx, loop, bs[0].body, n, slot),
                   CodeBranches(c, ctx, loop, bs[1..], end, n + LabelsBody(bs[0].body), slot + SlotsBody(bs[0].body)))
    ensures LabelsBs(bs) == 1 + LabelsE(bs[0].cond) + LabelsBody(bs[0].body) + LabelsBs(bs[1..])
    ensures SlotsBs(bs) == SlotsBody(bs[0].body) + SlotsBs(bs[1..])
    ensures DepthBs(bs) <= room <==> Max(DepthE(bs[0].cond), 1 + DepthSs(bs[0].body)) <= room && DepthBs(bs[1..]) <= room
  {
    hide TypeE, CodeE, LabelsE, DepthE, CodeBody, OkBody, SlotsBody, LabelsBody, DepthSs, BranchCode;
  }

  lemma {:induction false} BlockEnd(c: Unit, ctx: seq<Local>, e: Expr)
    requires e.Block?
    ensures DepthInside(e) == DepthEs(e.exprs)
    ensures forall lab {:trigger CodeBlock(c, ctx, [], lab)} :: CodeBlock(c, ctx, [], lab) == []
    ensures LabelsEs([]) == 0 && DepthEs([]) == 0 && TypeBlock(c, ctx, []) == UnitT
  {
  }

  lemma {:induction false} BlockStep(c: Unit, ctx: seq<Local>, es: seq<Expr>, lab: nat)
    requires es != []
    ensures TypeBlock(c, ctx, es) ==
      if |es| == 1 then TypeE(c, ctx, es[0])
      else if TypeE(c, ctx, es[0]) == Invalid then Invalid else TypeBlock(c, ctx, es[1..])
    ensures CodeBlock(c, ctx, es, lab) ==
      (CodeE(c, ctx, es[0], lab) + if |es| == 1 then [] else [IR.Drop]) + CodeBlock(c, ctx, es[1..], lab + LabelsE(es[0]))
    ensures LabelsEs(es) == LabelsE(es[0]) + LabelsEs(es[1..])
    ensures DepthEs(es) == Max(DepthE(es[0]), DepthEs(es[1..]))
  {
    hide TypeE, CodeE, LabelsE, DepthE;
  }

  lemma {:induction false} ArgsStep(c: Unit, ctx: seq<Local>, args: seq<Expr>, params: seq<Param>, lab: nat)
    requires |args| == |params| && args != []
    ensures ArgsOk(c, ctx, args, params) <==>
      TypeE(c, ctx, args[0]) != Invalid && Compatible(c.target, TypeE(c, ctx, args[0]), params[0].ty, Some(args[0]))
      && ArgsOk(c, ctx, args[1..], params[1..])
    ensures CodeArgs(c, ctx, args, params, lab) ==
      CodeE(c, ctx, args[0], lab) + ConvertCode(TypeE(c, ctx, args[0]), params[0].ty)
      + CodeArgs(c, ctx, args[1..], params[1..], lab + LabelsE(args[0]))
    ensures LabelsEs(args) == LabelsE(args[0]) + LabelsEs(args[1..])
    ensures DepthEs(args) == Max(DepthE(args[0]), DepthEs(args[1..]))
  {
    hide TypeE, CodeE, LabelsE, DepthE, Compatible, ConvertCode;
  }
}
