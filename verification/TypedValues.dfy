/** Every value an accepted expression computes is canonical for its type, and so are the operands of every
    operator at the type the operator works at: what the x64 sequences of src/backend/native_x64.c rely on. */
module TypedValues {
  import opened Wrappers
  import opened Numeric
  import opened Words
  import opened NativeTypes
  import opened Ast
  import opened LowerSpec
  import opened SourceSemantics
  import opened ImplicitConversions
  import LowerStatic
  import X64

  /** The checker's types are the ones the lowering finds (src/analysis/sema.c). */
  ghost predicate Annotated(c: Unit, ctx: seq<Local>, e: Expr)
    decreases e
  {
    e.ty == TypeE(c, ctx, e) &&
    match e
    case Binary(_, _, l, r) => Annotated(c, ctx, l) && Annotated(c, ctx, r)
    case Unary(ty, _, x) => ty == TypeE(c, ctx, x) && Annotated(c, ctx, x)
    case Cast(_, _, x) => Annotated(c, ctx, x)
    case Call(_, _, args) => AnnotatedEs(c, ctx, args)
    case IfExpr(_, cond, thn, els) => Annotated(c, ctx, cond) && Annotated(c, ctx, thn) && (els.Some? ==> Annotated(c, ctx, els.value))
    case Block(_, es) => AnnotatedEs(c, ctx, es)
    case _ => true
  }

  ghost predicate AnnotatedEs(c: Unit, ctx: seq<Local>, es: seq<Expr>)
    decreases es
  {
    es == [] || (Annotated(c, ctx, es[0]) && AnnotatedEs(c, ctx, es[1..]))
  }

  /** The variables are those in scope, each holding a value of its type. */
  ghost predicate TypedEnv(tg: Target, ctx: seq<Local>, env: seq<Var>)
    requires tg.Valid()
  {
    |ctx| == |env| && forall i :: 0 <= i < |ctx| ==>
      ctx[i].name == env[i].name && ctx[i].ty == env[i].ty && IsCanonical(tg, env[i].ty, env[i].v)
  }

  ghost predicate TypedValue(tg: Target, t: NType, r: Value)
    requires tg.Valid()
  {
    r.Value? ==> r.ty == t && IsCanonical(tg, t, r.v)
  }

  lemma {:induction false} LookupTyped(tg: Target, ctx: seq<Local>, env: seq<Var>, name: string)
    requires tg.Valid() && TypedEnv(tg, ctx, env) && Lookup(ctx, name).Some?
    ensures FindVar(env, name).Some? && env[FindVar(env, name).value].ty == Lookup(ctx, name).value.ty
  {
    hide IsCanonical, Canon;
    if ctx[|ctx| - 1].name != name { LookupTyped(tg, ctx[..|ctx| - 1], env[..|env| - 1], name); }
  }

  /** An operator's result is canonical for the type of the expression. */
  lemma {:induction false} ResultCanonical(tg: Target, t: NType, op: BinOp, a: int, b: int)
    requires tg.Valid() && BinarySem(tg, t, op, a, b).OpValue?
    ensures IsCanonical(tg, if IsComparison(op) then BoolT else t, BinarySem(tg, t, op, a, b).v)
  {
    hide Canon, BitOp;
    forall v { CanonIdempotent(tg, t, v); }
    forall b { CanonTruth(tg, BoolT, b); }
  }

  lemma {:induction false} UnaryCanonical(tg: Target, t: NType, op: UnOp, v: int)
    requires tg.Valid() && UnarySem(tg, t, op, v).OpValue?
    ensures IsCanonical(tg, t, UnarySem(tg, t, op, v).v)
  {
    hide Canon;
    forall v { CanonIdempotent(tg, t, v); }
  }

  lemma {:induction false} ValuesCanonical(s: Source, c: Unit, ctx: seq<Local>, env: seq<Var>, k: nat, e: Expr)
    requires s.target.Valid() && c.target == s.target && c.sigs == s.funs && TypedEnv(s.target, ctx, env)
    requires TypeE(c, ctx, e) != Invalid && Annotated(c, ctx, e)
    ensures TypedValue(s.target, TypeE(c, ctx, e), EvalE(s, k, env, e))
    decreases e, 1
  {
    hide Canon, PlanOf, BinarySem, UnarySem, EvalArgs, CallFun, IntegerFits, FindFunction, ArgsOk, TypeBlock, CodeE;
    forall t, v { CanonIdempotent(s.target, t, v); }
    forall b { CanonTruth(s.target, BoolT, b); }
    CanonZero(s.target, UnitT);
    match e
    case Ident(_, name) => LookupTyped(s.target, ctx, env, name);
    case Binary(_, _, l, r) =>
      BinaryValues(s, c, ctx, env, k, e);
    case Unary(_, op, x) =>
      ValuesCanonical(s, c, ctx, env, k, x);
      var r := EvalE(s, k, env, x);
      if r.Value? && UnarySem(s.target, r.ty, op, r.v).OpValue? { UnaryCanonical(s.target, r.ty, op, r.v); }
    case IfExpr(_, cond, thn, els) =>
      ValuesCanonical(s, c, ctx, env, k, thn);
      if els.Some? { ValuesCanonical(s, c, ctx, env, k, els.value); }
    case Block(_, es) => if es != [] { BlockCanonical(s, c, ctx, env, k, es); } else { EmptyBlock(c, ctx); }
    case _ =>
  }

  lemma {:induction false} EmptyBlock(c: Unit, ctx: seq<Local>)
    ensures TypeBlock(c, ctx, []) == UnitT
  {
  }

  lemma {:induction false} BlockCanonical(s: Source, c: Unit, ctx: seq<Local>, env: seq<Var>, k: nat, es: seq<Expr>)
    requires s.target.Valid() && c.target == s.target && c.sigs == s.funs && TypedEnv(s.target, ctx, env)
    requires es != [] && TypeBlock(c, ctx, es) != Invalid && AnnotatedEs(c, ctx, es)
    ensures TypedValue(s.target, TypeBlock(c, ctx, es), EvalBlock(s, k, env, es))
    decreases es, 0
  {
    hide Canon, TypeE, EvalE, Annotated;
    ValuesCanonical(s, c, ctx, env, k, es[0]);
    if |es| > 1 { BlockCanonical(s, c, ctx, env, k, es[1..]); }
  }

  lemma {:induction false} BinaryValues(s: Source, c: Unit, ctx: seq<Local>, env: seq<Var>, k: nat, e: Expr)
    requires s.target.Valid() && c.target == s.target && c.sigs == s.funs && TypedEnv(s.target, ctx, env)
    requires e.Binary? && TypeE(c, ctx, e) != Invalid && Annotated(c, ctx, e)
    ensures TypedValue(s.target, TypeE(c, ctx, e), EvalE(s, k, env, e))
    decreases e, 0
  {
    hide Canon, PlanOf, BinarySem, TypeE, LabelsE, CodeE;
    var l, r := e.left, e.right;
    BinaryAccepted(c, ctx, e);
    BinaryForm(c, ctx, e, 0);
    ValuesCanonical(s, c, ctx, env, k, l);
    ValuesCanonical(s, c, ctx, env, k, r);
    forall b { CanonTruth(s.target, BoolT, b); }
    PlanResult(c.target, e.ty, e.op, l, r);
    var plan := PlanOf(c.target, e.ty, e.op, l, r);
    if plan.Strict? {
      var first, second := EvalE(s, k, env, l), EvalE(s, k, env, r);
      if first.Value? && second.Value? && BinarySem(s.target, plan.operand, e.op, first.v, second.v).OpValue? {
        ResultCanonical(s.target, plan.operand, e.op, first.v, second.v);
      }
    } else {
      LogicalValue(s, env, k, e);
    }
  }

  lemma {:induction false} LogicalValue(s: Source, env: seq<Var>, k: nat, e: Expr)
    requires s.target.Valid() && e.Binary? && PlanOf(s.target, e.ty, e.op, e.left, e.right).Logical?
    requires TypedValue(s.target, BoolT, EvalE(s, k, env, e.right))
    ensures TypedValue(s.target, BoolT, EvalE(s, k, env, e))
  {
    hide PlanOf;
  }

  lemma {:induction false} PlanResult(tg: Target, ty: NType, op: BinOp, l: Expr, r: Expr)
    requires !PlanOf(tg, ty, op, l, r).Reject?
    ensures var p := PlanOf(tg, ty, op, l, r);
      p.Strict? ==> p.result == (if IsComparison(op) then BoolT else p.operand)
    ensures PlanOf(tg, ty, op, l, r).Logical? ==> l.ty == BoolT && r.ty == BoolT
  {
    hide Compatible;
  }

  // ----- operands -----

  /** The rule for implicit conversions can be trusted with this operand: it has the type already, is a plain
      literal, or neither type is one whose width differs between compiler and target. */
  predicate Trusted(tg: Target, e: Expr, to: NType) { e.ty == to || (e.IntLit? && !e.suffixed) || SameWidths(tg, e.ty, to) }

  predicate TrustedOperands(tg: Target, e: Expr)
    requires e.Binary?
  {
    var plan := PlanOf(tg, e.ty, e.op, e.left, e.right);
    plan.Strict? && !plan.convert ==> Trusted(tg, e.left, plan.operand) && Trusted(tg, e.right, plan.operand)
  }

  /** A value stands at a type it is compatible with as it is. */
  lemma {:induction false} CompatibleKeeps(s: Source, env: seq<Var>, k: nat, e: Expr, to: NType)
    requires s.target.Valid() && Trusted(s.target, e, to)
    requires e.IntLit? ==> IsInteger(e.ty)
    requires IsInteger(e.ty) <==> IsInteger(to)
    requires Compatible(s.target, e.ty, to, Some(e)) && TypedValue(s.target, e.ty, EvalE(s, k, env, e)) && EvalE(s, k, env, e).Value?
    requires e.IntLit? ==> IntegerFits(e.lit, Bits(s.target, e.ty), IsSigned(e.ty))
    ensures IsCanonical(s.target, to, EvalE(s, k, env, e).v)
  {
    hide EvalE, IntegerFits, Bits, Pow2;
    var v := EvalE(s, k, env, e).v;
    if e.ty != to {
      if e.IntLit? && !e.suffixed && IsInteger(to) {
        LiteralKeeps(s, env, k, e, to);
      } else if Coercible(s.target, e.ty, to) && IsInteger(e.ty) {
        NativeConversionKeepsValues(s.target, e.ty, to);
      }
    }
  }

  lemma {:induction false} LiteralKeeps(s: Source, env: seq<Var>, k: nat, e: Expr, to: NType)
    requires s.target.Valid() && e.IntLit? && IsInteger(e.ty) && IsInteger(to)
    requires IntegerFits(e.lit, Bits(s.target, e.ty), IsSigned(e.ty)) && IntegerFits(e.lit, Bits(s.target, to), IsSigned(to))
    ensures EvalE(s, k, env, e).Value? && IsCanonical(s.target, to, EvalE(s, k, env, e).v)
  {
    hide IntegerFits, Pow2, Bits;
    LiteralStays(s.target, e.ty, e.lit);
    LiteralStays(s.target, to, e.lit);
  }

  lemma {:induction false} LiteralStays(tg: Target, t: NType, lit: Integer)
    requires tg.Valid() && IsInteger(t) && IntegerFits(lit, Bits(tg, t), IsSigned(t))
    ensures Canon(tg, t, LiteralValue(lit)) == LiteralValue(lit)
  {
    hide Pow2;
    FitsIsRange(lit, Bits(tg, t), IsSigned(t));
    CanonicalIsRange(tg, t, LiteralValue(lit));
  }

  /** Both operands of a strict operator are canonical for the type the operator is emitted with. */
  lemma {:induction false} OperandsCanonical(s: Source, c: Unit, ctx: seq<Local>, env: seq<Var>, k: nat, e: Expr)
    requires s.target.Valid() && c.target == s.target && c.sigs == s.funs && TypedEnv(s.target, ctx, env)
    requires e.Binary? && TrustedOperands(s.target, e) && TypeE(c, ctx, e) != Invalid && Annotated(c, ctx, e) && LowerStatic.WellBuiltE(e)
    ensures var plan := PlanOf(s.target, e.ty, e.op, e.left, e.right);
      plan.Strict? ==>
        OperandFits(s, env, k, e.left, plan) && OperandFits(s, env, k, e.right, plan)
  {
    hide TypeE, EvalE, LabelsE, CodeE;
    var l, r := e.left, e.right;
    BinaryAccepted(c, ctx, e);
    ValuesCanonical(s, c, ctx, env, k, l);
    ValuesCanonical(s, c, ctx, env, k, r);
    LiteralAccepted(c, ctx, l);
    LiteralAccepted(c, ctx, r);
    AnnotatedParts(c, ctx, e);
    var plan := PlanOf(s.target, e.ty, e.op, l, r);
    if plan.Strict? {
      PlanOperands(s.target, e.ty, e.op, l, r);
      OneOperand(s, env, k, l, plan);
      OneOperand(s, env, k, r, plan);
    }
  }

  /** So the x64 sequence is met by canonical words and computes, or traps, as the source operator does. */
  lemma {:induction false} StrictOnWords(s: Source, c: Unit, ctx: seq<Local>, env: seq<Var>, k: nat, e: Expr)
    requires s.target.Valid() && c.target == s.target && c.sigs == s.funs && TypedEnv(s.target, ctx, env)
    requires e.Binary? && TrustedOperands(s.target, e) && TypeE(c, ctx, e) != Invalid && Annotated(c, ctx, e) && LowerStatic.WellBuiltE(e)
    requires EvalE(s, k, env, e.left).Value? && EvalE(s, k, env, e.right).Value?
    ensures var plan := PlanOf(s.target, e.ty, e.op, e.left, e.right);
      plan.Strict? ==>
        var t, a, b := plan.operand, EvalE(s, k, env, e.left).v, EvalE(s, k, env, e.right).v;
        var u := X64.Low(Converted(s.target, if plan.convert then e.left.ty else t, t, a));
        var w := X64.Low(Converted(s.target, if plan.convert then e.right.ty else t, t, b));
        X64.Canonical(s.target, t, u) && X64.Canonical(s.target, t, w)
        && BinarySem(s.target, t, e.op, u, w) == BinarySem(s.target, t, e.op, a, b)
  {
    hide TypeE, EvalE, PlanOf, BinarySem, Canon, Annotated, LowerStatic.WellBuiltE, TrustedOperands;
    OperandsCanonical(s, c, ctx, env, k, e);
    var plan := PlanOf(s.target, e.ty, e.op, e.left, e.right);
    if plan.Strict? {
      var t, a, b := plan.operand, EvalE(s, k, env, e.left).v, EvalE(s, k, env, e.right).v;
      var a' := Converted(s.target, if plan.convert then e.left.ty else t, t, a);
      var b' := Converted(s.target, if plan.convert then e.right.ty else t, t, b);
      X64.WordsStandForValues(s.target, t, e.op, a', b');
      CanonIdempotent(s.target, t, a);
      CanonIdempotent(s.target, t, b);
      X64.OperandsRead(s.target, t, e.op, a', b', a, b);
    }
  }

  /** The same for the operator of a compound assignment: the variable, and the value as converted. */
  lemma {:induction false} CompoundOperandsCanonical(s: Source, c: Unit, ctx: seq<Local>, env: seq<Var>, k: nat, st: Stmt)
    requires s.target.Valid() && c.target == s.target && c.sigs == s.funs && TypedEnv(s.target, ctx, env)
    requires st.Assign? && st.compound.Some? && Lookup(ctx, st.name).Some?
    requires TypeE(c, ctx, st.value) != Invalid && Annotated(c, ctx, st.value) && EvalE(s, k, env, st.value).Value?
    ensures FindVar(env, st.name).Some?
    ensures var t, i := Lookup(ctx, st.name).value.ty, FindVar(env, st.name).value;
      env[i].ty == t && IsCanonical(s.target, t, env[i].v)
      && IsCanonical(s.target, t, Converted(s.target, TypeE(c, ctx, st.value), t, EvalE(s, k, env, st.value).v))
  {
    hide TypeE, EvalE, Annotated, Canon, FindVar, Lookup;
    LookupTyped(s.target, ctx, env, st.name);
    ValuesCanonical(s, c, ctx, env, k, st.value);
    CanonIdempotent(s.target, Lookup(ctx, st.name).value.ty, EvalE(s, k, env, st.value).v);
  }

  /** An implicit conversion, in a let, an assignment, an argument or a return, never changes the value. */
  lemma {:induction false} ImplicitKeepsValue(s: Source, c: Unit, ctx: seq<Local>, env: seq<Var>, k: nat, e: Expr, to: NType)
    requires s.target.Valid() && c.target == s.target && c.sigs == s.funs && TypedEnv(s.target, ctx, env)
    requires TypeE(c, ctx, e) != Invalid && Annotated(c, ctx, e) && LowerStatic.WellBuiltE(e) && EvalE(s, k, env, e).Value?
    requires Compatible(s.target, e.ty, to, Some(e)) && Trusted(s.target, e, to)
    ensures Canon(s.target, to, EvalE(s, k, env, e).v) == EvalE(s, k, env, e).v
  {
    hide TypeE, EvalE, Canon, IntegerFits, Bits;
    ValuesCanonical(s, c, ctx, env, k, e);
    LiteralAccepted(c, ctx, e);
    CompatibleKeeps(s, env, k, e, to);
  }

  /** What may stand where another type is wanted: an unsuffixed literal exactly where it is in range, and
      anything else exactly where its type is the one wanted or an integer type whose values all survive. */
  lemma {:induction false} ImplicitExactly(tg: Target, from: NType, to: NType, e: Expr)
    requires tg.Valid() && from != Invalid && to != Invalid && SameWidths(tg, from, to)
    ensures Compatible(tg, from, to, Some(e)) <==>
      from == to ||
      if e.IntLit? && !e.suffixed && IsInteger(to) then IsCanonical(tg, to, LiteralValue(e.lit))
      else IsInteger(from) && IsInteger(to) && KeepsValues(tg, from, to)
    ensures Compatible(tg, from, to, None) <==> from == to || (IsInteger(from) && IsInteger(to) && KeepsValues(tg, from, to))
  {
    hide IntegerFits, KeepsValues, IsCanonical, Bits, Pow2;
    if IsInteger(to) {
      if e.IntLit? { LiteralFits(tg, to, e.lit); }
      if IsInteger(from) {
        RuleIsExact(tg, from, to);
        RuleForm(tg, from, to);
      }
    }
  }

  lemma {:induction false} LiteralFits(tg: Target, t: NType, lit: Integer)
    requires tg.Valid() && IsInteger(t)
    ensures IntegerFits(lit, Bits(tg, t), IsSigned(t)) <==> IsCanonical(tg, t, LiteralValue(lit))
  {
    hide Pow2, IsCanonical, IntegerFits;
    FitsIsRange(lit, Bits(tg, t), IsSigned(t));
    CanonicalIsRange(tg, t, LiteralValue(lit));
  }

  // ----- operators without reference to the lowering's plan -----

  /** A binary expression with strict operands: the left one first, then the right one, then the operator. */
  ghost predicate ComputesAt(s: Source, env: seq<Var>, k: nat, e: Expr, t: NType, result: NType)
    requires s.target.Valid() && e.Binary?
  {
    var a, b := EvalE(s, k, env, e.left), EvalE(s, k, env, e.right);
    EvalE(s, k, env, e) == if a.Abort? then a else if b.Abort? then b else Computed(result, BinarySem(s.target, t, e.op, a.v, b.v))
  }

  /** Arithmetic is accepted, and done at the type of the expression. */
  lemma {:induction false} ArithmeticAtItsType(s: Source, c: Unit, ctx: seq<Local>, env: seq<Var>, k: nat, e: Expr)
    requires s.target.Valid() && c.target == s.target && e.Binary? && !IsComparison(e.op) && !e.op.And? && !e.op.Or?
    requires IsInteger(e.ty) && IsInteger(e.left.ty) && IsInteger(e.right.ty)
    requires TypeE(c, ctx, e.left) != Invalid && TypeE(c, ctx, e.right) != Invalid
    ensures TypeE(c, ctx, e) == e.ty && ComputesAt(s, env, k, e, e.ty, e.ty)
  {
    hide Compatible, BinarySem;
  }

  /** Comparing operands of one type is accepted: integers and characters in every way, booleans for equality. */
  lemma {:induction false} ComparisonAtItsType(s: Source, c: Unit, ctx: seq<Local>, env: seq<Var>, k: nat, e: Expr)
    requires s.target.Valid() && c.target == s.target && e.Binary? && IsComparison(e.op) && e.ty != Invalid
    requires e.left.ty == e.right.ty && (IsInteger(e.left.ty) || e.left.ty == CharT || (e.left.ty == BoolT && (e.op.Eq? || e.op.Ne?)))
    requires TypeE(c, ctx, e.left) != Invalid && TypeE(c, ctx, e.right) != Invalid
    ensures TypeE(c, ctx, e) == BoolT && ComputesAt(s, env, k, e, e.left.ty, BoolT)
  {
    hide Compatible, BinarySem;
  }

  /** Integers of two types are compared exactly when one type holds all values of the other, at that type. */
  lemma {:induction false} ComparisonTypes(s: Source, c: Unit, ctx: seq<Local>, env: seq<Var>, k: nat, e: Expr)
    requires s.target.Valid() && c.target == s.target && e.Binary? && IsComparison(e.op) && e.ty != Invalid
    requires IsInteger(e.left.ty) && IsInteger(e.right.ty) && e.left.ty != e.right.ty && !e.left.IntLit? && !e.right.IntLit?
    requires SameWidths(s.target, e.left.ty, e.right.ty) && TypeE(c, ctx, e.left) != Invalid && TypeE(c, ctx, e.right) != Invalid
    ensures TypeE(c, ctx, e) != Invalid <==> KeepsValues(s.target, e.left.ty, e.right.ty) || KeepsValues(s.target, e.right.ty, e.left.ty)
    ensures TypeE(c, ctx, e) != Invalid ==>
      TypeE(c, ctx, e) == BoolT &&
      ComputesAt(s, env, k, e, if KeepsValues(s.target, e.left.ty, e.right.ty) then e.right.ty else e.left.ty, BoolT)
  {
    hide TypeE, CodeE, LabelsE, PlanOf, KeepsValues, Coercible, ComputesAt;
    RuleIsExact(s.target, e.left.ty, e.right.ty);
    RuleIsExact(s.target, e.right.ty, e.left.ty);
    RuleForm(s.target, e.left.ty, e.right.ty);
    RuleForm(s.target, e.right.ty, e.left.ty);
    MixedPlan(s.target, e.ty, e.op, e.left, e.right);
    if TypeE(c, ctx, e) != Invalid { BinaryAccepted(c, ctx, e); }
    if !PlanOf(s.target, e.ty, e.op, e.left, e.right).Reject? {
      BinaryForm(c, ctx, e, 0);
      StrictComputes(s, env, k, e);
    }
  }

  lemma {:induction false} MixedPlan(tg: Target, ty: NType, op: BinOp, l: Expr, r: Expr)
    requires IsComparison(op) && IsInteger(l.ty) && IsInteger(r.ty) && l.ty != r.ty && !l.IntLit? && !r.IntLit?
    ensures PlanOf(tg, ty, op, l, r) ==
      if Coercible(tg, l.ty, r.ty) then Strict(r.ty, false, BoolT) else if Coercible(tg, r.ty, l.ty) then Strict(l.ty, false, BoolT) else Reject
  {
    hide Coercible, Compatible;
    CompatibleTypes(tg, l.ty, r.ty, l);
    CompatibleTypes(tg, r.ty, l.ty, r);
  }

  lemma {:induction false} CompatibleTypes(tg: Target, from: NType, to: NType, e: Expr)
    requires from != to && from != Invalid && to != Invalid && !e.IntLit?
    ensures Compatible(tg, from, to, Some(e)) <==> Coercible(tg, from, to)
  {
    hide Coercible;
  }

  lemma {:induction false} StrictComputes(s: Source, env: seq<Var>, k: nat, e: Expr)
    requires s.target.Valid() && e.Binary? && PlanOf(s.target, e.ty, e.op, e.left, e.right).Strict?
    ensures var plan := PlanOf(s.target, e.ty, e.op, e.left, e.right);
      ComputesAt(s, env, k, e, plan.operand, plan.result)
  {
    hide PlanOf, BinarySem;
  }

  /** && and || are accepted on booleans, and look at the right operand only when the left one leaves it open. */
  lemma {:induction false} LogicalMeaning(s: Source, c: Unit, ctx: seq<Local>, env: seq<Var>, k: nat, e: Expr)
    requires s.target.Valid() && c.target == s.target && e.Binary? && (e.op.And? || e.op.Or?) && e.ty != Invalid
    requires e.left.ty == BoolT && e.right.ty == BoolT && TypeE(c, ctx, e.left) != Invalid && TypeE(c, ctx, e.right) != Invalid
    ensures TypeE(c, ctx, e) == BoolT
    ensures var a, b := EvalE(s, k, env, e.left), EvalE(s, k, env, e.right);
      EvalE(s, k, env, e) ==
        if a.Abort? then a
        else if e.op.And? && a.v == 0 then Value(BoolT, 0)
        else if e.op.Or? && a.v != 0 then Value(BoolT, 1)
        else if b.Abort? then b else Value(BoolT, b.v)
  {
  }

  function Compares(op: BinOp, a: int, b: int): bool
    requires IsComparison(op)
  {
    match op
    case Eq => a == b
    case Ne => a != b
    case Lt => a < b
    case Le => a <= b
    case Gt => a > b
    case _ => a >= b
  }

  /** An accepted comparison compares the values themselves, whatever types its operands have. */
  lemma {:induction false} ComparisonsAreExact(s: Source, c: Unit, ctx: seq<Local>, env: seq<Var>, k: nat, e: Expr)
    requires s.target.Valid() && c.target == s.target && c.sigs == s.funs && TypedEnv(s.target, ctx, env)
    requires e.Binary? && IsComparison(e.op) && TrustedOperands(s.target, e) && TypeE(c, ctx, e) != Invalid
    requires Annotated(c, ctx, e) && LowerStatic.WellBuiltE(e)
    requires EvalE(s, k, env, e.left).Value? && EvalE(s, k, env, e.right).Value?
    ensures EvalE(s, k, env, e) == Value(BoolT, Truth(Compares(e.op, EvalE(s, k, env, e.left).v, EvalE(s, k, env, e.right).v)))
  {
    hide TypeE, EvalE, PlanOf, Canon, Annotated, LowerStatic.WellBuiltE, TrustedOperands;
    OperandsCanonical(s, c, ctx, env, k, e);
    BinaryAccepted(c, ctx, e);
    ComparisonPlan(s, env, k, e);
  }

  lemma {:induction false} ComparisonPlan(s: Source, env: seq<Var>, k: nat, e: Expr)
    requires s.target.Valid() && e.Binary? && IsComparison(e.op) && !PlanOf(s.target, e.ty, e.op, e.left, e.right).Reject?
    ensures var plan := PlanOf(s.target, e.ty, e.op, e.left, e.right);
      && plan.Strict? && !plan.convert && plan.result == BoolT
      && (EvalE(s, k, env, e.left).Value? && EvalE(s, k, env, e.right).Value? ==>
            EvalE(s, k, env, e) ==
              Computed(BoolT, BinarySem(s.target, plan.operand, e.op, EvalE(s, k, env, e.left).v, EvalE(s, k, env, e.right).v)))
  {
    hide Compatible, BinarySem;
  }

  /** The operand, as converted by the code of the expression, is canonical for the operator. */
  ghost predicate OperandFits(s: Source, env: seq<Var>, k: nat, e: Expr, plan: Plan)
    requires s.target.Valid() && plan.Strict?
  {
    var r := EvalE(s, k, env, e);
    r.Value? ==> IsCanonical(s.target, plan.operand, Converted(s.target, if plan.convert then e.ty else plan.operand, plan.operand, r.v))
  }

  lemma {:induction false} AnnotatedParts(c: Unit, ctx: seq<Local>, e: Expr)
    requires e.Binary? && Annotated(c, ctx, e) && LowerStatic.WellBuiltE(e)
    ensures e.left.ty == TypeE(c, ctx, e.left) && e.right.ty == TypeE(c, ctx, e.right)
    ensures LowerStatic.WellBuiltE(e.left) && LowerStatic.WellBuiltE(e.right)
  {
    hide TypeE;
  }

  lemma {:induction false} LiteralAccepted(c: Unit, ctx: seq<Local>, e: Expr)
    requires TypeE(c, ctx, e) != Invalid
    ensures e.IntLit? ==> IntegerFits(e.lit, Bits(c.target, e.ty), IsSigned(e.ty)) && e.ty != Invalid
  {
    hide IntegerFits, Bits;
  }

  lemma {:induction false} PlanOperands(tg: Target, ty: NType, op: BinOp, l: Expr, r: Expr)
    requires PlanOf(tg, ty, op, l, r).Strict?
    ensures var p := PlanOf(tg, ty, op, l, r);
      !p.convert ==> (l.ty == p.operand || Compatible(tg, l.ty, p.operand, Some(l))) && (r.ty == p.operand || Compatible(tg, r.ty, p.operand, Some(r)))
  {
    hide Compatible;
  }

  lemma {:induction false} OneOperand(s: Source, env: seq<Var>, k: nat, e: Expr, plan: Plan)
    requires s.target.Valid() && plan.Strict? && (!plan.convert ==> Trusted(s.target, e, plan.operand))
    requires TypedValue(s.target, e.ty, EvalE(s, k, env, e)) && LowerStatic.WellBuiltE(e) && e.ty != Invalid
    requires e.IntLit? ==> IntegerFits(e.lit, Bits(s.target, e.ty), IsSigned(e.ty))
    requires plan.convert || e.ty == plan.operand || Compatible(s.target, e.ty, plan.operand, Some(e))
    ensures OperandFits(s, env, k, e, plan)
  {
    hide EvalE, IntegerFits, Bits, Canon;
    var r := EvalE(s, k, env, e);
    if r.Value? {
      if plan.convert {
        CanonIdempotent(s.target, plan.operand, r.v);
      } else {
        CompatibleKeeps(s, env, k, e, plan.operand);
      }
    }
  }

  // ----- statements keep the variables canonical -----

  ghost predicate EnvCanonical(tg: Target, env: seq<Var>)
    requires tg.Valid()
  {
    forall i :: 0 <= i < |env| ==> IsCanonical(tg, env[i].ty, env[i].v)
  }

  ghost predicate ExitCanonical(tg: Target, x: Exit)
    requires tg.Valid()
  {
    match x
    case Normal(env) => EnvCanonical(tg, env)
    case Broke(env) => EnvCanonical(tg, env)
    case Continued(env) => EnvCanonical(tg, env)
    case Done(_) => true
  }

  /** Arguments in range arrive at their parameters, in order and unchanged. */
  lemma {:induction false} ArgumentsArrive(tg: Target, params: seq<Param>, args: seq<int>, i: nat)
    requires tg.Valid() && |args| == |params| && i < |params| && IsCanonical(tg, params[i].ty, args[i])
    ensures |Bind(tg, params, args)| == |params| && Bind(tg, params, args)[i] == Var(params[i].name, params[i].ty, args[i])
  {
    hide Canon;
  }

  lemma {:induction false} BindCanonical(tg: Target, params: seq<Param>, args: seq<int>)
    requires tg.Valid() && |args| == |params|
    ensures EnvCanonical(tg, Bind(tg, params, args))
  {
    hide Canon;
    forall i | 0 <= i < |params| { CanonIdempotent(tg, params[i].ty, args[i]); }
  }

  /** Whatever a statement does, and however it is left, each variable holds a canonical value of its type. */
  lemma {:induction false} StatementKeeps(s: Source, k: nat, result: NType, env: seq<Var>, st: Stmt)
    requires s.target.Valid() && EnvCanonical(s.target, env)
    ensures ExitCanonical(s.target, ExecS(s, k, result, env, st))
    decreases k, st, 1
  {
    hide Canon, EvalE, BinarySem, FindVar, ExecBody, ExecBranches;
    forall t, v { CanonIdempotent(s.target, t, v); }
    match st
    case IfStmt(bs, els) =>
      BranchesKeep(s, k, result, env, bs);
      BodyKeeps(s, k, result, env, els);
    case While(cond, body) => WhileKeeps(s, k, result, env, st);
    case _ =>
  }

  lemma {:induction false} WhileKeeps(s: Source, k: nat, result: NType, env: seq<Var>, st: Stmt)
    requires s.target.Valid() && EnvCanonical(s.target, env) && st.While?
    ensures ExitCanonical(s.target, ExecS(s, k, result, env, st))
    decreases k, st, 0
  {
    hide Canon, EvalE, BinarySem, FindVar, ExecBody, EnvCanonical;
    BodyKeeps(s, k, result, env, st.body);
    var again := ExecBody(s, k, result, env, st.body);
    if k > 0 && (again.Normal? || again.Continued?) { StatementKeeps(s, k - 1, result, again.env, st); }
  }

  lemma {:induction false} BranchesKeep(s: Source, k: nat, result: NType, env: seq<Var>, bs: seq<Branch>)
    requires s.target.Valid() && EnvCanonical(s.target, env)
    ensures var x := ExecBranches(s, k, result, env, bs);
      x.Some? ==> ExitCanonical(s.target, x.value)
    decreases k, bs, 1
  {
    hide EvalE, ExecBody, EnvCanonical;
    if bs != [] {
      BodyKeeps(s, k, result, env, bs[0].body);
      BranchesKeep(s, k, result, env, bs[1..]);
    }
  }

  lemma {:induction false} BodyKeeps(s: Source, k: nat, result: NType, env: seq<Var>, ss: seq<Stmt>)
    requires s.target.Valid() && EnvCanonical(s.target, env)
    ensures ExitCanonical(s.target, ExecBody(s, k, result, env, ss))
    decreases k, ss, 1
  {
    hide EvalE, ExecSeq;
    SeqKeeps(s, k, result, env, ss);
  }

  lemma {:induction false} SeqKeeps(s: Source, k: nat, result: NType, env: seq<Var>, ss: seq<Stmt>)
    requires s.target.Valid() && EnvCanonical(s.target, env)
    ensures ExitCanonical(s.target, ExecSeq(s, k, result, env, ss))
    decreases k, ss, 0
  {
    hide EvalE, ExecS, EnvCanonical;
    if ss != [] {
      StatementKeeps(s, k, result, env, ss[0]);
      var x := ExecS(s, k, result, env, ss[0]);
      if x.Normal? { SeqKeeps(s, k, result, x.env, ss[1..]); }
    }
  }
}
