/** Lowering preserves meaning: the IR machine and the source evaluator end the same way. */
module Simulation {
  import opened Wrappers
  import opened Numeric
  import opened Words
  import opened NativeTypes
  import opened Ast
  import opened LowerSpec
  import opened LowerExec
  import opened SourceSemantics
  import IR = NativeIr
  import LowerLabels

  type State = IR.State
  type Program = IR.Program

  /** p is what the lowering makes of the accepted program s, in the same surroundings. */
  ghost predicate Compiled(s: Source, p: Program) {
    && s.target.Valid() && p.target == s.target && p.ext == s.ext && |p.funcs| == |s.funs|
    && forall g {:trigger CompiledFun(s, p, g)} :: 0 <= g < |s.funs| ==> CompiledFun(s, p, g)
  }

  ghost predicate CompiledFun(s: Source, p: Program, g: nat)
    requires g < |s.funs| && |p.funcs| == |s.funs|
  {
    p.funcs[g] == LowerFun(s.target, s.funs, s.funs[g]) && OkFun(s.target, s.funs, s.funs[g])
  }

  /** Function f of the program has a body. */
  ghost predicate Defined(s: Source, f: nat) { f < |s.funs| && s.funs[f].body.Some? }

  function UnitOf(s: Source, f: nat): Unit
    requires f < |s.funs|
  {
    Unit(s.target, s.funs, s.funs[f].result)
  }

  lemma {:induction false} CompiledReady(s: Source, p: Program, f: nat)
    requires Compiled(s, p) && Defined(s, f)
    ensures Ready(p, f)
    ensures Code(p, f) == CodeF(UnitOf(s, f), s.funs[f].params, s.funs[f].body.value)
    ensures p.funcs[f].slots == |s.funs[f].params| + SlotsBody(s.funs[f].body.value)
    ensures p.funcs[f].params == ParamTypes(s.funs[f].params) && !p.funcs[f].isExtern
    ensures p.funcs[f].result == s.funs[f].result
  {
    hide CodeF, SlotsBody, LabelsBody, OkBody;
    assert CompiledFun(s, p, f);
    var code := CodeF(UnitOf(s, f), s.funs[f].params, s.funs[f].body.value);
    assert p.funcs[f].code == code;
    forall id: nat
      ensures LowerLabels.Marks(p.funcs[f].code, id) <= 1
    {
      LowerLabels.LabelsMarkedOnce(UnitOf(s, f), s.funs[f].params, s.funs[f].body.value, id);
    }
  }

  // ----- variables and slots -----

  /** Every local in scope lives in its slot. */
  ghost predicate Rel(ctx: seq<Local>, env: seq<Var>, slots: seq<int>) {
    |ctx| == |env| && forall i :: 0 <= i < |ctx| ==>
      && ctx[i].name == env[i].name && ctx[i].ty == env[i].ty
      && ctx[i].slot < |slots| && slots[ctx[i].slot] == env[i].v
  }

  /** Slots are handed out in increasing order, so no two locals share one. */
  ghost predicate Separate(ctx: seq<Local>, bound: nat) {
    && (forall i :: 0 <= i < |ctx| ==> ctx[i].slot < bound)
    && (forall i, j :: 0 <= i < j < |ctx| ==> ctx[i].slot < ctx[j].slot)
  }

  lemma {:induction false} LookupAgrees(ctx: seq<Local>, env: seq<Var>, slots: seq<int>, name: string)
    requires Rel(ctx, env, slots)
    ensures Lookup(ctx, name).Some? <==> FindVar(env, name).Some?
    ensures Lookup(ctx, name).Some? ==> Lookup(ctx, name).value == ctx[FindVar(env, name).value]
  {
    if ctx != [] && ctx[|ctx| - 1].name != name {
      LookupAgrees(ctx[..|ctx| - 1], env[..|env| - 1], slots, name);
    }
  }

  // ----- what a simulation of each kind says -----

  ghost predicate SimulatesE(p: Program, f: nat, k: nat, ty: NType, st: State, n: nat, r: Value)
    requires p.target.Valid() && f < |p.funcs|
  {
    match r
    case Value(t, v) => t == ty && IR.Reaches(p, f, st, IR.State(st.pc + n, st.stack + [v], st.slots))
    case Abort(o) => !o.Returned? && IR.Ends(p, f, k, st, o)
  }

  /** Positions of the labels break and continue go to. */
  datatype Exits = Exits(brk: nat, cont: nat)

  ghost predicate LoopAt(p: Program, f: nat, loop: Loop, x: Exits)
    requires f < |p.funcs|
  {
    loop.Loop? ==> At(Code(p, f), x.brk, [IR.Label(loop.brk)]) && At(Code(p, f), x.cont, [IR.Label(loop.cont)])
  }

  ghost predicate SimulatesS(p: Program, f: nat, k: nat, after: seq<Local>, ctx: seq<Local>, loop: Loop, x: Exits,
                             st: State, next: nat, slots: seq<int>, r: Exit)
    requires p.target.Valid() && f < |p.funcs|
  {
    && |slots| == |st.slots|
    && match r
       case Normal(env) => Rel(after, env, slots) && IR.Reaches(p, f, st, IR.State(next, [], slots))
       case Broke(env) => loop.Loop? && Rel(ctx, env, slots) && IR.Reaches(p, f, st, IR.State(x.brk, [], slots))
       case Continued(env) => loop.Loop? && Rel(ctx, env, slots) && IR.Reaches(p, f, st, IR.State(x.cont, [], slots))
       case Done(o) => IR.Ends(p, f, k, st, o)
  }

  lemma {:induction false} ThenE(p: Program, f: nat, k: nat, ty: NType, a: State, b: State, na: nat, nb: nat, r: Value)
    requires p.target.Valid() && f < |p.funcs|
    requires IR.Reaches(p, f, a, b) && SimulatesE(p, f, k, ty, b, nb, r)
    requires b.pc + nb == a.pc + na && b.stack == a.stack && b.slots == a.slots
    ensures SimulatesE(p, f, k, ty, a, na, r)
  {
    match r
    case Value(_, v) => IR.ReachTrans(p, f, a, b, IR.State(b.pc + nb, b.stack + [v], b.slots));
    case Abort(o) => IR.ReachEnds(p, f, k, a, b, o);
  }

  /** An aborted part aborts the whole. */
  lemma {:induction false} AbortE(p: Program, f: nat, k: nat, a: State, b: State, o: IR.Outcome)
    requires p.target.Valid() && f < |p.funcs|
    requires IR.Reaches(p, f, a, b) && IR.Ends(p, f, k, b, o)
    ensures IR.Ends(p, f, k, a, o)
  {
    IR.ReachEnds(p, f, k, a, b, o);
  }

  lemma {:induction false} BinaryReadsOperands(tg: Target, t: NType, op: BinOp, a: int, b: int, a': int, b': int)
    requires tg.Valid() && Canon(tg, t, a') == Canon(tg, t, a) && Canon(tg, t, b') == Canon(tg, t, b)
    ensures BinarySem(tg, t, op, a', b') == BinarySem(tg, t, op, a, b)
  {
    hide Canon;
  }

  lemma {:induction false} FitsInWord(lit: Integer, bits: nat, signed: bool)
    requires bits <= 64 && IntegerFits(lit, bits, signed)
    ensures lit.high == 0
  {
    assert Pow2(0) == 1;
  }

  lemma {:induction false} NegatedWord(n: nat, signed: bool, low: int)
    requires 1 <= n <= 64 && 0 < low < WORD64
    ensures Wrap(n, signed, (WORD64 - low) % WORD64) == Wrap(n, signed, -low)
  {
    Pow2Values();
    Pow2Add(64 - n, n);
    hide Wrap, Pow2;
    ModUnique(WORD64 - low, WORD64, 0, WORD64 - low);
    WrapShift(n, signed, -low, Pow2(64 - n));
  }

  /** The emitted word of a literal reads as the literal's value at its type. */
  lemma {:induction false} LiteralReads(tg: Target, t: NType, lit: Integer)
    requires tg.Valid() && IntegerFits(lit, Bits(tg, t), IsSigned(t))
    ensures Canon(tg, t, LiteralWord(lit)) == Canon(tg, t, LiteralValue(lit))
  {
    FitsInWord(lit, Bits(tg, t), IsSigned(t));
    hide Wrap, IntegerFits;
    if lit.negative && lit.low != 0 {
      var low: int := lit.low;
      NegatedWord(Bits(tg, t), IsSigned(t), low);
      ModUnique(WORD64 - low, WORD64, 0, WORD64 - low);
    }
  }

  // ----- expressions -----

  lemma {:induction false} SimE(s: Source, p: Program, f: nat, k: nat, ctx: seq<Local>, env: seq<Var>, e: Expr, lab: nat, st: State)
    requires Compiled(s, p) && Defined(s, f) && Ready(p, f)
    requires Rel(ctx, env, st.slots) && TypeE(UnitOf(s, f), ctx, e) != Invalid
    requires At(Code(p, f), st.pc, CodeE(UnitOf(s, f), ctx, e, lab))
    ensures SimulatesE(p, f, k, TypeE(UnitOf(s, f), ctx, e), st, |CodeE(UnitOf(s, f), ctx, e, lab)|, EvalE(s, k, env, e))
    decreases k, 1, e, 1
  {
    hide IR.Reaches, IR.Ends, Canon, At, PlanOf, Compatible, IntegerFits, Rel, LogicalCode, IfCode, FindFunction;
    var c := UnitOf(s, f);
    match e
    case IntLit(ty, lit, _) =>
      DoConst(p, f, st, ty, LiteralWord(lit));
      LiteralReads(s.target, ty, lit);
    case BoolLit(_, b) =>
      DoConst(p, f, st, BoolT, Truth(b));
      CanonTruth(s.target, BoolT, b);
    case CharLit(_, ch) => DoConst(p, f, st, CharT, ch);
    case UnitLit(_) =>
      DoConst(p, f, st, UnitT, 0);
      CanonZero(s.target, UnitT);
    case Ident(_, name) => SimIdent(s, p, f, k, ctx, env, e, lab, st);
    case Binary(_, op, _, _) =>
      if op.And? || op.Or? {
        SimLogical(s, p, f, k, ctx, env, e, lab, st);
      } else {
        SimStrict(s, p, f, k, ctx, env, e, lab, st);
      }
    case Unary(_, _, _) => SimUnary(s, p, f, k, ctx, env, e, lab, st);
    case Cast(_, _, _) => SimCast(s, p, f, k, ctx, env, e, lab, st);
    case Call(_, name, _) =>
      if name == "assert" {
        SimAssert(s, p, f, k, ctx, env, e, lab, st);
      } else {
        SimCall(s, p, f, k, ctx, env, e, lab, st);
      }
    case IfExpr(_, _, _, _) => SimIfExpr(s, p, f, k, ctx, env, e, lab, st);
    case Block(_, es) =>
      if es == [] {
        DoConst(p, f, st, UnitT, 0);
        CanonZero(s.target, UnitT);
      } else {
        SimBlock(s, p, f, k, ctx, env, es, lab, st);
      }
    case OtherExpr(_) =>
  }

  ghost predicate SimulatesTest(p: Program, f: nat, k: nat, st: State, thn: nat, els: nat, r: Value)
    requires p.target.Valid() && f < |p.funcs|
  {
    match r
    case Value(_, v) => IR.Reaches(p, f, st, IR.State(if v != 0 then thn else els, st.stack, st.slots))
    case Abort(o) => !o.Returned? && IR.Ends(p, f, k, st, o)
  }

  /** A condition and the branch on it. */
  lemma {:induction false} SimTest(s: Source, p: Program, f: nat, k: nat, ctx: seq<Local>, env: seq<Var>, e: Expr, lab: nat,
                                   st: State, id: nat, to: nat)
    requires Compiled(s, p) && Defined(s, f) && Ready(p, f)
    requires Rel(ctx, env, st.slots) && TypeE(UnitOf(s, f), ctx, e) != Invalid
    requires At(Code(p, f), st.pc, CodeE(UnitOf(s, f), ctx, e, lab))
    requires At(Code(p, f), st.pc + |CodeE(UnitOf(s, f), ctx, e, lab)|, [IR.Jz(id)]) && At(Code(p, f), to, [IR.Label(id)])
    ensures SimulatesTest(p, f, k, st, st.pc + |CodeE(UnitOf(s, f), ctx, e, lab)| + 1, to + 1, EvalE(s, k, env, e))
    decreases k, 1, e, 2
  {
    hide IR.Reaches, IR.Ends, Canon, At, Rel, TypeE, CodeE, EvalE;
    SimE(s, p, f, k, ctx, env, e, lab, st);
    var r := EvalE(s, k, env, e);
    if r.Value? {
      var pc := st.pc + |CodeE(UnitOf(s, f), ctx, e, lab)|;
      DoJzPast(p, f, pc, st.stack, st.slots, r.v, id, to);
      IR.ReachTrans(p, f, st, IR.State(pc, st.stack + [r.v], st.slots), IR.State(if r.v != 0 then pc + 1 else to + 1, st.stack, st.slots));
    }
  }

  lemma {:induction false} SimIdent(s: Source, p: Program, f: nat, k: nat, ctx: seq<Local>, env: seq<Var>, e: Expr, lab: nat, st: State)
    requires Compiled(s, p) && Defined(s, f) && Ready(p, f)
    requires e.Ident? && Rel(ctx, env, st.slots) && TypeE(UnitOf(s, f), ctx, e) != Invalid
    requires At(Code(p, f), st.pc, CodeE(UnitOf(s, f), ctx, e, lab))
    ensures SimulatesE(p, f, k, TypeE(UnitOf(s, f), ctx, e), st, |CodeE(UnitOf(s, f), ctx, e, lab)|, EvalE(s, k, env, e))
  {
    hide IR.Reaches, IR.Ends, Canon, At;
    LookupAgrees(ctx, env, st.slots, e.name);
    var l := Lookup(ctx, e.name).value;
    DoLoad(p, f, st, l.ty, l.slot);
  }

  lemma {:induction false} SimLogical(s: Source, p: Program, f: nat, k: nat, ctx: seq<Local>, env: seq<Var>, e: Expr, lab: nat, st: State)
    requires Compiled(s, p) && Defined(s, f) && Ready(p, f)
    requires e.Binary? && (e.op.And? || e.op.Or?)
    requires Rel(ctx, env, st.slots) && TypeE(UnitOf(s, f), ctx, e) != Invalid
    requires At(Code(p, f), st.pc, CodeE(UnitOf(s, f), ctx, e, lab))
    ensures SimulatesE(p, f, k, TypeE(UnitOf(s, f), ctx, e), st, |CodeE(UnitOf(s, f), ctx, e, lab)|, EvalE(s, k, env, e))
    decreases k, 1, e, 0
  {
    hide IR.Reaches, IR.Ends, Canon, At, PlanOf, Rel, TypeE, CodeE, LabelsE;
    var c, l, r := UnitOf(s, f), e.left, e.right;
    BinaryAccepted(c, ctx, e);
    BinaryForm(c, ctx, e, lab);
    AtConcatAll(Code(p, f));
    var left, right := CodeE(c, ctx, l, lab + 2), CodeE(c, ctx, r, lab + 2 + LabelsE(l));
    var pc1 := st.pc + |left|;
    var alt := pc1 + 1 + (if e.op.And? then |right| else 1) + 1;
    var end := alt + 1 + (if e.op.And? then 1 else |right|);
    SimTest(s, p, f, k, ctx, env, l, lab + 2, st, lab, alt);
    var first := EvalE(s, k, env, l);
    if first.Abort? { return; }
    var a, sl, stack := first.v, st.slots, st.stack;
    var st2 := IR.State(if a != 0 then pc1 + 1 else alt + 1, stack, sl);
    if e.op.And? == (a != 0) {
      SimE(s, p, f, k, ctx, env, r, lab + 2 + LabelsE(l), st2);
      var second := EvalE(s, k, env, r);
      if second.Abort? {
        AbortE(p, f, k, st, st2, second.o);
        return;
      }
      var st3 := IR.State(st2.pc + |right|, stack + [second.v], sl);
      IR.ReachTrans(p, f, st, st2, st3);
      LogicalTail(p, f, st, st3, lab, end, e.op.And?);
    } else {
      var v := if e.op.And? then 0 else 1;
      CanonTruth(s.target, BoolT, e.op.Or?);
      DoConst(p, f, st2, BoolT, v);
      var st3 := IR.State(st2.pc + 1, stack + [v], sl);
      IR.ReachTrans(p, f, st, st2, st3);
      LogicalTail(p, f, st, st3, lab, end, e.op.Or?);
    }
  }

  /** From the end of either arm to past the end label. */
  lemma {:induction false} LogicalTail(p: Program, f: nat, st: State, st3: State, lab: nat, end: nat, first: bool)
    requires Ready(p, f) && IR.Reaches(p, f, st, st3)
    requires At(Code(p, f), end, [IR.Label(lab + 1)])
    requires if first then At(Code(p, f), st3.pc, [IR.Jump(lab + 1)]) else st3.pc == end
    ensures IR.Reaches(p, f, st, IR.State(end + 1, st3.stack, st3.slots))
  {
    if first {
      DoJumpPast(p, f, st3.pc, st3.stack, st3.slots, lab + 1, end);
    } else {
      DoLabel(p, f, st3.pc, st3.stack, st3.slots, lab + 1);
    }
    IR.ReachTrans(p, f, st, st3, IR.State(end + 1, st3.stack, st3.slots));
  }

  lemma {:induction false} SimStrict(s: Source, p: Program, f: nat, k: nat, ctx: seq<Local>, env: seq<Var>, e: Expr, lab: nat, st: State)
    requires Compiled(s, p) && Defined(s, f) && Ready(p, f)
    requires e.Binary? && !(e.op.And? || e.op.Or?)
    requires Rel(ctx, env, st.slots) && TypeE(UnitOf(s, f), ctx, e) != Invalid
    requires At(Code(p, f), st.pc, CodeE(UnitOf(s, f), ctx, e, lab))
    ensures SimulatesE(p, f, k, TypeE(UnitOf(s, f), ctx, e), st, |CodeE(UnitOf(s, f), ctx, e, lab)|, EvalE(s, k, env, e))
    decreases k, 1, e, 0
  {
    hide IR.Reaches, IR.Ends, Canon, At, PlanOf, Rel, TypeE, CodeE, LabelsE, ConvertCode, BinarySem;
    var c, l, r := UnitOf(s, f), e.left, e.right;
    BinaryAccepted(c, ctx, e);
    BinaryForm(c, ctx, e, lab);
    AtConcatAll(Code(p, f));
    var plan := PlanOf(c.target, e.ty, e.op, l, r);
    var t := plan.operand;
    var left, right := CodeE(c, ctx, l, lab), CodeE(c, ctx, r, lab + LabelsE(l));
    SimE(s, p, f, k, ctx, env, l, lab, st);
    var first := EvalE(s, k, env, l);
    if first.Abort? { return; }
    var stack, sl := st.stack, st.slots;
    var pc1 := st.pc + |left|;
    var from := if plan.convert then l.ty else t;
    var a' := DoConvert(p, f, pc1, stack, sl, from, t, first.v);
    var st2 := IR.State(pc1 + |ConvertCode(from, t)|, stack + [a'], sl);
    IR.ReachTrans(p, f, st, IR.State(pc1, stack + [first.v], sl), st2);
    SimE(s, p, f, k, ctx, env, r, lab + LabelsE(l), st2);
    var second := EvalE(s, k, env, r);
    if second.Abort? {
      AbortE(p, f, k, st, st2, second.o);
      return;
    }
    var pc3 := st2.pc + |right|;
    var from' := if plan.convert then r.ty else t;
    var b' := DoConvert(p, f, pc3, stack + [a'], sl, from', t, second.v);
    var st4 := IR.State(pc3 + |ConvertCode(from', t)|, stack + [a'] + [b'], sl);
    IR.ReachTrans(p, f, st2, IR.State(pc3, stack + [a'] + [second.v], sl), st4);
    IR.ReachTrans(p, f, st, st2, st4);
    DoBinary(p, f, k, st4.pc, stack, sl, t, e.op, a', b');
    BinaryReadsOperands(s.target, t, e.op, first.v, second.v, a', b');
    ThenComputed(p, f, k, st, st4, BinarySem(s.target, t, e.op, a', b'), st4.pc + 1, stack);
  }

  /** The machine comes to the operator of a strict expression with exactly its converted operands on top. */
  lemma {:induction false} OperandsOnStack(s: Source, p: Program, f: nat, k: nat, ctx: seq<Local>, env: seq<Var>, e: Expr, lab: nat, st: State)
      returns (at: nat)
    requires Compiled(s, p) && Defined(s, f) && Ready(p, f)
    requires e.Binary? && !(e.op.And? || e.op.Or?)
    requires Rel(ctx, env, st.slots) && TypeE(UnitOf(s, f), ctx, e) != Invalid
    requires At(Code(p, f), st.pc, CodeE(UnitOf(s, f), ctx, e, lab))
    requires EvalE(s, k, env, e.left).Value? && EvalE(s, k, env, e.right).Value?
    ensures var plan := PlanOf(s.target, e.ty, e.op, e.left, e.right);
      plan.Strict? &&
      var t, a, b := plan.operand, EvalE(s, k, env, e.left).v, EvalE(s, k, env, e.right).v;
      && At(Code(p, f), at, [IR.Binary(t, e.op)])
      && IR.Reaches(p, f, st, IR.State(at, st.stack + [Converted(s.target, if plan.convert then e.left.ty else t, t, a)]
                                           + [Converted(s.target, if plan.convert then e.right.ty else t, t, b)], st.slots))
  {
    hide IR.Reaches, IR.Ends, Canon, At, PlanOf, Rel, TypeE, CodeE, EvalE, LabelsE, ConvertCode, BinarySem, Converted;
    var c, l, r := UnitOf(s, f), e.left, e.right;
    BinaryAccepted(c, ctx, e);
    BinaryForm(c, ctx, e, lab);
    AtConcatAll(Code(p, f));
    var plan := PlanOf(c.target, e.ty, e.op, l, r);
    var t := plan.operand;
    var left, right := CodeE(c, ctx, l, lab), CodeE(c, ctx, r, lab + LabelsE(l));
    SimE(s, p, f, k, ctx, env, l, lab, st);
    var first, second := EvalE(s, k, env, l), EvalE(s, k, env, r);
    var stack, sl := st.stack, st.slots;
    var pc1 := st.pc + |left|;
    var from := if plan.convert then l.ty else t;
    var a' := DoConvert(p, f, pc1, stack, sl, from, t, first.v);
    var st2 := IR.State(pc1 + |ConvertCode(from, t)|, stack + [a'], sl);
    IR.ReachTrans(p, f, st, IR.State(pc1, stack + [first.v], sl), st2);
    SimE(s, p, f, k, ctx, env, r, lab + LabelsE(l), st2);
    var pc3 := st2.pc + |right|;
    var from' := if plan.convert then r.ty else t;
    var b' := DoConvert(p, f, pc3, stack + [a'], sl, from', t, second.v);
    at := pc3 + |ConvertCode(from', t)|;
    var st4 := IR.State(at, stack + [a'] + [b'], sl);
    IR.ReachTrans(p, f, st2, IR.State(pc3, stack + [a'] + [second.v], sl), st4);
    IR.ReachTrans(p, f, st, st2, st4);
  }

  lemma {:induction false} ThenComputed(p: Program, f: nat, k: nat, st: State, st': State, r: OpResult, next: nat, stack: seq<int>)
    requires Ready(p, f) && IR.Reaches(p, f, st, st') && Computes(p, f, k, st', r, next, stack)
    requires st.slots == st'.slots
    ensures Computes(p, f, k, st, r, next, stack)
  {
    match r
    case OpValue(v) => IR.ReachTrans(p, f, st, st', IR.State(next, stack + [v], st'.slots));
    case OpTrap => IR.ReachEnds(p, f, k, st, st', IR.Trapped);
    case OpWrong => IR.ReachEnds(p, f, k, st, st', IR.Wrong);
  }

  lemma {:induction false} SimUnary(s: Source, p: Program, f: nat, k: nat, ctx: seq<Local>, env: seq<Var>, e: Expr, lab: nat, st: State)
    requires Compiled(s, p) && Defined(s, f) && Ready(p, f)
    requires e.Unary? && Rel(ctx, env, st.slots) && TypeE(UnitOf(s, f), ctx, e) != Invalid
    requires At(Code(p, f), st.pc, CodeE(UnitOf(s, f), ctx, e, lab))
    ensures SimulatesE(p, f, k, TypeE(UnitOf(s, f), ctx, e), st, |CodeE(UnitOf(s, f), ctx, e, lab)|, EvalE(s, k, env, e))
    decreases k, 1, e, 0
  {
    hide IR.Reaches, IR.Ends, Canon, At, Rel, UnarySem, TypeE, CodeE;
    var c, x := UnitOf(s, f), e.operand;
    OperatorForm(c, ctx, e, lab);
    AtConcatAll(Code(p, f));
    SimE(s, p, f, k, ctx, env, x, lab, st);
    var r := EvalE(s, k, env, x);
    if r.Abort? { return; }
    var st1 := IR.State(st.pc + |CodeE(c, ctx, x, lab)|, st.stack + [r.v], st.slots);
    DoUnary(p, f, k, st1.pc, st.stack, st.slots, r.ty, e.uop, r.v);
    ThenComputed(p, f, k, st, st1, UnarySem(s.target, r.ty, e.uop, r.v), st1.pc + 1, st.stack);
  }

  lemma {:induction false} SimCast(s: Source, p: Program, f: nat, k: nat, ctx: seq<Local>, env: seq<Var>, e: Expr, lab: nat, st: State)
    requires Compiled(s, p) && Defined(s, f) && Ready(p, f)
    requires e.Cast? && Rel(ctx, env, st.slots) && TypeE(UnitOf(s, f), ctx, e) != Invalid
    requires At(Code(p, f), st.pc, CodeE(UnitOf(s, f), ctx, e, lab))
    ensures SimulatesE(p, f, k, TypeE(UnitOf(s, f), ctx, e), st, |CodeE(UnitOf(s, f), ctx, e, lab)|, EvalE(s, k, env, e))
    decreases k, 1, e, 0
  {
    hide IR.Reaches, IR.Ends, Canon, At, Rel, TypeE, CodeE;
    var c, x := UnitOf(s, f), e.operand;
    OperatorForm(c, ctx, e, lab);
    AtConcatAll(Code(p, f));
    SimE(s, p, f, k, ctx, env, x, lab, st);
    var r := EvalE(s, k, env, x);
    if r.Abort? { return; }
    var st1 := IR.State(st.pc + |CodeE(c, ctx, x, lab)|, st.stack + [r.v], st.slots);
    DoCast(p, f, st1.pc, st.stack, st.slots, e.ty, TypeE(c, ctx, x), r.v);
    IR.ReachTrans(p, f, st, st1, IR.State(st1.pc + 1, st.stack + [Canon(p.target, e.ty, r.v)], st.slots));
  }

  lemma {:induction false} SimAssert(s: Source, p: Program, f: nat, k: nat, ctx: seq<Local>, env: seq<Var>, e: Expr, lab: nat, st: State)
    requires Compiled(s, p) && Defined(s, f) && Ready(p, f)
    requires e.Call? && e.name == "assert" && Rel(ctx, env, st.slots) && TypeE(UnitOf(s, f), ctx, e) != Invalid
    requires At(Code(p, f), st.pc, CodeE(UnitOf(s, f), ctx, e, lab))
    ensures SimulatesE(p, f, k, TypeE(UnitOf(s, f), ctx, e), st, |CodeE(UnitOf(s, f), ctx, e, lab)|, EvalE(s, k, env, e))
    decreases k, 1, e, 0
  {
    hide IR.Reaches, IR.Ends, Canon, At, Rel, TypeE, CodeE;
    Accepted(UnitOf(s, f), ctx, e);
    AssertForm(UnitOf(s, f), ctx, e, lab);
    var c, x := UnitOf(s, f), e.args[0];
    AtConcatAll(Code(p, f));
    SimE(s, p, f, k, ctx, env, x, lab, st);
    var r := EvalE(s, k, env, x);
    if r.Abort? { return; }
    var st1 := IR.State(st.pc + |CodeE(c, ctx, x, lab)|, st.stack + [r.v], st.slots);
    DoAssert(p, f, k, st1.pc, st.stack, st.slots, r.v);
    if r.v == 0 {
      AbortE(p, f, k, st, st1, IR.Trapped);
    } else {
      var st2 := IR.State(st1.pc + 1, st.stack, st.slots);
      DoConst(p, f, st2, UnitT, 0);
      CanonZero(s.target, UnitT);
      IR.ReachTrans(p, f, st, st1, st2);
      IR.ReachTrans(p, f, st, st2, IR.State(st2.pc + 1, st.stack + [0], st.slots));
    }
  }

  lemma {:induction false} SimIfExpr(s: Source, p: Program, f: nat, k: nat, ctx: seq<Local>, env: seq<Var>, e: Expr, lab: nat, st: State)
    requires Compiled(s, p) && Defined(s, f) && Ready(p, f)
    requires e.IfExpr? && Rel(ctx, env, st.slots) && TypeE(UnitOf(s, f), ctx, e) != Invalid
    requires At(Code(p, f), st.pc, CodeE(UnitOf(s, f), ctx, e, lab))
    ensures SimulatesE(p, f, k, TypeE(UnitOf(s, f), ctx, e), st, |CodeE(UnitOf(s, f), ctx, e, lab)|, EvalE(s, k, env, e))
    decreases k, 1, e, 0
  {
    hide IR.Reaches, IR.Ends, Canon, At, Rel, TypeE, CodeE, LabelsE;
    var c := UnitOf(s, f);
    Accepted(c, ctx, e);
    IfForm(c, ctx, e, lab);
    AtConcatAll(Code(p, f));
    var n1 := lab + 2 + LabelsE(e.cond);
    var cond, thn := CodeE(c, ctx, e.cond, lab + 2), CodeE(c, ctx, e.thn, n1);
    var els := if e.els.Some? then CodeE(c, ctx, e.els.value, n1 + LabelsE(e.thn)) else [IR.Const(UnitT, 0)];
    var pc1 := st.pc + |cond|;
    var alt := pc1 + 1 + |thn| + 1;
    var end := alt + 1 + |els|;
    SimTest(s, p, f, k, ctx, env, e.cond, lab + 2, st, lab, alt);
    var test := EvalE(s, k, env, e.cond);
    if test.Abort? { return; }
    var st2 := IR.State(if test.v != 0 then pc1 + 1 else alt + 1, st.stack, st.slots);
    var r, n := EvalE(s, k, env, e), if test.v != 0 then |thn| else |els|;
    if test.v != 0 {
      SimE(s, p, f, k, ctx, env, e.thn, n1, st2);
    } else if e.els.Some? {
      SimE(s, p, f, k, ctx, env, e.els.value, n1 + LabelsE(e.thn), st2);
    } else {
      DoConst(p, f, st2, UnitT, 0);
      CanonZero(s.target, UnitT);
    }
    assert SimulatesE(p, f, k, TypeE(c, ctx, e), st2, n, r);
    match r
    case Abort(o) => AbortE(p, f, k, st, st2, o);
    case Value(_, v) =>
      var st3 := IR.State(st2.pc + n, st.stack + [v], st.slots);
      IR.ReachTrans(p, f, st, st2, st3);
      LogicalTail(p, f, st, st3, lab, end, test.v != 0);
  }

  lemma {:induction false} SimBlock(s: Source, p: Program, f: nat, k: nat, ctx: seq<Local>, env: seq<Var>, es: seq<Expr>, lab: nat, st: State)
    requires Compiled(s, p) && Defined(s, f) && Ready(p, f)
    requires es != [] && Rel(ctx, env, st.slots) && TypeBlock(UnitOf(s, f), ctx, es) != Invalid
    requires At(Code(p, f), st.pc, CodeBlock(UnitOf(s, f), ctx, es, lab))
    ensures SimulatesE(p, f, k, TypeBlock(UnitOf(s, f), ctx, es), st, |CodeBlock(UnitOf(s, f), ctx, es, lab)|, EvalBlock(s, k, env, es))
    decreases k, 1, es, 0
  {
    hide IR.Reaches, IR.Ends, Canon, At, Rel, TypeE, CodeE, LabelsE, EvalE;
    var c := UnitOf(s, f);
    AtConcatAll(Code(p, f));
    SimE(s, p, f, k, ctx, env, es[0], lab, st);
    var r := EvalE(s, k, env, es[0]);
    if r.Abort? || |es| == 1 { return; }
    var st1 := IR.State(st.pc + |CodeE(c, ctx, es[0], lab)|, st.stack + [r.v], st.slots);
    var st2 := IR.State(st1.pc + 1, st.stack, st.slots);
    DoDrop(p, f, st1.pc, st.stack, st.slots, r.v);
    IR.ReachTrans(p, f, st, st1, st2);
    SimBlock(s, p, f, k, ctx, env, es[1..], lab + LabelsE(es[0]), st2);
    ThenE(p, f, k, TypeBlock(c, ctx, es), st, st2, |CodeBlock(c, ctx, es, lab)|,
          |CodeBlock(c, ctx, es[1..], lab + LabelsE(es[0]))|, EvalBlock(s, k, env, es));
  }

  // ----- calls -----

  /** Two argument lists the callee reads alike. */
  ghost predicate SameArgs(tg: Target, params: seq<Param>, xs: seq<int>, vs: seq<int>)
    requires tg.Valid()
  {
    |xs| == |vs| == |params| && forall i :: 0 <= i < |xs| ==> Canon(tg, params[i].ty, xs[i]) == Canon(tg, params[i].ty, vs[i])
  }

  ghost predicate SimulatesArgs(p: Program, f: nat, k: nat, params: seq<Param>, st: State, n: nat, xs: seq<int>, r: Values)
    requires p.target.Valid() && f < |p.funcs|
  {
    match r
    case Values(vs) =>
      SameArgs(p.target, params, xs, vs) && IR.Reaches(p, f, st, IR.State(st.pc + n, st.stack + xs, st.slots))
    case AbortArgs(o) => !o.Returned? && IR.Ends(p, f, k, st, o)
  }

  /** One argument evaluated and converted, then the others. */
  lemma {:induction false} ThenArgs(p: Program, f: nat, k: nat, params: seq<Param>, st: State, st2: State, n: nat, n2: nat,
                 x: int, v: int, rest: seq<int>, r: Values) returns (xs: seq<int>)
    requires p.target.Valid() && f < |p.funcs| && params != []
    requires IR.Reaches(p, f, st, st2) && st2.stack == st.stack + [x] && st2.slots == st.slots && st2.pc + n2 == st.pc + n
    requires Canon(p.target, params[0].ty, x) == Canon(p.target, params[0].ty, v)
    requires SimulatesArgs(p, f, k, params[1..], st2, n2, rest, r)
    ensures SimulatesArgs(p, f, k, params, st, n, xs, if r.Values? then Values([v] + r.vs) else r)
  {
    hide IR.Reaches, IR.Ends, Canon;
    xs := [x] + rest;
    match r
    case AbortArgs(o) => AbortE(p, f, k, st, st2, o);
    case Values(vs) =>
      assert st2.stack + rest == st.stack + xs;
      IR.ReachTrans(p, f, st, st2, IR.State(st.pc + n, st.stack + xs, st.slots));
      SameArgsCons(p.target, params, x, rest, v, vs);
  }

  lemma {:induction false} SimArgs(s: Source, p: Program, f: nat, k: nat, ctx: seq<Local>, env: seq<Var>,
                                   args: seq<Expr>, params: seq<Param>, lab: nat, st: State) returns (xs: seq<int>)
    requires Compiled(s, p) && Defined(s, f) && Ready(p, f)
    requires |args| == |params| && ArgsOk(UnitOf(s, f), ctx, args, params) && Rel(ctx, env, st.slots)
    requires At(Code(p, f), st.pc, CodeArgs(UnitOf(s, f), ctx, args, params, lab))
    ensures SimulatesArgs(p, f, k, params, st, |CodeArgs(UnitOf(s, f), ctx, args, params, lab)|, xs, EvalArgs(s, k, env, args))
    decreases k, 1, args, 0
  {
    hide IR.Reaches, IR.Ends, Canon, At, Rel, TypeE, CodeE, LabelsE, EvalE, Compatible, ConvertCode;
    var c := UnitOf(s, f);
    AtConcatAll(Code(p, f));
    xs := [];
    if args == [] {
      assert st.stack + [] == st.stack;
      IR.ReachRefl(p, f, st);
      return;
    }
    SimE(s, p, f, k, ctx, env, args[0], lab, st);
    var r := EvalE(s, k, env, args[0]);
    if r.Abort? { return; }
    var from, to := TypeE(c, ctx, args[0]), params[0].ty;
    var st1 := IR.State(st.pc + |CodeE(c, ctx, args[0], lab)|, st.stack + [r.v], st.slots);
    var x := DoConvert(p, f, st1.pc, st.stack, st.slots, from, to, r.v);
    var st2 := IR.State(st1.pc + |ConvertCode(from, to)|, st.stack + [x], st.slots);
    IR.ReachTrans(p, f, st, st1, st2);
    var rest := SimArgs(s, p, f, k, ctx, env, args[1..], params[1..], lab + LabelsE(args[0]), st2);
    xs := ThenArgs(p, f, k, params, st, st2, |CodeArgs(c, ctx, args, params, lab)|,
                   |CodeArgs(c, ctx, args[1..], params[1..], lab + LabelsE(args[0]))|, x, r.v, rest, EvalArgs(s, k, env, args[1..]));
  }

  lemma {:induction false} SameArgsCons(tg: Target, params: seq<Param>, x: int, xs: seq<int>, v: int, vs: seq<int>)
    requires tg.Valid() && params != [] && SameArgs(tg, params[1..], xs, vs)
    requires Canon(tg, params[0].ty, x) == Canon(tg, params[0].ty, v)
    ensures SameArgs(tg, params, [x] + xs, [v] + vs)
  {
    hide Canon;
    var as_, bs := [x] + xs, [v] + vs;
    forall i | 0 <= i < |as_|
      ensures Canon(tg, params[i].ty, as_[i]) == Canon(tg, params[i].ty, bs[i])
    {
      if i > 0 {
        assert params[1..][i - 1] == params[i];
        assert Canon(tg, params[1..][i - 1].ty, xs[i - 1]) == Canon(tg, params[1..][i - 1].ty, vs[i - 1]);
      }
    }
  }

  lemma {:induction false} SameFrame(tg: Target, params: seq<Param>, xs: seq<int>, vs: seq<int>)
    requires tg.Valid() && SameArgs(tg, params, xs, vs)
    ensures ArgsAs(tg, ParamTypes(params), xs) == ArgsAs(tg, ParamTypes(params), vs)
  {
    hide Canon;
    var types := ParamTypes(params);
    forall i | 0 <= i < |xs|
      ensures ArgsAs(tg, types, xs)[i] == ArgsAs(tg, types, vs)[i]
    {
      assert Canon(tg, params[i].ty, xs[i]) == Canon(tg, params[i].ty, vs[i]);
    }
  }

  lemma {:induction false} SimCall(s: Source, p: Program, f: nat, k: nat, ctx: seq<Local>, env: seq<Var>, e: Expr, lab: nat, st: State)
    requires Compiled(s, p) && Defined(s, f) && Ready(p, f)
    requires e.Call? && e.name != "assert" && Rel(ctx, env, st.slots) && TypeE(UnitOf(s, f), ctx, e) != Invalid
    requires At(Code(p, f), st.pc, CodeE(UnitOf(s, f), ctx, e, lab))
    ensures SimulatesE(p, f, k, TypeE(UnitOf(s, f), ctx, e), st, |CodeE(UnitOf(s, f), ctx, e, lab)|, EvalE(s, k, env, e))
    decreases k, 1, e, 0
  {
    hide IR.Reaches, IR.Ends, Canon, At, Rel, FindFunction, TypeE, CodeE, ArgsOk;
    var c := UnitOf(s, f);
    Accepted(c, ctx, e);
    CallForm(c, ctx, e, lab);
    var g := FindFunction(s.funs, e.name).value;
    var params := s.funs[g].params;
    AtConcatAll(Code(p, f));
    var code := CodeArgs(c, ctx, e.args, params, lab);
    var xs := SimArgs(s, p, f, k, ctx, env, e.args, params, lab, st);
    var r := EvalArgs(s, k, env, e.args);
    if r.AbortArgs? { return; }
    var st1 := IR.State(st.pc + |code|, st.stack + xs, st.slots);
    SimCallStep(s, p, f, k, g, st, st1, xs, r.vs);
  }

  /** The call instruction itself, with the arguments on top of the stack. */
  lemma {:induction false} SimCallStep(s: Source, p: Program, f: nat, k: nat, g: nat, st: State, st1: State, xs: seq<int>, vs: seq<int>)
    requires Compiled(s, p) && Defined(s, f) && Ready(p, f) && g < |s.funs|
    requires SameArgs(s.target, s.funs[g].params, xs, vs)
    requires IR.Reaches(p, f, st, st1) && st1.stack == st.stack + xs && st1.slots == st.slots && st.pc <= st1.pc
    requires At(Code(p, f), st1.pc, [IR.Call(s.funs[g].result, g)])
    ensures SimulatesE(p, f, k, s.funs[g].result, st, st1.pc + 1 - st.pc,
                       CallValue(s.target, s.funs[g].result, CallFun(s, k, g, vs)))
    decreases k, 0, 1
  {
    hide IR.Reaches, IR.Ends, Canon, At, LowerFun;
    AtOne(Code(p, f), st1.pc, IR.Call(s.funs[g].result, g));
    assert CompiledFun(s, p, g);
    FunShape(s, g);
    var base := |st.stack|;
    assert st1.stack[base..] == xs && st1.stack[..base] == st.stack;
    assert IR.Step(p, f, st1) == IR.CallTo(g, xs, IR.State(st1.pc + 1, st.stack, st.slots));
    SimFun(s, p, k, g, xs, vs);
    var o := CallFun(s, k, g, vs);
    if o.Returned? {
      var n: nat :| IR.RunFunc(p, n, g, xs) == o;
      IR.StepCall(p, f, st1, n, o.v);
      IR.ReachTrans(p, f, st, st1, IR.State(st1.pc + 1, st.stack + [Canon(s.target, s.funs[g].result, o.v)], st.slots));
    } else {
      IR.StepCallEnds(p, f, k, st1, o);
      IR.ReachEnds(p, f, k, st, st1, o);
    }
  }

  lemma {:induction false} FunShape(s: Source, g: nat)
    requires g < |s.funs|
    ensures var h := LowerFun(s.target, s.funs, s.funs[g]);
      h.params == ParamTypes(s.funs[g].params) && h.result == s.funs[g].result && h.isExtern == s.funs[g].body.None?
  {
    hide CodeF, SlotsBody, LabelsBody;
  }

  /** A called function: source and machine agree on how it ends. */
  lemma {:induction false} SimFun(s: Source, p: Program, k: nat, g: nat, xs: seq<int>, vs: seq<int>)
    requires Compiled(s, p) && g < |s.funs| && SameArgs(s.target, s.funs[g].params, xs, vs)
    ensures CallFun(s, k, g, vs) == IR.OutOfFuel ==> k == 0 || IR.RunFunc(p, k - 1, g, xs) == IR.OutOfFuel
    ensures CallFun(s, k, g, vs) != IR.OutOfFuel ==> exists n: nat :: IR.RunFunc(p, n, g, xs) == CallFun(s, k, g, vs)
    decreases k, 0, 0
  {
    hide IR.Reaches, IR.Ends, Canon, At, LowerFun, CodeBody, OkBody;
    FunShape(s, g);
    assert CompiledFun(s, p, g);
    SameFrame(s.target, s.funs[g].params, xs, vs);
    if s.funs[g].body.None? {
      assert IR.RunFunc(p, 0, g, xs) == CallFun(s, k, g, vs);
      return;
    }
    if k == 0 { return; }
    CompiledReady(s, p, g);
    var d, c := s.funs[g], UnitOf(s, g);
    var ctx, env, st := ParamLocals(d.params), Bind(s.target, d.params, vs), IR.State(0, [], IR.Frame(p, g, xs));
    assert Rel(ctx, env, st.slots) by { FrameHoldsParams(s, p, g, xs, vs); }
    AtWhole(Code(p, g));
    AtConcatAll(Code(p, g));
    var sl := SimBody(s, p, g, k - 1, ctx, NoLoop, Exits(0, 0), env, d.body.value, 0, |d.params|, st);
    var r := ExecBody(s, k - 1, d.result, env, d.body.value);
    var o := CallFun(s, k, g, vs);
    if r.Normal? {
      var st1 := IR.State(|CodeBody(c, ctx, NoLoop, d.body.value, 0, |d.params|)|, [], sl);
      AtOne(Code(p, g), st1.pc, IR.End(c.result));
      IR.StepStop(p, g, k - 1, st1, o);
      IR.ReachEnds(p, g, k - 1, st, st1, o);
    }
    EndsRun(p, g, k - 1, xs, o);
  }

  lemma {:induction false} AtWhole(code: seq<IR.Inst>)
    ensures At(code, 0, code)
  {
    assert code[0..|code|] == code;
  }

  lemma {:induction false} EndsRun(p: Program, g: nat, k: nat, xs: seq<int>, o: IR.Outcome)
    requires p.target.Valid() && g < |p.funcs| && !p.funcs[g].isExtern
    requires IR.Ends(p, g, k, IR.State(0, [], IR.Frame(p, g, xs)), o)
    ensures o == IR.OutOfFuel ==> IR.RunFunc(p, k, g, xs) == o
    ensures o != IR.OutOfFuel ==> exists n: nat :: IR.RunFunc(p, n, g, xs) == o
  {
    if o != IR.OutOfFuel {
      var n: nat :| IR.Run(p, n, g, IR.State(0, [], IR.Frame(p, g, xs))) == o;
      assert IR.RunFunc(p, n, g, xs) == o;
    }
  }

  lemma {:induction false} FrameHoldsParams(s: Source, p: Program, g: nat, xs: seq<int>, vs: seq<int>)
    requires p.target == s.target && s.target.Valid() && g < |s.funs| && g < |p.funcs|
    requires p.funcs[g].params == ParamTypes(s.funs[g].params) && |s.funs[g].params| <= p.funcs[g].slots
    requires |xs| == |vs| == |s.funs[g].params|
    requires ArgsAs(s.target, ParamTypes(s.funs[g].params), xs) == ArgsAs(s.target, ParamTypes(s.funs[g].params), vs)
    ensures Rel(ParamLocals(s.funs[g].params), Bind(s.target, s.funs[g].params, vs), IR.Frame(p, g, xs))
  {
    hide Canon;
  }

  // ----- statements -----

  lemma {:induction false} SimS(s: Source, p: Program, f: nat, k: nat, ctx: seq<Local>, loop: Loop, x: Exits,
                                env: seq<Var>, stm: Stmt, lab: nat, slot: nat, st: State) returns (sl: seq<int>)
    requires Compiled(s, p) && Defined(s, f) && Ready(p, f) && LoopAt(p, f, loop, x)
    requires st.stack == [] && Rel(ctx, env, st.slots) && Separate(ctx, slot) && slot + SlotsS(stm) <= |st.slots|
    requires OkS(UnitOf(s, f), ctx, loop.Loop?, slot, stm)
    requires At(Code(p, f), st.pc, CodeS(UnitOf(s, f), ctx, loop, stm, lab, slot))
    ensures SimulatesS(p, f, k, CtxAfter(UnitOf(s, f), ctx, slot, stm), ctx, loop, x, st,
                       st.pc + |CodeS(UnitOf(s, f), ctx, loop, stm, lab, slot)|, sl,
                       ExecS(s, k, UnitOf(s, f).result, env, stm))
    decreases k, 1, stm, 1
  {
    hide IR.Reaches, IR.Ends, Canon, At, Rel, TypeE, CodeE, LabelsE, EvalE, Compatible, ConvertCode, WhileCode;
    hide CodeBody, CodeBranches, OkBody, OkBranches, LabelsBody, LabelsBs, SlotsBody, SlotsBs, Lookup, BinarySem;
    var c := UnitOf(s, f);
    sl := st.slots;
    match stm
    case Let(_, _, _) => sl := SimLet(s, p, f, k, ctx, loop, x, env, stm, lab, slot, st);
    case Assign(_, _, _) => sl := SimAssign(s, p, f, k, ctx, loop, x, env, stm, lab, slot, st);
    case ExprStmt(e) =>
      AtConcatAll(Code(p, f));
      SimE(s, p, f, k, ctx, env, e, lab, st);
      var r := EvalE(s, k, env, e);
      if r.Value? {
        var st1 := IR.State(st.pc + |CodeE(c, ctx, e, lab)|, [] + [r.v], sl);
        DoDrop(p, f, st1.pc, [], sl, r.v);
        IR.ReachTrans(p, f, st, st1, IR.State(st1.pc + 1, [], sl));
      }
    case ReturnStmt(_) => SimReturn(s, p, f, k, ctx, loop, x, env, stm, lab, slot, st);
    case IfStmt(_, _) => sl := SimIfStmt(s, p, f, k, ctx, loop, x, env, stm, lab, slot, st);
    case While(_, _) => sl := SimWhile(s, p, f, k, ctx, loop, x, env, stm, lab, slot, st);
    case Break(_) => DoJump(p, f, st.pc, [], sl, loop.brk, x.brk);
    case Continue => DoJump(p, f, st.pc, [], sl, loop.cont, x.cont);
    case OtherStmt =>
  }

  lemma {:induction false} SimLet(s: Source, p: Program, f: nat, k: nat, ctx: seq<Local>, loop: Loop, x: Exits,
               env: seq<Var>, stm: Stmt, lab: nat, slot: nat, st: State) returns (sl: seq<int>)
    requires Compiled(s, p) && Defined(s, f) && Ready(p, f) && stm.Let?
    requires st.stack == [] && Rel(ctx, env, st.slots) && Separate(ctx, slot) && slot < |st.slots|
    requires OkS(UnitOf(s, f), ctx, loop.Loop?, slot, stm)
    requires At(Code(p, f), st.pc, CodeS(UnitOf(s, f), ctx, loop, stm, lab, slot))
    ensures SimulatesS(p, f, k, CtxAfter(UnitOf(s, f), ctx, slot, stm), ctx, loop, x, st,
                       st.pc + |CodeS(UnitOf(s, f), ctx, loop, stm, lab, slot)|, sl,
                       ExecS(s, k, UnitOf(s, f).result, env, stm))
    decreases k, 1, stm, 0
  {
    hide IR.Reaches, IR.Ends, Canon, At, Rel, TypeE, CodeE, EvalE, Compatible, ConvertCode;
    var c := UnitOf(s, f);
    sl := st.slots;
    AtConcatAll(Code(p, f));
    SimE(s, p, f, k, ctx, env, stm.init, lab, st);
    var r := EvalE(s, k, env, stm.init);
    if r.Abort? { return; }
    var from, t := TypeE(c, ctx, stm.init), LetType(c, ctx, stm.declared, stm.init);
    var st1 := IR.State(st.pc + |CodeE(c, ctx, stm.init, lab)|, [] + [r.v], st.slots);
    var w := DoConvert(p, f, st1.pc, [], st.slots, from, t, r.v);
    var st2 := IR.State(st1.pc + |ConvertCode(from, t)|, [] + [w], st.slots);
    IR.ReachTrans(p, f, st, st1, st2);
    DoStore(p, f, st2.pc, [], st.slots, t, slot, w);
    sl := st.slots[slot := Canon(s.target, t, w)];
    IR.ReachTrans(p, f, st, st2, IR.State(st2.pc + 1, [], sl));
    RelExtend(ctx, env, st.slots, slot, Local(stm.name, t, slot), Var(stm.name, t, Canon(s.target, t, r.v)));
  }

  lemma {:induction false} RelExtend(ctx: seq<Local>, env: seq<Var>, slots: seq<int>, slot: nat, l: Local, v: Var)
    requires Rel(ctx, env, slots) && Separate(ctx, slot) && slot < |slots|
    requires l.slot == slot && l.name == v.name && l.ty == v.ty
    ensures Rel(ctx + [l], env + [v], slots[slot := v.v])
  {
  }

  lemma {:induction false} RelAt(ctx: seq<Local>, env: seq<Var>, slots: seq<int>, i: nat)
    requires Rel(ctx, env, slots) && i < |env|
    ensures |ctx| == |env| && ctx[i].ty == env[i].ty && ctx[i].slot < |slots| && slots[ctx[i].slot] == env[i].v
  {
  }

  lemma {:induction false} RelUpdate(ctx: seq<Local>, env: seq<Var>, slots: seq<int>, bound: nat, i: nat, w: int)
    requires Rel(ctx, env, slots) && Separate(ctx, bound) && i < |ctx|
    ensures Rel(ctx, env[i := env[i].(v := w)], slots[ctx[i].slot := w])
  {
  }

  lemma {:induction false} SimAssign(s: Source, p: Program, f: nat, k: nat, ctx: seq<Local>, loop: Loop, x: Exits,
                  env: seq<Var>, stm: Stmt, lab: nat, slot: nat, st: State) returns (sl: seq<int>)
    requires Compiled(s, p) && Defined(s, f) && Ready(p, f) && stm.Assign?
    requires st.stack == [] && Rel(ctx, env, st.slots) && Separate(ctx, slot)
    requires OkS(UnitOf(s, f), ctx, loop.Loop?, slot, stm)
    requires At(Code(p, f), st.pc, CodeS(UnitOf(s, f), ctx, loop, stm, lab, slot))
    ensures SimulatesS(p, f, k, ctx, ctx, loop, x, st,
                       st.pc + |CodeS(UnitOf(s, f), ctx, loop, stm, lab, slot)|, sl,
                       ExecS(s, k, UnitOf(s, f).result, env, stm))
    decreases k, 1, stm, 0
  {
    hide IR.Reaches, IR.Ends, Canon, At, TypeE, CodeE, EvalE, Compatible, ConvertCode, BinarySem, Lookup, Rel, Separate, FindVar;
    var c := UnitOf(s, f);
    sl := st.slots;
    AtConcatAll(Code(p, f));
    LookupAgrees(ctx, env, st.slots, stm.name);
    var i := FindVar(env, stm.name).value;
    RelAt(ctx, env, st.slots, i);
    var l, op := ctx[i], stm.compound;
    var stack := if op.Some? then [env[i].v] else [];
    var st0 := IR.State(st.pc + |stack|, stack, st.slots);
    if op.Some? {
      DoLoad(p, f, st, l.ty, l.slot);
      assert st.stack + [st.slots[l.slot]] == stack;
    } else {
      IR.ReachRefl(p, f, st);
    }
    SimE(s, p, f, k, ctx, env, stm.value, lab, st0);
    var r := EvalE(s, k, env, stm.value);
    if r.Abort? {
      AbortE(p, f, k, st, st0, r.o);
      return;
    }
    var from := TypeE(c, ctx, stm.value);
    var st1 := IR.State(st0.pc + |CodeE(c, ctx, stm.value, lab)|, stack + [r.v], sl);
    var w := DoConvert(p, f, st1.pc, stack, sl, from, l.ty, r.v);
    var st2 := IR.State(st1.pc + |ConvertCode(from, l.ty)|, stack + [w], sl);
    IR.ReachTrans(p, f, st, st0, st1);
    IR.ReachTrans(p, f, st, st1, st2);
    if op.Some? {
      sl := SimCompound(p, f, k, l, op.value, st, st2, env[i].v, w, r.v);
    } else {
      DoStore(p, f, st2.pc, [], sl, l.ty, l.slot, w);
      sl := st.slots[l.slot := Canon(s.target, l.ty, w)];
      IR.ReachTrans(p, f, st, st2, IR.State(st2.pc + 1, [], sl));
    }
    if ExecS(s, k, c.result, env, stm).Normal? {
      RelUpdate(ctx, env, st.slots, slot, i, sl[l.slot]);
    }
  }

  /** The operator and store that end a compound assignment. */
  lemma {:induction false} SimCompound(p: Program, f: nat, k: nat, l: Local, op: BinOp, st: State, st2: State, a: int, w: int, b: int) returns (sl: seq<int>)
    requires Ready(p, f) && IR.Reaches(p, f, st, st2) && st2.stack == [a] + [w] && st2.slots == st.slots && l.slot < |st.slots|
    requires Canon(p.target, l.ty, w) == Canon(p.target, l.ty, b)
    requires At(Code(p, f), st2.pc, [IR.Binary(l.ty, op)]) && At(Code(p, f), st2.pc + 1, [IR.Store(l.ty, l.slot)])
    ensures |sl| == |st.slots|
    ensures match BinarySem(p.target, l.ty, op, a, b)
      case OpValue(v) => sl == st.slots[l.slot := Canon(p.target, l.ty, v)] && IR.Reaches(p, f, st, IR.State(st2.pc + 2, [], sl))
      case OpTrap => IR.Ends(p, f, k, st, IR.Trapped)
      case OpWrong => IR.Ends(p, f, k, st, IR.Wrong)
  {
    hide IR.Reaches, IR.Ends, Canon, At, BinarySem;
    BinaryReadsOperands(p.target, l.ty, op, a, b, a, w);
    assert [] + [a] + [w] == st2.stack;
    DoBinary(p, f, k, st2.pc, [], st2.slots, l.ty, op, a, w);
    var r := BinarySem(p.target, l.ty, op, a, b);
    ThenComputed(p, f, k, st, st2, r, st2.pc + 1, []);
    sl := st.slots;
    if r.OpValue? {
      DoStore(p, f, st2.pc + 1, [], st.slots, l.ty, l.slot, r.v);
      sl := st.slots[l.slot := Canon(p.target, l.ty, r.v)];
      IR.ReachTrans(p, f, st, IR.State(st2.pc + 1, [] + [r.v], st.slots), IR.State(st2.pc + 2, [], sl));
    }
  }

  lemma {:induction false} SimReturn(s: Source, p: Program, f: nat, k: nat, ctx: seq<Local>, loop: Loop, x: Exits,
                  env: seq<Var>, stm: Stmt, lab: nat, slot: nat, st: State)
    requires Compiled(s, p) && Defined(s, f) && Ready(p, f) && stm.ReturnStmt?
    requires st.stack == [] && Rel(ctx, env, st.slots)
    requires OkS(UnitOf(s, f), ctx, loop.Loop?, slot, stm)
    requires At(Code(p, f), st.pc, CodeS(UnitOf(s, f), ctx, loop, stm, lab, slot))
    ensures SimulatesS(p, f, k, ctx, ctx, loop, x, st,
                       st.pc + |CodeS(UnitOf(s, f), ctx, loop, stm, lab, slot)|, st.slots,
                       ExecS(s, k, UnitOf(s, f).result, env, stm))
    decreases k, 1, stm, 0
  {
    hide IR.Reaches, IR.Ends, Canon, At, TypeE, CodeE, EvalE, Compatible, ConvertCode, Rel;
    var c := UnitOf(s, f);
    AtConcatAll(Code(p, f));
    var v, from, st1 := 0, UnitT, st;
    if stm.result.Some? {
      var e := stm.result.value;
      SimE(s, p, f, k, ctx, env, e, lab, st);
      var r := EvalE(s, k, env, e);
      if r.Abort? { return; }
      v, from := r.v, TypeE(c, ctx, e);
      st1 := IR.State(st.pc + |CodeE(c, ctx, e, lab)|, [] + [v], st.slots);
    } else {
      DoConst(p, f, st, UnitT, 0);
      CanonZero(s.target, UnitT);
      st1 := IR.State(st.pc + 1, [] + [v], st.slots);
    }
    var w := DoConvert(p, f, st1.pc, [], st.slots, from, c.result, v);
    var st2 := IR.State(st1.pc + |ConvertCode(from, c.result)|, [] + [w], st.slots);
    IR.ReachTrans(p, f, st, st1, st2);
    DoReturn(p, f, k, st2.pc, [], st.slots, c.result, w);
    IR.ReachEnds(p, f, k, st, st2, IR.Returned(Canon(s.target, c.result, v)));
  }

  /** Statements in sequence; variables they introduce are only known to the rest. */
  lemma {:induction false} SimSeq(s: Source, p: Program, f: nat, k: nat, ctx: seq<Local>, loop: Loop, x: Exits,
                                  env: seq<Var>, ss: seq<Stmt>, lab: nat, slot: nat, st: State) returns (sl: seq<int>)
    requires Compiled(s, p) && Defined(s, f) && Ready(p, f) && LoopAt(p, f, loop, x)
    requires st.stack == [] && Rel(ctx, env, st.slots) && Separate(ctx, slot) && slot + SlotsBody(ss) <= |st.slots|
    requires OkBody(UnitOf(s, f), ctx, loop.Loop?, slot, ss)
    requires At(Code(p, f), st.pc, CodeBody(UnitOf(s, f), ctx, loop, ss, lab, slot))
    ensures ExecSeq(s, k, UnitOf(s, f).result, env, ss).Done? || |ExecSeq(s, k, UnitOf(s, f).result, env, ss).env| >= |ctx|
    ensures SimulatesS(p, f, k, ctx, ctx, loop, x, st,
                       st.pc + |CodeBody(UnitOf(s, f), ctx, loop, ss, lab, slot)|, sl,
                       Restrict(ExecSeq(s, k, UnitOf(s, f).result, env, ss), |ctx|))
    decreases k, 1, ss, 1
  {
    hide IR.Reaches, IR.Ends, Canon, At, CodeS, OkS, LabelsS, SlotsS, ExecS, CtxAfter, Separate;
    var c := UnitOf(s, f);
    sl := st.slots;
    if ss == [] {
      IR.ReachRefl(p, f, st);
      assert env[..|ctx|] == env;
      return;
    }
    AtConcatAll(Code(p, f));
    var code, after, slot' := CodeS(c, ctx, loop, ss[0], lab, slot), CtxAfter(c, ctx, slot, ss[0]), slot + SlotsS(ss[0]);
    sl := SimS(s, p, f, k, ctx, loop, x, env, ss[0], lab, slot, st);
    var r := ExecS(s, k, c.result, env, ss[0]);
    if !r.Normal? {
      RestrictSame(r, |ctx|);
      return;
    }
    AfterSeparate(c, ctx, slot, ss[0]);
    var st1 := IR.State(st.pc + |code|, [], sl);
    sl := SimSeq(s, p, f, k, after, loop, x, r.env, ss[1..], lab + LabelsS(ss[0]), slot', st1);
    ThenS(p, f, k, after, ctx, loop, x, st, st1, st.pc + |CodeBody(c, ctx, loop, ss, lab, slot)|, sl, ExecSeq(s, k, c.result, env, ss));
  }

  function Restrict(r: Exit, n: nat): Exit {
    match r
    case Normal(e) => if n <= |e| then Normal(e[..n]) else r
    case Broke(e) => if n <= |e| then Broke(e[..n]) else r
    case Continued(e) => if n <= |e| then Continued(e[..n]) else r
    case Done(_) => r
  }

  lemma {:induction false} RestrictSame(r: Exit, n: nat)
    requires !r.Done? ==> |r.env| == n
    ensures Restrict(r, n) == r
  {
    if !r.Done? {
      assert r.env[..n] == r.env;
    }
  }

  lemma {:induction false} AfterSeparate(c: Unit, ctx: seq<Local>, slot: nat, stm: Stmt)
    requires Separate(ctx, slot)
    ensures Separate(CtxAfter(c, ctx, slot, stm), slot + SlotsS(stm))
    ensures |ctx| <= |CtxAfter(c, ctx, slot, stm)| && CtxAfter(c, ctx, slot, stm)[..|ctx|] == ctx
  {
  }

  /** Going on from st1, with the variables of the inner scope forgotten. */
  lemma {:induction false} ThenS(p: Program, f: nat, k: nat, after: seq<Local>, ctx: seq<Local>, loop: Loop, x: Exits,
              st: State, st1: State, next: nat, sl: seq<int>, r: Exit)
    requires p.target.Valid() && f < |p.funcs| && IR.Reaches(p, f, st, st1) && |st.slots| == |st1.slots|
    requires |ctx| <= |after| && after[..|ctx|] == ctx
    requires !r.Done? ==> |r.env| >= |after|
    requires SimulatesS(p, f, k, after, after, loop, x, st1, next, sl, Restrict(r, |after|))
    ensures SimulatesS(p, f, k, ctx, ctx, loop, x, st, next, sl, Restrict(r, |ctx|))
  {
    hide IR.Reaches, IR.Ends;
    if r.Done? {
      IR.ReachEnds(p, f, k, st, st1, r.o);
    } else {
      var n := |ctx|;
      forall i | 0 <= i < n
        ensures ctx[i] == after[i] && r.env[..n][i] == r.env[..|after|][i]
      {
        assert ctx[i] == after[..n][i];
      }
      var to := if r.Normal? then next else if r.Broke? then x.brk else x.cont;
      IR.ReachTrans(p, f, st, st1, IR.State(to, [], sl));
    }
  }

  lemma {:induction false} SimBody(s: Source, p: Program, f: nat, k: nat, ctx: seq<Local>, loop: Loop, x: Exits,
                                   env: seq<Var>, ss: seq<Stmt>, lab: nat, slot: nat, st: State) returns (sl: seq<int>)
    requires Compiled(s, p) && Defined(s, f) && Ready(p, f) && LoopAt(p, f, loop, x)
    requires st.stack == [] && Rel(ctx, env, st.slots) && Separate(ctx, slot) && slot + SlotsBody(ss) <= |st.slots|
    requires OkBody(UnitOf(s, f), ctx, loop.Loop?, slot, ss)
    requires At(Code(p, f), st.pc, CodeBody(UnitOf(s, f), ctx, loop, ss, lab, slot))
    ensures SimulatesS(p, f, k, ctx, ctx, loop, x, st,
                       st.pc + |CodeBody(UnitOf(s, f), ctx, loop, ss, lab, slot)|, sl,
                       ExecBody(s, k, UnitOf(s, f).result, env, ss))
    decreases k, 1, ss, 2
  {
    hide IR.Reaches, IR.Ends, Canon, At, CodeBody, OkBody, ExecSeq, SlotsBody;
    sl := SimSeq(s, p, f, k, ctx, loop, x, env, ss, lab, slot, st);
  }

  lemma {:induction false} SimIfStmt(s: Source, p: Program, f: nat, k: nat, ctx: seq<Local>, loop: Loop, x: Exits,
                                     env: seq<Var>, stm: Stmt, lab: nat, slot: nat, st: State) returns (sl: seq<int>)
    requires Compiled(s, p) && Defined(s, f) && Ready(p, f) && LoopAt(p, f, loop, x) && stm.IfStmt?
    requires st.stack == [] && Rel(ctx, env, st.slots) && Separate(ctx, slot) && slot + SlotsS(stm) <= |st.slots|
    requires OkS(UnitOf(s, f), ctx, loop.Loop?, slot, stm)
    requires At(Code(p, f), st.pc, CodeS(UnitOf(s, f), ctx, loop, stm, lab, slot))
    ensures SimulatesS(p, f, k, ctx, ctx, loop, x, st,
                       st.pc + |CodeS(UnitOf(s, f), ctx, loop, stm, lab, slot)|, sl,
                       ExecS(s, k, UnitOf(s, f).result, env, stm))
    decreases k, 1, stm, 0
  {
    hide IR.Reaches, IR.Ends, Canon, At, CodeBody, CodeBranches, OkBody, OkBranches, ExecBody, ExecBranches;
    hide SlotsBody, SlotsBs, LabelsBody, LabelsBs, Rel;
    var c := UnitOf(s, f);
    var bs, els := stm.branches, stm.elseBody;
    AtConcatAll(Code(p, f));
    var code := CodeBranches(c, ctx, loop, bs, lab, lab + 1, slot);
    var lab', slot' := lab + 1 + LabelsBs(bs), slot + SlotsBs(bs);
    var code' := CodeBody(c, ctx, loop, els, lab', slot');
    var end := st.pc + |code| + |code'|;
    sl := SimBranches(s, p, f, k, ctx, loop, x, env, bs, lab, end, lab + 1, slot, st);
    var taken := ExecBranches(s, k, c.result, env, bs);
    if taken.None? {
      var st1 := IR.State(st.pc + |code|, [], st.slots);
      sl := SimBody(s, p, f, k, ctx, loop, x, env, els, lab', slot', st1);
      PastLabel(p, f, k, ctx, loop, x, st, st1, end, lab, sl, ExecBody(s, k, c.result, env, els));
    }
  }

  /** A part that ends just before a label, entered from st. */
  lemma {:induction false} PastLabel(p: Program, f: nat, k: nat, ctx: seq<Local>, loop: Loop, x: Exits,
                  st: State, st1: State, end: nat, id: nat, sl: seq<int>, r: Exit)
    requires Ready(p, f) && IR.Reaches(p, f, st, st1) && |st.slots| == |st1.slots|
    requires At(Code(p, f), end, [IR.Label(id)])
    requires SimulatesS(p, f, k, ctx, ctx, loop, x, st1, end, sl, r)
    ensures SimulatesS(p, f, k, ctx, ctx, loop, x, st, end + 1, sl, r)
  {
    hide IR.Reaches, IR.Ends;
    match r
    case Done(o) => IR.ReachEnds(p, f, k, st, st1, o);
    case Normal(_) =>
      DoLabel(p, f, end, [], sl, id);
      IR.ReachTrans(p, f, st, st1, IR.State(end, [], sl));
      IR.ReachTrans(p, f, st, IR.State(end, [], sl), IR.State(end + 1, [], sl));
    case Broke(_) => IR.ReachTrans(p, f, st, st1, IR.State(x.brk, [], sl));
    case Continued(_) => IR.ReachTrans(p, f, st, st1, IR.State(x.cont, [], sl));
  }

  /** A part that ends at a jump to a label. */
  lemma {:induction false} PastJump(p: Program, f: nat, k: nat, ctx: seq<Local>, loop: Loop, x: Exits,
                 st: State, st1: State, at: nat, end: nat, id: nat, sl: seq<int>, r: Exit)
    requires Ready(p, f) && IR.Reaches(p, f, st, st1) && |st.slots| == |st1.slots|
    requires At(Code(p, f), at, [IR.Jump(id)]) && At(Code(p, f), end, [IR.Label(id)])
    requires SimulatesS(p, f, k, ctx, ctx, loop, x, st1, at, sl, r)
    ensures SimulatesS(p, f, k, ctx, ctx, loop, x, st, end + 1, sl, r)
  {
    hide IR.Reaches, IR.Ends;
    match r
    case Done(o) => IR.ReachEnds(p, f, k, st, st1, o);
    case Normal(_) =>
      DoJumpPast(p, f, at, [], sl, id, end);
      IR.ReachTrans(p, f, st, st1, IR.State(at, [], sl));
      IR.ReachTrans(p, f, st, IR.State(at, [], sl), IR.State(end + 1, [], sl));
    case Broke(_) => IR.ReachTrans(p, f, st, st1, IR.State(x.brk, [], sl));
    case Continued(_) => IR.ReachTrans(p, f, st, st1, IR.State(x.cont, [], sl));
  }

  lemma {:induction false} SeparateLater(ctx: seq<Local>, a: nat, b: nat)
    requires Separate(ctx, a) && a <= b
    ensures Separate(ctx, b)
  {
  }

  ghost predicate SimulatesBs(p: Program, f: nat, k: nat, ctx: seq<Local>, loop: Loop, x: Exits,
                              st: State, next: nat, past: nat, sl: seq<int>, r: Option<Exit>)
    requires p.target.Valid() && f < |p.funcs|
  {
    match r
    case None => sl == st.slots && IR.Reaches(p, f, st, IR.State(next, [], sl))
    case Some(exit) => SimulatesS(p, f, k, ctx, ctx, loop, x, st, past, sl, exit)
  }

  lemma {:induction false} ThenBs(p: Program, f: nat, k: nat, ctx: seq<Local>, loop: Loop, x: Exits,
               st: State, st2: State, next: nat, past: nat, sl: seq<int>, r: Option<Exit>)
    requires p.target.Valid() && f < |p.funcs| && IR.Reaches(p, f, st, st2) && st.slots == st2.slots
    requires SimulatesBs(p, f, k, ctx, loop, x, st2, next, past, sl, r)
    ensures SimulatesBs(p, f, k, ctx, loop, x, st, next, past, sl, r)
  {
    hide IR.Reaches, IR.Ends;
    match r
    case None => IR.ReachTrans(p, f, st, st2, IR.State(next, [], sl));
    case Some(exit) => FromHere(p, f, k, ctx, loop, x, st, st2, past, sl, exit);
  }

  lemma {:induction false} SimBranches(s: Source, p: Program, f: nat, k: nat, ctx: seq<Local>, loop: Loop, x: Exits,
                                       env: seq<Var>, bs: seq<Branch>, end: nat, endAt: nat, lab: nat, slot: nat, st: State) returns (sl: seq<int>)
    requires Compiled(s, p) && Defined(s, f) && Ready(p, f) && LoopAt(p, f, loop, x)
    requires At(Code(p, f), endAt, [IR.Label(end)])
    requires st.stack == [] && Rel(ctx, env, st.slots) && Separate(ctx, slot) && slot + SlotsBs(bs) <= |st.slots|
    requires OkBranches(UnitOf(s, f), ctx, loop.Loop?, slot, bs)
    requires At(Code(p, f), st.pc, CodeBranches(UnitOf(s, f), ctx, loop, bs, end, lab, slot))
    ensures SimulatesBs(p, f, k, ctx, loop, x, st, st.pc + |CodeBranches(UnitOf(s, f), ctx, loop, bs, end, lab, slot)|,
                        endAt + 1, sl, ExecBranches(s, k, UnitOf(s, f).result, env, bs))
    decreases k, 1, bs, 0
  {
    hide IR.Reaches, IR.Ends, Canon, At, TypeE, CodeE, EvalE, LabelsE, CodeBody, OkBody, ExecBody, SlotsBody, LabelsBody, Rel;
    var c := UnitOf(s, f);
    sl := st.slots;
    if bs == [] {
      IR.ReachRefl(p, f, st);
      return;
    }
    BranchParts(c, ctx, loop, bs, end, lab, slot);
    SeparateLater(ctx, slot, slot + SlotsBody(bs[0].body));
    var n := lab + 1 + LabelsE(bs[0].cond);
    var lab', slot' := n + LabelsBody(bs[0].body), slot + SlotsBody(bs[0].body);
    var rest := CodeBranches(c, ctx, loop, bs[1..], end, lab', slot');
    hide CodeBranches, OkBranches, SlotsBs, Separate, LoopAt, SimulatesS, UnitOf, Ready, BranchCode;
    var past: nat;
    sl, past := SimBranch(s, p, f, k, ctx, loop, x, env, bs[0], end, endAt, lab, slot, st, rest);
    var test := EvalE(s, k, env, bs[0].cond);
    if test.Value? && test.v == 0 {
      var st2 := IR.State(past, [], st.slots);
      sl := SimBranches(s, p, f, k, ctx, loop, x, env, bs[1..], end, endAt, lab', slot', st2);
      ThenBs(p, f, k, ctx, loop, x, st, st2, past + |rest|, endAt + 1, sl, ExecBranches(s, k, c.result, env, bs[1..]));
    }
  }

  /** What one branch does: nothing but move on, or its body. */
  ghost predicate SimulatesBranch(p: Program, f: nat, k: nat, ctx: seq<Local>, loop: Loop, x: Exits, st: State,
                                  next: nat, past: nat, sl: seq<int>, test: Value, body: Exit)
    requires p.target.Valid() && f < |p.funcs|
  {
    match test
    case Abort(o) => SimulatesS(p, f, k, ctx, ctx, loop, x, st, past, sl, Done(o))
    case Value(_, v) =>
      if v == 0 then IR.Reaches(p, f, st, IR.State(next, [], st.slots))
      else SimulatesS(p, f, k, ctx, ctx, loop, x, st, past, sl, body)
  }

  lemma {:induction false} SimBranch(s: Source, p: Program, f: nat, k: nat, ctx: seq<Local>, loop: Loop, x: Exits,
                                     env: seq<Var>, b: Branch, end: nat, endAt: nat, lab: nat, slot: nat, st: State,
                                     rest: seq<IR.Inst>) returns (sl: seq<int>, next: nat)
    requires Compiled(s, p) && Defined(s, f) && Ready(p, f) && LoopAt(p, f, loop, x)
    requires At(Code(p, f), endAt, [IR.Label(end)])
    requires st.stack == [] && Rel(ctx, env, st.slots) && Separate(ctx, slot) && slot + SlotsBody(b.body) <= |st.slots|
    requires TypeE(UnitOf(s, f), ctx, b.cond) == BoolT && OkBody(UnitOf(s, f), ctx, loop.Loop?, slot, b.body)
    requires At(Code(p, f), st.pc, BranchCode(end, lab, CodeE(UnitOf(s, f), ctx, b.cond, lab + 1),
               CodeBody(UnitOf(s, f), ctx, loop, b.body, lab + 1 + LabelsE(b.cond), slot), rest))
    ensures At(Code(p, f), next, rest)
    ensures next + |rest| == st.pc + |BranchCode(end, lab, CodeE(UnitOf(s, f), ctx, b.cond, lab + 1),
               CodeBody(UnitOf(s, f), ctx, loop, b.body, lab + 1 + LabelsE(b.cond), slot), rest)|
    ensures SimulatesBranch(p, f, k, ctx, loop, x, st, next, endAt + 1, sl, EvalE(s, k, env, b.cond),
                            ExecBody(s, k, UnitOf(s, f).result, env, b.body))
    decreases k, 1, b, 3
  {
    hide IR.Reaches, IR.Ends, Canon, At, TypeE, CodeE, EvalE, LabelsE, CodeBody, OkBody, ExecBody, SlotsBody, Rel, LoopAt, Separate;
    var c := UnitOf(s, f);
    sl := st.slots;
    AtConcatAll(Code(p, f));
    var cond, body := CodeE(c, ctx, b.cond, lab + 1), CodeBody(c, ctx, loop, b.body, lab + 1 + LabelsE(b.cond), slot);
    var pc1 := st.pc + |cond|;
    next := pc1 + 1 + |body| + 2;
    SimTest(s, p, f, k, ctx, env, b.cond, lab + 1, st, lab, next - 1);
    var test := EvalE(s, k, env, b.cond);
    if test.Value? && test.v != 0 {
      var st2 := IR.State(pc1 + 1, [], st.slots);
      sl := SimBody(s, p, f, k, ctx, loop, x, env, b.body, lab + 1 + LabelsE(b.cond), slot, st2);
      PastJump(p, f, k, ctx, loop, x, st, st2, next - 2, endAt, end, sl, ExecBody(s, k, c.result, env, b.body));
    }
  }

  lemma {:induction false} FromHere(p: Program, f: nat, k: nat, ctx: seq<Local>, loop: Loop, x: Exits,
                 st: State, st1: State, next: nat, sl: seq<int>, r: Exit)
    requires p.target.Valid() && f < |p.funcs| && IR.Reaches(p, f, st, st1) && |st.slots| == |st1.slots|
    requires SimulatesS(p, f, k, ctx, ctx, loop, x, st1, next, sl, r)
    ensures SimulatesS(p, f, k, ctx, ctx, loop, x, st, next, sl, r)
  {
    hide IR.Reaches, IR.Ends;
    match r
    case Done(o) => IR.ReachEnds(p, f, k, st, st1, o);
    case Normal(_) => IR.ReachTrans(p, f, st, st1, IR.State(next, [], sl));
    case Broke(_) => IR.ReachTrans(p, f, st, st1, IR.State(x.brk, [], sl));
    case Continued(_) => IR.ReachTrans(p, f, st, st1, IR.State(x.cont, [], sl));
  }

  lemma {:induction false} SimWhile(s: Source, p: Program, f: nat, k: nat, ctx: seq<Local>, loop: Loop, x: Exits,
                                    env: seq<Var>, stm: Stmt, lab: nat, slot: nat, st: State) returns (sl: seq<int>)
    requires Compiled(s, p) && Defined(s, f) && Ready(p, f) && stm.While?
    requires st.stack == [] && Rel(ctx, env, st.slots) && Separate(ctx, slot) && slot + SlotsS(stm) <= |st.slots|
    requires OkS(UnitOf(s, f), ctx, loop.Loop?, slot, stm)
    requires At(Code(p, f), st.pc, CodeS(UnitOf(s, f), ctx, loop, stm, lab, slot))
    ensures SimulatesS(p, f, k, ctx, ctx, loop, x, st,
                       st.pc + |CodeS(UnitOf(s, f), ctx, loop, stm, lab, slot)|, sl,
                       ExecS(s, k, UnitOf(s, f).result, env, stm))
    decreases k, 1, stm, 0
  {
    hide IR.Reaches, IR.Ends, Canon, At, TypeE, CodeE, EvalE, LabelsE, CodeBody, OkBody, ExecBody, SlotsBody, LabelsBody, Rel;
    var c := UnitOf(s, f);
    sl := st.slots;
    AtConcatAll(Code(p, f));
    var inner := Loop(lab + 1, lab);
    var cond := CodeE(c, ctx, stm.cond, lab + 2);
    var body := CodeBody(c, ctx, inner, stm.body, lab + 2 + LabelsE(stm.cond), slot);
    var pc1 := st.pc + 1 + |cond|;
    var end := pc1 + 1 + |body| + 1;
    var st0 := IR.State(st.pc + 1, [], sl);
    DoLabel(p, f, st.pc, [], sl, lab);
    SimTest(s, p, f, k, ctx, env, stm.cond, lab + 2, st0, lab + 1, end);
    var test := EvalE(s, k, env, stm.cond);
    if test.Abort? {
      AbortE(p, f, k, st, st0, test.o);
      return;
    }
    var st2 := IR.State(if test.v != 0 then pc1 + 1 else end + 1, [], sl);
    IR.ReachTrans(p, f, st, st0, st2);
    if test.v == 0 { return; }
    var here := Exits(end, st.pc);
    sl := SimBody(s, p, f, k, ctx, inner, here, env, stm.body, lab + 2 + LabelsE(stm.cond), slot, st2);
    var r := ExecBody(s, k, c.result, env, stm.body);
    if r.Done? {
      IR.ReachEnds(p, f, k, st, st2, r.o);
    } else if r.Broke? {
      DoLabel(p, f, end, [], sl, lab + 1);
      IR.ReachTrans(p, f, st, st2, IR.State(end, [], sl));
      IR.ReachTrans(p, f, st, IR.State(end, [], sl), IR.State(end + 1, [], sl));
    } else {
      var again := IR.State(st.pc, [], sl);
      if r.Normal? {
        DoJump(p, f, end - 1, [], sl, lab, st.pc);
        IR.ReachTrans(p, f, st2, IR.State(end - 1, [], sl), again);
      }
      IR.ReachTrans(p, f, st0, st2, again);
      if k == 0 {
        OutAtZero(p, f, st);
      } else {
        sl := SimWhile(s, p, f, k - 1, ctx, loop, x, r.env, stm, lab, slot, again);
        Around(p, f, k, ctx, loop, x, st, st0, again, end + 1, sl, ExecS(s, k - 1, c.result, r.env, stm));
      }
    }
  }

  lemma {:induction false} OutAtZero(p: Program, f: nat, st: State)
    requires p.target.Valid() && f < |p.funcs|
    ensures IR.Ends(p, f, 0, st, IR.OutOfFuel)
  {
  }

  /** One trip around a loop costs the machine at least one step. */
  lemma {:induction false} Around(p: Program, f: nat, k: nat, ctx: seq<Local>, loop: Loop, x: Exits,
               st: State, st0: State, again: State, next: nat, sl: seq<int>, r: Exit)
    requires p.target.Valid() && f < |p.funcs| && k > 0 && |st.slots| == |again.slots|
    requires IR.Step(p, f, st) == IR.Next(st0) && IR.Reaches(p, f, st0, again)
    requires SimulatesS(p, f, k - 1, ctx, ctx, loop, x, again, next, sl, r)
    ensures SimulatesS(p, f, k, ctx, ctx, loop, x, st, next, sl, r)
  {
    IR.StepNext(p, f, st, st0);
    IR.ReachTrans(p, f, st, st0, again);
    if r == Done(IR.OutOfFuel) {
      assert IR.Run(p, k - 1, f, st0) == IR.OutOfFuel;
      assert IR.Run(p, k, f, st) == IR.OutOfFuel;
    } else {
      assert r.Done? ==> IR.Ends(p, f, k, again, r.o);
      FromHere(p, f, k, ctx, loop, x, st, again, next, sl, r);
    }
  }

  // ----- the theorem -----

  lemma {:induction false} SourceEndIsMachineEnd(s: Source, p: Program, k: nat, g: nat, args: seq<int>) returns (n: nat)
    requires Compiled(s, p) && g < |s.funs| && |args| == |s.funs[g].params|
    requires CallFun(s, k, g, args) != IR.OutOfFuel
    ensures IR.RunFunc(p, n, g, args) == CallFun(s, k, g, args)
  {
    hide IR.Run, CallFun, Canon;
    SimFun(s, p, k, g, args, args);
    n :| IR.RunFunc(p, n, g, args) == CallFun(s, k, g, args);
  }

  lemma {:induction false} MachineEndIsSourceEnd(s: Source, p: Program, n: nat, g: nat, args: seq<int>)
    requires Compiled(s, p) && g < |s.funs| && |args| == |s.funs[g].params|
    requires IR.RunFunc(p, n, g, args) != IR.OutOfFuel
    ensures CallFun(s, n + 1, g, args) == IR.RunFunc(p, n, g, args)
  {
    hide IR.Run, CallFun, Canon;
    SimFun(s, p, n + 1, g, args, args);
    var n' := SourceEndIsMachineEnd(s, p, n + 1, g, args);
    var top := if n < n' then n' else n;
    IR.RunFuncMonotone(p, n, top, g, args);
    IR.RunFuncMonotone(p, n', top, g, args);
  }

  /** For every accepted program, function, arguments and outcome: the source ends that way exactly
      when the lowered code does. In particular one runs forever exactly when the other does. */
  lemma {:induction false} LoweringPreservesMeaning(s: Source, p: Program, g: nat, args: seq<int>, o: IR.Outcome)
    requires Compiled(s, p) && g < |s.funs| && |args| == |s.funs[g].params| && o != IR.OutOfFuel
    ensures (exists k: nat :: CallFun(s, k, g, args) == o) <==> (exists n: nat :: IR.RunFunc(p, n, g, args) == o)
  {
    hide IR.Run, IR.RunFunc, CallFun, Canon;
    if exists k: nat :: CallFun(s, k, g, args) == o {
      var k: nat :| CallFun(s, k, g, args) == o;
      var n := SourceEndIsMachineEnd(s, p, k, g, args);
    }
    if exists n: nat :: IR.RunFunc(p, n, g, args) == o {
      var n: nat :| IR.RunFunc(p, n, g, args) == o;
      MachineEndIsSourceEnd(s, p, n, g, args);
    }
  }
}
