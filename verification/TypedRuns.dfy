/** Running a checked function, every expression is evaluated with the variables in scope, each in range of its
    type; so every operator of every run finds its operands in range (src/backend/native_lower.c). */
module TypedRuns {
  import opened Wrappers
  import opened NativeTypes
  import opened Ast
  import opened LowerSpec
  import opened SourceSemantics
  import opened TypedValues
  import opened LowerStatic
  import X64

  // ----- annotated statements -----

  ghost predicate AnnotatedS(c: Unit, ctx: seq<Local>, slot: nat, s: Stmt)
    decreases s
  {
    match s
    case Let(_, _, init) => Annotated(c, ctx, init)
    case Assign(_, _, value) => Annotated(c, ctx, value)
    case ExprStmt(e) => Annotated(c, ctx, e)
    case ReturnStmt(Some(e)) => Annotated(c, ctx, e)
    case IfStmt(bs, els) => AnnotatedBranches(c, ctx, slot, bs) && AnnotatedBody(c, ctx, slot + SlotsBs(bs), els)
    case While(cond, body) => Annotated(c, ctx, cond) && AnnotatedBody(c, ctx, slot, body)
    case _ => true
  }

  ghost predicate AnnotatedBody(c: Unit, ctx: seq<Local>, slot: nat, ss: seq<Stmt>)
    decreases ss
  {
    ss == [] || (AnnotatedS(c, ctx, slot, ss[0]) && AnnotatedBody(c, CtxAfter(c, ctx, slot, ss[0]), slot + SlotsS(ss[0]), ss[1..]))
  }

  ghost predicate AnnotatedBranches(c: Unit, ctx: seq<Local>, slot: nat, bs: seq<Branch>)
    decreases bs
  {
    bs == [] ||
    (Annotated(c, ctx, bs[0].cond) && AnnotatedBody(c, ctx, slot, bs[0].body) && AnnotatedBranches(c, ctx, slot + SlotsBody(bs[0].body), bs[1..]))
  }

  // ----- where a run evaluates expressions -----

  /** An expression with the locals in scope and the variables it is evaluated with. */
  datatype Point = Point(ctx: seq<Local>, env: seq<Var>, e: Expr)

  ghost predicate VisitsS(s: Source, k: nat, c: Unit, ctx: seq<Local>, slot: nat, env: seq<Var>, st: Stmt, q: Point)
    requires s.target.Valid()
    decreases k, st
  {
    match st
    case Let(_, _, init) => q == Point(ctx, env, init)
    case Assign(_, _, value) => q == Point(ctx, env, value)
    case ExprStmt(e) => q == Point(ctx, env, e)
    case ReturnStmt(Some(e)) => q == Point(ctx, env, e)
    case IfStmt(bs, els) =>
      || VisitsBranches(s, k, c, ctx, slot, env, bs, q)
      || (ExecBranches(s, k, c.result, env, bs) == None && VisitsBody(s, k, c, ctx, slot + SlotsBs(bs), env, els, q))
    case While(cond, body) =>
      || q == Point(ctx, env, cond)
      || (EvalE(s, k, env, cond).Value? && EvalE(s, k, env, cond).v != 0 &&
          (|| VisitsBody(s, k, c, ctx, slot, env, body, q)
           || (k > 0 && match ExecBody(s, k, c.result, env, body)
                        case Normal(env') => VisitsS(s, k - 1, c, ctx, slot, env', st, q)
                        case Continued(env') => VisitsS(s, k - 1, c, ctx, slot, env', st, q)
                        case _ => false)))
    case _ => false
  }

  ghost predicate VisitsBody(s: Source, k: nat, c: Unit, ctx: seq<Local>, slot: nat, env: seq<Var>, ss: seq<Stmt>, q: Point)
    requires s.target.Valid()
    decreases k, ss
  {
    ss != [] &&
    (|| VisitsS(s, k, c, ctx, slot, env, ss[0], q)
     || match ExecS(s, k, c.result, env, ss[0])
        case Normal(env') => VisitsBody(s, k, c, CtxAfter(c, ctx, slot, ss[0]), slot + SlotsS(ss[0]), env', ss[1..], q)
        case _ => false)
  }

  ghost predicate VisitsBranches(s: Source, k: nat, c: Unit, ctx: seq<Local>, slot: nat, env: seq<Var>, bs: seq<Branch>, q: Point)
    requires s.target.Valid()
    decreases k, bs
  {
    bs != [] &&
    (|| q == Point(ctx, env, bs[0].cond)
     || match EvalE(s, k, env, bs[0].cond)
        case Abort(_) => false
        case Value(_, v) =>
          if v != 0 then VisitsBody(s, k, c, ctx, slot, env, bs[0].body, q)
          else VisitsBranches(s, k, c, ctx, slot + SlotsBody(bs[0].body), env, bs[1..], q))
  }

  // ----- how statements leave the variables -----

  /** The variables of the scope, perhaps with more on top. */
  ghost predicate TypedBelow(tg: Target, ctx: seq<Local>, env: seq<Var>)
    requires tg.Valid()
  {
    |ctx| <= |env| && TypedEnv(tg, ctx, env[..|ctx|])
  }

  ghost predicate TypedExit(tg: Target, after: seq<Local>, ctx: seq<Local>, x: Exit)
    requires tg.Valid()
  {
    match x
    case Normal(env) => TypedEnv(tg, after, env)
    case Broke(env) => TypedEnv(tg, ctx, env)
    case Continued(env) => TypedEnv(tg, ctx, env)
    case Done(_) => true
  }

  ghost predicate TypedExitBelow(tg: Target, ctx: seq<Local>, x: Exit)
    requires tg.Valid()
  {
    match x
    case Normal(env) => TypedBelow(tg, ctx, env)
    case Broke(env) => TypedBelow(tg, ctx, env)
    case Continued(env) => TypedBelow(tg, ctx, env)
    case Done(_) => true
  }

  lemma {:induction false} BelowAfter(c: Unit, tg: Target, ctx: seq<Local>, slot: nat, st: Stmt, env: seq<Var>)
    requires tg.Valid() && TypedBelow(tg, CtxAfter(c, ctx, slot, st), env)
    ensures TypedBelow(tg, ctx, env)
  {
    hide IsCanonical, LetType;
    var after := CtxAfter(c, ctx, slot, st);
    assert env[..|after|][..|ctx|] == env[..|ctx|];
    assert forall i :: 0 <= i < |ctx| ==> after[i] == ctx[i] && env[..|after|][i] == env[..|ctx|][i];
  }

  lemma {:induction false} TypedIsBelow(tg: Target, ctx: seq<Local>, env: seq<Var>)
    requires tg.Valid() && TypedEnv(tg, ctx, env)
    ensures TypedBelow(tg, ctx, env)
  {
    hide IsCanonical;
    assert env[..|ctx|] == env;
  }

  lemma {:induction false} ExitS(s: Source, k: nat, c: Unit, ctx: seq<Local>, inLoop: bool, slot: nat, env: seq<Var>, st: Stmt)
    requires s.target.Valid() && c.target == s.target && c.sigs == s.funs && TypedEnv(s.target, ctx, env)
    requires OkS(c, ctx, inLoop, slot, st) && AnnotatedS(c, ctx, slot, st)
    ensures TypedExit(s.target, CtxAfter(c, ctx, slot, st), ctx, ExecS(s, k, c.result, env, st))
    decreases k, st, 1
  {
    hide Canon, EvalE, BinarySem, ExecBody, ExecBranches, TypeE, Annotated, OkBody, OkBranches, AnnotatedBody, AnnotatedBranches, Compatible, TypedEnv;
    match st
    case Let(name, declared, init) => ExitLet(s, k, c, ctx, slot, env, st);
    case Assign(name, op, value) => ExitAssign(s, k, c, ctx, slot, env, st);
    case IfStmt(bs, els) =>
      ExitBranches(s, k, c, ctx, inLoop, slot, env, bs);
      ExitBody(s, k, c, ctx, inLoop, slot + SlotsBs(bs), env, els);
    case While(cond, body) => ExitWhile(s, k, c, ctx, inLoop, slot, env, st);
    case _ =>
  }

  lemma {:induction false} ExitLet(s: Source, k: nat, c: Unit, ctx: seq<Local>, slot: nat, env: seq<Var>, st: Stmt)
    requires s.target.Valid() && c.target == s.target && c.sigs == s.funs && TypedEnv(s.target, ctx, env)
    requires st.Let? && TypeE(c, ctx, st.init) != Invalid && Annotated(c, ctx, st.init)
    ensures TypedExit(s.target, CtxAfter(c, ctx, slot, st), ctx, ExecS(s, k, c.result, env, st))
  {
    hide Canon, EvalE, TypeE, Annotated;
    ValuesCanonical(s, c, ctx, env, k, st.init);
    forall t, v { CanonIdempotent(s.target, t, v); }
  }

  lemma {:induction false} ExitAssign(s: Source, k: nat, c: Unit, ctx: seq<Local>, slot: nat, env: seq<Var>, st: Stmt)
    requires s.target.Valid() && st.Assign? && TypedEnv(s.target, ctx, env)
    ensures TypedExit(s.target, CtxAfter(c, ctx, slot, st), ctx, ExecS(s, k, c.result, env, st))
  {
    hide Canon, EvalE, BinarySem, FindVar;
    forall t, v { CanonIdempotent(s.target, t, v); }
  }

  lemma {:induction false} ExitWhile(s: Source, k: nat, c: Unit, ctx: seq<Local>, inLoop: bool, slot: nat, env: seq<Var>, st: Stmt)
    requires s.target.Valid() && c.target == s.target && c.sigs == s.funs && TypedEnv(s.target, ctx, env)
    requires st.While? && OkS(c, ctx, inLoop, slot, st) && AnnotatedS(c, ctx, slot, st)
    ensures TypedExit(s.target, ctx, ctx, ExecS(s, k, c.result, env, st))
    decreases k, st, 0
  {
    hide EvalE, ExecBody, TypeE, Annotated, OkBody, AnnotatedBody, TypedEnv;
    ExitBody(s, k, c, ctx, true, slot, env, st.body);
    var again := ExecBody(s, k, c.result, env, st.body);
    if k > 0 && (again.Normal? || again.Continued?) { ExitS(s, k - 1, c, ctx, inLoop, slot, again.env, st); }
  }

  lemma {:induction false} ExitBranches(s: Source, k: nat, c: Unit, ctx: seq<Local>, inLoop: bool, slot: nat, env: seq<Var>, bs: seq<Branch>)
    requires s.target.Valid() && c.target == s.target && c.sigs == s.funs && TypedEnv(s.target, ctx, env)
    requires OkBranches(c, ctx, inLoop, slot, bs) && AnnotatedBranches(c, ctx, slot, bs)
    ensures var x := ExecBranches(s, k, c.result, env, bs);
      x.Some? ==> TypedExit(s.target, ctx, ctx, x.value)
    decreases k, bs, 1
  {
    hide EvalE, ExecBody, TypeE, Annotated, OkBody, AnnotatedBody, TypedEnv;
    if bs != [] {
      ExitBody(s, k, c, ctx, inLoop, slot, env, bs[0].body);
      ExitBranches(s, k, c, ctx, inLoop, slot + SlotsBody(bs[0].body), env, bs[1..]);
    }
  }

  lemma {:induction false} ExitBody(s: Source, k: nat, c: Unit, ctx: seq<Local>, inLoop: bool, slot: nat, env: seq<Var>, ss: seq<Stmt>)
    requires s.target.Valid() && c.target == s.target && c.sigs == s.funs && TypedEnv(s.target, ctx, env)
    requires OkBody(c, ctx, inLoop, slot, ss) && AnnotatedBody(c, ctx, slot, ss)
    ensures TypedExit(s.target, ctx, ctx, ExecBody(s, k, c.result, env, ss))
    decreases k, ss, 1
  {
    hide ExecSeq, OkBody, AnnotatedBody, IsCanonical;
    ExitSeq(s, k, c, ctx, inLoop, slot, env, ss);
  }

  lemma {:induction false} ExitSeq(s: Source, k: nat, c: Unit, ctx: seq<Local>, inLoop: bool, slot: nat, env: seq<Var>, ss: seq<Stmt>)
    requires s.target.Valid() && c.target == s.target && c.sigs == s.funs && TypedEnv(s.target, ctx, env)
    requires OkBody(c, ctx, inLoop, slot, ss) && AnnotatedBody(c, ctx, slot, ss)
    ensures TypedExitBelow(s.target, ctx, ExecSeq(s, k, c.result, env, ss))
    decreases k, ss, 0
  {
    hide ExecS, OkS, AnnotatedS, TypedEnv, CtxAfter, TypedBelow;
    if ss == [] {
      TypedIsBelow(s.target, ctx, env);
    } else {
      ExitS(s, k, c, ctx, inLoop, slot, env, ss[0]);
      var x := ExecS(s, k, c.result, env, ss[0]);
      match x
      case Normal(env') =>
        var after := CtxAfter(c, ctx, slot, ss[0]);
        ExitSeq(s, k, c, after, inLoop, slot + SlotsS(ss[0]), env', ss[1..]);
        var y := ExecSeq(s, k, c.result, env', ss[1..]);
        if !y.Done? { BelowAfter(c, s.target, ctx, slot, ss[0], y.env); }
      case Broke(env') => TypedIsBelow(s.target, ctx, env');
      case Continued(env') => TypedIsBelow(s.target, ctx, env');
      case Done(_) =>
    }
  }

  // ----- what holds wherever an expression is evaluated -----

  /** The variables in scope hold values of their types, and the expression is accepted as it stands. */
  ghost predicate Sane(s: Source, c: Unit, q: Point)
    requires s.target.Valid()
  {
    TypedEnv(s.target, q.ctx, q.env) && TypeE(c, q.ctx, q.e) != Invalid && Annotated(c, q.ctx, q.e) && WellBuiltE(q.e)
  }

  lemma {:induction false} VisitedS(s: Source, k: nat, c: Unit, ctx: seq<Local>, inLoop: bool, slot: nat, env: seq<Var>, st: Stmt, q: Point)
    requires s.target.Valid() && c.target == s.target && c.sigs == s.funs && TypedEnv(s.target, ctx, env)
    requires OkS(c, ctx, inLoop, slot, st) && AnnotatedS(c, ctx, slot, st) && WellBuiltS(st) && VisitsS(s, k, c, ctx, slot, env, st, q)
    ensures Sane(s, c, q)
    decreases k, st, 1
  {
    hide EvalE, ExecBody, ExecBranches, TypeE, Annotated, OkBody, OkBranches, AnnotatedBody, AnnotatedBranches, Compatible, TypedEnv,
         VisitsBody, VisitsBranches, WellBuiltE, WellBuiltBody, WellBuiltBranches;
    match st
    case IfStmt(bs, els) =>
      if VisitsBranches(s, k, c, ctx, slot, env, bs, q) {
        VisitedBranches(s, k, c, ctx, inLoop, slot, env, bs, q);
      } else {
        VisitedBody(s, k, c, ctx, inLoop, slot + SlotsBs(bs), env, els, q);
      }
    case While(cond, body) => VisitedWhile(s, k, c, ctx, inLoop, slot, env, st, q);
    case _ =>
  }

  lemma {:induction false} VisitedWhile(s: Source, k: nat, c: Unit, ctx: seq<Local>, inLoop: bool, slot: nat, env: seq<Var>, st: Stmt, q: Point)
    requires s.target.Valid() && c.target == s.target && c.sigs == s.funs && TypedEnv(s.target, ctx, env)
    requires st.While? && OkS(c, ctx, inLoop, slot, st) && AnnotatedS(c, ctx, slot, st) && WellBuiltS(st) && VisitsS(s, k, c, ctx, slot, env, st, q)
    ensures Sane(s, c, q)
    decreases k, st, 0
  {
    hide EvalE, ExecBody, TypeE, Annotated, OkBody, AnnotatedBody, TypedEnv, VisitsBody, WellBuiltE, WellBuiltBody;
    var body := st.body;
    if q != Point(ctx, env, st.cond) {
      if VisitsBody(s, k, c, ctx, slot, env, body, q) {
        VisitedBody(s, k, c, ctx, true, slot, env, body, q);
      } else {
        ExitBody(s, k, c, ctx, true, slot, env, body);
        VisitedS(s, k - 1, c, ctx, inLoop, slot, ExecBody(s, k, c.result, env, body).env, st, q);
      }
    }
  }

  lemma {:induction false} VisitedBranches(s: Source, k: nat, c: Unit, ctx: seq<Local>, inLoop: bool, slot: nat, env: seq<Var>, bs: seq<Branch>, q: Point)
    requires s.target.Valid() && c.target == s.target && c.sigs == s.funs && TypedEnv(s.target, ctx, env)
    requires OkBranches(c, ctx, inLoop, slot, bs) && AnnotatedBranches(c, ctx, slot, bs) && WellBuiltBranches(bs)
    requires VisitsBranches(s, k, c, ctx, slot, env, bs, q)
    ensures Sane(s, c, q)
    decreases k, bs, 1
  {
    hide EvalE, TypeE, Annotated, OkBody, AnnotatedBody, TypedEnv, VisitsBody, WellBuiltE, WellBuiltBody;
    if q != Point(ctx, env, bs[0].cond) {
      if EvalE(s, k, env, bs[0].cond).v != 0 {
        VisitedBody(s, k, c, ctx, inLoop, slot, env, bs[0].body, q);
      } else {
        VisitedBranches(s, k, c, ctx, inLoop, slot + SlotsBody(bs[0].body), env, bs[1..], q);
      }
    }
  }

  lemma {:induction false} VisitedBody(s: Source, k: nat, c: Unit, ctx: seq<Local>, inLoop: bool, slot: nat, env: seq<Var>, ss: seq<Stmt>, q: Point)
    requires s.target.Valid() && c.target == s.target && c.sigs == s.funs && TypedEnv(s.target, ctx, env)
    requires OkBody(c, ctx, inLoop, slot, ss) && AnnotatedBody(c, ctx, slot, ss) && WellBuiltBody(ss)
    requires VisitsBody(s, k, c, ctx, slot, env, ss, q)
    ensures Sane(s, c, q)
    decreases k, ss, 0
  {
    hide ExecS, OkS, AnnotatedS, TypedEnv, CtxAfter, VisitsS, WellBuiltS, Sane;
    if VisitsS(s, k, c, ctx, slot, env, ss[0], q) {
      VisitedS(s, k, c, ctx, inLoop, slot, env, ss[0], q);
    } else {
      ExitS(s, k, c, ctx, inLoop, slot, env, ss[0]);
      var env' := ExecS(s, k, c.result, env, ss[0]).env;
      VisitedBody(s, k, c, CtxAfter(c, ctx, slot, ss[0]), inLoop, slot + SlotsS(ss[0]), env', ss[1..], q);
    }
  }

  /** The checker's types of a whole function are those the lowering finds. */
  ghost predicate AnnotatedFun(s: Source, g: nat)
    requires g < |s.funs| && s.funs[g].body.Some?
  {
    var d := s.funs[g];
    AnnotatedBody(Unit(s.target, s.funs, d.result), ParamLocals(d.params), |d.params|, d.body.value)
  }

  /** An evaluation in some call of function g. */
  ghost predicate Evaluates(s: Source, k: nat, g: nat, args: seq<int>, q: Point)
    requires s.target.Valid() && g < |s.funs| && s.funs[g].body.Some? && |args| == |s.funs[g].params|
  {
    var d := s.funs[g];
    VisitsBody(s, k, Unit(s.target, s.funs, d.result), ParamLocals(d.params), |d.params|, Bind(s.target, d.params, args), d.body.value, q)
  }

  /** For every accepted function, arguments and length of the run. */
  lemma {:induction false} EvaluatesSane(s: Source, k: nat, g: nat, args: seq<int>, q: Point)
    requires s.target.Valid() && g < |s.funs| && s.funs[g].body.Some? && |args| == |s.funs[g].params|
    requires OkFun(s.target, s.funs, s.funs[g]) && AnnotatedFun(s, g) && WellBuiltBody(s.funs[g].body.value)
    requires Evaluates(s, k, g, args, q)
    ensures Sane(s, Unit(s.target, s.funs, s.funs[g].result), q)
  {
    hide Canon, OkBody, AnnotatedBody, WellBuiltBody, VisitsBody, Sane;
    var d := s.funs[g];
    BindCanonical(s.target, d.params, args);
    VisitedBody(s, k, Unit(s.target, s.funs, d.result), ParamLocals(d.params), false, |d.params|, Bind(s.target, d.params, args), d.body.value, q);
  }

  // ----- down to the operators -----

  /** An expression inside another; all of them are evaluated with the same variables. */
  predicate Inside(x: Expr, e: Expr)
    decreases e
  {
    x == e ||
    match e
    case Binary(_, _, l, r) => Inside(x, l) || Inside(x, r)
    case Unary(_, _, y) => Inside(x, y)
    case Cast(_, _, y) => Inside(x, y)
    case Call(_, _, args) => InsideSome(x, args)
    case IfExpr(_, cond, thn, els) => Inside(x, cond) || Inside(x, thn) || (els.Some? && Inside(x, els.value))
    case Block(_, es) => InsideSome(x, es)
    case _ => false
  }

  predicate InsideSome(x: Expr, es: seq<Expr>)
    decreases es
  {
    es != [] && (Inside(x, es[0]) || InsideSome(x, es[1..]))
  }

  lemma {:induction false} InsideSane(c: Unit, ctx: seq<Local>, x: Expr, e: Expr)
    requires Inside(x, e) && TypeE(c, ctx, e) != Invalid && Annotated(c, ctx, e) && WellBuiltE(e)
    ensures TypeE(c, ctx, x) != Invalid && Annotated(c, ctx, x) && WellBuiltE(x)
    decreases e, 1
  {
    hide PlanOf, FindFunction, Lookup;
    if x != e {
      match e
      case Binary(_, _, l, r) => if Inside(x, l) { InsideSane(c, ctx, x, l); } else { InsideSane(c, ctx, x, r); }
      case Unary(_, _, y) => InsideSane(c, ctx, x, y);
      case Cast(_, _, y) => InsideSane(c, ctx, x, y);
      case Call(_, name, args) => InsideArgs(c, ctx, x, e);
      case IfExpr(_, cond, thn, els) =>
        if Inside(x, cond) { InsideSane(c, ctx, x, cond); }
        else if Inside(x, thn) { InsideSane(c, ctx, x, thn); }
        else { InsideSane(c, ctx, x, els.value); }
      case Block(_, es) => InsideBlock(c, ctx, x, es);
    }
  }

  lemma {:induction false} InsideArgs(c: Unit, ctx: seq<Local>, x: Expr, e: Expr)
    requires e.Call? && InsideSome(x, e.args) && TypeE(c, ctx, e) != Invalid && Annotated(c, ctx, e) && WellBuiltE(e)
    ensures TypeE(c, ctx, x) != Invalid && Annotated(c, ctx, x) && WellBuiltE(x)
    decreases e, 0
  {
    hide Inside;
    if e.name == "assert" {
      assert e.args[1..] == [];
      InsideSane(c, ctx, x, e.args[0]);
    } else {
      InsideList(c, ctx, x, e.args, c.sigs[FindFunction(c.sigs, e.name).value].params);
    }
  }

  lemma {:induction false} InsideList(c: Unit, ctx: seq<Local>, x: Expr, es: seq<Expr>, params: seq<Param>)
    requires |es| == |params| && InsideSome(x, es) && ArgsOk(c, ctx, es, params) && AnnotatedEs(c, ctx, es) && WellBuiltEs(es)
    ensures TypeE(c, ctx, x) != Invalid && Annotated(c, ctx, x) && WellBuiltE(x)
    decreases es, 0
  {
    hide TypeE, Annotated, WellBuiltE, Inside, Compatible;
    if Inside(x, es[0]) { InsideSane(c, ctx, x, es[0]); } else { InsideList(c, ctx, x, es[1..], params[1..]); }
  }

  lemma {:induction false} InsideBlock(c: Unit, ctx: seq<Local>, x: Expr, es: seq<Expr>)
    requires InsideSome(x, es) && TypeBlock(c, ctx, es) != Invalid && AnnotatedEs(c, ctx, es) && WellBuiltEs(es)
    ensures TypeE(c, ctx, x) != Invalid && Annotated(c, ctx, x) && WellBuiltE(x)
    decreases es, 0
  {
    hide TypeE, Annotated, WellBuiltE, Inside;
    if Inside(x, es[0]) { InsideSane(c, ctx, x, es[0]); } else { InsideBlock(c, ctx, x, es[1..]); }
  }

  /** Every value of every expression in every run of an accepted function is in the range of its type. */
  lemma {:induction false} RunsStayInRange(s: Source, k: nat, g: nat, args: seq<int>, q: Point, x: Expr)
    requires s.target.Valid() && g < |s.funs| && s.funs[g].body.Some? && |args| == |s.funs[g].params|
    requires OkFun(s.target, s.funs, s.funs[g]) && AnnotatedFun(s, g) && WellBuiltBody(s.funs[g].body.value)
    requires Evaluates(s, k, g, args, q) && Inside(x, q.e)
    ensures TypedValue(s.target, x.ty, EvalE(s, k, q.env, x))
  {
    hide OkFun, AnnotatedFun, WellBuiltBody, Evaluates, Inside, TypeE, Annotated, EvalE, WellBuiltE, TypedEnv;
    var c := Unit(s.target, s.funs, s.funs[g].result);
    EvaluatesSane(s, k, g, args, q);
    InsideSane(c, q.ctx, x, q.e);
    ValuesCanonical(s, c, q.ctx, q.env, k, x);
    AnnotatedType(c, q.ctx, x);
  }

  lemma {:induction false} AnnotatedType(c: Unit, ctx: seq<Local>, e: Expr)
    requires Annotated(c, ctx, e)
    ensures e.ty == TypeE(c, ctx, e)
  {
    hide TypeE;
  }

  /** And every strict operator in every run finds canonical words, on which the x64 sequence computes, or traps,
      as the source operator does. */
  lemma {:induction false} RunsMeetTheEncoder(s: Source, k: nat, g: nat, args: seq<int>, q: Point, x: Expr)
    requires s.target.Valid() && g < |s.funs| && s.funs[g].body.Some? && |args| == |s.funs[g].params|
    requires OkFun(s.target, s.funs, s.funs[g]) && AnnotatedFun(s, g) && WellBuiltBody(s.funs[g].body.value)
    requires Evaluates(s, k, g, args, q) && Inside(x, q.e) && x.Binary? && TrustedOperands(s.target, x)
    requires EvalE(s, k, q.env, x.left).Value? && EvalE(s, k, q.env, x.right).Value?
    ensures var plan := PlanOf(s.target, x.ty, x.op, x.left, x.right);
      plan.Strict? ==>
        var t, a, b := plan.operand, EvalE(s, k, q.env, x.left).v, EvalE(s, k, q.env, x.right).v;
        var u := X64.Low(Converted(s.target, if plan.convert then x.left.ty else t, t, a));
        var w := X64.Low(Converted(s.target, if plan.convert then x.right.ty else t, t, b));
        X64.Canonical(s.target, t, u) && X64.Canonical(s.target, t, w)
        && BinarySem(s.target, t, x.op, u, w) == BinarySem(s.target, t, x.op, a, b)
  {
    hide OkFun, AnnotatedFun, WellBuiltBody, Evaluates, Inside, TypeE, Annotated, EvalE, WellBuiltE, TypedEnv, TrustedOperands, PlanOf, BinarySem, Canon;
    var c := Unit(s.target, s.funs, s.funs[g].result);
    EvaluatesSane(s, k, g, args, q);
    InsideSane(c, q.ctx, x, q.e);
    StrictOnWords(s, c, q.ctx, q.env, k, x);
  }
}
