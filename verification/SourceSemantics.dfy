/** What a checked program means: an evaluator over names, scopes and structured control flow. */
module SourceSemantics {
  import opened Wrappers
  import opened Numeric
  import opened NativeTypes
  import opened Ast
  import opened LowerSpec
  import opened NativeIr

  datatype Source = Source(target: Target, funs: seq<FunDecl>, ext: (nat, seq<int>) -> Option<int>)

  /** A variable in scope; later ones shadow earlier ones. */
  datatype Var = Var(name: string, ty: NType, v: int)

  /** Result of an expression; aborts carry Trapped, Wrong or OutOfFuel. */
  datatype Value = Value(ty: NType, v: int) | Abort(o: Outcome)

  datatype Values = Values(vs: seq<int>) | AbortArgs(o: Outcome)

  /** How a statement finishes: normally, by break or continue, or by ending the function. */
  datatype Exit = Normal(env: seq<Var>) | Broke(env: seq<Var>) | Continued(env: seq<Var>) | Done(o: Outcome)

  function FindVar(env: seq<Var>, name: string): (r: Option<nat>)
    ensures r.Some? ==> r.value < |env| && env[r.value].name == name
  {
    if env == [] then None
    else if env[|env| - 1].name == name then Some(|env| - 1)
    else FindVar(env[..|env| - 1], name)
  }

  /** The innermost variable of the name, if there is one. */
  lemma {:induction false} FindInnermost(env: seq<Var>, name: string)
    ensures FindVar(env, name) == None ==> forall i :: 0 <= i < |env| ==> env[i].name != name
    ensures FindVar(env, name).Some? ==> forall j :: FindVar(env, name).value < j < |env| ==> env[j].name != name
  {
    if env != [] && env[|env| - 1].name != name { FindInnermost(env[..|env| - 1], name); }
  }

  function Computed(ty: NType, r: OpResult): Value {
    match r
    case OpValue(v) => Value(ty, v)
    case OpTrap => Abort(Trapped)
    case OpWrong => Abort(Wrong)
  }

  /** What a call expression makes of the callee's outcome. */
  function CallValue(tg: Target, result: NType, o: Outcome): Value
    requires tg.Valid()
  {
    if o.Returned? then Value(result, Canon(tg, result, o.v)) else Abort(o)
  }

  /** Operators work at the type the lowering plans for them; TypedValues.ComparisonsAreExact shows that for
      comparisons this is no restriction. */
  function EvalE(s: Source, k: nat, env: seq<Var>, e: Expr): Value
    requires s.target.Valid()
    decreases k, 1, e, 0
  {
    match e
    case IntLit(ty, lit, _) => Value(ty, Canon(s.target, ty, LiteralValue(lit)))
    case BoolLit(_, b) => Value(BoolT, Truth(b))
    case CharLit(_, c) => Value(CharT, Canon(s.target, CharT, c))
    case UnitLit(_) => Value(UnitT, 0)
    case Ident(_, name) =>
      (match FindVar(env, name)
       case Some(i) => Value(env[i].ty, env[i].v)
       case None => Abort(Wrong))
    case Binary(ty, op, l, r) =>
      (match PlanOf(s.target, ty, op, l, r)
       case Reject => Abort(Wrong)
       case Logical =>
         (match EvalE(s, k, env, l)
          case Abort(o) => Abort(o)
          case Value(_, a) =>
            if op.And? && a == 0 then Value(BoolT, 0)
            else if op.Or? && a != 0 then Value(BoolT, 1)
            else
              match EvalE(s, k, env, r)
              case Abort(o) => Abort(o)
              case Value(_, b) => Value(BoolT, b))
       case Strict(t, _, result) =>
         (match EvalE(s, k, env, l)
          case Abort(o) => Abort(o)
          case Value(_, a) =>
            match EvalE(s, k, env, r)
            case Abort(o) => Abort(o)
            case Value(_, b) => Computed(result, BinarySem(s.target, t, op, a, b))))
    case Unary(ty, op, x) =>
      (match EvalE(s, k, env, x)
       case Abort(o) => Abort(o)
       case Value(t, v) => Computed(ty, UnarySem(s.target, t, op, v)))
    case Cast(ty, _, x) =>
      (match EvalE(s, k, env, x)
       case Abort(o) => Abort(o)
       case Value(_, v) => Value(ty, Canon(s.target, ty, v)))
    case Call(_, name, args) =>
      if name == "assert" then
        if |args| != 1 then Abort(Wrong)
        else
          match EvalE(s, k, env, args[0])
          case Abort(o) => Abort(o)
          case Value(_, v) => if v == 0 then Abort(Trapped) else Value(UnitT, 0)
      else
        (match FindFunction(s.funs, name)
         case None => Abort(Wrong)
         case Some(g) =>
           if |args| != |s.funs[g].params| then Abort(Wrong)
           else
             match EvalArgs(s, k, env, args)
             case AbortArgs(o) => Abort(o)
             case Values(vs) =>
               CallValue(s.target, s.funs[g].result, CallFun(s, k, g, vs)))
    case IfExpr(_, cond, thn, els) =>
      (match EvalE(s, k, env, cond)
       case Abort(o) => Abort(o)
       case Value(_, v) =>
         if v != 0 then EvalE(s, k, env, thn)
         else if els.Some? then EvalE(s, k, env, els.value)
         else Value(UnitT, 0))
    case Block(_, es) => if es == [] then Value(UnitT, 0) else EvalBlock(s, k, env, es)
    case OtherExpr(_) => Abort(Wrong)
  }

  function LiteralValue(lit: Integer): int {
    var magnitude := lit.high * WORD64 + lit.low;
    if lit.negative then -magnitude else magnitude
  }

  function EvalArgs(s: Source, k: nat, env: seq<Var>, args: seq<Expr>): (r: Values)
    requires s.target.Valid()
    ensures r.Values? ==> |r.vs| == |args|
    decreases k, 1, args, 0
  {
    if args == [] then Values([])
    else
      match EvalE(s, k, env, args[0])
      case Abort(o) => AbortArgs(o)
      case Value(_, v) =>
        match EvalArgs(s, k, env, args[1..])
        case AbortArgs(o) => AbortArgs(o)
        case Values(vs) => Values([v] + vs)
  }

  function EvalBlock(s: Source, k: nat, env: seq<Var>, es: seq<Expr>): Value
    requires s.target.Valid() && es != []
    decreases k, 1, es, 0
  {
    match EvalE(s, k, env, es[0])
    case Abort(o) => Abort(o)
    case Value(t, v) => if |es| == 1 then Value(t, v) else EvalBlock(s, k, env, es[1..])
  }

  /** A call: parameters are bound to the arguments read at their types. */
  function CallFun(s: Source, k: nat, g: nat, args: seq<int>): Outcome
    requires s.target.Valid() && g < |s.funs| && |args| == |s.funs[g].params|
    decreases k, 0
  {
    match s.funs[g].body
    case None => (match s.ext(g, ArgsAs(s.target, ParamTypes(s.funs[g].params), args)) case Some(v) => Returned(v) case None => Trapped)
    case Some(body) =>
      if k == 0 then OutOfFuel
      else
        match ExecBody(s, k - 1, s.funs[g].result, Bind(s.target, s.funs[g].params, args), body)
        case Done(o) => o
        case Normal(_) => Returned(0)
        case _ => Wrong
  }

  function Bind(tg: Target, params: seq<Param>, args: seq<int>): seq<Var>
    requires tg.Valid() && |args| == |params|
  {
    var values := ArgsAs(tg, ParamTypes(params), args);
    seq(|params|, i requires 0 <= i < |params| => Var(params[i].name, params[i].ty, values[i]))
  }

  function ExecS(s: Source, k: nat, result: NType, env: seq<Var>, st: Stmt): Exit
    requires s.target.Valid()
    decreases k, 1, st, 1
  {
    match st
    case Let(name, declared, init) =>
      (match EvalE(s, k, env, init)
       case Abort(o) => Done(o)
       case Value(t, v) =>
         var ty := if declared.Some? then declared.value else t;
         Normal(env + [Var(name, ty, Canon(s.target, ty, v))]))
    case Assign(name, op, value) =>
      (match FindVar(env, name)
       case None => Done(Wrong)
       case Some(i) =>
         match EvalE(s, k, env, value)
         case Abort(o) => Done(o)
         case Value(_, v) =>
           match (if op.Some? then BinarySem(s.target, env[i].ty, op.value, env[i].v, v) else OpValue(v))
           case OpTrap => Done(Trapped)
           case OpWrong => Done(Wrong)
           case OpValue(w) => Normal(env[i := env[i].(v := Canon(s.target, env[i].ty, w))]))
    case ExprStmt(e) => (match EvalE(s, k, env, e) case Abort(o) => Done(o) case Value(_, _) => Normal(env))
    case ReturnStmt(None) => Done(Returned(Canon(s.target, result, 0)))
    case ReturnStmt(Some(e)) =>
      (match EvalE(s, k, env, e)
       case Abort(o) => Done(o)
       case Value(_, v) => Done(Returned(Canon(s.target, result, v))))
    case IfStmt(bs, els) =>
      (match ExecBranches(s, k, result, env, bs)
       case Some(exit) => exit
       case None => ExecBody(s, k, result, env, els))
    case While(cond, body) =>
      (match EvalE(s, k, env, cond)
       case Abort(o) => Done(o)
       case Value(_, v) =>
         if v == 0 then Normal(env)
         else
           match ExecBody(s, k, result, env, body)
           case Broke(env') => Normal(env')
           case Done(o) => Done(o)
           case again => if k == 0 then Done(OutOfFuel) else ExecS(s, k - 1, result, again.env, st))
    case Break(_) => Broke(env)
    case Continue => Continued(env)
    case OtherStmt => Done(Wrong)
  }

  /** The first branch whose condition holds; None when there is none. */
  function ExecBranches(s: Source, k: nat, result: NType, env: seq<Var>, bs: seq<Branch>): Option<Exit>
    requires s.target.Valid()
    decreases k, 1, bs, 1
  {
    if bs == [] then None
    else
      match EvalE(s, k, env, bs[0].cond)
      case Abort(o) => Some(Done(o))
      case Value(_, v) =>
        if v != 0 then Some(ExecBody(s, k, result, env, bs[0].body))
        else ExecBranches(s, k, result, env, bs[1..])
  }

  /** A body is a scope: its own variables are gone afterwards, whichever way it is left. */
  function ExecBody(s: Source, k: nat, result: NType, env: seq<Var>, ss: seq<Stmt>): Exit
    requires s.target.Valid()
    decreases k, 1, ss, 1
  {
    var n := |env|;
    match ExecSeq(s, k, result, env, ss)
    case Normal(e) => if n <= |e| then Normal(e[..n]) else Done(Wrong)
    case Broke(e) => if n <= |e| then Broke(e[..n]) else Done(Wrong)
    case Continued(e) => if n <= |e| then Continued(e[..n]) else Done(Wrong)
    case Done(o) => Done(o)
  }

  function ExecSeq(s: Source, k: nat, result: NType, env: seq<Var>, ss: seq<Stmt>): Exit
    requires s.target.Valid()
    decreases k, 1, ss, 0
  {
    if ss == [] then Normal(env)
    else
      match ExecS(s, k, result, env, ss[0])
      case Normal(env') => ExecSeq(s, k, result, env', ss[1..])
      case exit => exit
  }
}
