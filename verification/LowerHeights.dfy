/** The stack height before every instruction of lowered code, laid out the way the code is.
    Positions the divergence analysis rules out carry -1. */
module LowerHeights {
  import opened Wrappers
  import opened Numeric
  import opened NativeTypes
  import opened Ast
  import opened LowerSpec
  import opened Divergence
  import IR = NativeIr

  // ----- layouts, matching LogicalCode, IfCode, BranchCode and WhileCode -----

  function ConvertHeights(from: NType, to: NType, h: int): seq<int> { if from != to then [h] else [] }

  function LogicalHeights(isAnd: bool, h: int, left: seq<int>, right: seq<int>): seq<int> {
    left + [h + 1] + (if isAnd then right else [h]) + [h + 1] + [h] + (if isAnd then [h] else right) + [h + 1]
  }

  function IfElseHeights(h: int, cond: seq<int>, thn: seq<int>, els: seq<int>): seq<int> {
    cond + [h + 1] + thn + [h + 1] + [h] + els + [h + 1]
  }

  function BranchHeights(out: int, cond: seq<int>, body: seq<int>, rest: seq<int>): seq<int> {
    cond + [1] + body + [out] + [0] + rest
  }

  function WhileHeights(out: int, cond: seq<int>, body: seq<int>): seq<int> {
    [0] + cond + [1] + body + [out] + [0]
  }

  /** Height after a piece of code: 0, or -1 when control does not come out. */
  function Out(diverges: bool): int { if diverges then -1 else 0 }

  function Dead(n: nat): seq<int> { seq(n, _ => -1) }

  // ----- heights of code entered at height h -----

  function HeightsE(c: Unit, ctx: seq<Local>, e: Expr, h: int): seq<int>
    decreases e
  {
    match e
    case IntLit(_, _, _) | BoolLit(_, _) | CharLit(_, _) | UnitLit(_) => [h]
    case Ident(_, name) => if Lookup(ctx, name).Some? then [h] else []
    case Binary(ty, op, l, r) =>
      (match PlanOf(c.target, ty, op, l, r)
       case Logical => LogicalHeights(op.And?, h, HeightsE(c, ctx, l, h), HeightsE(c, ctx, r, h))
       case Strict(t, convert, _) =>
         HeightsE(c, ctx, l, h) + ConvertHeights(if convert then l.ty else t, t, h + 1)
         + HeightsE(c, ctx, r, h + 1) + ConvertHeights(if convert then r.ty else t, t, h + 2) + [h + 2]
       case Reject => [])
    case Unary(_, _, x) => HeightsE(c, ctx, x, h) + [h + 1]
    case Cast(_, _, x) => HeightsE(c, ctx, x, h) + [h + 1]
    case Call(_, name, args) =>
      if name == "assert" then (if |args| == 1 then HeightsE(c, ctx, args[0], h) else []) + [h + 1] + [h]
      else
        (match FindFunction(c.sigs, name)
         case Some(i) =>
           if |args| == |c.sigs[i].params| then HeightsArgs(c, ctx, args, c.sigs[i].params, h) + [h + |args|] else []
         case None => [])
    case IfExpr(_, cond, thn, els) =>
      IfElseHeights(h, HeightsE(c, ctx, cond, h), HeightsE(c, ctx, thn, h), if els.Some? then HeightsE(c, ctx, els.value, h) else [h])
    case Block(_, es) => if es == [] then [h] else HeightsBlock(c, ctx, es, h)
    case OtherExpr(_) => []
  }

  function HeightsArgs(c: Unit, ctx: seq<Local>, args: seq<Expr>, params: seq<Param>, h: int): seq<int>
    requires |args| == |params|
    decreases args
  {
    if args == [] then []
    else
      HeightsE(c, ctx, args[0], h) + ConvertHeights(TypeE(c, ctx, args[0]), params[0].ty, h + 1)
      + HeightsArgs(c, ctx, args[1..], params[1..], h + 1)
  }

  function HeightsBlock(c: Unit, ctx: seq<Local>, es: seq<Expr>, h: int): seq<int>
    decreases es
  {
    if es == [] then []
    else if |es| == 1 then HeightsE(c, ctx, es[0], h)
    else HeightsE(c, ctx, es[0], h) + [h + 1] + HeightsBlock(c, ctx, es[1..], h)
  }

  /** Statements start and end at height 0. */
  function HeightsS(k: Analysis, c: Unit, ctx: seq<Local>, slot: nat, s: Stmt): seq<int>
    decreases s
  {
    match s
    case Let(_, declared, init) =>
      HeightsE(c, ctx, init, 0) + ConvertHeights(TypeE(c, ctx, init), LetType(c, ctx, declared, init), 1) + [1]
    case Assign(name, op, value) =>
      (match Lookup(ctx, name)
       case None => []
       case Some(l) =>
         var d := if op.Some? then 1 else 0;
         (if op.Some? then [0] else []) + HeightsE(c, ctx, value, d) + ConvertHeights(TypeE(c, ctx, value), l.ty, d + 1)
         + (if op.Some? then [2] else []) + [1])
    case ExprStmt(e) => HeightsE(c, ctx, e, 0) + [1]
    case ReturnStmt(None) => [0] + ConvertHeights(UnitT, c.result, 1) + [1]
    case ReturnStmt(Some(e)) => HeightsE(c, ctx, e, 0) + ConvertHeights(TypeE(c, ctx, e), c.result, 1) + [1]
    case IfStmt(bs, els) =>
      HeightsBranches(k, c, ctx, slot, bs) + HeightsBody(k, c, ctx, slot + SlotsBs(bs), els) + [Out(StmtDiverges(k, s))]
    case While(cond, body) =>
      WhileHeights(Out(BlockDiverges(k, body)), HeightsE(c, ctx, cond, 0), HeightsBody(k, c, ctx, slot, body))
    case Break(_) | Continue => [0]
    case OtherStmt => []
  }

  /** What follows a diverging statement is dead. */
  function HeightsBody(k: Analysis, c: Unit, ctx: seq<Local>, slot: nat, ss: seq<Stmt>): seq<int>
    decreases ss
  {
    if ss == [] then []
    else
      var rest := HeightsBody(k, c, CtxAfter(c, ctx, slot, ss[0]), slot + SlotsS(ss[0]), ss[1..]);
      HeightsS(k, c, ctx, slot, ss[0]) + (if StmtDiverges(k, ss[0]) then Dead(|rest|) else rest)
  }

  function HeightsBranches(k: Analysis, c: Unit, ctx: seq<Local>, slot: nat, bs: seq<Branch>): seq<int>
    decreases bs
  {
    if bs == [] then []
    else
      BranchHeights(Out(BlockDiverges(k, bs[0].body)), HeightsE(c, ctx, bs[0].cond, 0),
                    HeightsBody(k, c, ctx, slot, bs[0].body),
                    HeightsBranches(k, c, ctx, slot + SlotsBody(bs[0].body), bs[1..]))
  }

  function HeightsElse(c: Unit, ctx: seq<Local>, els: Option<Expr>, h: int): seq<int> {
    if els.Some? then HeightsE(c, ctx, els.value, h) else [h]
  }

  /** Heights of a whole function; the closing END is reached unless the body diverges. */
  function HeightsF(k: Analysis, c: Unit, params: seq<Param>, body: seq<Stmt>): seq<int> {
    HeightsBody(k, c, ParamLocals(params), |params|, body) + [Out(BlockDiverges(k, body))]
  }

  // ----- one level deep -----

  lemma {:induction false} BinaryHeights(c: Unit, ctx: seq<Local>, e: Expr, h: int)
    requires e.Binary? && !PlanOf(c.target, e.ty, e.op, e.left, e.right).Reject?
    ensures (e.op.And? || e.op.Or?) ==>
      HeightsE(c, ctx, e, h) == LogicalHeights(e.op.And?, h, HeightsE(c, ctx, e.left, h), HeightsE(c, ctx, e.right, h))
    ensures !(e.op.And? || e.op.Or?) ==>
      var plan := PlanOf(c.target, e.ty, e.op, e.left, e.right);
      HeightsE(c, ctx, e, h) ==
        HeightsE(c, ctx, e.left, h) + ConvertHeights(if plan.convert then e.left.ty else plan.operand, plan.operand, h + 1)
        + HeightsE(c, ctx, e.right, h + 1) + ConvertHeights(if plan.convert then e.right.ty else plan.operand, plan.operand, h + 2)
        + [h + 2]
  {
    hide PlanOf, LogicalHeights, ConvertHeights, IfElseHeights, HeightsArgs, HeightsBlock, FindFunction, Lookup;
  }

  lemma {:induction false} IfHeights(c: Unit, ctx: seq<Local>, e: Expr, h: int)
    requires e.IfExpr?
    ensures HeightsE(c, ctx, e, h) ==
      IfElseHeights(h, HeightsE(c, ctx, e.cond, h), HeightsE(c, ctx, e.thn, h), HeightsElse(c, ctx, e.els, h))
  {
    hide PlanOf, LogicalHeights, ConvertHeights, IfElseHeights, HeightsArgs, HeightsBlock, FindFunction, Lookup;
  }

  lemma {:induction false} AssertHeights(c: Unit, ctx: seq<Local>, e: Expr, h: int)
    requires e.Call? && e.name == "assert" && |e.args| == 1
    ensures HeightsE(c, ctx, e, h) == HeightsE(c, ctx, e.args[0], h) + [h + 1] + [h]
  {
    hide PlanOf, LogicalHeights, ConvertHeights, IfElseHeights, HeightsArgs, HeightsBlock, FindFunction, Lookup;
  }

  lemma {:induction false} CallHeights(c: Unit, ctx: seq<Local>, e: Expr, h: int)
    requires e.Call? && e.name != "assert"
    ensures var g := FindFunction(c.sigs, e.name);
      g.Some? && |e.args| == |c.sigs[g.value].params| ==>
        HeightsE(c, ctx, e, h) == HeightsArgs(c, ctx, e.args, c.sigs[g.value].params, h) + [h + |e.args|]
  {
    hide PlanOf, LogicalHeights, ConvertHeights, IfElseHeights, HeightsArgs, HeightsBlock, Lookup;
  }

  // ----- as many heights as instructions -----

  lemma {:induction false} LengthE(c: Unit, ctx: seq<Local>, e: Expr, lab: nat, h: int)
    requires TypeE(c, ctx, e) != Invalid
    ensures |HeightsE(c, ctx, e, h)| == |CodeE(c, ctx, e, lab)|
    decreases e, 1
  {
    hide PlanOf, FindFunction, LiteralWord, LogicalHeights, LogicalCode, IfElseHeights, IfCode, ConvertHeights, ConvertCode, IntegerFits, LabelsE, ArgsOk;
    hide HeightsArgs, HeightsBlock, CodeArgs, CodeBlock, TypeBlock, LabelsE;
    match e
    case Binary(_, _, _, _) => LengthBinary(c, ctx, e, lab, h);
    case Unary(_, _, x) => LengthE(c, ctx, x, lab, h);
    case Cast(_, _, x) => LengthE(c, ctx, x, lab, h);
    case Call(_, name, args) => LengthCall(c, ctx, e, lab, h);
    case IfExpr(_, cond, thn, els) => LengthIf(c, ctx, e, lab, h);
    case Block(_, es) => LengthBlock(c, ctx, es, lab, h);
    case _ =>
  }

  lemma {:induction false} LengthBinary(c: Unit, ctx: seq<Local>, e: Expr, lab: nat, h: int)
    requires e.Binary? && TypeE(c, ctx, e) != Invalid
    ensures |HeightsE(c, ctx, e, h)| == |CodeE(c, ctx, e, lab)|
    decreases e, 0
  {
    hide PlanOf, TypeE, CodeE, HeightsE, LabelsE;
    BinaryAccepted(c, ctx, e);
    BinaryForm(c, ctx, e, lab);
    BinaryHeights(c, ctx, e, h);
    LengthE(c, ctx, e.left, lab + 2, h);
    LengthE(c, ctx, e.right, lab + 2 + LabelsE(e.left), h);
    LengthE(c, ctx, e.left, lab, h);
    LengthE(c, ctx, e.right, lab + LabelsE(e.left), h + 1);
  }

  lemma {:induction false} LengthIf(c: Unit, ctx: seq<Local>, e: Expr, lab: nat, h: int)
    requires e.IfExpr? && TypeE(c, ctx, e) != Invalid
    ensures |HeightsE(c, ctx, e, h)| == |CodeE(c, ctx, e, lab)|
    decreases e, 0
  {
    hide TypeE, CodeE, HeightsE, LabelsE;
    Accepted(c, ctx, e);
    IfForm(c, ctx, e, lab);
    IfHeights(c, ctx, e, h);
    var n1 := lab + 2 + LabelsE(e.cond);
    LengthE(c, ctx, e.cond, lab + 2, h);
    LengthE(c, ctx, e.thn, n1, h);
    if e.els.Some? { LengthE(c, ctx, e.els.value, n1 + LabelsE(e.thn), h); }
  }

  lemma {:induction false} LengthCall(c: Unit, ctx: seq<Local>, e: Expr, lab: nat, h: int)
    requires e.Call? && TypeE(c, ctx, e) != Invalid
    ensures |HeightsE(c, ctx, e, h)| == |CodeE(c, ctx, e, lab)|
    decreases e, 0
  {
    hide TypeE, CodeE, HeightsE, LabelsE, CodeArgs, HeightsArgs, FindFunction;
    Accepted(c, ctx, e);
    if e.name == "assert" {
      AssertForm(c, ctx, e, lab);
      AssertHeights(c, ctx, e, h);
      LengthE(c, ctx, e.args[0], lab, h);
    } else {
      CallForm(c, ctx, e, lab);
      CallHeights(c, ctx, e, h);
      LengthArgs(c, ctx, e.args, c.sigs[FindFunction(c.sigs, e.name).value].params, lab, h);
    }
  }

  lemma {:induction false} LengthArgs(c: Unit, ctx: seq<Local>, args: seq<Expr>, params: seq<Param>, lab: nat, h: int)
    requires |args| == |params| && ArgsOk(c, ctx, args, params)
    ensures |HeightsArgs(c, ctx, args, params, h)| == |CodeArgs(c, ctx, args, params, lab)|
    decreases args
  {
    hide CodeE, HeightsE, TypeE, LabelsE, Compatible;
    if args == [] { return; }
    LengthE(c, ctx, args[0], lab, h);
    LengthArgs(c, ctx, args[1..], params[1..], lab + LabelsE(args[0]), h + 1);
  }

  lemma {:induction false} LengthBlock(c: Unit, ctx: seq<Local>, es: seq<Expr>, lab: nat, h: int)
    requires TypeBlock(c, ctx, es) != Invalid
    ensures |HeightsBlock(c, ctx, es, h)| == |CodeBlock(c, ctx, es, lab)|
    decreases es
  {
    hide CodeE, HeightsE, LabelsE, TypeE;
    if es == [] { return; }
    LengthE(c, ctx, es[0], lab, h);
    LengthBlock(c, ctx, es[1..], lab + LabelsE(es[0]), h);
  }

  lemma {:induction false} LengthS(k: Analysis, c: Unit, ctx: seq<Local>, loop: Loop, s: Stmt, lab: nat, slot: nat)
    requires OkS(c, ctx, loop.Loop?, slot, s)
    ensures |HeightsS(k, c, ctx, slot, s)| == |CodeS(c, ctx, loop, s, lab, slot)|
    decreases s
  {
    hide Compatible, CodeE, HeightsE, TypeE, LabelsE, HeightsBody, CodeBody, OkBody, HeightsBranches, CodeBranches, OkBranches;
    hide SlotsBs, LabelsBs, LabelsBody, Lookup, StmtDiverges, BlockDiverges;
    match s
    case Let(_, _, init) => LengthE(c, ctx, init, lab, 0);
    case Assign(_, op, value) => LengthE(c, ctx, value, lab, if op.Some? then 1 else 0);
    case ExprStmt(e) => LengthE(c, ctx, e, lab, 0);
    case ReturnStmt(Some(e)) => LengthE(c, ctx, e, lab, 0);
    case IfStmt(bs, els) =>
      LengthBranches(k, c, ctx, loop, bs, lab, lab + 1, slot);
      LengthBody(k, c, ctx, loop, els, lab + 1 + LabelsBs(bs), slot + SlotsBs(bs));
    case While(cond, body) =>
      LengthE(c, ctx, cond, lab + 2, 0);
      LengthBody(k, c, ctx, Loop(lab + 1, lab), body, lab + 2 + LabelsE(cond), slot);
    case _ =>
  }

  lemma {:induction false} LengthBody(k: Analysis, c: Unit, ctx: seq<Local>, loop: Loop, ss: seq<Stmt>, lab: nat, slot: nat)
    requires OkBody(c, ctx, loop.Loop?, slot, ss)
    ensures |HeightsBody(k, c, ctx, slot, ss)| == |CodeBody(c, ctx, loop, ss, lab, slot)|
    decreases ss
  {
    hide CodeS, HeightsS, OkS, LabelsS, SlotsS, CtxAfter, StmtDiverges;
    if ss == [] { return; }
    LengthS(k, c, ctx, loop, ss[0], lab, slot);
    LengthBody(k, c, CtxAfter(c, ctx, slot, ss[0]), loop, ss[1..], lab + LabelsS(ss[0]), slot + SlotsS(ss[0]));
  }

  lemma {:induction false} LengthBranches(k: Analysis, c: Unit, ctx: seq<Local>, loop: Loop, bs: seq<Branch>, end: nat, lab: nat, slot: nat)
    requires OkBranches(c, ctx, loop.Loop?, slot, bs)
    ensures |HeightsBranches(k, c, ctx, slot, bs)| == |CodeBranches(c, ctx, loop, bs, end, lab, slot)|
    decreases bs
  {
    hide CodeE, HeightsE, TypeE, LabelsE, CodeBody, HeightsBody, OkBody, SlotsBody, LabelsBody, BlockDiverges;
    if bs == [] { return; }
    var n := lab + 1 + LabelsE(bs[0].cond);
    LengthE(c, ctx, bs[0].cond, lab + 1, 0);
    LengthBody(k, c, ctx, loop, bs[0].body, n, slot);
    LengthBranches(k, c, ctx, loop, bs[1..], end, n + LabelsBody(bs[0].body), slot + SlotsBody(bs[0].body));
  }
}
