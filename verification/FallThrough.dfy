/** Control leaves lowered code through its end unless the checker says that it diverges: the other half
    of the agreement between the divergence analysis and the verifier. */
module FallThrough {
  import opened Wrappers
  import opened NativeTypes
  import opened Ast
  import opened LowerSpec
  import opened Divergence
  import opened LowerExec
  import opened Verifier
  import opened FrontBackAgree
  import opened Numeric
  import opened LowerStatic
  import LowerLabels
  import IR = NativeIr

  /** No label of the function is marked twice. */
  ghost predicate Once(f: IR.Func) {
    forall id: nat :: LowerLabels.Marks(f.code, id) <= 1
  }

  /** Wherever the code stands, control that reaches its start can reach what follows it. */
  ghost predicate Crossed(code: seq<IR.Inst>) {
    forall f: IR.Func, pc: nat ::
      Once(f) && At(f.code, pc, code) && pc + |code| < |f.code| && Reachable(f, pc) ==> Reachable(f, pc + |code|)
  }

  // ----- layouts -----

  lemma {:induction false} CrossedConcat(a: seq<IR.Inst>, b: seq<IR.Inst>)
    requires Crossed(a) && Crossed(b)
    ensures Crossed(a + b)
  {
    hide Once, Reachable, At;
    forall f: IR.Func, pc: nat | Once(f) && At(f.code, pc, a + b) && pc + |a + b| < |f.code| && Reachable(f, pc)
      ensures Reachable(f, pc + |a + b|)
    {
      AtConcat(f.code, pc, a, b);
      assert Reachable(f, pc + |a|);
      assert Reachable(f, pc + |a| + |b|);
    }
  }

  lemma {:induction false} CrossedAll()
    ensures Crossed([])
    ensures forall a, b {:trigger Crossed(a + b)} :: Crossed(a) && Crossed(b) ==> Crossed(a + b)
    ensures forall i: IR.Inst {:trigger Crossed([i])} :: !i.Jump? && !i.Return? && !i.End? ==> Crossed([i])
    ensures forall from, to {:trigger ConvertCode(from, to)} :: Crossed(ConvertCode(from, to))
  {
    assert Crossed([]) by { hide Once, Reachable, At; }
    forall i: IR.Inst | !i.Jump? && !i.Return? && !i.End?
      ensures Crossed([i])
    {
      CrossedOne(i);
    }
    hide Crossed;
    forall a, b | Crossed(a) && Crossed(b)
      ensures Crossed(a + b)
    {
      CrossedConcat(a, b);
    }
    forall from, to
      ensures Crossed(ConvertCode(from, to))
    {
      if from != to { CrossedOne(IR.Convert(to, from)); }
    }
  }

  lemma {:induction false} CrossedOne(i: IR.Inst)
    requires !i.Jump? && !i.Return? && !i.End?
    ensures Crossed([i])
  {
    hide Once, Reachable;
    forall f: IR.Func, pc: nat | Once(f) && At(f.code, pc, [i]) && pc + |[i]| < |f.code| && Reachable(f, pc)
      ensures Reachable(f, pc + |[i]|)
    {
      AtOne(f.code, pc, i);
      assert Successors(f, pc)[0] == Some(pc + 1);
      ReachableNext(f, pc, pc + 1);
    }
  }

  /** A jump over what stands before its label. */
  lemma {:induction false} CrossedJump(i: IR.Inst, id: nat, skipped: seq<IR.Inst>)
    requires i == IR.Jump(id) || i == IR.Jz(id)
    ensures Crossed([i] + skipped + [IR.Label(id)])
  {
    hide Once, Reachable, At;
    var code := [i] + skipped + [IR.Label(id)];
    forall f: IR.Func, pc: nat | Once(f) && At(f.code, pc, code) && pc + |code| < |f.code| && Reachable(f, pc)
      ensures Reachable(f, pc + |code|)
    {
      var to := pc + 1 + |skipped|;
      AtConcat(f.code, pc, [i] + skipped, [IR.Label(id)]);
      AtConcat(f.code, pc, [i], skipped);
      AtOne(f.code, pc, i);
      AtOne(f.code, to, IR.Label(id));
      OnceFinds(f, to, id);
      assert Successors(f, pc)[|Successors(f, pc)| - 1] == Some(to);
      ReachableNext(f, pc, to);
      assert Successors(f, to)[0] == Some(to + 1);
      ReachableNext(f, to, to + 1);
    }
  }

  lemma {:induction false} OnceFinds(f: IR.Func, to: nat, id: nat)
    requires Once(f) && to < |f.code| && f.code[to] == IR.Label(id)
    ensures IR.FindLabel(f.code, id, 0) == Some(to)
  {
    LowerLabels.FindUnique(f.code, id, to);
  }

  lemma {:induction false} CrossedSkip(before: seq<IR.Inst>, i: IR.Inst, id: nat, skipped: seq<IR.Inst>, after: seq<IR.Inst>)
    requires (i == IR.Jump(id) || i == IR.Jz(id)) && Crossed(before) && Crossed(after)
    ensures Crossed(before + ([i] + skipped + [IR.Label(id)]) + after)
  {
    hide Crossed;
    CrossedJump(i, id, skipped);
    CrossedConcat(before, [i] + skipped + [IR.Label(id)]);
    CrossedConcat(before + ([i] + skipped + [IR.Label(id)]), after);
  }

  lemma {:induction false} CrossedLogical(isAnd: bool, lab: nat, left: seq<IR.Inst>, right: seq<IR.Inst>)
    requires Crossed(left) && Crossed(right)
    ensures Crossed(LogicalCode(isAnd, lab, left, right))
  {
    hide Crossed;
    CrossedAll();
    var skipped := (if isAnd then right else [IR.Const(BoolT, 1)]) + [IR.Jump(lab + 1)];
    var after := (if isAnd then [IR.Const(BoolT, 0)] else right) + [IR.Label(lab + 1)];
    CrossedSkip(left, IR.Jz(lab), lab, skipped, after);
    assert LogicalCode(isAnd, lab, left, right) == left + ([IR.Jz(lab)] + skipped + [IR.Label(lab)]) + after;
  }

  lemma {:induction false} CrossedIf(lab: nat, cond: seq<IR.Inst>, thn: seq<IR.Inst>, els: seq<IR.Inst>)
    requires Crossed(cond) && Crossed(els)
    ensures Crossed(IfCode(lab, cond, thn, els))
  {
    hide Crossed;
    CrossedAll();
    var skipped, after := thn + [IR.Jump(lab + 1)], els + [IR.Label(lab + 1)];
    CrossedSkip(cond, IR.Jz(lab), lab, skipped, after);
    assert IfCode(lab, cond, thn, els) == cond + ([IR.Jz(lab)] + skipped + [IR.Label(lab)]) + after;
  }

  /** A loop is left when its condition fails, whatever its body does. */
  lemma {:induction false} CrossedWhile(lab: nat, cond: seq<IR.Inst>, body: seq<IR.Inst>)
    requires Crossed(cond)
    ensures Crossed(WhileCode(lab, cond, body))
  {
    hide Crossed;
    CrossedAll();
    var before, skipped := [IR.Label(lab)] + cond, body + [IR.Jump(lab)];
    CrossedSkip(before, IR.Jz(lab + 1), lab + 1, skipped, []);
    assert WhileCode(lab, cond, body) == before + ([IR.Jz(lab + 1)] + skipped + [IR.Label(lab + 1)]) + [];
  }

  /** A branch is left when its condition fails; then what follows it decides. */
  lemma {:induction false} CrossedBranch(end: nat, lab: nat, cond: seq<IR.Inst>, body: seq<IR.Inst>, rest: seq<IR.Inst>)
    requires Crossed(cond) && Crossed(rest)
    ensures Crossed(BranchCode(end, lab, cond, body, rest))
  {
    hide Crossed;
    var skipped := body + [IR.Jump(end)];
    CrossedSkip(cond, IR.Jz(lab), lab, skipped, rest);
    assert BranchCode(end, lab, cond, body, rest) == cond + ([IR.Jz(lab)] + skipped + [IR.Label(lab)]) + rest;
  }

  /** A branch whose body control can get through leads to the end of the whole if. */
  lemma {:induction false} CrossedThrough(end: nat, lab: nat, cond: seq<IR.Inst>, body: seq<IR.Inst>, rest: seq<IR.Inst>)
    requires Crossed(cond) && Crossed(body)
    ensures Crossed(BranchCode(end, lab, cond, body, rest) + [IR.Label(end)])
  {
    hide Crossed;
    CrossedAll();
    var before, skipped := cond + [IR.Jz(lab)] + body, [IR.Label(lab)] + rest;
    CrossedSkip(before, IR.Jump(end), end, skipped, []);
    assert BranchCode(end, lab, cond, body, rest) + [IR.Label(end)] == before + ([IR.Jump(end)] + skipped + [IR.Label(end)]) + [];
  }

  // ----- expressions -----

  lemma {:induction false} CrossedE(c: Unit, ctx: seq<Local>, e: Expr, lab: nat)
    requires TypeE(c, ctx, e) != Invalid
    ensures Crossed(CodeE(c, ctx, e, lab))
    decreases e, 1
  {
    hide PlanOf, Compatible, IntegerFits, Crossed, LogicalCode, IfCode, ConvertCode, FindFunction;
    CrossedAll();
    match e
    case Binary(_, _, _, _) => CrossedBinary(c, ctx, e, lab);
    case Unary(_, op, x) => CrossedE(c, ctx, x, lab);
    case Cast(_, _, x) => CrossedE(c, ctx, x, lab);
    case Call(_, _, _) => CrossedCall(c, ctx, e, lab);
    case IfExpr(_, _, _, _) => CrossedIfExpr(c, ctx, e, lab);
    case Block(_, es) => if es != [] { CrossedBlock(c, ctx, es, lab); }
    case _ =>
  }

  lemma {:induction false} CrossedBinary(c: Unit, ctx: seq<Local>, e: Expr, lab: nat)
    requires e.Binary? && TypeE(c, ctx, e) != Invalid
    ensures Crossed(CodeE(c, ctx, e, lab))
    decreases e, 0
  {
    hide PlanOf, Crossed, LogicalCode, ConvertCode, TypeE, CodeE, LabelsE;
    BinaryAccepted(c, ctx, e);
    BinaryForm(c, ctx, e, lab);
    CrossedAll();
    if e.op.And? || e.op.Or? {
      CrossedE(c, ctx, e.left, lab + 2);
      CrossedE(c, ctx, e.right, lab + 2 + LabelsE(e.left));
      CrossedLogical(e.op.And?, lab, CodeE(c, ctx, e.left, lab + 2), CodeE(c, ctx, e.right, lab + 2 + LabelsE(e.left)));
    } else {
      CrossedE(c, ctx, e.left, lab);
      CrossedE(c, ctx, e.right, lab + LabelsE(e.left));
    }
  }

  lemma {:induction false} CrossedCall(c: Unit, ctx: seq<Local>, e: Expr, lab: nat)
    requires e.Call? && TypeE(c, ctx, e) != Invalid
    ensures Crossed(CodeE(c, ctx, e, lab))
    decreases e, 0
  {
    hide Crossed, FindFunction;
    CrossedAll();
    if e.name == "assert" {
      CrossedE(c, ctx, e.args[0], lab);
    } else {
      CrossedArgs(c, ctx, e.args, c.sigs[FindFunction(c.sigs, e.name).value].params, lab);
    }
  }

  lemma {:induction false} CrossedIfExpr(c: Unit, ctx: seq<Local>, e: Expr, lab: nat)
    requires e.IfExpr? && TypeE(c, ctx, e) != Invalid
    ensures Crossed(CodeE(c, ctx, e, lab))
    decreases e, 0
  {
    hide Crossed, IfCode, TypeE, CodeE, LabelsE;
    Accepted(c, ctx, e);
    IfForm(c, ctx, e, lab);
    CrossedAll();
    var n1 := lab + 2 + LabelsE(e.cond);
    CrossedE(c, ctx, e.cond, lab + 2);
    if e.els.Some? { CrossedE(c, ctx, e.els.value, n1 + LabelsE(e.thn)); }
    CrossedIf(lab, CodeE(c, ctx, e.cond, lab + 2), CodeE(c, ctx, e.thn, n1), CodeElse(c, ctx, e.els, n1 + LabelsE(e.thn)));
  }

  lemma {:induction false} CrossedArgs(c: Unit, ctx: seq<Local>, args: seq<Expr>, params: seq<Param>, lab: nat)
    requires |args| == |params| && ArgsOk(c, ctx, args, params)
    ensures Crossed(CodeArgs(c, ctx, args, params, lab))
    decreases args, 0
  {
    hide Compatible, Crossed, CodeE, TypeE, LabelsE, ConvertCode;
    CrossedAll();
    if args == [] { return; }
    CrossedE(c, ctx, args[0], lab);
    CrossedArgs(c, ctx, args[1..], params[1..], lab + LabelsE(args[0]));
  }

  lemma {:induction false} CrossedBlock(c: Unit, ctx: seq<Local>, es: seq<Expr>, lab: nat)
    requires es != [] && TypeBlock(c, ctx, es) != Invalid
    ensures Crossed(CodeBlock(c, ctx, es, lab))
    decreases es, 0
  {
    hide Crossed, CodeE, TypeE, LabelsE;
    CrossedAll();
    CrossedE(c, ctx, es[0], lab);
    if |es| > 1 { CrossedBlock(c, ctx, es[1..], lab + LabelsE(es[0])); }
  }

  // ----- statements outside every loop -----

  lemma {:induction false} CrossedS(k: Analysis, c: Unit, ctx: seq<Local>, s: Stmt, lab: nat, slot: nat)
    requires OkS(c, ctx, false, slot, s) && !StmtDiverges(k, s)
    ensures Crossed(CodeS(c, ctx, NoLoop, s, lab, slot))
    decreases s, 1
  {
    hide Compatible, Crossed, CodeE, TypeE, LabelsE, ConvertCode, WhileCode, CodeBody, CodeBranches;
    hide LabelsBs, OkBody, OkBranches, SlotsBs, Lookup, LetType, AllBranchesDiverge, BlockDiverges, ExprDiverges;
    CrossedAll();
    match s
    case Let(_, _, init) => CrossedE(c, ctx, init, lab);
    case Assign(_, _, value) => CrossedE(c, ctx, value, lab);
    case ExprStmt(e) => CrossedE(c, ctx, e, lab);
    case IfStmt(_, _) => CrossedIfStmt(k, c, ctx, s, lab, slot);
    case While(cond, body) =>
      CrossedE(c, ctx, cond, lab + 2);
      CrossedWhile(lab, CodeE(c, ctx, cond, lab + 2), CodeBody(c, ctx, Loop(lab + 1, lab), body, lab + 2 + LabelsE(cond), slot));
    case _ =>
  }

  lemma {:induction false} CrossedIfStmt(k: Analysis, c: Unit, ctx: seq<Local>, s: Stmt, lab: nat, slot: nat)
    requires s.IfStmt? && OkS(c, ctx, false, slot, s) && !StmtDiverges(k, s)
    ensures Crossed(CodeS(c, ctx, NoLoop, s, lab, slot))
    decreases s, 0
  {
    hide Crossed, CodeBody, CodeBranches, LabelsBs, OkBody, OkBranches, SlotsBs, AllBranchesDiverge, BlockDiverges;
    var bs, els := s.branches, s.elseBody;
    var last := CodeBody(c, ctx, NoLoop, els, lab + 1 + LabelsBs(bs), slot + SlotsBs(bs));
    CrossedAll();
    if BlockDiverges(k, els) {
      ElseFallsThrough(k, s);
      CrossedSome(k, c, ctx, bs, lab, lab + 1, slot, last);
    } else {
      CrossedBody(k, c, ctx, els, lab + 1 + LabelsBs(bs), slot + SlotsBs(bs));
      CrossedBranches(c, ctx, bs, lab, lab + 1, slot);
    }
  }

  lemma {:induction false} ElseFallsThrough(k: Analysis, s: Stmt)
    requires s.IfStmt? && !StmtDiverges(k, s) && BlockDiverges(k, s.elseBody)
    ensures !AllBranchesDiverge(k, s.branches)
  {
  }

  /** Every condition can fail. */
  lemma {:induction false} CrossedBranches(c: Unit, ctx: seq<Local>, bs: seq<Branch>, end: nat, lab: nat, slot: nat)
    requires OkBranches(c, ctx, false, slot, bs)
    ensures Crossed(CodeBranches(c, ctx, NoLoop, bs, end, lab, slot))
    decreases bs, 0
  {
    hide Crossed, CodeE, TypeE, LabelsE, OkBody, CodeBody, LabelsBody, SlotsBody, BranchCode;
    CrossedAll();
    if bs == [] { return; }
    var n := lab + 1 + LabelsE(bs[0].cond);
    var rest := n + LabelsBody(bs[0].body);
    CrossedE(c, ctx, bs[0].cond, lab + 1);
    CrossedBranches(c, ctx, bs[1..], end, rest, slot + SlotsBody(bs[0].body));
    CrossedBranch(end, lab, CodeE(c, ctx, bs[0].cond, lab + 1), CodeBody(c, ctx, NoLoop, bs[0].body, n, slot),
                  CodeBranches(c, ctx, NoLoop, bs[1..], end, rest, slot + SlotsBody(bs[0].body)));
  }

  /** The first branch that does not diverge is entered when the conditions before it fail. */
  lemma {:induction false} CrossedSome(k: Analysis, c: Unit, ctx: seq<Local>, bs: seq<Branch>, end: nat, lab: nat, slot: nat, last: seq<IR.Inst>)
    requires OkBranches(c, ctx, false, slot, bs) && !AllBranchesDiverge(k, bs)
    ensures Crossed(CodeBranches(c, ctx, NoLoop, bs, end, lab, slot) + last + [IR.Label(end)])
    decreases bs, 0
  {
    hide Crossed, CodeE, TypeE, LabelsE, OkBody, CodeBody, CodeBranches, LabelsBody, SlotsBody, BranchCode, BlockDiverges, OkBranches;
    BranchParts(c, ctx, NoLoop, bs, end, lab, slot);
    var n := lab + 1 + LabelsE(bs[0].cond);
    var cond, body := CodeE(c, ctx, bs[0].cond, lab + 1), CodeBody(c, ctx, NoLoop, bs[0].body, n, slot);
    var rest := CodeBranches(c, ctx, NoLoop, bs[1..], end, n + LabelsBody(bs[0].body), slot + SlotsBody(bs[0].body));
    CrossedE(c, ctx, bs[0].cond, lab + 1);
    BranchAppend(end, lab, cond, body, rest, last);
    if BlockDiverges(k, bs[0].body) {
      CrossedSome(k, c, ctx, bs[1..], end, n + LabelsBody(bs[0].body), slot + SlotsBody(bs[0].body), last);
      BranchAppend(end, lab, cond, body, rest + last, [IR.Label(end)]);
      CrossedBranch(end, lab, cond, body, rest + last + [IR.Label(end)]);
    } else {
      CrossedBody(k, c, ctx, bs[0].body, n, slot);
      CrossedThrough(end, lab, cond, body, rest + last);
    }
  }

  lemma {:induction false} BranchAppend(end: nat, lab: nat, cond: seq<IR.Inst>, body: seq<IR.Inst>, rest: seq<IR.Inst>, more: seq<IR.Inst>)
    ensures BranchCode(end, lab, cond, body, rest) + more == BranchCode(end, lab, cond, body, rest + more)
  {
  }

  lemma {:induction false} CrossedBody(k: Analysis, c: Unit, ctx: seq<Local>, ss: seq<Stmt>, lab: nat, slot: nat)
    requires OkBody(c, ctx, false, slot, ss) && !BlockDiverges(k, ss)
    ensures Crossed(CodeBody(c, ctx, NoLoop, ss, lab, slot))
    decreases ss, 0
  {
    hide Crossed, CodeS, OkS, LabelsS, SlotsS, CtxAfter, StmtDiverges;
    CrossedAll();
    if ss == [] { return; }
    CrossedS(k, c, ctx, ss[0], lab, slot);
    CrossedBody(k, c, CtxAfter(c, ctx, slot, ss[0]), ss[1..], lab + LabelsS(ss[0]), slot + SlotsS(ss[0]));
  }

  // ----- whole functions -----

  lemma {:induction false} BodyFallsThrough(k: Analysis, c: Unit, params: seq<Param>, body: seq<Stmt>, f: IR.Func)
    requires OkBody(c, ParamLocals(params), false, |params|, body) && f.code == CodeF(c, params, body) && !BlockDiverges(k, body)
    ensures Reachable(f, |f.code| - 1)
  {
    hide CodeBody, OkBody, BlockDiverges, LowerLabels.Marks, Reachable;
    var code := CodeBody(c, ParamLocals(params), NoLoop, body, 0, |params|);
    forall id: nat
      ensures LowerLabels.Marks(f.code, id) <= 1
    {
      LowerLabels.LabelsMarkedOnce(c, params, body, id);
    }
    CrossedBody(k, c, ParamLocals(params), body, 0, |params|);
    assert At(f.code, 0, code);
    Entered(f);
    assert Reachable(f, 0 + |code|);
  }

  lemma {:induction false} Entered(f: IR.Func)
    requires f.code != []
    ensures Reachable(f, 0)
  {
    assert Path(f, [0]);
  }

  /** Control can reach the end of a lowered function exactly when the checker says its body does not diverge. */
  lemma {:induction false} EndReachable(k: Analysis, tg: Target, sigs: seq<FunDecl>, g: nat)
    requires Lowered(tg, sigs, g) && Faithful(k)
    ensures var f := LowerModule(tg, sigs)[g];
      Reachable(f, |f.code| - 1) <==> !BlockDiverges(k, sigs[g].body.value)
  {
    hide OkBody, CodeF, BlockDiverges, WellBuiltBody, Reachable, Faithful, CodeOk, Consistent, SlotsBody, LabelsBody;
    if BlockDiverges(k, sigs[g].body.value) {
      DivergingBodyNeverFallsThrough(k, tg, sigs, g);
    } else {
      BodyFallsThrough(k, Unit(tg, sigs, sigs[g].result), sigs[g].params, sigs[g].body.value, LowerModule(tg, sigs)[g]);
    }
  }

  /** Front and back decide alike: the verifier accepts a lowered function exactly when it returns unit or the
      checker says that its body diverges. */
  lemma {:induction false} AcceptedExactlyWhenDiverging(k: Analysis, tg: Target, sigs: seq<FunDecl>, g: nat)
    requires Lowered(tg, sigs, g) && Faithful(k)
    ensures var funcs := LowerModule(tg, sigs);
      (CodeOk(funcs, funcs[g]) && exists a :: Consistent(funcs, funcs[g], a)) <==>
      (sigs[g].result == UnitT || BlockDiverges(k, sigs[g].body.value))
  {
    hide Lowered, LowerModule, BlockDiverges, Reachable, Faithful, CodeOk, Consistent;
    assert g < |sigs| && sigs[g].body.Some? && |LowerModule(tg, sigs)| == |sigs| by { LoweredSize(tg, sigs, g); }
    VerifierAcceptsLowered(tg, sigs, g);
    EndReachable(k, tg, sigs, g);
  }

  lemma {:induction false} LoweredSize(tg: Target, sigs: seq<FunDecl>, g: nat)
    requires Lowered(tg, sigs, g)
    ensures g < |sigs| && sigs[g].body.Some? && |LowerModule(tg, sigs)| == |sigs|
  {
    hide OkFun, WellBuiltBody;
  }
}
