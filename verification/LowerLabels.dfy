/** Labels of lowered code: each number handed out is marked exactly once, and nothing else is. */
module LowerLabels {
  import opened Wrappers
  import opened NativeTypes
  import opened Ast
  import opened Numeric
  import opened LowerSpec
  import IR = NativeIr

  /** How often a label is marked. */
  ghost function Marks(code: seq<IR.Inst>, id: nat): nat {
    if code == [] then 0
    else Marks(code[..|code| - 1], id) + (if code[|code| - 1] == IR.Label(id) then 1 else 0)
  }

  ghost function Within(id: nat, lo: nat, n: nat): nat { if lo <= id < lo + n then 1 else 0 }

  lemma {:induction false} MarksConcat(a: seq<IR.Inst>, b: seq<IR.Inst>, id: nat)
    ensures Marks(a + b, id) == Marks(a, id) + Marks(b, id)
  {
    if b == [] {
      assert a + b == a;
    } else {
      MarksConcat(a, b[..|b| - 1], id);
      assert (a + b)[..|a + b| - 1] == a + b[..|b| - 1];
    }
  }

  lemma {:induction false} MarksAdditive(id: nat)
    ensures forall a, b {:trigger Marks(a + b, id)} :: Marks(a + b, id) == Marks(a, id) + Marks(b, id)
  {
    forall a, b
      ensures Marks(a + b, id) == Marks(a, id) + Marks(b, id)
    {
      MarksConcat(a, b, id);
    }
  }

  lemma {:induction false} MarksOne(i: IR.Inst, id: nat)
    ensures Marks([i], id) == if i == IR.Label(id) then 1 else 0
  {
    assert [i][..0] == [];
  }

  /** Marks of a concatenation whose single instructions are not in question. */
  lemma {:induction false} MarksOnes(id: nat)
    ensures Marks([], id) == 0
    ensures forall i: IR.Inst {:trigger Marks([i], id)} :: Marks([i], id) == if i == IR.Label(id) then 1 else 0
  {
    forall i: IR.Inst
      ensures Marks([i], id) == if i == IR.Label(id) then 1 else 0
    {
      MarksOne(i, id);
    }
  }

  // ----- marks of each layout -----

  lemma {:induction false} MarksLogical(isAnd: bool, lab: nat, left: seq<IR.Inst>, right: seq<IR.Inst>, nl: nat, nr: nat, id: nat)
    requires Marks(left, id) == Within(id, lab + 2, nl) && Marks(right, id) == Within(id, lab + 2 + nl, nr)
    ensures Marks(LogicalCode(isAnd, lab, left, right), id) == Within(id, lab, 2 + nl + nr)
  {
    hide Marks;
    MarksAdditive(id);
    MarksOnes(id);
  }

  lemma {:induction false} MarksIf(lab: nat, cond: seq<IR.Inst>, thn: seq<IR.Inst>, els: seq<IR.Inst>, nc: nat, nt: nat, ne: nat, id: nat)
    requires Marks(cond, id) == Within(id, lab + 2, nc) && Marks(thn, id) == Within(id, lab + 2 + nc, nt)
    requires Marks(els, id) == Within(id, lab + 2 + nc + nt, ne)
    ensures Marks(IfCode(lab, cond, thn, els), id) == Within(id, lab, 2 + nc + nt + ne)
  {
    hide Marks;
    MarksAdditive(id);
    MarksOnes(id);
  }

  lemma {:induction false} MarksBranch(end: nat, lab: nat, cond: seq<IR.Inst>, body: seq<IR.Inst>, rest: seq<IR.Inst>, nc: nat, nb: nat, nr: nat, id: nat)
    requires Marks(cond, id) == Within(id, lab + 1, nc) && Marks(body, id) == Within(id, lab + 1 + nc, nb)
    requires Marks(rest, id) == Within(id, lab + 1 + nc + nb, nr)
    ensures Marks(BranchCode(end, lab, cond, body, rest), id) == Within(id, lab, 1 + nc + nb + nr)
  {
    hide Marks;
    MarksAdditive(id);
    MarksOnes(id);
  }

  lemma {:induction false} MarksWhile(lab: nat, cond: seq<IR.Inst>, body: seq<IR.Inst>, nc: nat, nb: nat, id: nat)
    requires Marks(cond, id) == Within(id, lab + 2, nc) && Marks(body, id) == Within(id, lab + 2 + nc, nb)
    ensures Marks(WhileCode(lab, cond, body), id) == Within(id, lab, 2 + nc + nb)
  {
    hide Marks;
    MarksAdditive(id);
    MarksOnes(id);
  }

  /** Code followed by an instruction that marks nothing; the general case of straight-line layout. */
  lemma {:induction false} MarksStraight(id: nat)
    ensures Marks([], id) == 0
    ensures forall from, to {:trigger ConvertCode(from, to)} :: Marks(ConvertCode(from, to), id) == 0
  {
    forall from, to
      ensures Marks(ConvertCode(from, to), id) == 0
    {
      MarksOne(IR.Convert(to, from), id);
    }
  }

  // ----- by recursion over the program -----

  lemma {:induction false} MarksE(c: Unit, ctx: seq<Local>, e: Expr, lab: nat, id: nat)
    requires TypeE(c, ctx, e) != Invalid
    ensures Marks(CodeE(c, ctx, e, lab), id) == Within(id, lab, LabelsE(e))
    decreases e, 1
  {
    hide PlanOf, Compatible, IntegerFits, Marks, LogicalCode, IfCode, ConvertCode, FindFunction;
    MarksAdditive(id);
    MarksOnes(id);
    match e {
      case Binary(_, _, _, _) => MarksBinary(c, ctx, e, lab, id);
      case Unary(_, op, x) => MarksE(c, ctx, x, lab, id);
      case Cast(_, _, x) => MarksE(c, ctx, x, lab, id);
      case Call(_, _, _) => MarksCall(c, ctx, e, lab, id);
      case IfExpr(_, _, _, _) => MarksIfExpr(c, ctx, e, lab, id);
      case Block(_, es) => if es != [] { MarksBlock(c, ctx, es, lab, id); }
      case _ =>
    }
  }

  lemma {:induction false} MarksBinary(c: Unit, ctx: seq<Local>, e: Expr, lab: nat, id: nat)
    requires e.Binary? && TypeE(c, ctx, e) != Invalid
    ensures Marks(CodeE(c, ctx, e, lab), id) == Within(id, lab, LabelsE(e))
    decreases e, 0
  {
    hide PlanOf, Marks, LogicalCode, ConvertCode, TypeE, CodeE, LabelsE;
    BinaryAccepted(c, ctx, e);
    BinaryForm(c, ctx, e, lab);
    var l, r := e.left, e.right;
    if e.op.And? || e.op.Or? {
      MarksE(c, ctx, l, lab + 2, id);
      MarksE(c, ctx, r, lab + 2 + LabelsE(l), id);
      MarksLogical(e.op.And?, lab, CodeE(c, ctx, l, lab + 2), CodeE(c, ctx, r, lab + 2 + LabelsE(l)), LabelsE(l), LabelsE(r), id);
    } else {
      MarksE(c, ctx, l, lab, id);
      MarksE(c, ctx, r, lab + LabelsE(l), id);
      MarksStraight(id);
      MarksAdditive(id);
      MarksOnes(id);
    }
  }

  lemma {:induction false} MarksCall(c: Unit, ctx: seq<Local>, e: Expr, lab: nat, id: nat)
    requires e.Call? && TypeE(c, ctx, e) != Invalid
    ensures Marks(CodeE(c, ctx, e, lab), id) == Within(id, lab, LabelsE(e))
    decreases e, 0
  {
    hide Marks, FindFunction;
    var args := e.args;
    if e.name == "assert" {
      MarksE(c, ctx, args[0], lab, id);
      assert LabelsEs(args[1..]) == 0;
    } else {
      MarksArgs(c, ctx, args, c.sigs[FindFunction(c.sigs, e.name).value].params, lab, id);
    }
    MarksAdditive(id);
    MarksOnes(id);
  }

  lemma {:induction false} MarksIfExpr(c: Unit, ctx: seq<Local>, e: Expr, lab: nat, id: nat)
    requires e.IfExpr? && TypeE(c, ctx, e) != Invalid
    ensures Marks(CodeE(c, ctx, e, lab), id) == Within(id, lab, LabelsE(e))
    decreases e, 0
  {
    hide Marks, IfCode, TypeE, CodeE, LabelsE;
    Accepted(c, ctx, e);
    IfForm(c, ctx, e, lab);
    var cond, thn, els := e.cond, e.thn, e.els;
    var n1 := lab + 2 + LabelsE(cond);
    MarksE(c, ctx, cond, lab + 2, id);
    MarksE(c, ctx, thn, n1, id);
    if els.Some? {
      MarksE(c, ctx, els.value, n1 + LabelsE(thn), id);
      MarksIf(lab, CodeE(c, ctx, cond, lab + 2), CodeE(c, ctx, thn, n1), CodeE(c, ctx, els.value, n1 + LabelsE(thn)),
              LabelsE(cond), LabelsE(thn), LabelsE(els.value), id);
    } else {
      MarksOne(IR.Const(UnitT, 0), id);
      MarksIf(lab, CodeE(c, ctx, cond, lab + 2), CodeE(c, ctx, thn, n1), [IR.Const(UnitT, 0)],
              LabelsE(cond), LabelsE(thn), 0, id);
    }
  }

  lemma {:induction false} MarksArgs(c: Unit, ctx: seq<Local>, args: seq<Expr>, params: seq<Param>, lab: nat, id: nat)
    requires |args| == |params| && ArgsOk(c, ctx, args, params)
    ensures Marks(CodeArgs(c, ctx, args, params, lab), id) == Within(id, lab, LabelsEs(args))
    decreases args, 0
  {
    hide Compatible, Marks, CodeE, TypeE, LabelsE, ConvertCode;
    MarksStraight(id);
    if args == [] { return; }
    MarksE(c, ctx, args[0], lab, id);
    MarksArgs(c, ctx, args[1..], params[1..], lab + LabelsE(args[0]), id);
    MarksAdditive(id);
  }

  lemma {:induction false} MarksBlock(c: Unit, ctx: seq<Local>, es: seq<Expr>, lab: nat, id: nat)
    requires es != [] && TypeBlock(c, ctx, es) != Invalid
    ensures Marks(CodeBlock(c, ctx, es, lab), id) == Within(id, lab, LabelsEs(es))
    decreases es, 0
  {
    hide Compatible, Marks, CodeE, TypeE, LabelsE;
    MarksE(c, ctx, es[0], lab, id);
    if |es| > 1 {
      MarksBlock(c, ctx, es[1..], lab + LabelsE(es[0]), id);
    }
    MarksAdditive(id);
    MarksOnes(id);
  }

  lemma {:induction false} MarksS(c: Unit, ctx: seq<Local>, loop: Loop, s: Stmt, lab: nat, slot: nat, id: nat)
    requires OkS(c, ctx, loop.Loop?, slot, s)
    ensures Marks(CodeS(c, ctx, loop, s, lab, slot), id) == Within(id, lab, LabelsS(s))
    decreases s
  {
    hide Compatible, Marks, CodeE, TypeE, LabelsE, ConvertCode, WhileCode, CodeBody, CodeBranches;
    hide LabelsBody, LabelsBs, OkBody, OkBranches, SlotsBs, Lookup, LetType;
    MarksStraight(id);
    MarksAdditive(id);
    MarksOnes(id);
    match s {
      case Let(_, _, _) | Assign(_, _, _) | ExprStmt(_) | ReturnStmt(_) => MarksSimple(c, ctx, loop, s, lab, slot, id);
      case IfStmt(bs, els) =>
        MarksBranches(c, ctx, loop, bs, lab, lab + 1, slot, id);
        MarksBody(c, ctx, loop, els, lab + 1 + LabelsBs(bs), slot + SlotsBs(bs), id);
      case While(cond, body) =>
        MarksE(c, ctx, cond, lab + 2, id);
        MarksBody(c, ctx, Loop(lab + 1, lab), body, lab + 2 + LabelsE(cond), slot, id);
        MarksWhile(lab, CodeE(c, ctx, cond, lab + 2), CodeBody(c, ctx, Loop(lab + 1, lab), body, lab + 2 + LabelsE(cond), slot),
                   LabelsE(cond), LabelsBody(body), id);
      case _ =>
    }
  }

  lemma {:induction false} MarksSimple(c: Unit, ctx: seq<Local>, loop: Loop, s: Stmt, lab: nat, slot: nat, id: nat)
    requires s.Let? || s.Assign? || s.ExprStmt? || s.ReturnStmt?
    requires OkS(c, ctx, loop.Loop?, slot, s)
    ensures Marks(CodeS(c, ctx, loop, s, lab, slot), id) == Within(id, lab, LabelsS(s))
  {
    hide Compatible, Marks, CodeE, TypeE, LabelsE, ConvertCode, WhileCode, CodeBody, CodeBranches;
    hide LabelsBody, LabelsBs, OkBody, OkBranches, SlotsBs, Lookup, LetType;
    MarksStraight(id);
    MarksAdditive(id);
    MarksOnes(id);
    match s {
      case Let(_, _, init) => MarksE(c, ctx, init, lab, id);
      case Assign(_, _, value) => MarksE(c, ctx, value, lab, id);
      case ExprStmt(e) => MarksE(c, ctx, e, lab, id);
      case ReturnStmt(Some(e)) => MarksE(c, ctx, e, lab, id);
      case _ =>
    }
  }

  lemma {:induction false} MarksBody(c: Unit, ctx: seq<Local>, loop: Loop, ss: seq<Stmt>, lab: nat, slot: nat, id: nat)
    requires OkBody(c, ctx, loop.Loop?, slot, ss)
    ensures Marks(CodeBody(c, ctx, loop, ss, lab, slot), id) == Within(id, lab, LabelsBody(ss))
    decreases ss
  {
    hide Marks, CodeS, OkS, LabelsS, SlotsS, CtxAfter;
    MarksOnes(id);
    if ss == [] { return; }
    MarksS(c, ctx, loop, ss[0], lab, slot, id);
    MarksBody(c, CtxAfter(c, ctx, slot, ss[0]), loop, ss[1..], lab + LabelsS(ss[0]), slot + SlotsS(ss[0]), id);
    MarksAdditive(id);
  }

  lemma {:induction false} MarksBranches(c: Unit, ctx: seq<Local>, loop: Loop, bs: seq<Branch>, end: nat, lab: nat, slot: nat, id: nat)
    requires OkBranches(c, ctx, loop.Loop?, slot, bs)
    ensures Marks(CodeBranches(c, ctx, loop, bs, end, lab, slot), id) == Within(id, lab, LabelsBs(bs))
    decreases bs
  {
    hide Marks, CodeE, TypeE, LabelsE, OkBody, CodeBody, LabelsBody, SlotsBody, BranchCode;
    MarksOnes(id);
    if bs == [] { return; }
    var n := lab + 1 + LabelsE(bs[0].cond);
    var rest := n + LabelsBody(bs[0].body);
    MarksE(c, ctx, bs[0].cond, lab + 1, id);
    MarksBody(c, ctx, loop, bs[0].body, n, slot, id);
    MarksBranches(c, ctx, loop, bs[1..], end, rest, slot + SlotsBody(bs[0].body), id);
    MarksBranch(end, lab, CodeE(c, ctx, bs[0].cond, lab + 1), CodeBody(c, ctx, loop, bs[0].body, n, slot),
                CodeBranches(c, ctx, loop, bs[1..], end, rest, slot + SlotsBody(bs[0].body)),
                LabelsE(bs[0].cond), LabelsBody(bs[0].body), LabelsBs(bs[1..]), id);
  }

  /** A lowered function marks every label it allocated exactly once, and no other. */
  lemma {:induction false} LabelsMarkedOnce(c: Unit, params: seq<Param>, body: seq<Stmt>, id: nat)
    requires OkBody(c, ParamLocals(params), false, |params|, body)
    ensures Marks(CodeF(c, params, body), id) == if id < LabelsBody(body) then 1 else 0
  {
    hide Marks, CodeBody, OkBody;
    MarksAdditive(id);
    MarksOnes(id);
    MarksBody(c, ParamLocals(params), NoLoop, body, 0, |params|, id);
  }

  lemma {:induction false} MarkedAt(code: seq<IR.Inst>, id: nat, i: nat)
    requires i < |code| && code[i] == IR.Label(id)
    ensures Marks(code, id) >= 1
  {
    assert code == code[..i] + [code[i]] + code[i + 1..];
    MarksAdditive(id);
    MarksOnes(id);
  }

  /** With a label marked at most once, the lookup finds that mark. */
  lemma {:induction false} FindUnique(code: seq<IR.Inst>, id: nat, i: nat)
    requires i < |code| && code[i] == IR.Label(id) && Marks(code, id) <= 1
    ensures IR.FindLabel(code, id, 0) == Some(i)
  {
    var r := IR.FindLabel(code, id, 0).value;
    if r < i {
      var a, b := code[..i], code[i..];
      assert code == a + b;
      assert a[r] == IR.Label(id) && b[0] == IR.Label(id);
      MarkedAt(a, id, r);
      MarkedAt(b, id, 0);
      MarksConcat(a, b, id);
    }
  }
}
