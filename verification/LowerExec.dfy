/** Running pieces of lowered code on the IR machine. */
module LowerExec {
  import opened NativeTypes
  import opened NativeIr
  import LowerSpec
  import LowerLabels

  /** The code contains seg at position pc. */
  ghost predicate At(code: seq<Inst>, pc: nat, seg: seq<Inst>) {
    pc + |seg| <= |code| && code[pc..pc + |seg|] == seg
  }

  lemma {:induction false} AtConcat(code: seq<Inst>, pc: nat, a: seq<Inst>, b: seq<Inst>)
    requires At(code, pc, a + b)
    ensures At(code, pc, a) && At(code, pc + |a|, b)
  {
    var whole := code[pc..pc + |a + b|];
    assert a == whole[..|a|] == code[pc..pc + |a|];
    assert b == whole[|a|..] == code[pc + |a|..pc + |a| + |b|];
  }

  lemma {:induction false} AtConcatAll(code: seq<Inst>)
    ensures forall pc: nat, a, b {:trigger At(code, pc, a + b)} :: At(code, pc, a + b) ==> At(code, pc, a) && At(code, pc + |a|, b)
  {
    forall pc: nat, a, b | At(code, pc, a + b)
      ensures At(code, pc, a) && At(code, pc + |a|, b)
    {
      AtConcat(code, pc, a, b);
    }
  }

  lemma {:induction false} AtOne(code: seq<Inst>, pc: nat, i: Inst)
    requires At(code, pc, [i])
    ensures pc < |code| && code[pc] == i
  {
    assert code[pc..pc + 1][0] == code[pc];
  }

  /** A function of a program whose labels are marked at most once. */
  ghost predicate Ready(p: Program, f: nat) {
    p.target.Valid() && f < |p.funcs| && forall id: nat :: LowerLabels.Marks(p.funcs[f].code, id) <= 1
  }

  function Code(p: Program, f: nat): seq<Inst>
    requires f < |p.funcs|
  {
    p.funcs[f].code
  }

  lemma {:induction false} PopPush(s: seq<int>, v: int)
    ensures Pop(s + [v]) == s && Top(s + [v]) == v
  {
  }

  // ----- single instructions -----

  lemma {:induction false} DoConst(p: Program, f: nat, st: State, t: NType, v: int)
    requires Ready(p, f) && At(Code(p, f), st.pc, [Const(t, v)])
    ensures Reaches(p, f, st, State(st.pc + 1, st.stack + [Canon(p.target, t, v)], st.slots))
  {
    AtOne(Code(p, f), st.pc, Const(t, v));
    StepNext(p, f, st, State(st.pc + 1, st.stack + [Canon(p.target, t, v)], st.slots));
  }

  lemma {:induction false} DoLoad(p: Program, f: nat, st: State, t: NType, slot: nat)
    requires Ready(p, f) && At(Code(p, f), st.pc, [Load(t, slot)]) && slot < |st.slots|
    ensures Reaches(p, f, st, State(st.pc + 1, st.stack + [st.slots[slot]], st.slots))
  {
    AtOne(Code(p, f), st.pc, Load(t, slot));
    StepNext(p, f, st, State(st.pc + 1, st.stack + [st.slots[slot]], st.slots));
  }

  lemma {:induction false} DoStore(p: Program, f: nat, pc: nat, stack: seq<int>, slots: seq<int>, t: NType, slot: nat, v: int)
    requires Ready(p, f) && At(Code(p, f), pc, [Store(t, slot)]) && slot < |slots|
    ensures Reaches(p, f, State(pc, stack + [v], slots), State(pc + 1, stack, slots[slot := Canon(p.target, t, v)]))
  {
    AtOne(Code(p, f), pc, Store(t, slot));
    PopPush(stack, v);
    StepNext(p, f, State(pc, stack + [v], slots), State(pc + 1, stack, slots[slot := Canon(p.target, t, v)]));
  }

  lemma {:induction false} DoDrop(p: Program, f: nat, pc: nat, stack: seq<int>, slots: seq<int>, v: int)
    requires Ready(p, f) && At(Code(p, f), pc, [Drop])
    ensures Reaches(p, f, State(pc, stack + [v], slots), State(pc + 1, stack, slots))
  {
    AtOne(Code(p, f), pc, Drop);
    PopPush(stack, v);
    StepNext(p, f, State(pc, stack + [v], slots), State(pc + 1, stack, slots));
  }

  /** An optional conversion leaves a value that reads the same at its type. */
  lemma {:induction false} DoConvert(p: Program, f: nat, pc: nat, stack: seq<int>, slots: seq<int>, from: NType, to: NType, v: int) returns (w: int)
    requires Ready(p, f) && At(Code(p, f), pc, LowerSpec.ConvertCode(from, to))
    ensures w == Converted(p.target, from, to, v) && Canon(p.target, to, w) == Canon(p.target, to, v)
    ensures Reaches(p, f, State(pc, stack + [v], slots),
                    State(pc + |LowerSpec.ConvertCode(from, to)|, stack + [w], slots))
  {
    if from == to {
      w := v;
      ReachRefl(p, f, State(pc, stack + [v], slots));
    } else {
      w := Canon(p.target, to, v);
      CanonIdempotent(p.target, to, v);
      DoCast(p, f, pc, stack, slots, to, from, v);
    }
  }

  lemma {:induction false} DoCast(p: Program, f: nat, pc: nat, stack: seq<int>, slots: seq<int>, t: NType, from: NType, v: int)
    requires Ready(p, f) && At(Code(p, f), pc, [Convert(t, from)])
    ensures Reaches(p, f, State(pc, stack + [v], slots), State(pc + 1, stack + [Canon(p.target, t, v)], slots))
  {
    AtOne(Code(p, f), pc, Convert(t, from));
    PopPush(stack, v);
    StepNext(p, f, State(pc, stack + [v], slots), State(pc + 1, stack + [Canon(p.target, t, v)], slots));
  }

  ghost predicate Computes(p: Program, f: nat, k: nat, st: State, r: OpResult, next: nat, stack: seq<int>)
    requires p.target.Valid() && f < |p.funcs|
  {
    match r
    case OpValue(v) => Reaches(p, f, st, State(next, stack + [v], st.slots))
    case OpTrap => Ends(p, f, k, st, Trapped)
    case OpWrong => Ends(p, f, k, st, Wrong)
  }

  lemma {:induction false} DoBinary(p: Program, f: nat, k: nat, pc: nat, stack: seq<int>, slots: seq<int>, t: NType, op: BinOp, a: int, b: int)
    requires Ready(p, f) && At(Code(p, f), pc, [Binary(t, op)])
    ensures Computes(p, f, k, State(pc, stack + [a] + [b], slots), BinarySem(p.target, t, op, a, b), pc + 1, stack)
  {
    hide BinarySem;
    AtOne(Code(p, f), pc, Binary(t, op));
    PopPush(stack, a);
    PopPush(stack + [a], b);
    var st := State(pc, stack + [a] + [b], slots);
    match BinarySem(p.target, t, op, a, b)
    case OpValue(v) => StepNext(p, f, st, State(pc + 1, stack + [v], slots));
    case OpTrap => StepStop(p, f, k, st, Trapped);
    case OpWrong => StepStop(p, f, k, st, Wrong);
  }

  lemma {:induction false} DoUnary(p: Program, f: nat, k: nat, pc: nat, stack: seq<int>, slots: seq<int>, t: NType, op: UnOp, a: int)
    requires Ready(p, f) && At(Code(p, f), pc, [Unary(t, op)])
    ensures Computes(p, f, k, State(pc, stack + [a], slots), UnarySem(p.target, t, op, a), pc + 1, stack)
  {
    hide UnarySem;
    AtOne(Code(p, f), pc, Unary(t, op));
    PopPush(stack, a);
    var st := State(pc, stack + [a], slots);
    match UnarySem(p.target, t, op, a)
    case OpValue(v) => StepNext(p, f, st, State(pc + 1, stack + [v], slots));
    case OpTrap => StepStop(p, f, k, st, Trapped);
    case OpWrong => StepStop(p, f, k, st, Wrong);
  }

  lemma {:induction false} DoAssert(p: Program, f: nat, k: nat, pc: nat, stack: seq<int>, slots: seq<int>, v: int)
    requires Ready(p, f) && At(Code(p, f), pc, [Assert])
    ensures v != 0 ==> Reaches(p, f, State(pc, stack + [v], slots), State(pc + 1, stack, slots))
    ensures v == 0 ==> Ends(p, f, k, State(pc, stack + [v], slots), Trapped)
  {
    AtOne(Code(p, f), pc, Assert);
    PopPush(stack, v);
    if v == 0 {
      StepStop(p, f, k, State(pc, stack + [v], slots), Trapped);
    } else {
      StepNext(p, f, State(pc, stack + [v], slots), State(pc + 1, stack, slots));
    }
  }

  lemma {:induction false} DoReturn(p: Program, f: nat, k: nat, pc: nat, stack: seq<int>, slots: seq<int>, t: NType, v: int)
    requires Ready(p, f) && At(Code(p, f), pc, [Return(t)])
    ensures Ends(p, f, k, State(pc, stack + [v], slots), Returned(Canon(p.target, t, v)))
  {
    AtOne(Code(p, f), pc, Return(t));
    PopPush(stack, v);
    StepStop(p, f, k, State(pc, stack + [v], slots), Returned(Canon(p.target, t, v)));
  }

  lemma {:induction false} DoLabel(p: Program, f: nat, pc: nat, stack: seq<int>, slots: seq<int>, id: nat)
    requires Ready(p, f) && At(Code(p, f), pc, [Label(id)])
    ensures Step(p, f, State(pc, stack, slots)) == Next(State(pc + 1, stack, slots))
    ensures Reaches(p, f, State(pc, stack, slots), State(pc + 1, stack, slots))
  {
    AtOne(Code(p, f), pc, Label(id));
    StepNext(p, f, State(pc, stack, slots), State(pc + 1, stack, slots));
  }

  /** A jump lands on the label, wherever it is. */
  lemma {:induction false} DoJump(p: Program, f: nat, pc: nat, stack: seq<int>, slots: seq<int>, id: nat, to: nat)
    requires Ready(p, f) && At(Code(p, f), pc, [Jump(id)]) && At(Code(p, f), to, [Label(id)])
    ensures Reaches(p, f, State(pc, stack, slots), State(to, stack, slots))
  {
    AtOne(Code(p, f), pc, Jump(id));
    AtOne(Code(p, f), to, Label(id));
    LowerLabels.FindUnique(Code(p, f), id, to);
    StepNext(p, f, State(pc, stack, slots), State(to, stack, slots));
  }

  lemma {:induction false} DoJz(p: Program, f: nat, pc: nat, stack: seq<int>, slots: seq<int>, v: int, id: nat, to: nat)
    requires Ready(p, f) && At(Code(p, f), pc, [Jz(id)]) && At(Code(p, f), to, [Label(id)])
    ensures Reaches(p, f, State(pc, stack + [v], slots), State(if v != 0 then pc + 1 else to, stack, slots))
  {
    AtOne(Code(p, f), pc, Jz(id));
    AtOne(Code(p, f), to, Label(id));
    LowerLabels.FindUnique(Code(p, f), id, to);
    PopPush(stack, v);
    StepNext(p, f, State(pc, stack + [v], slots), State(if v != 0 then pc + 1 else to, stack, slots));
  }

  /** Jump to a label and pass it. */
  lemma {:induction false} DoJumpPast(p: Program, f: nat, pc: nat, stack: seq<int>, slots: seq<int>, id: nat, to: nat)
    requires Ready(p, f) && At(Code(p, f), pc, [Jump(id)]) && At(Code(p, f), to, [Label(id)])
    ensures Reaches(p, f, State(pc, stack, slots), State(to + 1, stack, slots))
  {
    DoJump(p, f, pc, stack, slots, id, to);
    DoLabel(p, f, to, stack, slots, id);
    ReachTrans(p, f, State(pc, stack, slots), State(to, stack, slots), State(to + 1, stack, slots));
  }

  lemma {:induction false} DoJzPast(p: Program, f: nat, pc: nat, stack: seq<int>, slots: seq<int>, v: int, id: nat, to: nat)
    requires Ready(p, f) && At(Code(p, f), pc, [Jz(id)]) && At(Code(p, f), to, [Label(id)])
    ensures Reaches(p, f, State(pc, stack + [v], slots), State(if v != 0 then pc + 1 else to + 1, stack, slots))
  {
    DoJz(p, f, pc, stack, slots, v, id, to);
    if v == 0 {
      DoLabel(p, f, to, stack, slots, id);
      ReachTrans(p, f, State(pc, stack + [v], slots), State(to, stack, slots), State(to + 1, stack, slots));
    }
  }
}
