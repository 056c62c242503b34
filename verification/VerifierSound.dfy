/** What acceptance by the verifier guarantees at run time. */
module VerifierSound {
  import opened Wrappers
  import opened NativeTypes
  import opened NativeIr
  import opened Verifier

  /** Operators that the encoders have instructions for. */
  predicate Encodable(i: Inst) {
    match i
    case Binary(_, op) => !op.And? && !op.Or? && !op.Range? && !op.AssignSentinel?
    case Unary(_, op) => op.Neg? || op.Not? || op.BNot?
    case _ => true
  }

  ghost predicate AcceptedFun(p: Program, g: nat, h: seq<int>)
    requires g < |p.funcs|
  {
    var f := p.funcs[g];
    !f.isExtern ==> f.code != [] && CodeOk(p.funcs, f) && Consistent(p.funcs, f, h)
                    && forall i :: 0 <= i < |f.code| ==> Encodable(f.code[i])
  }

  /** Every defined function was accepted, with the heights found for it. */
  ghost predicate Accepted(p: Program, hs: seq<seq<int>>) {
    p.target.Valid() && |hs| == |p.funcs| && forall g {:trigger hs[g]} :: 0 <= g < |hs| ==> AcceptedFun(p, g, hs[g])
  }

  /** The stack is as high as the verifier said it would be here. */
  ghost predicate AtHeight(p: Program, hs: seq<seq<int>>, f: nat, st: State)
    requires |hs| == |p.funcs|
  {
    && f < |p.funcs| && !p.funcs[f].isExtern && |hs[f]| == |p.funcs[f].code|
    && st.pc < |hs[f]| && hs[f][st.pc] == |st.stack| && |st.slots| == p.funcs[f].slots
  }

  /** What one step may do from a state at its height. */
  ghost predicate SafeStep(p: Program, hs: seq<seq<int>>, f: nat, st: State)
    requires p.target.Valid() && |hs| == |p.funcs| && f < |p.funcs|
  {
    match Step(p, f, st)
    case Next(st') => AtHeight(p, hs, f, st')
    case Stop(Returned(_)) =>
      && st.pc < |p.funcs[f].code|
      && ((p.funcs[f].code[st.pc].Return? && |st.stack| == 1) || (p.funcs[f].code[st.pc].End? && st.stack == [] && p.funcs[f].result == UnitT))
    case Stop(o) => o == Trapped
    case CallTo(g, args, resume) =>
      g < |p.funcs| && |args| == |p.funcs[g].params| && forall v :: AtHeight(p, hs, f, resume.(stack := resume.stack + [v]))
  }

  lemma {:induction false} StepSafe(p: Program, hs: seq<seq<int>>, f: nat, st: State)
    requires Accepted(p, hs) && AtHeight(p, hs, f, st)
    ensures SafeStep(p, hs, f, st)
  {
    hide Canon, BinarySem, UnarySem, FindLabel;
    var fn, h := p.funcs[f], hs[f];
    assert AcceptedFun(p, f, h);
    var i := fn.code[st.pc];
    assert NodeOk(p.funcs, fn, h, st.pc);
    assert InstOk(p.funcs, fn, i) && Encodable(i);
    var d := h[st.pc] + Change(p.funcs, i);
    if Successors(fn, st.pc) != [] {
      assert HeightAt(fn, h, Successors(fn, st.pc)[0], d);
    }
    if i.Jz? {
      assert HeightAt(fn, h, Successors(fn, st.pc)[1], d);
    }
    if i.Binary? || i.Unary? {
      OperatorsEncoded(p.target, i, st.stack);
    }
  }

  lemma {:induction false} OperatorsEncoded(tg: Target, i: Inst, stack: seq<int>)
    requires tg.Valid() && Encodable(i)
    ensures i.Binary? && |stack| >= 2 ==> !BinarySem(tg, i.ty, i.op, Top(Pop(stack)), Top(stack)).OpWrong?
    ensures i.Unary? && |stack| >= 1 ==> UnarySem(tg, i.ty, i.uop, Top(stack)).OpValue?
  {
    hide Canon;
  }

  /** No run of an accepted program goes wrong: no underflow, no leaving the code, no bad reference. */
  lemma {:induction false} RunSafe(p: Program, hs: seq<seq<int>>, n: nat, f: nat, st: State)
    requires Accepted(p, hs) && AtHeight(p, hs, f, st)
    ensures Run(p, n, f, st) != Wrong
    decreases n, 0
  {
    hide Canon, Accepted, AtHeight;
    if n == 0 { return; }
    assert p.target.Valid() && f < |p.funcs| && |hs| == |p.funcs| by { Unfold(p, hs, f, st); }
    StepSafe(p, hs, f, st);
    match Step(p, f, st)
    case Next(st') => RunSafe(p, hs, n - 1, f, st');
    case Stop(_) =>
    case CallTo(g, args, resume) =>
      RunFuncSafe(p, hs, n - 1, g, args);
      var r := RunFunc(p, n - 1, g, args);
      if r.Returned? {
        RunSafe(p, hs, n - 1, f, resume.(stack := resume.stack + [Canon(p.target, p.funcs[g].result, r.v)]));
      }
  }

  lemma {:induction false} Unfold(p: Program, hs: seq<seq<int>>, f: nat, st: State)
    requires Accepted(p, hs) && AtHeight(p, hs, f, st)
    ensures p.target.Valid() && f < |p.funcs| && |hs| == |p.funcs|
  {
  }

  lemma {:induction false} RunFuncSafe(p: Program, hs: seq<seq<int>>, n: nat, g: nat, args: seq<int>)
    requires Accepted(p, hs) && g < |p.funcs|
    ensures RunFunc(p, n, g, args) != Wrong
    decreases n, 1
  {
    hide Canon;
    if !p.funcs[g].isExtern {
      assert AcceptedFun(p, g, hs[g]);
      RunSafe(p, hs, n, g, State(0, [], Frame(p, g, args)));
    }
  }

  /** The state after k steps in this frame, calls running to completion; None once the frame is left
      or a call does not come back. */
  function After(p: Program, n: nat, f: nat, st: State, k: nat): Option<State>
    requires p.target.Valid() && f < |p.funcs|
    decreases k
  {
    if k == 0 then Some(st)
    else
      match Step(p, f, st)
      case Next(st') => After(p, n, f, st', k - 1)
      case Stop(_) => None
      case CallTo(g, args, resume) =>
        if g >= |p.funcs| then None
        else
          match RunFunc(p, n, g, args)
          case Returned(v) =>
            After(p, n, f, resume.(stack := resume.stack + [Canon(p.target, p.funcs[g].result, v)]), k - 1)
          case _ => None
  }

  /** Every state a run gets to is at the height computed for its position. */
  lemma {:induction false} HeightsHold(p: Program, hs: seq<seq<int>>, n: nat, f: nat, st: State, k: nat)
    requires Accepted(p, hs) && AtHeight(p, hs, f, st)
    ensures After(p, n, f, st, k).Some? ==> AtHeight(p, hs, f, After(p, n, f, st, k).value)
    decreases k
  {
    hide Canon, Accepted, AtHeight;
    if k == 0 { return; }
    Unfold(p, hs, f, st);
    StepSafe(p, hs, f, st);
    match Step(p, f, st)
    case Next(st') => HeightsHold(p, hs, n, f, st', k - 1);
    case Stop(_) =>
    case CallTo(g, args, resume) =>
      var r := RunFunc(p, n, g, args);
      if r.Returned? {
        HeightsHold(p, hs, n, f, resume.(stack := resume.stack + [Canon(p.target, p.funcs[g].result, r.v)]), k - 1);
      }
  }
}
