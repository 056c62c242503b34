/** What the verifier says about lowered functions, and how that matches the checker's divergence analysis. */
module FrontBackAgree {
  import opened Wrappers
  import opened NativeTypes
  import opened Ast
  import opened LowerSpec
  import opened Divergence
  import opened LowerHeights
  import opened LowerVerifies
  import opened LowerStatic
  import opened Verifier
  import opened SourceSemantics
  import opened Simulation
  import VerifierSound
  import LowerLabels
  import IR = NativeIr

  // ----- control flow -----

  /** A path of the control flow from the entry. */
  ghost predicate Path(f: IR.Func, path: seq<nat>) {
    && path != [] && path[0] == 0 && (forall i :: 0 <= i < |path| ==> path[i] < |f.code|)
    && forall i :: 0 <= i < |path| - 1 ==> Some(path[i + 1]) in Successors(f, path[i])
  }

  ghost predicate Reachable(f: IR.Func, pc: nat) {
    exists path :: Path(f, path) && path[|path| - 1] == pc
  }

  lemma {:induction false} ReachableNext(f: IR.Func, pc: nat, next: nat)
    requires Reachable(f, pc) && pc < |f.code| && next < |f.code| && Some(next) in Successors(f, pc)
    ensures Reachable(f, next)
  {
    hide Successors;
    var path :| Path(f, path) && path[|path| - 1] == pc;
    var longer := path + [next];
    forall i | 0 <= i < |longer| - 1
      ensures Some(longer[i + 1]) in Successors(f, longer[i])
    {
    }
    assert Path(f, longer);
  }

  /** Heights that flow on properly everywhere except perhaps at the closing END. */
  ghost predicate NearlyConsistent(funcs: seq<IR.Func>, f: IR.Func, a: seq<int>) {
    && |a| == |f.code| && |a| > 0 && a[0] == 0
    && (forall pc :: 0 <= pc < |a| - 1 && a[pc] >= 0 ==> NodeOk(funcs, f, a, pc))
    && f.code[|a| - 1].End?
  }

  lemma {:induction false} PathLive(funcs: seq<IR.Func>, f: IR.Func, a: seq<int>, path: seq<nat>)
    requires NearlyConsistent(funcs, f, a) && Path(f, path)
    ensures a[path[|path| - 1]] >= 0
    decreases |path|
  {
    if |path| == 1 { return; }
    var before := path[..|path| - 1];
    forall i | 0 <= i < |before| - 1
      ensures Some(before[i + 1]) in Successors(f, before[i])
    {
    }
    PathLive(funcs, f, a, before);
    NextLive(funcs, f, a, path[|path| - 2], path[|path| - 1]);
  }

  lemma {:induction false} NextLive(funcs: seq<IR.Func>, f: IR.Func, a: seq<int>, pc: nat, next: nat)
    requires NearlyConsistent(funcs, f, a) && pc < |a| && a[pc] >= 0 && Some(next) in Successors(f, pc)
    ensures next < |a| && a[next] >= 0
  {
    assert NodeOk(funcs, f, a, pc);
    ChangeBound(funcs, f.code[pc], a[pc]);
    var k :| 0 <= k < |Successors(f, pc)| && Successors(f, pc)[k] == Some(next);
    assert HeightAt(f, a, Successors(f, pc)[k], a[pc] + Change(funcs, f.code[pc]));
  }

  lemma {:induction false} ReachableLive(funcs: seq<IR.Func>, f: IR.Func, a: seq<int>, pc: nat)
    requires NearlyConsistent(funcs, f, a) && Reachable(f, pc)
    ensures pc < |a| && a[pc] >= 0
  {
    var path :| Path(f, path) && path[|path| - 1] == pc;
    PathLive(funcs, f, a, path);
  }

  /** Heights kept where control can get to, and nowhere else. */
  ghost function Restrict(f: IR.Func, a: seq<int>): seq<int>
    requires |a| == |f.code|
  {
    seq(|a|, pc requires 0 <= pc < |a| => if Reachable(f, pc) then a[pc] else -1)
  }

  lemma {:induction false} RestrictNode(funcs: seq<IR.Func>, f: IR.Func, a: seq<int>, pc: nat)
    requires NearlyConsistent(funcs, f, a) && pc < |a| - 1 && Reachable(f, pc)
    ensures NodeOk(funcs, f, Restrict(f, a), pc)
  {
    ReachableLive(funcs, f, a, pc);
    hide Reachable, Successors;
    assert NodeOk(funcs, f, a, pc);
    var b, d := Restrict(f, a), a[pc] + Change(funcs, f.code[pc]);
    forall k | 0 <= k < |Successors(f, pc)|
      ensures HeightAt(f, b, Successors(f, pc)[k], d)
    {
      assert HeightAt(f, a, Successors(f, pc)[k], d);
      ReachableNext(f, pc, Successors(f, pc)[k].value);
    }
  }

  /** Code with nearly consistent heights is accepted exactly when it returns unit or cannot reach its end. */
  lemma {:induction false} EndDecides(funcs: seq<IR.Func>, f: IR.Func, a: seq<int>)
    requires NearlyConsistent(funcs, f, a) && a[|a| - 1] <= 0
    ensures (exists b :: Consistent(funcs, f, b)) <==> f.result == UnitT || !Reachable(f, |f.code| - 1)
  {
    var end := |a| - 1;
    if f.result == UnitT || !Reachable(f, end) {
      RestrictConsistent(funcs, f, a);
    } else if exists b :: Consistent(funcs, f, b) {
      var b :| Consistent(funcs, f, b);
      assert NearlyConsistent(funcs, f, b);
      FallsOff(funcs, f, b);
    }
  }

  /** Only a unit function may be left through its end. */
  lemma {:induction false} FallsOff(funcs: seq<IR.Func>, f: IR.Func, b: seq<int>)
    requires Consistent(funcs, f, b) && NearlyConsistent(funcs, f, b) && Reachable(f, |f.code| - 1)
    ensures f.result == UnitT
  {
    ReachableLive(funcs, f, b, |b| - 1);
    assert NodeOk(funcs, f, b, |b| - 1);
  }

  lemma {:induction false} RestrictConsistent(funcs: seq<IR.Func>, f: IR.Func, a: seq<int>)
    requires NearlyConsistent(funcs, f, a) && a[|a| - 1] <= 0 && (f.result == UnitT || !Reachable(f, |f.code| - 1))
    ensures Consistent(funcs, f, Restrict(f, a))
  {
    assert Path(f, [0]);
    var b := Restrict(f, a);
    if Reachable(f, |a| - 1) {
      ReachableLive(funcs, f, a, |a| - 1);
      assert NodeOk(funcs, f, b, |a| - 1);
    }
    hide NodeOk, Path;
    forall pc | 0 <= pc < |b|
      ensures b[pc] >= -1
    {
      if Reachable(f, pc) { ReachableLive(funcs, f, a, pc); }
    }
    forall pc | 0 <= pc < |b| && b[pc] >= 0
      ensures NodeOk(funcs, f, b, pc)
    {
      if pc < |b| - 1 { RestrictNode(funcs, f, a, pc); }
    }
  }

  // ----- lowered functions -----

  /** A function the lowering accepts, from a tree built by the parser and the checker. */
  ghost predicate Lowered(tg: Target, sigs: seq<FunDecl>, g: nat) {
    g < |sigs| && sigs[g].body.Some? && OkFun(tg, sigs, sigs[g]) && WellBuiltBody(sigs[g].body.value)
  }

  lemma {:induction false} LoweredView(k: Analysis, tg: Target, sigs: seq<FunDecl>, g: nat)
    requires Lowered(tg, sigs, g)
    ensures var c := Unit(tg, sigs, sigs[g].result);
      Valid(View(LowerModule(tg, sigs), LowerModule(tg, sigs)[g], HeightsF(k, c, sigs[g].params, sigs[g].body.value)), c)
    ensures LowerModule(tg, sigs)[g].code == CodeF(Unit(tg, sigs, sigs[g].result), sigs[g].params, sigs[g].body.value)
    ensures LowerModule(tg, sigs)[g].result == sigs[g].result
  {
    hide CodeBody, HeightsBody, OkBody, SlotsBody, LabelsBody, LowerLabels.Marks;
    var c, body := Unit(tg, sigs, sigs[g].result), sigs[g].body.value;
    LengthBody(k, c, ParamLocals(sigs[g].params), NoLoop, body, 0, |sigs[g].params|);
    forall id: nat
      ensures LowerLabels.Marks(CodeF(c, sigs[g].params, body), id) <= 1
    {
      LowerLabels.LabelsMarkedOnce(c, sigs[g].params, body, id);
    }
  }

  lemma {:induction false} Closing(v: View, n: nat, t: NType, out: int)
    requires Good(v, 0, n, 0) && |v.a| == n + 1 && Laid(v, n, [IR.End(t)], [out])
    ensures NearlyConsistent(v.funcs, v.f, v.a) && v.a[n] == out
  {
    hide NodeOk;
    LaidOne(v, n, IR.End(t), out);
  }

  lemma {:induction false} BodyGood(k: Analysis, c: Unit, params: seq<Param>, body: seq<Stmt>, v: View)
    requires Valid(v, c) && Faithful(k) && OkBody(c, ParamLocals(params), false, |params|, body)
    requires v.f.code == CodeF(c, params, body) && v.a == HeightsF(k, c, params, body)
    ensures NearlyConsistent(v.funcs, v.f, v.a) && v.a[|v.a| - 1] == Out(BlockDiverges(k, body))
  {
    hide CodeBody, HeightsBody, OkBody, BlockDiverges, Valid, Laid, Good, NearlyConsistent, Faithful;
    var code, hs := CodeBody(c, ParamLocals(params), NoLoop, body, 0, |params|), HeightsBody(k, c, ParamLocals(params), |params|, body);
    var out := Out(BlockDiverges(k, body));
    LengthBody(k, c, ParamLocals(params), NoLoop, body, 0, |params|);
    WholeLaid(v, code + [IR.End(c.result)], hs + [out]);
    LaidConcat(v, 0, code, [IR.End(c.result)], hs, [out]);
    LaidOne(v, |code|, IR.End(c.result), out);
    GoodBody(v, k, c, ParamLocals(params), NoLoop, Targets(0, 0), body, 0, |params|, 0);
    Closing(v, |code|, c.result, out);
  }

  lemma {:induction false} WholeLaid(v: View, code: seq<IR.Inst>, hs: seq<int>)
    requires v.f.code == code && v.a == hs && |code| == |hs|
    ensures Laid(v, 0, code, hs)
  {
  }

  /** The heights computed along the syntax tree flow on properly; the end is dead if the body diverges. */
  lemma {:induction false} LoweredHeights(k: Analysis, tg: Target, sigs: seq<FunDecl>, g: nat)
    requires Lowered(tg, sigs, g) && Faithful(k)
    ensures var a := HeightsF(k, Unit(tg, sigs, sigs[g].result), sigs[g].params, sigs[g].body.value);
      NearlyConsistent(LowerModule(tg, sigs), LowerModule(tg, sigs)[g], a) && a[|a| - 1] == Out(BlockDiverges(k, sigs[g].body.value))
  {
    var c := Unit(tg, sigs, sigs[g].result);
    LoweredView(k, tg, sigs, g);
    var v := View(LowerModule(tg, sigs), LowerModule(tg, sigs)[g], HeightsF(k, c, sigs[g].params, sigs[g].body.value));
    hide LowerFun, CodeF, HeightsF, OkBody, NearlyConsistent, BlockDiverges, Valid, Faithful;
    BodyGood(k, c, sigs[g].params, sigs[g].body.value, v);
  }

  /** Every instruction of a lowered function passes the verifier's checks, and no label is marked twice. */
  lemma {:induction false} LoweredCodeOk(tg: Target, sigs: seq<FunDecl>, g: nat)
    requires Lowered(tg, sigs, g)
    ensures CodeOk(LowerModule(tg, sigs), LowerModule(tg, sigs)[g])
    ensures forall i :: 0 <= i < |LowerModule(tg, sigs)[g].code| ==> VerifierSound.Encodable(LowerModule(tg, sigs)[g].code[i])
  {
    var funcs := LowerModule(tg, sigs);
    var f, c := funcs[g], Unit(tg, sigs, sigs[g].result);
    var params, body := sigs[g].params, sigs[g].body.value;
    assert OkFun(tg, sigs, sigs[g]);
    assert f.labels == LabelsBody(body) && f.slots == |params| + SlotsBody(body) && |funcs| == |sigs|;
    assert f.code == CodeBody(c, ParamLocals(params), NoLoop, body, 0, |params|) + [IR.End(c.result)];
    hide CodeBody, OkBody, SlotsBody, LabelsBody, LowerLabels.Marks, WellBuiltBody, AllSound, LowerModule;
    assert Slotted(ParamLocals(params), f.slots);
    SoundBody(c, ParamLocals(params), NoLoop, body, 0, |params|, f.slots);
    Joined(c, f.slots);
    assert AllSound(c, f.slots, [IR.End(c.result)]);
    forall i | 0 <= i < |f.code|
      ensures InstOk(funcs, f, f.code[i]) && VerifierSound.Encodable(f.code[i])
    {
      SoundAt(c, f.slots, f.code, i);
      if f.code[i].Label? {
        LowerLabels.LabelsMarkedOnce(c, params, body, f.code[i].id);
        LowerLabels.MarkedAt(f.code, f.code[i].id, i);
      }
    }
    forall i, j | 0 <= i < j < |f.code| && f.code[i].Label?
      ensures f.code[i] != f.code[j]
    {
      if f.code[i] == f.code[j] {
        LowerLabels.LabelsMarkedOnce(c, params, body, f.code[i].id);
        LowerLabels.FindUnique(f.code, f.code[i].id, i);
        LowerLabels.FindUnique(f.code, f.code[i].id, j);
      }
    }
  }

  lemma {:induction false} SoundAt(c: Unit, slots: nat, code: seq<IR.Inst>, i: nat)
    requires AllSound(c, slots, code) && i < |code|
    ensures Sound(|c.sigs|, slots, code[i])
  {
  }

  /** The verifier accepts a lowered function exactly when it returns unit or cannot fall off its end. */
  lemma {:induction false} VerifierAcceptsLowered(tg: Target, sigs: seq<FunDecl>, g: nat)
    requires Lowered(tg, sigs, g)
    ensures var funcs := LowerModule(tg, sigs);
      var f := funcs[g];
      (CodeOk(funcs, f) && exists a :: Consistent(funcs, f, a)) <==> (sigs[g].result == UnitT || !Reachable(f, |f.code| - 1))
  {
    hide CodeOk, Consistent, Reachable, OkFun, LowerFun, HeightsF, NearlyConsistent, WellBuiltBody;
    var k := Analysis(_ => false, _ => false);
    LoweredCodeOk(tg, sigs, g);
    LoweredView(k, tg, sigs, g);
    LoweredHeights(k, tg, sigs, g);
    var a := HeightsF(k, Unit(tg, sigs, sigs[g].result), sigs[g].params, sigs[g].body.value);
    EndDecides(LowerModule(tg, sigs), LowerModule(tg, sigs)[g], a);
  }

  /** Front and back agree: when the checker says the body diverges, the lowered code cannot reach its
      end, whatever loops, breaks and continues it contains; so the verifier accepts it. */
  lemma {:induction false} DivergingBodyNeverFallsThrough(k: Analysis, tg: Target, sigs: seq<FunDecl>, g: nat)
    requires Lowered(tg, sigs, g) && Faithful(k) && BlockDiverges(k, sigs[g].body.value)
    ensures var funcs := LowerModule(tg, sigs);
      var f := funcs[g];
      !Reachable(f, |f.code| - 1) && CodeOk(funcs, f) && exists a :: Consistent(funcs, f, a)
  {
    hide CodeOk, Consistent, Reachable, OkFun, LowerFun, HeightsF, NearlyConsistent, WellBuiltBody, BlockDiverges;
    LoweredHeights(k, tg, sigs, g);
    var funcs := LowerModule(tg, sigs);
    var a := HeightsF(k, Unit(tg, sigs, sigs[g].result), sigs[g].params, sigs[g].body.value);
    EndDead(funcs, funcs[g], a);
    VerifierAcceptsLowered(tg, sigs, g);
  }

  lemma {:induction false} EndDead(funcs: seq<IR.Func>, f: IR.Func, a: seq<int>)
    requires NearlyConsistent(funcs, f, a) && a[|a| - 1] < 0
    ensures !Reachable(f, |f.code| - 1)
  {
    if Reachable(f, |f.code| - 1) {
      ReachableLive(funcs, f, a, |f.code| - 1);
    }
  }

  // ----- lowering, verifier and source together -----

  /** p is the lowered form of s, every function of it was accepted, with the heights hs. */
  ghost predicate Verified(s: Source, p: Program, hs: seq<seq<int>>) {
    && Compiled(s, p) && |hs| == |s.funs|
    && forall g {:trigger hs[g]} :: 0 <= g < |s.funs| && s.funs[g].body.Some? ==>
      WellBuiltBody(s.funs[g].body.value) && Consistent(p.funcs, p.funcs[g], hs[g])
  }

  /** A source program that was lowered and accepted never goes wrong, whatever it is called with. */
  lemma {:induction false} VerifiedNeverWrong(s: Source, p: Program, hs: seq<seq<int>>, k: nat, g: nat, args: seq<int>)
    requires Verified(s, p, hs) && g < |s.funs| && |args| == |s.funs[g].params|
    ensures CallFun(s, k, g, args) != IR.Wrong
  {
    forall f | 0 <= f < |hs|
      ensures VerifierSound.AcceptedFun(p, f, hs[f])
    {
      VerifiedAccepted(s, p, hs, f);
    }
    hide Verified, VerifierSound.AcceptedFun, CallFun, IR.Run;
    VerifiedCompiled(s, p, hs);
    assert VerifierSound.Accepted(p, hs);
    if CallFun(s, k, g, args) == IR.Wrong {
      var n := SourceEndIsMachineEnd(s, p, k, g, args);
      VerifierSound.RunFuncSafe(p, hs, n, g, args);
    }
  }

  lemma {:induction false} VerifiedCompiled(s: Source, p: Program, hs: seq<seq<int>>)
    requires Verified(s, p, hs)
    ensures Compiled(s, p) && |hs| == |p.funcs| && p.target.Valid()
  {
  }

  lemma {:induction false} VerifiedAccepted(s: Source, p: Program, hs: seq<seq<int>>, f: nat)
    requires Verified(s, p, hs) && f < |hs|
    ensures |p.funcs| == |hs| && VerifierSound.AcceptedFun(p, f, hs[f])
  {
    hide Consistent, CodeOk, OkBody, CodeF, WellBuiltBody, SlotsBody, LabelsBody;
    assert CompiledFun(s, p, f);
    if s.funs[f].body.Some? {
      assert hs[f] == hs[f];
      forall g | 0 <= g < |p.funcs|
        ensures p.funcs[g] == LowerModule(s.target, s.funs)[g]
      {
        assert CompiledFun(s, p, g);
      }
      assert p.funcs == LowerModule(s.target, s.funs);
      LoweredCodeOk(s.target, s.funs, f);
      assert p.funcs[f].code != [] by { CompiledReady(s, p, f); NotEmpty(UnitOf(s, f), s.funs[f].params, s.funs[f].body.value); }
    }
  }

  lemma {:induction false} NotEmpty(c: Unit, params: seq<Param>, body: seq<Stmt>)
    ensures CodeF(c, params, body) != []
  {
  }
}
