/** Lowering a whole module (src/backend/native_lower.c): registration of every signature, then
    every body, within the limits on functions, instructions, locals and nesting. */
module LowerModuleCode {
  import opened Wrappers
  import opened NativeTypes
  import opened Ast
  import opened LowerSpec
  import opened Lower
  import IR = NativeIr
  import opened SourceSemantics
  import Simulation

  /** Top-level declarations, with pub wrappers and extern blocks already opened up. */
  datatype TopDecl =
    | TopFunction(decl: FunDecl, generic: bool, isAsync: bool)
    | TopExtern(decl: FunDecl, variadic: bool, foreignConvention: bool)
    | TopOther

  predicate Supported(t: TopDecl) {
    match t
    case TopFunction(d, generic, isAsync) => d.body.Some? && !generic && !isAsync
    case TopExtern(d, variadic, foreign) => d.body.None? && !variadic && !foreign
    case TopOther => false
  }

  /** A signature the backend can register next to the ones before it. */
  ghost predicate Registrable(before: seq<FunDecl>, d: FunDecl) {
    && |before| < MAX_FUNCTIONS && |d.params| <= MAX_PARAMS
    && d.name != "" && d.name != "_start" && d.name != "assert"
    && (forall j :: 0 <= j < |before| ==> before[j].name != d.name)
    && d.result != Invalid
    && (forall i :: 0 <= i < |d.params| ==> d.params[i].ty != Invalid && d.params[i].ty != UnitT)
  }

  function Decls(tops: seq<TopDecl>): seq<FunDecl>
    requires forall t :: t in tops ==> Supported(t)
  {
    seq(|tops|, i requires 0 <= i < |tops| => assert tops[i] in tops && Supported(tops[i]); tops[i].decl)
  }

  ghost predicate Registered(tops: seq<TopDecl>) {
    (forall t :: t in tops ==> Supported(t)) &&
    forall i {:trigger Decls(tops)[i]} :: 0 <= i < |tops| ==> Registrable(Decls(tops)[..i], Decls(tops)[i])
  }

  method Register(tops: seq<TopDecl>) returns (r: Option<seq<FunDecl>>)
    ensures r.Some? <==> Registered(tops)
    ensures r.Some? ==> r.value == Decls(tops)
  {
    var sigs: seq<FunDecl> := [];
    var i := 0;
    while i < |tops|
      invariant 0 <= i <= |tops| && |sigs| == i <= MAX_FUNCTIONS
      invariant forall j :: 0 <= j < i ==> Supported(tops[j]) && sigs[j] == tops[j].decl
      invariant forall j {:trigger sigs[j]} :: 0 <= j < i ==> Registrable(sigs[..j], sigs[j])
    {
      var supported := false;
      match tops[i] {
        case TopFunction(f, generic, isAsync) => supported := f.body.Some? && !generic && !isAsync;
        case TopExtern(f, variadic, foreign) => supported := f.body.None? && !variadic && !foreign;
        case TopOther =>
      }
      if !supported { assert tops[i] in tops; return None; }
      var d := tops[i].decl;
      if |sigs| == MAX_FUNCTIONS || |d.params| > MAX_PARAMS
         || d.name == "" || d.name == "_start" || d.name == "assert"
         || (exists j :: 0 <= j < |sigs| && sigs[j].name == d.name)
         || d.result == Invalid
         || (exists j :: 0 <= j < |d.params| && (d.params[j].ty == Invalid || d.params[j].ty == UnitT))
      {
        if forall t :: t in tops ==> Supported(t) {
          assert sigs == Decls(tops)[..i] && Decls(tops)[i] == d;
          assert !Registrable(Decls(tops)[..i], Decls(tops)[i]);
        }
        return None;
      }
      ghost var longer := sigs + [d];
      assert Registrable(sigs, d);
      forall j | 0 <= j < i + 1
        ensures Registrable(longer[..j], longer[j])
      {
        if j < i {
          assert longer[..j] == sigs[..j] && longer[j] == sigs[j];
        } else {
          assert longer[..j] == sigs && longer[j] == d;
        }
      }
      sigs := sigs + [d];
      i := i + 1;
    }
    forall t | t in tops
      ensures Supported(t)
    {
      var j :| 0 <= j < |tops| && tops[j] == t;
    }
    assert sigs == Decls(tops);
    r := Some(sigs);
  }

  /** Whether one function fits the limits, with n instructions already spent on the module. */
  ghost predicate Fits(tg: Target, sigs: seq<FunDecl>, d: FunDecl, n: nat) {
    d.body.Some? ==>
      var f := LowerFun(tg, sigs, d);
      && |f.code| <= MAX_IR && n + |f.code| <= MAX_TOTAL_IR
      && 1 + DepthSs(d.body.value) <= MAX_DEPTH && f.slots <= MAX_LOCALS
  }

  function CodeSize(tg: Target, sigs: seq<FunDecl>, d: FunDecl): nat { |LowerFun(tg, sigs, d).code| }

  method LowerFunction(tg: Target, sigs: seq<FunDecl>, d: FunDecl, totalIr: nat) returns (r: Option<IR.Func>)
    requires ValidSigs(sigs) && d.body.Some? && totalIr <= MAX_TOTAL_IR && d.result != Invalid
    requires |d.params| <= MAX_PARAMS && forall p :: p in d.params ==> p.ty != Invalid
    ensures r.Some? <==> OkFun(tg, sigs, d) && Fits(tg, sigs, d, totalIr)
    ensures r.Some? ==> r.value == LowerFun(tg, sigs, d)
  {
    hide OkBody, CodeBody, SlotsBody, LabelsBody, DepthSs;
    var unit := Unit(tg, sigs, d.result);
    var l := new Lowerer(unit, totalIr);
    var j := 0;
    while j < |d.params|
      invariant 0 <= j <= |d.params| && l.Valid() && !l.hadError && l.slots == j
      invariant l.locals == ParamLocals(d.params)[..j]
      invariant l.ir == [] && l.labels == 0 && l.breaks == [] && l.depth == 0 && l.totalIr == totalIr
    {
      l.AddLocal(d.params[j].name, d.params[j].ty);
      assert ParamLocals(d.params)[..j + 1] == ParamLocals(d.params)[..j] + [ParamLocals(d.params)[j]];
      j := j + 1;
    }
    assert l.locals == ParamLocals(d.params);
    ghost var code := CodeBody(unit, ParamLocals(d.params), NoLoop, d.body.value, 0, |d.params|);
    assert l.BodyCode(d.body.value) == code;
    assert [] + code == code;
    l.Body(d.body.value);
    l.Emit(IR.End(d.result));
    if l.hadError { return None; }
    r := Some(IR.Func(ParamTypes(d.params), d.result, false, l.ir, l.slots, l.labels));
  }

  /** The whole module, or nothing. */
  method LowerAll(tg: Target, tops: seq<TopDecl>) returns (r: Option<seq<IR.Func>>)
    ensures r.Some? <==> Registered(tops) && AllFit(tg, Decls(tops), Decls(tops), 0)
    ensures r.Some? ==> r.value == LowerModule(tg, Decls(tops))
  {
    hide LowerFun, OkFun, Fits, Registrable, ValidSigs, ParamTypes;
    var registered := Register(tops);
    if registered == None { return None; }
    var sigs := registered.value;
    SigsValid(tops);
    var funcs: seq<IR.Func>, totalIr: nat, i := [], 0, 0;
    while i < |sigs|
      invariant 0 <= i <= |sigs| && |funcs| == i && totalIr <= MAX_TOTAL_IR
      invariant forall j :: 0 <= j < i ==> funcs[j] == LowerFun(tg, sigs, sigs[j])
      invariant AllFit(tg, sigs, sigs, 0) <==> AllFit(tg, sigs, sigs[i..], totalIr)
    {
      assert sigs[i..][0] == sigs[i] && sigs[i..][1..] == sigs[i + 1..];
      RegistrableFacts(sigs[..i], sigs[i]);
      if sigs[i].body.None? {
        funcs := funcs + [IR.Func(ParamTypes(sigs[i].params), sigs[i].result, true, [], 0, 0)];
        ExternFits(tg, sigs, sigs[i], totalIr);
      } else {
        var f := LowerFunction(tg, sigs, sigs[i], totalIr);
        if f == None { return None; }
        funcs := funcs + [f.value];
        FitSize(tg, sigs, sigs[i], totalIr);
        totalIr := totalIr + |f.value.code|;
      }
      i := i + 1;
    }
    r := Some(funcs);
  }

  ghost predicate AllFit(tg: Target, sigs: seq<FunDecl>, rest: seq<FunDecl>, n: nat) {
    rest == [] ||
    (OkFun(tg, sigs, rest[0]) && Fits(tg, sigs, rest[0], n) && AllFit(tg, sigs, rest[1..], n + CodeSize(tg, sigs, rest[0])))
  }

  lemma {:induction false} ExternFits(tg: Target, sigs: seq<FunDecl>, d: FunDecl, n: nat)
    requires d.body.None? && d.result != Invalid
    ensures OkFun(tg, sigs, d) && Fits(tg, sigs, d, n) && CodeSize(tg, sigs, d) == 0
    ensures LowerFun(tg, sigs, d) == IR.Func(ParamTypes(d.params), d.result, true, [], 0, 0)
  {
  }

  lemma {:induction false} FitSize(tg: Target, sigs: seq<FunDecl>, d: FunDecl, n: nat)
    requires Fits(tg, sigs, d, n) && d.body.Some?
    ensures n + |LowerFun(tg, sigs, d).code| <= MAX_TOTAL_IR
  {
    hide LowerFun;
  }

  lemma {:induction false} SigsValid(tops: seq<TopDecl>)
    requires Registered(tops)
    ensures ValidSigs(Decls(tops))
  {
    forall d | d in Decls(tops)
      ensures d.result != Invalid
    {
      var i :| 0 <= i < |tops| && Decls(tops)[i] == d;
      assert Registrable(Decls(tops)[..i], Decls(tops)[i]);
    }
  }

  /** A lowered module only holds functions the lowering accepts. */
  lemma {:induction false} RegistrableFacts(before: seq<FunDecl>, d: FunDecl)
    requires Registrable(before, d)
    ensures |d.params| <= MAX_PARAMS && d.result != Invalid && forall p :: p in d.params ==> p.ty != Invalid
  {
  }

  /** So what LowerAll returns runs as the source means, by Simulation.LoweringPreservesMeaning. */
  lemma {:induction false} LoweredIsCompiled(tg: Target, tops: seq<TopDecl>, ext: (nat, seq<int>) -> Option<int>, junk: int)
    requires tg.Valid() && Registered(tops) && AllFit(tg, Decls(tops), Decls(tops), 0)
    ensures Simulation.Compiled(Source(tg, Decls(tops), ext), IR.Program(tg, LowerModule(tg, Decls(tops)), ext, junk))
  {
    hide OkFun, LowerFun, AllFit, Registrable;
    var sigs := Decls(tops);
    forall g | 0 <= g < |sigs|
      ensures OkFun(tg, sigs, sigs[g])
    {
      AllFitAccepted(tg, sigs, sigs, 0, g);
    }
  }

  lemma {:induction false} AllFitAccepted(tg: Target, sigs: seq<FunDecl>, rest: seq<FunDecl>, n: nat, i: nat)
    requires AllFit(tg, sigs, rest, n) && i < |rest|
    ensures OkFun(tg, sigs, rest[i]) && |LowerFun(tg, sigs, rest[i]).code| <= MAX_IR
  {
    hide OkFun;
    if i > 0 {
      AllFitAccepted(tg, sigs, rest[1..], n + CodeSize(tg, sigs, rest[0]), i - 1);
    } else if rest[0].body.None? {
    }
  }
}
