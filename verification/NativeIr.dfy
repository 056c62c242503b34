/** The stack IR (include/backend/native_internal.h) and the machine that runs it. */
module NativeIr {
  import opened Wrappers
  import opened NativeTypes

  datatype Inst =
    | Const(ty: NType, value: int)
    | Load(ty: NType, slot: nat)
    | Store(ty: NType, slot: nat)
    | Drop
    | Binary(ty: NType, op: BinOp)
    | Unary(ty: NType, uop: UnOp)
    | Call(ty: NType, callee: nat)
    | Label(id: nat)
    | Jump(id: nat)
    | Jz(id: nat)
    | Return(ty: NType)
    | Assert
    | End(ty: NType)
    | Convert(ty: NType, from: NType)

  datatype Func = Func(params: seq<NType>, result: NType, isExtern: bool,
                       code: seq<Inst>, slots: nat, labels: nat)

  /** A lowered module together with its surroundings: what external functions answer (None when they
      do not return) and what an uninitialised frame slot happens to hold. */
  datatype Program = Program(target: Target, funcs: seq<Func>, ext: (nat, seq<int>) -> Option<int>, junk: int)

  /** How a run ends. Wrong marks steps no encoder has code for: stack underflow, leaving the code,
      undefined labels, slots or callees, and operators without an encoding. */
  datatype Outcome = Returned(v: int) | Trapped | Wrong | OutOfFuel

  datatype State = State(pc: nat, stack: seq<int>, slots: seq<int>)

  datatype StepResult =
    | Next(st: State)
    | Stop(outcome: Outcome)
    | CallTo(callee: nat, args: seq<int>, resume: State)

  /** Position of the first mark of a label at or after i. */
  function FindLabel(code: seq<Inst>, id: nat, i: nat): (p: Option<nat>)
    requires i <= |code|
    ensures p.Some? ==> i <= p.value < |code| && code[p.value] == Label(id)
    ensures p.None? ==> forall j :: i <= j < |code| ==> code[j] != Label(id)
    ensures p.Some? ==> forall j :: i <= j < p.value ==> code[j] != Label(id)
    decreases |code| - i
  {
    if i == |code| then None
    else if code[i] == Label(id) then Some(i)
    else FindLabel(code, id, i + 1)
  }

  function Top(s: seq<int>): int requires |s| >= 1 { s[|s| - 1] }
  function Pop(s: seq<int>): seq<int> requires |s| >= 1 { s[..|s| - 1] }

  /** One instruction. */
  function Step(p: Program, f: nat, st: State): StepResult
    requires p.target.Valid() && f < |p.funcs|
  {
    var code := p.funcs[f].code;
    if st.pc >= |code| then Stop(Wrong)
    else
      var next := st.(pc := st.pc + 1);
      match code[st.pc]
      case Const(t, v) => Next(next.(stack := st.stack + [Canon(p.target, t, v)]))
      case Load(_, slot) =>
        if slot >= |st.slots| then Stop(Wrong) else Next(next.(stack := st.stack + [st.slots[slot]]))
      case Store(t, slot) =>
        if |st.stack| < 1 || slot >= |st.slots| then Stop(Wrong)
        else Next(next.(stack := Pop(st.stack), slots := st.slots[slot := Canon(p.target, t, Top(st.stack))]))
      case Drop => if |st.stack| < 1 then Stop(Wrong) else Next(next.(stack := Pop(st.stack)))
      case Binary(t, op) =>
        if |st.stack| < 2 then Stop(Wrong)
        else
          (match BinarySem(p.target, t, op, Top(Pop(st.stack)), Top(st.stack))
           case OpValue(v) => Next(next.(stack := Pop(Pop(st.stack)) + [v]))
           case OpTrap => Stop(Trapped)
           case OpWrong => Stop(Wrong))
      case Unary(t, op) =>
        if |st.stack| < 1 then Stop(Wrong)
        else
          (match UnarySem(p.target, t, op, Top(st.stack))
           case OpValue(v) => Next(next.(stack := Pop(st.stack) + [v]))
           case OpTrap => Stop(Trapped)
           case OpWrong => Stop(Wrong))
      case Convert(t, _) =>
        if |st.stack| < 1 then Stop(Wrong)
        else Next(next.(stack := Pop(st.stack) + [Canon(p.target, t, Top(st.stack))]))
      case Call(_, g) =>
        if g >= |p.funcs| || |st.stack| < |p.funcs[g].params| then Stop(Wrong)
        else
          var base := |st.stack| - |p.funcs[g].params|;
          CallTo(g, st.stack[base..], next.(stack := st.stack[..base]))
      case Label(_) => Next(next)
      case Jump(id) =>
        (match FindLabel(code, id, 0)
         case None => Stop(Wrong)
         case Some(l) => Next(st.(pc := l)))
      case Jz(id) =>
        if |st.stack| < 1 then Stop(Wrong)
        else if Top(st.stack) != 0 then Next(next.(stack := Pop(st.stack)))
        else
          (match FindLabel(code, id, 0)
           case None => Stop(Wrong)
           case Some(l) => Next(st.(pc := l, stack := Pop(st.stack))))
      case Return(t) => if |st.stack| < 1 then Stop(Wrong) else Stop(Returned(Canon(p.target, t, Top(st.stack))))
      case Assert =>
        if |st.stack| < 1 then Stop(Wrong)
        else if Top(st.stack) == 0 then Stop(Trapped)
        else Next(next.(stack := Pop(st.stack)))
      case End(_) => Stop(Returned(0))
  }

  /** The frame of a called function: parameters first, the other slots uninitialised. */
  function Frame(p: Program, g: nat, args: seq<int>): seq<int>
    requires p.target.Valid() && g < |p.funcs|
  {
    var f := p.funcs[g];
    var values := ArgsAs(p.target, f.params, args);
    seq(f.slots, i requires 0 <= i < f.slots => if i < |f.params| && i < |values| then values[i] else p.junk)
  }

  /** Run from a state; fuel bounds both the steps and the depth of calls. */
  function Run(p: Program, n: nat, f: nat, st: State): Outcome
    requires p.target.Valid() && f < |p.funcs|
    decreases n, 0
  {
    if n == 0 then OutOfFuel
    else
      match Step(p, f, st)
      case Next(st') => Run(p, n - 1, f, st')
      case Stop(o) => o
      case CallTo(g, args, resume) =>
        if g >= |p.funcs| then Wrong
        else
          match RunFunc(p, n - 1, g, args)
          case Returned(v) =>
            Run(p, n - 1, f, resume.(stack := resume.stack + [Canon(p.target, p.funcs[g].result, v)]))
          case o => o
  }

  function RunFunc(p: Program, n: nat, g: nat, args: seq<int>): Outcome
    requires p.target.Valid() && g < |p.funcs|
    decreases n, 1
  {
    if p.funcs[g].isExtern then
      match p.ext(g, ArgsAs(p.target, p.funcs[g].params, args))
      case Some(v) => Returned(v)
      case None => Trapped
    else Run(p, n, g, State(0, [], Frame(p, g, args)))
  }

  // ----- more fuel never changes a finished run -----

  lemma {:induction false} RunMonotone(p: Program, m: nat, n: nat, f: nat, st: State)
    requires p.target.Valid() && f < |p.funcs| && m <= n
    requires Run(p, m, f, st) != OutOfFuel
    ensures Run(p, n, f, st) == Run(p, m, f, st)
    decreases m, 0
  {
    hide Canon, Frame, Step;
    match Step(p, f, st)
    case Next(st') => RunMonotone(p, m - 1, n - 1, f, st');
    case Stop(_) =>
    case CallTo(g, args, resume) =>
      if g < |p.funcs| {
        RunFuncMonotone(p, m - 1, n - 1, g, args);
        match RunFunc(p, m - 1, g, args)
        case Returned(v) =>
          RunMonotone(p, m - 1, n - 1, f, resume.(stack := resume.stack + [Canon(p.target, p.funcs[g].result, v)]));
        case _ =>
      }
  }

  lemma {:induction false} RunFuncMonotone(p: Program, m: nat, n: nat, g: nat, args: seq<int>)
    requires p.target.Valid() && g < |p.funcs| && m <= n
    requires RunFunc(p, m, g, args) != OutOfFuel
    ensures RunFunc(p, n, g, args) == RunFunc(p, m, g, args)
    decreases m, 1
  {
    hide Canon, Frame, Step;
    if !p.funcs[g].isExtern {
      RunMonotone(p, m, n, g, State(0, [], Frame(p, g, args)));
    }
  }

  // ----- relating configurations -----

  /** Some finite run from st ends with o. */
  ghost predicate Halts(p: Program, f: nat, st: State, o: Outcome)
    requires p.target.Valid() && f < |p.funcs|
  {
    o != OutOfFuel && exists n: nat :: Run(p, n, f, st) == o
  }

  /** The run from st ends with o; for OutOfFuel, it is still going after k steps. */
  ghost predicate Ends(p: Program, f: nat, k: nat, st: State, o: Outcome)
    requires p.target.Valid() && f < |p.funcs|
  {
    if o == OutOfFuel then Run(p, k, f, st) == OutOfFuel else Halts(p, f, st, o)
  }

  /** From a, the machine gets to b: whatever b does, a does, and no sooner. */
  ghost predicate Reaches(p: Program, f: nat, a: State, b: State)
    requires p.target.Valid() && f < |p.funcs|
  {
    && (forall o :: Halts(p, f, b, o) ==> Halts(p, f, a, o))
    && (forall n: nat :: Run(p, n, f, b) == OutOfFuel ==> Run(p, n, f, a) == OutOfFuel)
  }

  lemma {:induction false} ReachRefl(p: Program, f: nat, a: State)
    requires p.target.Valid() && f < |p.funcs|
    ensures Reaches(p, f, a, a)
  {
  }

  lemma {:induction false} ReachTrans(p: Program, f: nat, a: State, b: State, c: State)
    requires p.target.Valid() && f < |p.funcs|
    requires Reaches(p, f, a, b) && Reaches(p, f, b, c)
    ensures Reaches(p, f, a, c)
  {
  }

  lemma {:induction false} ReachEnds(p: Program, f: nat, k: nat, a: State, b: State, o: Outcome)
    requires p.target.Valid() && f < |p.funcs|
    requires Reaches(p, f, a, b) && Ends(p, f, k, b, o)
    ensures Ends(p, f, k, a, o)
  {
  }

  lemma {:induction false} FuelDown(p: Program, f: nat, m: nat, n: nat, st: State)
    requires p.target.Valid() && f < |p.funcs| && m <= n
    requires Run(p, n, f, st) == OutOfFuel
    ensures Run(p, m, f, st) == OutOfFuel
  {
    if Run(p, m, f, st) != OutOfFuel {
      RunMonotone(p, m, n, f, st);
    }
  }

  lemma {:induction false} StepNext(p: Program, f: nat, a: State, b: State)
    requires p.target.Valid() && f < |p.funcs|
    requires Step(p, f, a) == Next(b)
    ensures Reaches(p, f, a, b)
  {
    forall o | Halts(p, f, b, o)
      ensures Halts(p, f, a, o)
    {
      var n: nat :| Run(p, n, f, b) == o;
      assert Run(p, n + 1, f, a) == o;
    }
    forall n: nat | Run(p, n, f, b) == OutOfFuel
      ensures Run(p, n, f, a) == OutOfFuel
    {
      if n > 0 {
        FuelDown(p, f, n - 1, n, b);
      }
    }
  }

  lemma {:induction false} StepStop(p: Program, f: nat, k: nat, a: State, o: Outcome)
    requires p.target.Valid() && f < |p.funcs|
    requires Step(p, f, a) == Stop(o) && o != OutOfFuel
    ensures Ends(p, f, k, a, o)
  {
    assert Run(p, 1, f, a) == o;
  }

  /** A call whose callee returns v goes on with v pushed. */
  lemma {:induction false} StepCall(p: Program, f: nat, a: State, m: nat, v: int)
    requires p.target.Valid() && f < |p.funcs|
    requires Step(p, f, a).CallTo? && Step(p, f, a).callee < |p.funcs|
    requires RunFunc(p, m, Step(p, f, a).callee, Step(p, f, a).args) == Returned(v)
    ensures var c := Step(p, f, a);
      Reaches(p, f, a, c.resume.(stack := c.resume.stack + [Canon(p.target, p.funcs[c.callee].result, v)]))
  {
    var c := Step(p, f, a);
    var b := c.resume.(stack := c.resume.stack + [Canon(p.target, p.funcs[c.callee].result, v)]);
    forall o | Halts(p, f, b, o)
      ensures Halts(p, f, a, o)
    {
      var n: nat :| Run(p, n, f, b) == o;
      var top := if n < m then m else n;
      RunMonotone(p, n, top, f, b);
      RunFuncMonotone(p, m, top, c.callee, c.args);
      assert Run(p, top + 1, f, a) == o;
    }
    forall n: nat | Run(p, n, f, b) == OutOfFuel
      ensures Run(p, n, f, a) == OutOfFuel
    {
      if n > 0 {
        FuelDown(p, f, n - 1, n, b);
        var r := RunFunc(p, n - 1, c.callee, c.args);
        if r != OutOfFuel {
          RunFuncMonotone(p, n - 1, if n - 1 < m then m else n - 1, c.callee, c.args);
          RunFuncMonotone(p, m, if n - 1 < m then m else n - 1, c.callee, c.args);
        }
      }
    }
  }

  /** A call whose callee traps or goes wrong does the same; one still running is still running. */
  lemma {:induction false} StepCallEnds(p: Program, f: nat, k: nat, a: State, o: Outcome)
    requires p.target.Valid() && f < |p.funcs| && !o.Returned?
    requires Step(p, f, a).CallTo? && Step(p, f, a).callee < |p.funcs|
    requires o == OutOfFuel ==> k == 0 || RunFunc(p, k - 1, Step(p, f, a).callee, Step(p, f, a).args) == OutOfFuel
    requires o != OutOfFuel ==> exists n: nat :: RunFunc(p, n, Step(p, f, a).callee, Step(p, f, a).args) == o
    ensures Ends(p, f, k, a, o)
  {
    if o != OutOfFuel {
      var n: nat :| RunFunc(p, n, Step(p, f, a).callee, Step(p, f, a).args) == o;
      assert Run(p, n + 1, f, a) == o;
    }
  }
}
