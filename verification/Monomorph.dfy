/** Monomorphisation in the C backend (src/backend/backend_c_generic.c, backend_c.c): generic instances and
    lambdas are recorded where they are used and generated at the end, which may record more of them. */
module Monomorph {
  import opened Wrappers
  import opened Counting
  import opened Mangling
  import opened DecimalText

  const MAX_INSTANTIATED := 256
  const MAX_LAMBDAS := 64
  const SYMBOL_SIZE := 256
  const ARGUMENT_SIZE := 64
  const MAX_ARGUMENTS := 8

  /** A generic function, as registered by name. */
  datatype Definition = Definition(name: Text, typeParams: nat)

  /** What a body makes the generator do: use an instance, use a lambda expression, or report an error. */
  datatype Use = Call(def: Definition, arguments: seq<Text>) | Closure(id: nat) | Failure

  /** A function to generate: an instance, or the number-th lambda, whose expression is id. */
  datatype Unit = Instance(def: Definition, arguments: seq<Text>) | Lambda(number: nat, id: nat)

  datatype Job = Job(unit: Unit, emitted: bool)

  function Symbol(u: Unit): string {
    match u
    case Instance(def, arguments) => Mangled(def.name, arguments)
    case Lambda(number, _) => "__reo_lambda_" + Decimal(number)
  }

  /** The limits on one instance. */
  predicate CountFits(def: Definition, arguments: seq<Text>) {
    0 < |arguments| <= MAX_ARGUMENTS && |arguments| == def.typeParams
  }

  predicate ArgumentsFit(arguments: seq<Text>) { forall i :: 0 <= i < |arguments| ==> |arguments[i]| < ARGUMENT_SIZE }

  predicate Fits(u: Unit) {
    u.Instance? ==> CountFits(u.def, u.arguments) && |Symbol(u)| < SYMBOL_SIZE && ArgumentsFit(u.arguments)
  }

  ghost predicate Listed(jobs: seq<Job>, u: Unit) { exists i :: 0 <= i < |jobs| && jobs[i].unit == u }

  /** Whether asking for this instance is an error. */
  ghost predicate Refused(pending: seq<Job>, def: Definition, arguments: seq<Text>) {
    || !CountFits(def, arguments)
    || |Mangled(def.name, arguments)| >= SYMBOL_SIZE
    || (!Listed(pending, Instance(def, arguments)) && (|pending| == MAX_INSTANTIATED || !ArgumentsFit(arguments)))
  }

  // ----- symbols -----

  lemma {:induction false} InstanceSymbols(u: Unit, v: Unit)
    requires u.Instance? && v.Instance? && CountFits(u.def, u.arguments) && CountFits(v.def, v.arguments)
    ensures Symbol(u) == Symbol(v) <==> u == v
  {
    hide Mangled, Decimal;
    if Symbol(u) == Symbol(v) {
      MangledInjective(u.def.name, u.arguments, v.def.name, v.arguments);
    }
  }

  /** An instance and a lambda never share a symbol, nor do two lambdas with different numbers. */
  lemma {:induction false} OtherSymbols(u: Unit, v: Unit)
    requires u.Lambda? && (v.Lambda? ==> u.number != v.number)
    ensures Symbol(u) != Symbol(v)
  {
    hide Decimal, Fields;
    var prefix := "__reo_lambda_";
    if v.Lambda? {
      DecimalReads(u.number);
      DecimalReads(v.number);
      assert Symbol(u)[|prefix|..] == Decimal(u.number) && Symbol(v)[|prefix|..] == Decimal(v.number);
    } else {
      assert Symbol(u)[6] == 'l' && Symbol(v)[6] == 'i';
    }
  }

  // ----- job lists -----

  ghost predicate UnitsDistinct(jobs: seq<Job>) { forall i, j :: 0 <= i < j < |jobs| ==> jobs[i].unit != jobs[j].unit }

  /** Jobs are generated in order. */
  ghost predicate Ordered(jobs: seq<Job>) { forall i, j :: 0 <= i < j < |jobs| && jobs[j].emitted ==> jobs[i].emitted }

  /** How many leading jobs are generated. */
  ghost function Front(jobs: seq<Job>): (n: nat)
    ensures n <= |jobs| && (n < |jobs| ==> !jobs[n].emitted)
    ensures forall i :: 0 <= i < n ==> jobs[i].emitted
  {
    if jobs == [] || !jobs[0].emitted then 0 else 1 + Front(jobs[1..])
  }

  /** New jobs at the end, none of them generated yet. */
  ghost predicate Extends(before: seq<Job>, after: seq<Job>) {
    before <= after && forall i :: |before| <= i < |after| ==> !after[i].emitted
  }

  lemma {:induction false} FrontIs(jobs: seq<Job>, n: nat)
    requires n <= |jobs| && (n < |jobs| ==> !jobs[n].emitted) && forall i :: 0 <= i < n ==> jobs[i].emitted
    ensures Front(jobs) == n
  {
  }

  lemma {:induction false} ExtendsFront(before: seq<Job>, after: seq<Job>)
    requires Extends(before, after)
    ensures Front(after) == Front(before)
  {
    FrontIs(after, Front(before));
  }

  lemma {:induction false} ExtendsTwice(a: seq<Job>, b: seq<Job>, c: seq<Job>)
    requires Extends(a, b) && Extends(b, c)
    ensures Extends(a, c)
  {
    forall i | |a| <= i < |c|
      ensures !c[i].emitted
    {
      if i < |b| { assert c[i] == b[i]; }
    }
  }

  // ----- what has been generated -----

  /** The generated units, each once, are exactly those of the jobs marked as generated. */
  ghost predicate Emits(out: seq<Unit>, jobs: seq<Job>, others: seq<Job>) {
    Distinct(out) && forall u :: u in out <==> Job(u, true) in jobs || Job(u, true) in others
  }

  /** Marking one more job as generated, and generating it. */
  lemma {:induction false} EmitStep(out: seq<Unit>, jobs: seq<Job>, others: seq<Job>, i: nat, later: seq<Job>, laterOthers: seq<Job>)
    requires Emits(out, jobs, others) && UnitsDistinct(jobs) && i < |jobs| && !jobs[i].emitted
    requires Job(jobs[i].unit, true) !in others
    requires Extends(jobs[i := Job(jobs[i].unit, true)], later) && Extends(others, laterOthers)
    ensures Emits(out + [jobs[i].unit], later, laterOthers)
  {
    var unit := jobs[i].unit;
    var marked := jobs[i := Job(unit, true)];
    assert Job(unit, true) !in jobs;
    assert marked[i] == Job(unit, true);
    forall u
      ensures Job(u, true) in marked <==> Job(u, true) in jobs || u == unit
    {
      if Job(u, true) in jobs {
        var k :| 0 <= k < |jobs| && jobs[k] == Job(u, true);
        assert marked[k] == jobs[k];
      }
    }
    ExtendsEmitted(marked, later);
    ExtendsEmitted(others, laterOthers);
  }

  lemma {:induction false} ExtendsEmitted(before: seq<Job>, after: seq<Job>)
    requires Extends(before, after)
    ensures forall u :: Job(u, true) in after <==> Job(u, true) in before
  {
    forall u | Job(u, true) in before
      ensures Job(u, true) in after
    {
      var k :| 0 <= k < |before| && before[k] == Job(u, true);
      assert after[k] == before[k];
    }
  }

  // ----- what was asked for -----

  /** Everything these units use, in the order of generation. */
  ghost function Asks(uses: Unit -> seq<Use>, units: seq<Unit>): seq<Use> {
    if units == [] then [] else Asks(uses, units[..|units| - 1]) + uses(units[|units| - 1])
  }

  /** The lambda expressions among these uses: each occurrence gets a function of its own. */
  ghost function Closures(asked: seq<Use>): seq<nat> {
    if asked == [] then []
    else
      var use := asked[|asked| - 1];
      Closures(asked[..|asked| - 1]) + if use.Closure? then [use.id] else []
  }

  ghost predicate LambdasOnly(jobs: seq<Job>) { forall i :: 0 <= i < |jobs| ==> jobs[i].unit.Lambda? }

  ghost function Ids(jobs: seq<Job>): (ids: seq<nat>)
    requires LambdasOnly(jobs)
    ensures |ids| == |jobs| && forall i :: 0 <= i < |jobs| ==> ids[i] == jobs[i].unit.id
  {
    seq(|jobs|, i requires 0 <= i < |jobs| => jobs[i].unit.id)
  }

  /** One job for each instance asked for, and one for each occurrence of a lambda expression. */
  ghost predicate Complete(asked: seq<Use>, pending: seq<Job>, lambdas: seq<Job>) {
    && Failure !in asked && (forall d, a :: Call(d, a) in asked <==> Listed(pending, Instance(d, a)))
    && LambdasOnly(lambdas) && Ids(lambdas) == Closures(asked)
  }

  /** Whether a use is an error, given the tables when it is met. */
  ghost predicate Rejected(pending: seq<Job>, lambdas: seq<Job>, use: Use) {
    match use
    case Call(def, arguments) => Refused(pending, def, arguments)
    case Closure(_) => |lambdas| == MAX_LAMBDAS
    case Failure => true
  }

  /** The first error: what had been asked for, the tables that hold exactly that, and the use they reject. */
  datatype Cause = Cause(before: seq<Use>, pending: seq<Job>, lambdas: seq<Job>, use: Use)

  ghost predicate Explains(c: Cause, asked: seq<Use>) {
    && c.before + [c.use] <= asked && Rejected(c.pending, c.lambdas, c.use)
    && Complete(c.before, c.pending, c.lambdas) && UnitsDistinct(c.pending)
  }

  /** Nothing is generated that was not asked for. */
  ghost predicate AskedFor(u: Unit, asked: seq<Use>) {
    match u
    case Instance(def, arguments) => Call(def, arguments) in asked
    case Lambda(_, id) => Closure(id) in asked
  }

  ghost predicate Legit(made: seq<Unit>, asked: seq<Use>) { forall u :: u in made ==> AskedFor(u, asked) }

  ghost predicate InstanceTable(instantiated: seq<string>, pending: seq<Job>) {
    && |instantiated| == |pending| <= MAX_INSTANTIATED && UnitsDistinct(pending) && Ordered(pending)
    && forall i :: 0 <= i < |pending| ==> pending[i].unit.Instance? && Fits(pending[i].unit) && instantiated[i] == Symbol(pending[i].unit)
  }

  ghost predicate LambdaTable(lambdas: seq<Job>, counter: nat) {
    && |lambdas| <= MAX_LAMBDAS && LambdasOnly(lambdas) && Ordered(lambdas)
    && (forall i :: 0 <= i < |lambdas| ==> lambdas[i].unit.number < counter)
    && forall i, j :: 0 <= i < j < |lambdas| ==> lambdas[i].unit.number < lambdas[j].unit.number
  }

  class Generator {
    /** What the body of each function makes the generator do. */
    const uses: Unit -> seq<Use>
    var instantiated: seq<string>
    var pending: seq<Job>
    var lambdas: seq<Job>
    var counter: nat
    var hadError: bool
    /** Functions with a prototype, and functions with a body, in the order of the generated text. */
    var declared: seq<Unit>
    var output: seq<Unit>
    /** Everything asked for so far, every function generated so far, and the first error. */
    ghost var asked: seq<Use>
    ghost var made: seq<Unit>
    ghost var cause: Option<Cause>

    constructor (uses: Unit -> seq<Use>)
      ensures this.uses == uses && Valid() && Settled([]) && !hadError && asked == [] && made == [] && output == [] && declared == []
    {
      this.uses := uses;
      instantiated, pending, lambdas, counter := [], [], [], 0;
      hadError, declared, output, asked, made, cause := false, [], [], [], [], None;
    }

    ghost predicate Valid()
      reads `instantiated, `pending, `lambdas, `counter, `hadError, `asked, `cause
    {
      && InstanceTable(instantiated, pending) && LambdaTable(lambdas, counter)
      && if hadError then cause.Some? && Explains(cause.value, asked) else Complete(asked, pending, lambdas)
    }

    /** Everything asked for comes from the program or from a generated body. Without errors, what has been
        generated is exactly what is marked, and declared as well. */
    ghost predicate Settled(user: seq<Use>)
      reads this
    {
      Generated(output, user) && (!hadError ==> multiset(declared) == multiset(output))
    }

    ghost predicate Generated(out: seq<Unit>, user: seq<Use>)
      reads this
    {
      asked == user + Asks(uses, made) && Legit(made, asked) && (!hadError ==> made == out && Emits(out, pending, lambdas))
    }

    method IsAlreadyInstantiated(symbol: string) returns (found: bool)
      ensures found <==> symbol in instantiated
    {
      var i := 0;
      while i < |instantiated|
        invariant 0 <= i <= |instantiated| && symbol !in instantiated[..i]
      {
        if instantiated[i] == symbol { return true; }
        i := i + 1;
      }
      found := false;
    }

    /** instantiate_generic_fn: a new job unless there is one, or an error when a limit is exceeded. */
    method Instantiate(def: Definition, arguments: seq<Text>)
      requires InstanceTable(instantiated, pending)
      modifies this`instantiated, this`pending, this`hadError
      ensures InstanceTable(instantiated, pending)
      ensures hadError <==> old(hadError) || Refused(old(pending), def, arguments)
      ensures pending == old(pending) + if Refused(old(pending), def, arguments) || Listed(old(pending), Instance(def, arguments))
                                        then [] else [Job(Instance(def, arguments), false)]
    {
      hide Mangled, Decimal;
      if |arguments| == 0 || |arguments| > MAX_ARGUMENTS || |arguments| != def.typeParams {
        hadError := true;
        return;
      }
      var name := new char[SYMBOL_SIZE];
      var mangled := Mangle(def.name, arguments, name);
      if !mangled {
        hadError := true;
        return;
      }
      var symbol := CString(name[..]);
      var unit := Instance(def, arguments);
      var found := IsAlreadyInstantiated(symbol);
      FoundIsListed(instantiated, pending, unit);
      if found { return; }
      if |pending| == MAX_INSTANTIATED {
        hadError := true;
        return;
      }
      var i := 0;
      while i < |arguments|
        invariant 0 <= i <= |arguments| && forall k :: 0 <= k < i ==> |arguments[k]| < ARGUMENT_SIZE
      {
        if |arguments[i]| >= ARGUMENT_SIZE {
          hadError := true;
          return;
        }
        i := i + 1;
      }
      instantiated := instantiated + [symbol];
      pending := pending + [Job(unit, false)];
    }

    /** A lambda expression: always a new function, with the next number. */
    method AddLambda(id: nat)
      requires LambdaTable(lambdas, counter)
      modifies this`lambdas, this`counter, this`hadError
      ensures LambdaTable(lambdas, counter) && counter == old(counter) + 1
      ensures hadError <==> old(hadError) || |old(lambdas)| == MAX_LAMBDAS
      ensures lambdas == old(lambdas) + if |old(lambdas)| == MAX_LAMBDAS then [] else [Job(Lambda(old(counter), id), false)]
    {
      var number := counter;
      counter := counter + 1;
      if |lambdas| < MAX_LAMBDAS {
        lambdas := lambdas + [Job(Lambda(number, id), false)];
      } else {
        hadError := true;
      }
    }

    method Ask(use: Use)
      requires Valid()
      modifies this`instantiated, this`pending, this`lambdas, this`counter, this`hadError, this`asked, this`cause
      ensures Valid() && asked == old(asked) + [use]
      ensures hadError <==> old(hadError) || Rejected(old(pending), old(lambdas), use)
      ensures Extends(old(pending), pending) && Extends(old(lambdas), lambdas)
    {
      hide Refused, Complete;
      asked := asked + [use];
      match use {
        case Call(def, arguments) => Instantiate(def, arguments);
        case Closure(id) => AddLambda(id);
        case Failure => hadError := true;
      }
      if hadError {
        if !old(hadError) { cause := Some(Cause(old(asked), old(pending), old(lambdas), use)); }
      } else {
        CompleteStep(old(asked), use, old(pending), old(lambdas), pending, lambdas);
      }
    }

    /** The text of one function. */
    method GenerateBody(unit: Unit)
      requires Valid()
      modifies this`instantiated, this`pending, this`lambdas, this`counter, this`hadError, this`asked, this`cause, this`output, this`made
      ensures Valid()
      ensures output == old(output) + [unit] && made == old(made) + [unit] && asked == old(asked) + uses(unit) && (old(hadError) ==> hadError)
      ensures Extends(old(pending), pending) && Extends(old(lambdas), lambdas)
    {
      hide Valid, Extends;
      output := output + [unit];
      made := made + [unit];
      var items := uses(unit);
      var i := 0;
      ExtendsItself(pending);
      ExtendsItself(lambdas);
      while i < |items|
        invariant 0 <= i <= |items| && Valid() && output == old(output) + [unit] && made == old(made) + [unit] && asked == old(asked) + items[..i] && (old(hadError) ==> hadError)
        invariant Extends(old(pending), pending) && Extends(old(lambdas), lambdas)
      {
        ghost var before, beforeLambdas := pending, lambdas;
        Ask(items[i]);
        ExtendsTwice(old(pending), before, pending);
        ExtendsTwice(old(lambdas), beforeLambdas, lambdas);
        assert items[..i] + [items[i]] == items[..i + 1];
        i := i + 1;
      }
      assert items[..i] == items;
    }

    /** flush_pending_instantiations: generate every instance that has no body yet, also those recorded
        meanwhile, and then publish prototypes and bodies. */
    method FlushPending(ghost user: seq<Use>)
      requires Valid() && Settled(user)
      modifies this
      ensures Valid() && Settled(user) && (old(hadError) ==> hadError)
      ensures old(pending) != [] ==> |pending| >= |old(pending)|
      ensures !hadError ==> Front(pending) == |pending| && Extends(old(lambdas), lambdas)
      ensures Front(old(pending)) == |old(pending)| ==> pending == old(pending) && lambdas == old(lambdas)
    {
      hide Valid, Complete, Extends, Emits, Front, Asks;
      var first := 0;
      ghost var beforeLambdas := lambdas;
      SizesFit();
      ExtendsItself(lambdas);
      while first < |pending| && pending[first].emitted
        invariant 0 <= first <= |pending| && forall i :: 0 <= i < first ==> pending[i].emitted
      {
        first := first + 1;
      }
      FrontIs(pending, first);
      if first == |pending| { return; }
      var saved := output;
      output := [];
      var i := first;
      assert saved + output == saved;
      while i < |pending| && !hadError
        invariant first <= i <= |pending| <= MAX_INSTANTIATED && |old(pending)| <= |pending| && Valid() && Front(pending) == i
        invariant Generated(saved + output, user)
        invariant (old(hadError) ==> hadError) && Extends(beforeLambdas, lambdas) && declared == old(declared)
        invariant |output| == i - first && forall k :: 0 <= k < |output| ==> output[k] == pending[first + k].unit
        decreases MAX_INSTANTIATED - i
      {
        GenerateInstance(i, saved, user, beforeLambdas);
        i := i + 1;
      }
      var bodies := output;
      output := saved;
      Publish(pending, first, bodies);
    }

    /** Prototypes for the new functions, then their bodies, unless there was an error. */
    method Publish(jobs: seq<Job>, first: nat, bodies: seq<Unit>)
      requires first + |bodies| <= |jobs| && (!hadError ==> first + |bodies| == |jobs|)
      requires forall k :: 0 <= k < |bodies| ==> bodies[k] == jobs[first + k].unit
      modifies this`declared, this`output
      ensures !hadError ==> declared == bodies + old(declared) && output == old(output) + bodies
      ensures hadError ==> declared == old(declared) && output == old(output)
    {
      var prototypes := [];
      var i := first;
      while i < |jobs| && !hadError
        invariant first <= i <= |jobs| && (!hadError ==> prototypes == bodies[..i - first])
        invariant declared == old(declared) && output == old(output)
      {
        prototypes := prototypes + [jobs[i].unit];
        i := i + 1;
      }
      if !hadError {
        assert prototypes == bodies;
        declared := prototypes + declared;
        output := output + bodies;
      }
    }

    lemma {:induction false} SizesFit()
      requires Valid()
      ensures |pending| <= MAX_INSTANTIATED && |lambdas| <= MAX_LAMBDAS
    {
    }

    method GenerateInstance(i: nat, ghost saved: seq<Unit>, ghost user: seq<Use>, ghost beforeLambdas: seq<Job>)
      requires i < |pending| && Front(pending) == i && Valid() && !hadError && Generated(saved + output, user)
      requires Extends(beforeLambdas, lambdas)
      modifies this`instantiated, this`pending, this`lambdas, this`counter, this`hadError, this`asked, this`cause, this`output, this`made
      ensures |old(pending)| <= |pending| <= MAX_INSTANTIATED && Valid() && Front(pending) == i + 1
      ensures forall k :: 0 <= k < |old(pending)| ==> pending[k].unit == old(pending)[k].unit
      ensures output == old(output) + [old(pending)[i].unit] && Extends(beforeLambdas, lambdas)
      ensures Generated(saved + output, user)
    {
      hide Valid, Complete, Emits, Extends, Asks;
      var unit := pending[i].unit;
      ghost var marked := pending[i := Job(unit, true)];
      ghost var middle := lambdas;
      InstanceFacts(i);
      MarkInstance(i);
      GenerateBody(unit);
      FrontIs(marked, i + 1);
      ExtendsFront(marked, pending);
      ExtendsTwice(beforeLambdas, middle, lambdas);
      ExtendsKeeps(marked, pending);
      EmitStep(saved + old(output), old(pending), middle, i, pending, lambdas);
      assert saved + output == saved + old(output) + [unit];
      AsksSnoc(uses, old(made), unit);
      Associate(user, Asks(uses, old(made)), uses(unit));
      LegitSnoc(old(made), old(asked), unit, uses(unit));
      SizesFit();
    }

    lemma {:induction false} InstanceFacts(i: nat)
      requires Valid() && i < |pending| && Front(pending) == i
      ensures forall k :: i < k < |pending| ==> !pending[k].emitted
      ensures !hadError ==> AskedFor(pending[i].unit, asked)
      ensures UnitsDistinct(pending) && pending[i].unit.Instance? && Job(pending[i].unit, true) !in lambdas
    {
    }

    method MarkInstance(i: nat)
      requires Valid() && i < |pending| && Front(pending) == i
      modifies this`pending
      ensures Valid() && pending == old(pending)[i := Job(old(pending)[i].unit, true)]
    {
      hide Complete, Fits;
      if !hadError { CompleteMarked(asked, pending, lambdas, i); }
      pending := pending[i := Job(pending[i].unit, true)];
    }

    /** flush_lambdas: the same for the lambdas. */
    method FlushLambdas(ghost user: seq<Use>)
      requires Valid() && Settled(user)
      modifies this
      ensures Valid() && Settled(user) && (old(hadError) ==> hadError)
      ensures !hadError ==> Front(lambdas) == |lambdas| >= |old(lambdas)| && Extends(old(pending), pending)
      ensures Front(old(lambdas)) == |old(lambdas)| ==> pending == old(pending) && lambdas == old(lambdas)
    {
      hide Valid, Complete, Extends, Emits, Front, Asks;
      var first := 0;
      ghost var beforePending := pending;
      SizesFit();
      ExtendsItself(pending);
      while first < |lambdas| && lambdas[first].emitted
        invariant 0 <= first <= |lambdas| && forall i :: 0 <= i < first ==> lambdas[i].emitted
      {
        first := first + 1;
      }
      FrontIs(lambdas, first);
      if first == |lambdas| { return; }
      var saved := output;
      output := [];
      var i := first;
      assert saved + output == saved;
      while i < |lambdas| && !hadError
        invariant first <= i <= |lambdas| <= MAX_LAMBDAS && |old(lambdas)| <= |lambdas| && Valid() && Front(lambdas) == i
        invariant Generated(saved + output, user)
        invariant (old(hadError) ==> hadError) && Extends(beforePending, pending) && declared == old(declared)
        invariant |output| == i - first && forall k :: 0 <= k < |output| ==> output[k] == lambdas[first + k].unit
        decreases MAX_LAMBDAS - i
      {
        GenerateLambda(i, saved, user, beforePending);
        i := i + 1;
      }
      var bodies := output;
      output := saved;
      Publish(lambdas, first, bodies);
    }

    method GenerateLambda(i: nat, ghost saved: seq<Unit>, ghost user: seq<Use>, ghost beforePending: seq<Job>)
      requires i < |lambdas| && Front(lambdas) == i && Valid() && !hadError && Generated(saved + output, user)
      requires Extends(beforePending, pending)
      modifies this`instantiated, this`pending, this`lambdas, this`counter, this`hadError, this`asked, this`cause, this`output, this`made
      ensures |old(lambdas)| <= |lambdas| <= MAX_LAMBDAS && Valid() && Front(lambdas) == i + 1
      ensures forall k :: 0 <= k < |old(lambdas)| ==> lambdas[k].unit == old(lambdas)[k].unit
      ensures output == old(output) + [old(lambdas)[i].unit] && Extends(beforePending, pending)
      ensures Generated(saved + output, user)
    {
      hide Valid, Complete, Emits, Extends, Asks;
      var unit := lambdas[i].unit;
      ghost var marked := lambdas[i := Job(unit, true)];
      ghost var middle := pending;
      LambdaFacts(i);
      MarkLambda(i);
      GenerateBody(unit);
      FrontIs(marked, i + 1);
      ExtendsFront(marked, lambdas);
      ExtendsTwice(beforePending, middle, pending);
      ExtendsKeeps(marked, lambdas);
      EmitSwap(saved + old(output), middle, old(lambdas));
      EmitStep(saved + old(output), old(lambdas), middle, i, lambdas, pending);
      EmitSwap(saved + old(output) + [unit], lambdas, pending);
      assert saved + output == saved + old(output) + [unit];
      AsksSnoc(uses, old(made), unit);
      Associate(user, Asks(uses, old(made)), uses(unit));
      LegitSnoc(old(made), old(asked), unit, uses(unit));
      SizesFit();
    }

    lemma {:induction false} LambdaFacts(i: nat)
      requires Valid() && i < |lambdas| && Front(lambdas) == i
      ensures forall k :: i < k < |lambdas| ==> !lambdas[k].emitted
      ensures !hadError ==> AskedFor(lambdas[i].unit, asked)
      ensures UnitsDistinct(lambdas) && Job(lambdas[i].unit, true) !in pending
    {
      if !hadError {
        assert Ids(lambdas)[i] in Closures(asked);
        ClosuresAsked(asked, lambdas[i].unit.id);
      }
    }

    method MarkLambda(i: nat)
      requires Valid() && i < |lambdas| && Front(lambdas) == i
      modifies this`lambdas
      ensures Valid() && lambdas == old(lambdas)[i := Job(old(lambdas)[i].unit, true)]
    {
      hide InstanceTable;
      lambdas := lambdas[i := Job(lambdas[i].unit, true)];
    }

    /** The end of c_end's loop: is anything still waiting? */
    method Waiting() returns (more: bool)
      ensures more <==> (exists j :: j in pending && !j.emitted) || (exists j :: j in lambdas && !j.emitted)
    {
      more := false;
      var i := 0;
      while i < |pending|
        invariant 0 <= i <= |pending| && (more <==> exists j :: j in pending[..i] && !j.emitted)
      {
        assert pending[..i + 1] == pending[..i] + [pending[i]];
        more := more || !pending[i].emitted;
        i := i + 1;
      }
      assert pending[..i] == pending;
      ghost var instances := more;
      i := 0;
      while i < |lambdas|
        invariant 0 <= i <= |lambdas| && (more <==> instances || exists j :: j in lambdas[..i] && !j.emitted)
      {
        assert lambdas[..i + 1] == lambdas[..i] + [lambdas[i]];
        more := more || !lambdas[i].emitted;
        i := i + 1;
      }
      assert lambdas[..i] == lambdas;
    }

    /** c_end: within its bounded number of passes everything is generated, unless there is an error. */
    method Finish(ghost user: seq<Use>)
      requires Valid() && Settled(user)
      modifies this
      ensures !hadError ==> ExactlyOnce(asked, output, lambdas) && asked == user + Asks(uses, output)
      ensures hadError ==> cause.Some? && Explains(cause.value, asked) && asked == user + Asks(uses, made) && Legit(made, asked)
      ensures !hadError ==> multiset(declared) == multiset(output)
    {
      hide Valid, Generated, Extends, Complete;
      var pass := 0;
      var more := true;
      ghost var unfinished := false;
      while pass < MAX_INSTANTIATED + MAX_LAMBDAS && !hadError && more
        invariant 0 <= pass && Valid() && Settled(user)
        invariant !hadError && more ==> pass <= Front(pending) + Front(lambdas)
        invariant !hadError && more && pass > 0 ==> Front(pending) < |pending| || Front(lambdas) < |lambdas|
        invariant !hadError && !more ==> Front(pending) == |pending| && Front(lambdas) == |lambdas|
      {
        more := Pass(user);
        pass := pass + 1;
      }
      SizesFit();
      if hadError { ErrorExplained(user); } else { AllOnce(user); }
    }

    /** One pass; when something is left, it has generated something. */
    method Pass(ghost user: seq<Use>) returns (more: bool)
      requires Valid() && Settled(user)
      modifies this
      ensures Valid() && Settled(user) && (old(hadError) ==> hadError)
      ensures !hadError ==> (more <==> Front(pending) < |pending| || Front(lambdas) < |lambdas|)
      ensures !hadError && more ==> Front(pending) + Front(lambdas) > Front(old(pending)) + Front(old(lambdas))
    {
      hide Valid, Settled, Generated, Extends, Complete;
      FlushPending(user);
      ghost var middle, middleLambdas := pending, lambdas;
      if !hadError { ExtendsFront(old(lambdas), lambdas); }
      FlushLambdas(user);
      if !hadError {
        ExtendsFront(middle, pending);
        ExtendsKeeps(middle, pending);
      }
      more := Waiting();
      FrontWaits(pending);
      FrontWaits(lambdas);
    }

    lemma {:induction false} ErrorExplained(user: seq<Use>)
      requires Valid() && Settled(user) && hadError
      ensures cause.Some? && Explains(cause.value, asked) && asked == user + Asks(uses, made) && Legit(made, asked)
    {
    }

    lemma {:induction false} AllOnce(user: seq<Use>)
      requires Valid() && Settled(user) && !hadError && Front(pending) == |pending| && Front(lambdas) == |lambdas|
      ensures ExactlyOnce(asked, output, lambdas) && asked == user + Asks(uses, output)
    {
      hide Complete, Symbol, Fits;
      OnceEach(instantiated, pending, lambdas, counter, asked, output);
    }
  }

  /** A whole compilation: what the program itself uses is recorded while its own text is generated. It fails
      only when something that the program or a generated body asks for is rejected by a limit. */
  method Compile(uses: Unit -> seq<Use>, program: seq<Use>) returns (ok: bool, declared: seq<Unit>, output: seq<Unit>)
    ensures ok ==> (forall i, j :: 0 <= i < j < |output| ==> Symbol(output[i]) != Symbol(output[j])) && Generates(uses, program, output)
    ensures ok ==> multiset(declared) == multiset(output)
    ensures !ok ==> exists made, c {:trigger Explains(c, program + Asks(uses, made))} ::
      Explains(c, program + Asks(uses, made)) && Legit(made, program + Asks(uses, made))
  {
    var g := new Generator(uses);
    var i := 0;
    while i < |program|
      invariant 0 <= i <= |program| && g.Valid() && g.uses == uses && fresh(g)
      invariant g.asked == program[..i] && g.made == [] && g.output == [] && g.declared == []
      invariant Emits([], g.pending, g.lambdas)
    {
      ghost var pending, lambdas := g.pending, g.lambdas;
      g.Ask(program[i]);
      ExtendsEmitted(pending, g.pending);
      ExtendsEmitted(lambdas, g.lambdas);
      i := i + 1;
    }
    assert program[..i] == program && program == program + Asks(uses, []);
    g.Finish(program);
    ok, declared, output := !g.hadError, g.declared, g.output;
    assert !ok ==> Explains(g.cause.value, program + Asks(uses, g.made));
    if ok { OnceGenerates(uses, program, output, g.lambdas); }
  }

  lemma {:induction false} FrontWaits(jobs: seq<Job>)
    ensures Front(jobs) < |jobs| ==> exists j :: j in jobs && !j.emitted
    ensures Front(jobs) == |jobs| ==> forall j :: j in jobs ==> j.emitted
  {
    if Front(jobs) < |jobs| { assert jobs[Front(jobs)] in jobs; }
  }

  /** The generated text: no two functions with the same symbol; exactly the instances asked for; one lambda
      function for each occurrence of a lambda expression. */
  ghost predicate ExactlyOnce(asked: seq<Use>, out: seq<Unit>, lambdas: seq<Job>) {
    && (forall i, j :: 0 <= i < j < |out| ==> Symbol(out[i]) != Symbol(out[j]))
    && (forall d, a :: Call(d, a) in asked <==> Instance(d, a) in out)
    && (forall n, id :: Lambda(n, id) in out <==> Listed(lambdas, Lambda(n, id)))
    && LambdasOnly(lambdas) && Ids(lambdas) == Closures(asked) && (forall i, j :: 0 <= i < j < |lambdas| ==> lambdas[i].unit != lambdas[j].unit)
    && Failure !in asked
  }

  // ----- what the generated text holds -----

  /** How often these functions use something. */
  ghost function Total(uses: Unit -> seq<Use>, units: seq<Unit>, use: Use): nat {
    if units == [] then 0 else Total(uses, units[..|units| - 1], use) + multiset(uses(units[|units| - 1]))[use]
  }

  /** An instance is generated exactly when the program or a generated function calls it; for every lambda
      expression there are as many functions as occurrences in the program and the generated functions. */
  ghost predicate Generates(uses: Unit -> seq<Use>, program: seq<Use>, out: seq<Unit>) {
    && (forall d, a :: Instance(d, a) in out <==> Call(d, a) in program || exists u :: u in out && Call(d, a) in uses(u))
    && (forall id :: |LambdasFor(out, id)| == multiset(program)[Closure(id)] + Total(uses, out, Closure(id)))
    && Failure !in program && forall u :: u in out ==> Failure !in uses(u)
  }

  ghost function LambdasFor(out: seq<Unit>, id: nat): set<Unit> { set u | u in out && u.Lambda? && u.id == id }

  lemma {:induction false} AsksMeaning(uses: Unit -> seq<Use>, units: seq<Unit>, use: Use)
    ensures multiset(Asks(uses, units))[use] == Total(uses, units, use)
    ensures use in Asks(uses, units) <==> exists u :: u in units && use in uses(u)
  {
    if units != [] {
      var front, last := units[..|units| - 1], units[|units| - 1];
      AsksMeaning(uses, front, use);
      assert units == front + [last];
    }
  }

  lemma {:induction false} ClosuresCount(asked: seq<Use>, id: nat)
    ensures multiset(Closures(asked))[id] == multiset(asked)[Closure(id)]
  {
    if asked != [] {
      var front, last := asked[..|asked| - 1], asked[|asked| - 1];
      ClosuresCount(front, id);
      assert asked == front + [last];
    }
  }

  /** Distinct lambda functions for an expression are as many as the expression's numbers in the table. */
  lemma {:induction false} LambdasCount(jobs: seq<Job>, id: nat)
    requires LambdasOnly(jobs) && forall i, j :: 0 <= i < j < |jobs| ==> jobs[i].unit != jobs[j].unit
    ensures |LambdasFor(Units(jobs), id)| == multiset(Ids(jobs))[id]
  {
    hide LambdasFor;
    if jobs == [] {
      NoLambdas(id);
      assert Units(jobs) == [];
    } else {
      var front, last := jobs[..|jobs| - 1], jobs[|jobs| - 1].unit;
      LambdasCount(front, id);
      assert Ids(jobs) == Ids(front) + [last.id] && Units(jobs) == Units(front) + [last];
      OneMoreLambda(Units(front), last, id);
    }
  }

  lemma {:induction false} NoLambdas(id: nat)
    ensures LambdasFor([], id) == {}
  {
  }

  lemma {:induction false} OneMoreLambda(units: seq<Unit>, u: Unit, id: nat)
    requires u.Lambda? && u !in units
    ensures |LambdasFor(units + [u], id)| == |LambdasFor(units, id)| + if u.id == id then 1 else 0
  {
    assert LambdasFor(units + [u], id) == LambdasFor(units, id) + if u.id == id then {u} else {};
  }

  ghost function Units(jobs: seq<Job>): (units: seq<Unit>)
    ensures |units| == |jobs| && forall i :: 0 <= i < |jobs| ==> units[i] == jobs[i].unit
  {
    seq(|jobs|, i requires 0 <= i < |jobs| => jobs[i].unit)
  }

  lemma {:induction false} OnceGenerates(uses: Unit -> seq<Use>, program: seq<Use>, out: seq<Unit>, lambdas: seq<Job>)
    requires ExactlyOnce(program + Asks(uses, out), out, lambdas)
    ensures Generates(uses, program, out)
  {
    hide Symbol, Asks, Closures, Total;
    var asked := program + Asks(uses, out);
    forall use
      ensures use in asked <==> use in program || exists u :: u in out && use in uses(u)
    {
      AsksMeaning(uses, out, use);
    }
    forall id
      ensures |LambdasFor(out, id)| == multiset(program)[Closure(id)] + Total(uses, out, Closure(id))
    {
      SameLambdas(out, lambdas, id);
      LambdasCount(lambdas, id);
      ClosuresCount(asked, id);
      AsksMeaning(uses, out, Closure(id));
    }
  }

  lemma {:induction false} SameLambdas(out: seq<Unit>, lambdas: seq<Job>, id: nat)
    requires LambdasOnly(lambdas) && forall n, m :: Lambda(n, m) in out <==> Listed(lambdas, Lambda(n, m))
    ensures LambdasFor(out, id) == LambdasFor(Units(lambdas), id)
  {
    forall u
      ensures u in LambdasFor(out, id) <==> u in LambdasFor(Units(lambdas), id)
    {
      if u.Lambda? {
        assert Lambda(u.number, u.id) in out <==> Listed(lambdas, Lambda(u.number, u.id));
        if u in Units(lambdas) {
          var i :| 0 <= i < |lambdas| && Units(lambdas)[i] == u;
          assert lambdas[i].unit == u;
        }
      }
    }
  }

  lemma {:induction false} OnceEach(instantiated: seq<string>, pending: seq<Job>, lambdas: seq<Job>, counter: nat, asked: seq<Use>, out: seq<Unit>)
    requires InstanceTable(instantiated, pending) && LambdaTable(lambdas, counter) && Complete(asked, pending, lambdas)
    requires Emits(out, pending, lambdas) && Front(pending) == |pending| && Front(lambdas) == |lambdas|
    ensures ExactlyOnce(asked, out, lambdas)
  {
    hide Symbol;
    forall u
      ensures u in out <==> Listed(pending, u) || Listed(lambdas, u)
    {
      DoneIsListed(pending, u);
      DoneIsListed(lambdas, u);
    }
    forall i, j | 0 <= i < j < |out|
      ensures Symbol(out[i]) != Symbol(out[j])
    {
      assert out[i] in out && out[j] in out;
      DistinctSymbols(instantiated, pending, lambdas, counter, out[i], out[j]);
    }
  }

  lemma {:induction false} DoneIsListed(jobs: seq<Job>, u: Unit)
    requires Front(jobs) == |jobs|
    ensures Job(u, true) in jobs <==> Listed(jobs, u)
  {
    if Listed(jobs, u) {
      var i :| 0 <= i < |jobs| && jobs[i].unit == u;
      assert jobs[i] == Job(u, true);
    }
  }

  lemma {:induction false} DistinctSymbols(instantiated: seq<string>, pending: seq<Job>, lambdas: seq<Job>, counter: nat, u: Unit, v: Unit)
    requires InstanceTable(instantiated, pending) && LambdaTable(lambdas, counter) && u != v
    requires Listed(pending, u) || Listed(lambdas, u)
    requires Listed(pending, v) || Listed(lambdas, v)
    ensures Symbol(u) != Symbol(v)
  {
    hide Symbol;
    if u.Instance? && v.Instance? {
      InstanceSymbols(u, v);
    } else if u.Lambda? {
      OtherSymbols(u, v);
    } else {
      OtherSymbols(v, u);
    }
  }

  lemma {:induction false} EmitSwap(out: seq<Unit>, jobs: seq<Job>, others: seq<Job>)
    requires Emits(out, jobs, others)
    ensures Emits(out, others, jobs)
  {
  }

  lemma {:induction false} LegitSnoc(made: seq<Unit>, asked: seq<Use>, unit: Unit, more: seq<Use>)
    requires Legit(made, asked) && AskedFor(unit, asked)
    ensures Legit(made + [unit], asked + more)
  {
  }

  lemma {:induction false} ClosuresAsked(asked: seq<Use>, id: nat)
    requires id in Closures(asked)
    ensures Closure(id) in asked
  {
    var use := asked[|asked| - 1];
    if use != Closure(id) { ClosuresAsked(asked[..|asked| - 1], id); }
  }

  lemma {:induction false} Associate(a: seq<Use>, b: seq<Use>, c: seq<Use>)
    ensures a + b + c == a + (b + c)
  {
  }

  lemma {:induction false} ExtendsKeeps(before: seq<Job>, after: seq<Job>)
    requires Extends(before, after)
    ensures |before| <= |after| && forall k :: 0 <= k < |before| ==> after[k] == before[k]
  {
  }

  lemma {:induction false} AsksSnoc(uses: Unit -> seq<Use>, units: seq<Unit>, unit: Unit)
    ensures Asks(uses, units + [unit]) == Asks(uses, units) + uses(unit)
  {
    assert (units + [unit])[..|units|] == units;
  }

  lemma {:induction false} CompleteMarked(asked: seq<Use>, pending: seq<Job>, lambdas: seq<Job>, i: nat)
    requires Complete(asked, pending, lambdas) && i < |pending|
    ensures Complete(asked, pending[i := Job(pending[i].unit, true)], lambdas)
  {
    var marked := pending[i := Job(pending[i].unit, true)];
    forall u
      ensures Listed(marked, u) <==> Listed(pending, u)
    {
      if Listed(pending, u) {
        var k :| 0 <= k < |pending| && pending[k].unit == u;
        assert marked[k].unit == u;
      }
    }
  }

  lemma {:induction false} ExtendsItself(jobs: seq<Job>)
    ensures Extends(jobs, jobs)
  {
  }

  lemma {:induction false} FoundIsListed(instantiated: seq<string>, pending: seq<Job>, unit: Unit)
    requires InstanceTable(instantiated, pending) && unit.Instance? && CountFits(unit.def, unit.arguments)
    ensures Symbol(unit) in instantiated <==> Listed(pending, unit)
  {
    hide Symbol;
    forall i | 0 <= i < |pending|
      ensures instantiated[i] == Symbol(unit) <==> pending[i].unit == unit
    {
      InstanceSymbols(pending[i].unit, unit);
    }
    if Listed(pending, unit) {
      var i :| 0 <= i < |pending| && pending[i].unit == unit;
      assert instantiated[i] == Symbol(unit);
    }
  }

  lemma {:induction false} CompleteStep(asked: seq<Use>, use: Use, pending: seq<Job>, lambdas: seq<Job>, later: seq<Job>, laterLambdas: seq<Job>)
    requires Complete(asked, pending, lambdas) && use != Failure
    requires match use
             case Call(d, a) =>
               laterLambdas == lambdas && later == pending + if Listed(pending, Instance(d, a)) then [] else [Job(Instance(d, a), false)]
             case Closure(id) =>
               later == pending && |laterLambdas| == |lambdas| + 1 && lambdas <= laterLambdas
               && laterLambdas[|lambdas|].unit.Lambda? && laterLambdas[|lambdas|].unit.id == id
             case Failure => true
    ensures Complete(asked + [use], later, laterLambdas)
  {
    assert (asked + [use])[..|asked|] == asked;
    forall d, a
      ensures Call(d, a) in asked + [use] <==> Listed(later, Instance(d, a))
    {
      if Listed(pending, Instance(d, a)) {
        var i :| 0 <= i < |pending| && pending[i].unit == Instance(d, a);
        assert later[i] == pending[i];
      }
      if use == Call(d, a) && !Listed(pending, Instance(d, a)) {
        assert later[|pending|].unit == Instance(d, a);
      }
    }
  }
}
