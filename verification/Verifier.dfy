/** The IR verifier (n_verify in src/backend/native_lower.c): stack heights over the control flow. */
module Verifier {
  import opened Wrappers
  import opened NativeTypes
  import opened NativeIr
  import opened Lower
  import opened Counting

  // ----- what the verifier demands -----

  /** Operands an instruction takes from the stack, and its net effect. */
  function Need(funcs: seq<Func>, i: Inst): nat {
    match i
    case Store(_, _) | Drop | Jz(_) | Assert | Return(_) | Unary(_, _) | Convert(_, _) => 1
    case Binary(_, _) => 2
    case Call(_, g) => if g < |funcs| then |funcs[g].params| else 0
    case _ => 0
  }

  function Change(funcs: seq<Func>, i: Inst): int {
    match i
    case Const(_, _) | Load(_, _) => 1
    case Store(_, _) | Drop | Jz(_) | Assert | Return(_) | Binary(_, _) => -1
    case Call(_, g) => 1 - Need(funcs, i)
    case _ => 0
  }

  predicate TypeOk(i: Inst) {
    match i
    case Drop | Label(_) | Jump(_) | Jz(_) | Assert => true
    case Convert(t, from) => t != Invalid && t != UnitT && from != Invalid && from != UnitT
    case _ => i.ty != Invalid
  }

  /** Checks on one instruction by itself. */
  predicate InstOk(funcs: seq<Func>, f: Func, i: Inst) {
    TypeOk(i) &&
    match i
    case Label(id) => id < f.labels
    case Load(_, s) => s < f.slots
    case Store(_, s) => s < f.slots
    case Call(_, g) => g < |funcs|
    case _ => true
  }

  /** Every instruction is sound by itself and no label is marked twice. */
  ghost predicate CodeOk(funcs: seq<Func>, f: Func) {
    && (forall i :: 0 <= i < |f.code| ==> InstOk(funcs, f, f.code[i]))
    && (forall i, j :: 0 <= i < j < |f.code| && f.code[i].Label? ==> f.code[i] != f.code[j])
  }

  /** Where control can go next; None for a jump to an unmarked label. */
  function Successors(f: Func, pc: nat): seq<Option<nat>>
    requires pc < |f.code|
  {
    match f.code[pc]
    case Return(_) | End(_) => []
    case Jump(id) => [FindLabel(f.code, id, 0)]
    case Jz(id) => [Some(pc + 1), FindLabel(f.code, id, 0)]
    case _ => [Some(pc + 1)]
  }

  /** A function is only left at height 0, and falls off its end only if it returns unit. */
  predicate LeaveOk(f: Func, i: Inst, d: int) {
    match i
    case Return(_) => d == 0
    case End(_) => d == 0 && f.result == UnitT
    case _ => true
  }

  /** The height at pc covers what the instruction takes and flows to every successor. */
  ghost predicate NodeOk(funcs: seq<Func>, f: Func, a: seq<int>, pc: nat)
    requires pc < |f.code| == |a|
  {
    var i := f.code[pc];
    var d := a[pc] + Change(funcs, i);
    && Need(funcs, i) <= a[pc] && LeaveOk(f, i, d)
    && forall k :: 0 <= k < |Successors(f, pc)| ==> HeightAt(f, a, Successors(f, pc)[k], d)
  }

  predicate HeightAt(f: Func, a: seq<int>, pc: Option<nat>, d: int)
    requires |f.code| == |a|
  {
    pc.Some? && pc.value < |a| && a[pc.value] == d
  }

  /** A height for every instruction control can get to (-1 elsewhere) that all edges agree on. */
  ghost predicate Consistent(funcs: seq<Func>, f: Func, a: seq<int>) {
    && |a| == |f.code| && (|a| > 0 ==> a[0] == 0)
    && (forall pc :: 0 <= pc < |a| ==> a[pc] >= -1)
    && (forall pc :: 0 <= pc < |a| && a[pc] >= 0 ==> NodeOk(funcs, f, a, pc))
  }

  // ----- the worklist -----

  ghost predicate Agrees(d: seq<int>, a: seq<int>) {
    |d| == |a| && forall pc :: 0 <= pc < |d| && d[pc] >= 0 ==> d[pc] == a[pc]
  }

  /** Heights found so far and the instructions still to look at, in order of discovery. */
  class Worklist {
    const depth: array<int>
    const queue: array<nat>
    var tail: nat

    constructor (depth: array<int>)
      requires forall i :: 0 <= i < depth.Length ==> depth[i] == -1
      ensures this.depth == depth && fresh(queue) && tail == 0 && Valid()
    {
      this.depth := depth;
      queue := new nat[depth.Length + 1];
      tail := 0;
    }

    /** The queue holds exactly the instructions with a height, each once; the k-th found is at most k high. */
    ghost predicate Valid()
      reads this, depth, queue
    {
      && queue.Length == depth.Length + 1 && tail <= depth.Length
      && Distinct(queue[..tail])
      && (forall k :: 0 <= k < tail ==> queue[k] < depth.Length && 0 <= depth[queue[k]] <= k)
      && (forall pc :: 0 <= pc < depth.Length ==> depth[pc] >= -1 && (depth[pc] >= 0 <==> pc in queue[..tail]))
    }

    /** Control reaches target at height d. */
    method Visit(target: nat, d: int) returns (ok: bool)
      requires Valid() && 0 <= d <= tail
      modifies this`tail, depth, queue
      ensures Valid() && old(tail) <= tail && queue[..old(tail)] == old(queue[..tail])
      ensures ok <==> target < depth.Length && old(target < depth.Length ==> depth[target] == -1 || depth[target] == d)
      ensures ok ==> depth[..] == old(depth[..])[target := d]
      ensures !ok ==> depth[..] == old(depth[..]) && tail == old(tail)
    {
      if target >= depth.Length { return false; }
      if depth[target] == -1 {
        ghost var before := queue[..tail];
        Pigeonhole(before, depth.Length, target);
        depth[target] := d;
        queue[tail] := target;
        tail := tail + 1;
        assert queue[..tail] == before + [target];
        return true;
      }
      ok := depth[target] == d;
    }
  }

  // ----- facts the run rests on -----

  /** A consistent height map that agrees with what was found demands what the step demands. */
  lemma {:induction false} Forced(funcs: seq<Func>, f: Func, d: seq<int>, a: seq<int>, pc: nat)
    requires Consistent(funcs, f, a) && Agrees(d, a) && pc < |d| && d[pc] >= 0
    ensures |d| == |f.code| && NodeOk(funcs, f, a, pc) && a[pc] == d[pc]
  {
  }

  /** Recording another height does not disturb instructions already checked. */
  lemma {:induction false} NodeKept(funcs: seq<Func>, f: Func, d: seq<int>, e: seq<int>, pc: nat)
    requires |d| == |e| == |f.code| && pc < |d| && d[pc] >= 0
    requires forall i :: 0 <= i < |d| && d[i] >= 0 ==> e[i] == d[i]
    requires NodeOk(funcs, f, d, pc)
    ensures NodeOk(funcs, f, e, pc)
  {
    ChangeBound(funcs, f.code[pc], d[pc]);
    hide Change, Need, Successors;
    forall k | 0 <= k < |Successors(f, pc)|
      ensures HeightAt(f, e, Successors(f, pc)[k], e[pc] + Change(funcs, f.code[pc]))
    {
      assert HeightAt(f, d, Successors(f, pc)[k], d[pc] + Change(funcs, f.code[pc]));
    }
  }

  lemma {:induction false} ChangeBound(funcs: seq<Func>, i: Inst, h: int)
    ensures Need(funcs, i) <= h ==> 0 <= h + Change(funcs, i) <= h + 1
  {
  }

  // ----- the verifier -----

  ghost predicate OkUpto(funcs: seq<Func>, f: Func, n: nat)
    requires n <= |f.code|
  {
    && (forall i :: 0 <= i < n ==> InstOk(funcs, f, f.code[i]))
    && (forall i, j :: 0 <= i < j < n && f.code[i].Label? ==> f.code[i] != f.code[j])
  }

  /** t maps each label to its position among the first n instructions, -1 when it has none yet. */
  ghost predicate Table(code: seq<Inst>, n: nat, t: seq<int>)
    requires n <= |code|
  {
    forall id :: 0 <= id < |t| ==>
      (t[id] == -1 && forall j :: 0 <= j < n ==> code[j] != Label(id)) ||
      (0 <= t[id] < n && code[t[id]] == Label(id))
  }

  lemma {:induction false} OneMore(funcs: seq<Func>, f: Func, n: nat, t: seq<int>)
    requires n < |f.code| && OkUpto(funcs, f, n) && Table(f.code, n, t) && |t| == f.labels
    ensures var i := f.code[n];
      var free := InstOk(funcs, f, i) && (i.Label? ==> t[i.id] == -1);
      && (OkUpto(funcs, f, n + 1) <==> free)
      && (free ==> Table(f.code, n + 1, if i.Label? then t[i.id := n] else t))
  {
    var i := f.code[n];
    if i.Label? && i.id < f.labels && t[i.id] != -1 {
      assert f.code[t[i.id]] == i;
    }
  }

  ghost predicate Resolves(code: seq<Inst>, t: seq<int>) {
    forall id: nat {:trigger t[id]} :: id < |t| ==>
      t[id] == (match FindLabel(code, id, 0) case Some(l) => l as int case None => -1)
  }

  lemma {:induction false} TableResolves(code: seq<Inst>, t: seq<int>)
    requires Table(code, |code|, t)
    requires forall i, j :: 0 <= i < j < |code| && code[i].Label? ==> code[i] != code[j]
    ensures Resolves(code, t)
  {
    forall id: nat | id < |t|
      ensures t[id] == (match FindLabel(code, id, 0) case Some(l) => l as int case None => -1)
    {
      var r := FindLabel(code, id, 0);
      if t[id] >= 0 {
        assert code[t[id]] == Label(id);
      }
    }
  }

  /** First pass: each instruction by itself, and where each label is. */
  method CheckInstructions(p: Program, f: Func, labels: array<int>) returns (ok: bool)
    requires labels.Length == f.labels && forall i :: 0 <= i < labels.Length ==> labels[i] == -1
    modifies labels
    ensures ok <==> CodeOk(p.funcs, f)
    ensures ok ==> Resolves(f.code, labels[..])
  {
    ok := true;
    var i := 0;
    while i < |f.code|
      invariant 0 <= i <= |f.code|
      invariant ok <==> OkUpto(p.funcs, f, i)
      invariant ok ==> Table(f.code, i, labels[..])
    {
      var inst := f.code[i];
      if ok { OneMore(p.funcs, f, i, labels[..]); }
      hide OkUpto, Table;
      if !inst.Drop? && !inst.Label? && !inst.Jump? && !inst.Jz? && !inst.Assert? && inst.ty == Invalid { ok := false; }
      if inst.Convert? && (inst.from == Invalid || inst.from == UnitT || inst.ty == UnitT) { ok := false; }
      match inst {
        case Label(id) =>
          if id >= f.labels || labels[id] != -1 {
            ok := false;
          } else {
            labels[id] := i;
          }
        case Load(_, s) => if s >= f.slots { ok := false; }
        case Store(_, s) => if s >= f.slots { ok := false; }
        case Call(_, g) => if g >= |p.funcs| { ok := false; }
        case _ =>
      }
      i := i + 1;
    }
    if ok { TableResolves(f.code, labels[..]); }
  }

  ghost predicate NoHeights(funcs: seq<Func>, f: Func) {
    forall a :: !Consistent(funcs, f, a)
  }

  /** Everything in the queue before head has been checked. */
  ghost predicate Checked(funcs: seq<Func>, f: Func, d: seq<int>, q: seq<nat>)
    requires |d| == |f.code|
  {
    forall k :: 0 <= k < |q| ==> q[k] < |d| && d[q[k]] >= 0 && NodeOk(funcs, f, d, q[k])
  }

  /** Positions of the successors, or None at a jump to an unmarked label. */
  method Targets(f: Func, labels: array<int>, index: nat) returns (r: Option<seq<nat>>)
    requires index < |f.code| && labels.Length == f.labels && Resolves(f.code, labels[..])
    requires forall j :: 0 <= j < |f.code| && f.code[j].Label? ==> f.code[j].id < f.labels
    ensures r.None? ==> None in Successors(f, index)
    ensures r.Some? ==> |r.value| == |Successors(f, index)| && forall k :: 0 <= k < |r.value| ==> Successors(f, index)[k] == Some(r.value[k])
  {
    hide Resolves;
    var i := f.code[index];
    if i.Return? || i.End? { return Some([]); }
    if !i.Jump? && !i.Jz? { return Some([index + 1]); }
    ghost var l := FindLabel(f.code, i.id, 0);
    if i.id < f.labels { ResolvesAt(f.code, labels[..], i.id); }
    if i.id >= f.labels || labels[i.id] == -1 {
      assert Successors(f, index)[|Successors(f, index)| - 1] == l == None;
      return None;
    }
    r := Some(if i.Jump? then [labels[i.id]] else [index + 1, labels[i.id]]);
  }

  lemma {:induction false} ResolvesAt(code: seq<Inst>, t: seq<int>, id: nat)
    requires Resolves(code, t) && id < |t|
    ensures t[id] == (match FindLabel(code, id, 0) case Some(l) => l as int case None => -1)
  {
  }

  /** Look at one instruction: its demands, then its successors. */
  method Inspect(p: Program, f: Func, w: Worklist, labels: array<int>, head: nat) returns (ok: bool)
    requires w.Valid() && w.depth.Length == |f.code| <= MAX_IR && head < w.tail
    requires CodeOk(p.funcs, f) && labels.Length == f.labels && labels != w.depth
    requires Resolves(f.code, labels[..])
    requires Checked(p.funcs, f, w.depth[..], w.queue[..head])
    requires forall a :: Consistent(p.funcs, f, a) ==> Agrees(w.depth[..], a)
    modifies w`tail, w.depth, w.queue
    ensures w.Valid() && old(w.tail) <= w.tail && w.queue[..old(w.tail)] == old(w.queue[..w.tail])
    ensures ok ==> Checked(p.funcs, f, w.depth[..], w.queue[..head + 1])
    ensures ok ==> forall a :: Consistent(p.funcs, f, a) ==> Agrees(w.depth[..], a)
    ensures Extends(old(w.depth[..]), w.depth[..])
    ensures !ok ==> NoHeights(p.funcs, f)
  {
    hide Checked, Consistent, Agrees, Resolves, NodeOk, LeaveOk, Need, Change, Successors;
    var index := w.queue[head];
    var inst := f.code[index];
    var need, d := Need(p.funcs, inst), w.depth[index] + Change(p.funcs, inst);
    ghost var before := w.depth[..];
    assert before[index] == w.depth[index];
    ChangeBound(p.funcs, inst, w.depth[index]);
    if w.depth[index] < need || d > MAX_IR || !LeaveOk(f, inst, d) {
      NoneLeft(p.funcs, f, before, index);
      return false;
    }
    var targets := Targets(f, labels, index);
    if targets == None {
      NoneLeft(p.funcs, f, before, index);
      return false;
    }
    ok := VisitAll(p, f, w, index, targets.value, d);
    if ok {
      PrefixOf(old(w.queue[..]), old(w.tail), head + 1);
      PrefixOf(w.queue[..], old(w.tail), head + 1);
      assert old(w.queue[..])[..head + 1] == old(w.queue[..head]) + [index];
      Done(p.funcs, f, before, w.depth[..], old(w.queue[..head]), index, targets.value, d);
    }
  }

  lemma {:induction false} PrefixOf(s: seq<nat>, m: nat, n: nat)
    requires n <= m <= |s|
    ensures s[..n] == s[..m][..n]
  {
  }

  /** Control flows from index to each of its successors at height d. */
  method VisitAll(p: Program, f: Func, w: Worklist, index: nat, targets: seq<nat>, d: int) returns (ok: bool)
    requires w.Valid() && w.depth.Length == |f.code| && index < |f.code| && w.depth[index] >= 0 && 0 <= d <= w.tail
    requires d == w.depth[index] + Change(p.funcs, f.code[index])
    requires |targets| == |Successors(f, index)| && forall k :: 0 <= k < |targets| ==> Successors(f, index)[k] == Some(targets[k])
    requires forall a :: Consistent(p.funcs, f, a) ==> Agrees(w.depth[..], a)
    modifies w`tail, w.depth, w.queue
    ensures w.Valid() && old(w.tail) <= w.tail && w.queue[..old(w.tail)] == old(w.queue[..w.tail])
    ensures Extends(old(w.depth[..]), w.depth[..])
    ensures ok ==> AllAt(w.depth[..], targets, |targets|, d)
    ensures ok ==> forall a :: Consistent(p.funcs, f, a) ==> Agrees(w.depth[..], a)
    ensures !ok ==> NoHeights(p.funcs, f)
  {
    hide Consistent, Agrees, Change, Successors, NoHeights, Extends, AllAt;
    AllAtStart(w.depth[..], targets, d);
    ghost var before := w.depth[..];
    var j := 0;
    ok := true;
    while j < |targets| && ok
      invariant 0 <= j <= |targets| && w.Valid()
      invariant old(w.tail) <= w.tail && w.queue[..old(w.tail)] == old(w.queue[..w.tail])
      invariant Extends(before, w.depth[..])
      invariant ok ==> AllAt(w.depth[..], targets, j, d)
      invariant ok ==> forall a :: Consistent(p.funcs, f, a) ==> Agrees(w.depth[..], a)
      invariant !ok ==> NoHeights(p.funcs, f)
      decreases |targets| - j, ok
    {
      ghost var now, queued := w.depth[..], w.queue[..w.tail];
      PrefixOf(w.queue[..], w.tail, old(w.tail));
      ok := w.Visit(targets[j], d);
      PrefixOf(w.queue[..], |queued|, old(w.tail));
      Forces(p.funcs, f, before, now, index, j, targets[j], d, ok);
      Recorded(before, now, w.depth[..], targets, j, d, ok);
      j := j + 1;
    }
  }

  ghost predicate Extends(d: seq<int>, e: seq<int>) {
    |d| == |e| && forall i :: 0 <= i < |d| && d[i] >= 0 ==> e[i] == d[i]
  }

  ghost predicate AllAt(now: seq<int>, targets: seq<nat>, n: nat, d: int)
    requires n <= |targets|
  {
    forall i :: 0 <= i < n ==> targets[i] < |now| && now[targets[i]] == d
  }

  lemma {:induction false} AllAtStart(now: seq<int>, targets: seq<nat>, d: int)
    ensures AllAt(now, targets, 0, d) && Extends(now, now)
  {
  }

  lemma {:induction false} Recorded(before: seq<int>, now: seq<int>, after: seq<int>, targets: seq<nat>, j: nat, d: int, ok: bool)
    requires Extends(before, now) && j < |targets| && AllAt(now, targets, j, d)
    requires forall i :: 0 <= i < |before| ==> before[i] >= -1
    requires ok ==> targets[j] < |now| && (now[targets[j]] == -1 || now[targets[j]] == d) && after == now[targets[j] := d]
    requires !ok ==> after == now
    ensures Extends(before, after) && (ok ==> AllAt(after, targets, j + 1, d))
  {
  }

  /** What one successor forces: if it can take height d, every height map agrees; if not, there is none. */
  lemma {:induction false} Forces(funcs: seq<Func>, f: Func, before: seq<int>, now: seq<int>, index: nat, j: nat, target: nat, d: int, ok: bool)
    requires |now| == |before| == |f.code| && index < |f.code| && before[index] >= 0 && Extends(before, now)
    requires d == before[index] + Change(funcs, f.code[index])
    requires j < |Successors(f, index)| && Successors(f, index)[j] == Some(target)
    requires forall a :: Consistent(funcs, f, a) ==> Agrees(now, a)
    requires ok <==> target < |now| && (now[target] == -1 || now[target] == d)
    requires forall i :: 0 <= i < |now| ==> now[i] >= -1
    ensures ok ==> forall a :: Consistent(funcs, f, a) ==> Agrees(now[target := d], a)
    ensures !ok ==> NoHeights(funcs, f)
  {
    forall a | Consistent(funcs, f, a)
      ensures ok && Agrees(now[target := d], a)
    {
      Forced(funcs, f, now, a, index);
      assert HeightAt(f, a, Successors(f, index)[j], d);
    }
  }

  lemma {:induction false} Done(funcs: seq<Func>, f: Func, before: seq<int>, now: seq<int>, q: seq<nat>, index: nat, targets: seq<nat>, d: int)
    requires |before| == |f.code| && Extends(before, now) && index < |f.code| && before[index] >= 0
    requires Checked(funcs, f, before, q) && d == before[index] + Change(funcs, f.code[index])
    requires Need(funcs, f.code[index]) <= before[index] && LeaveOk(f, f.code[index], d)
    requires |targets| == |Successors(f, index)| && forall k :: 0 <= k < |targets| ==> Successors(f, index)[k] == Some(targets[k])
    requires AllAt(now, targets, |targets|, d)
    ensures Checked(funcs, f, now, q + [index])
  {
    hide Successors, LeaveOk, Change, Need;
    forall k | 0 <= k < |q|
      ensures q[k] < |now| && now[q[k]] >= 0 && NodeOk(funcs, f, now, q[k])
    {
      NodeKept(funcs, f, before, now, q[k]);
    }
    assert NodeOk(funcs, f, now, index);
  }

  /** An instruction whose demands fail at its forced height rules out every height map. */
  lemma {:induction false} NoneLeft(funcs: seq<Func>, f: Func, d: seq<int>, pc: nat)
    requires |d| == |f.code| && pc < |d| && d[pc] >= 0
    requires forall a :: Consistent(funcs, f, a) ==> Agrees(d, a)
    requires Need(funcs, f.code[pc]) > d[pc] || !LeaveOk(f, f.code[pc], d[pc] + Change(funcs, f.code[pc])) || None in Successors(f, pc)
    ensures NoHeights(funcs, f)
  {
    forall a
      ensures !Consistent(funcs, f, a)
    {
      if Consistent(funcs, f, a) { Forced(funcs, f, d, a, pc); }
    }
  }

  lemma {:induction false} Start(funcs: seq<Func>, f: Func, d: seq<int>)
    requires |d| == |f.code| && forall pc :: 0 < pc < |d| ==> d[pc] == -1
    requires |d| > 0 ==> d[0] == 0
    ensures forall a :: Consistent(funcs, f, a) ==> Agrees(d, a)
  {
    hide NodeOk;
  }

  lemma {:induction false} Finish(funcs: seq<Func>, f: Func, d: seq<int>, q: seq<nat>)
    requires |d| == |f.code| && (|d| > 0 ==> d[0] == 0)
    requires Checked(funcs, f, d, q) && forall pc :: 0 <= pc < |d| ==> d[pc] >= -1 && (d[pc] >= 0 ==> pc in q)
    ensures Consistent(funcs, f, d)
  {
    hide NodeOk;
    forall pc | 0 <= pc < |d| && d[pc] >= 0
      ensures NodeOk(funcs, f, d, pc)
    {
      var k :| 0 <= k < |q| && q[k] == pc;
    }
  }

  /** Accepts exactly when a consistent height map exists, and then leaves the least one in depth. */
  method Verify(p: Program, g: nat, depth: array<int>) returns (ok: bool)
    requires g < |p.funcs| && depth.Length == |p.funcs[g].code| <= MAX_IR
    requires forall i :: 0 <= i < depth.Length ==> depth[i] == -1
    modifies depth
    ensures ok <==> CodeOk(p.funcs, p.funcs[g]) && exists a :: Consistent(p.funcs, p.funcs[g], a)
    ensures ok ==> Consistent(p.funcs, p.funcs[g], depth[..])
    ensures ok ==> forall a :: Consistent(p.funcs, p.funcs[g], a) ==> Agrees(depth[..], a)
  {
    hide NodeOk, CodeOk, Consistent, Agrees, Resolves;
    var f := p.funcs[g];
    var labels := new int[f.labels](_ => -1);
    ok := CheckInstructions(p, f, labels);
    if !ok { return; }
    var w := new Worklist(depth);
    if depth.Length > 0 { var _ := w.Visit(0, 0); }
    Start(p.funcs, f, depth[..]);
    var head := 0;
    while head < w.tail && ok
      invariant w.Valid() && w.depth == depth && fresh(w) && fresh(w.queue) && head <= w.tail
      invariant Resolves(f.code, labels[..])
      invariant ok ==> Checked(p.funcs, f, depth[..], w.queue[..head])
      invariant ok ==> forall a :: Consistent(p.funcs, f, a) ==> Agrees(depth[..], a)
      invariant ok && depth.Length > 0 ==> depth[0] == 0
      invariant !ok ==> NoHeights(p.funcs, f)
      decreases depth.Length - head, ok
    {
      ok := Inspect(p, f, w, labels, head);
      head := head + 1;
    }
    if ok {
      assert w.queue[..head] == w.queue[..w.tail];
      Finish(p.funcs, f, depth[..], w.queue[..w.tail]);
    }
  }
}
