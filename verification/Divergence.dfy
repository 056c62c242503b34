/** Divergence analysis of the checker (expr_diverges, stmt_diverges, block_diverges in src/analysis/sema.c). */
module Divergence {
  import opened Wrappers
  import opened NativeTypes
  import opened Ast
  import opened LowerSpec

  /** What the analysis sees beyond the native view of the tree: which expressions have type never,
      and, for a match (which the native backend does not have), whether all its arms diverge. */
  datatype Analysis = Analysis(never: Expr -> bool, matchDiverges: Expr -> bool)

  /** never has no native type. */
  ghost predicate Faithful(k: Analysis) {
    forall e :: k.never(e) ==> e.ty == Invalid
  }

  predicate ExprDiverges(k: Analysis, e: Expr)
    decreases e
  {
    k.never(e) ||
    match e
    case Block(_, es) => SomeDiverges(k, es)
    case IfExpr(_, _, thn, Some(els)) => ExprDiverges(k, thn) && ExprDiverges(k, els)
    case OtherExpr(_) => k.matchDiverges(e)
    case _ => false
  }

  predicate SomeDiverges(k: Analysis, es: seq<Expr>)
    decreases es
  {
    es != [] && (ExprDiverges(k, es[0]) || SomeDiverges(k, es[1..]))
  }

  // ----- what it means for an expression to diverge -----

  /** A way through an expression, given the arm each if takes, that meets nothing of type never and no
      diverging match. */
  ghost predicate GetsThrough(k: Analysis, arm: Expr -> bool, e: Expr)
    decreases e
  {
    && !k.never(e) && !(e.OtherExpr? && k.matchDiverges(e))
    && (e.Block? ==> forall i :: 0 <= i < |e.exprs| ==> GetsThrough(k, arm, e.exprs[i]))
    && (e.IfExpr? && e.els.Some? ==> if arm(e) then GetsThrough(k, arm, e.thn) else GetsThrough(k, arm, e.els.value))
  }

  /** An expression diverges exactly when there is no way through it, whichever arms are taken. */
  lemma {:induction false} DivergesWhenNoWayThrough(k: Analysis, e: Expr)
    ensures ExprDiverges(k, e) <==> forall arm :: !GetsThrough(k, arm, e)
  {
    if ExprDiverges(k, e) {
      forall arm
        ensures !GetsThrough(k, arm, e)
      {
        NoWayThrough(k, arm, e);
      }
    } else {
      WayThrough(k, e);
      var arm := (x: Expr) => x.IfExpr? && !ExprDiverges(k, x.thn);
      assert GetsThrough(k, arm, e);
    }
  }

  lemma {:induction false} NoWayThrough(k: Analysis, arm: Expr -> bool, e: Expr)
    requires ExprDiverges(k, e)
    ensures !GetsThrough(k, arm, e)
    decreases e
  {
    if !k.never(e) {
      match e
      case Block(_, es) =>
        var i := DivergingOne(k, es);
        NoWayThrough(k, arm, es[i]);
      case IfExpr(_, _, thn, Some(els)) =>
        NoWayThrough(k, arm, thn);
        NoWayThrough(k, arm, els);
      case _ =>
    }
  }

  lemma {:induction false} DivergingOne(k: Analysis, es: seq<Expr>) returns (i: nat)
    requires SomeDiverges(k, es)
    ensures i < |es| && ExprDiverges(k, es[i])
  {
    if ExprDiverges(k, es[0]) {
      i := 0;
    } else {
      i := DivergingOne(k, es[1..]);
      i := i + 1;
    }
  }

  lemma {:induction false} WayThrough(k: Analysis, e: Expr)
    requires !ExprDiverges(k, e)
    ensures GetsThrough(k, (x: Expr) => x.IfExpr? && !ExprDiverges(k, x.thn), e)
    decreases e
  {
    var arm := (x: Expr) => x.IfExpr? && !ExprDiverges(k, x.thn);
    match e
    case Block(_, es) =>
      forall i | 0 <= i < |es|
        ensures GetsThrough(k, arm, es[i])
      {
        NoneDiverges(k, es, i);
        WayThrough(k, es[i]);
      }
    case IfExpr(_, _, thn, Some(els)) =>
      if arm(e) { WayThrough(k, thn); } else { WayThrough(k, els); }
    case _ =>
  }

  lemma {:induction false} NoneDiverges(k: Analysis, es: seq<Expr>, i: nat)
    requires !SomeDiverges(k, es) && i < |es|
    ensures !ExprDiverges(k, es[i])
  {
    if i > 0 { NoneDiverges(k, es[1..], i - 1); }
  }

  predicate StmtDiverges(k: Analysis, s: Stmt)
    decreases s
  {
    match s
    case ReturnStmt(_) => true
    case ExprStmt(e) => ExprDiverges(k, e)
    case IfStmt(bs, els) => els != [] && AllBranchesDiverge(k, bs) && BlockDiverges(k, els)
    case _ => false
  }

  predicate AllBranchesDiverge(k: Analysis, bs: seq<Branch>)
    decreases bs
  {
    bs == [] || (BlockDiverges(k, bs[0].body) && AllBranchesDiverge(k, bs[1..]))
  }

  predicate BlockDiverges(k: Analysis, ss: seq<Stmt>)
    decreases ss
  {
    ss != [] && (StmtDiverges(k, ss[0]) || BlockDiverges(k, ss[1..]))
  }

  /** An expression the native lowering accepts never diverges: only statements do. */
  lemma {:induction false} AcceptedDoesNotDiverge(k: Analysis, c: Unit, ctx: seq<Local>, e: Expr)
    requires Faithful(k) && TypeE(c, ctx, e) != Invalid
    ensures !ExprDiverges(k, e)
    decreases e
  {
    hide PlanOf, Lookup, FindFunction, Compatible, ArgsOk;
    match e
    case Block(_, es) => AcceptedBlockDoesNotDiverge(k, c, ctx, es);
    case IfExpr(_, _, thn, Some(els)) => AcceptedDoesNotDiverge(k, c, ctx, thn);
    case _ =>
  }

  lemma {:induction false} AcceptedBlockDoesNotDiverge(k: Analysis, c: Unit, ctx: seq<Local>, es: seq<Expr>)
    requires Faithful(k) && TypeBlock(c, ctx, es) != Invalid
    ensures !SomeDiverges(k, es)
    decreases es
  {
    hide TypeE;
    if es == [] { return; }
    AcceptedDoesNotDiverge(k, c, ctx, es[0]);
    if |es| == 1 {
      assert es[1..] == [];
    } else {
      AcceptedBlockDoesNotDiverge(k, c, ctx, es[1..]);
    }
  }
}
