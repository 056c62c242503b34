/** The checked syntax tree the native lowering walks (include/front/ast.h). Every expression
    carries its resolved type, already mapped to a native type (Invalid when there is none). */
module Ast {
  import opened Wrappers
  import opened Numeric
  import opened NativeTypes

  datatype Expr =
    | IntLit(ty: NType, lit: Integer, suffixed: bool)
    | BoolLit(ty: NType, b: bool)
    | CharLit(ty: NType, c: nat)
    | UnitLit(ty: NType)
    | Ident(ty: NType, name: string)
    | Binary(ty: NType, op: BinOp, left: Expr, right: Expr)
    | Unary(ty: NType, uop: UnOp, operand: Expr)
    | Cast(ty: NType, checked: bool, operand: Expr)
    | Call(ty: NType, name: string, args: seq<Expr>)
    | IfExpr(ty: NType, cond: Expr, thn: Expr, els: Option<Expr>)
    | Block(ty: NType, exprs: seq<Expr>)
    | OtherExpr(ty: NType)

  datatype Branch = Branch(cond: Expr, body: seq<Stmt>)

  datatype Stmt =
    | Let(name: string, declared: Option<NType>, init: Expr)
    | Assign(name: string, compound: Option<BinOp>, value: Expr)
    | ExprStmt(expr: Expr)
    | ReturnStmt(result: Option<Expr>)
    | IfStmt(branches: seq<Branch>, elseBody: seq<Stmt>)
    | While(cond: Expr, body: seq<Stmt>)
    | Break(hasValue: bool)
    | Continue
    | OtherStmt

  datatype Param = Param(name: string, ty: NType)

  /** A function; no body means an external one. */
  datatype FunDecl = FunDecl(name: string, params: seq<Param>, result: NType, body: Option<seq<Stmt>>)
}
