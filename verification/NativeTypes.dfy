/** Scalar types of the native backend and the meaning of its integer operators
    (src/backend/native.c, src/base/types.c). Values are mathematical integers. */
module NativeTypes {
  import opened Words
  import opened Numeric

  datatype NType =
    | UnitT | I64 | U64 | BoolT
    | I8 | I16 | I32 | ISize | U8 | U16 | U32 | USize | CharT
    | Invalid

  /** Pointer widths in bits, of the compilation target and of the machine the compiler runs on. */
  datatype Target = Target(pointerBits: nat, hostPointerBits: nat)
  {
    ghost predicate Valid() {
      (pointerBits == 32 || pointerBits == 64) && (hostPointerBits == 32 || hostPointerBits == 64)
    }
  }

  datatype BinOp =
    | Add | Sub | Mul | Div | Mod
    | Eq | Ne | Lt | Le | Gt | Ge
    | And | Or | BAnd | BOr | BXor
    | Range | Shl | Shr | AssignSentinel

  datatype UnOp = Neg | Not | BNot | Ref | RefMut | Deref

  predicate IsComparison(op: BinOp) {
    op.Eq? || op.Ne? || op.Lt? || op.Le? || op.Gt? || op.Ge?
  }

  predicate IsInteger(t: NType) {
    !t.UnitT? && !t.BoolT? && !t.CharT? && !t.Invalid?
  }

  predicate IsSigned(t: NType) {
    t.I8? || t.I16? || t.I32? || t.I64? || t.ISize?
  }

  function SizeBits(pointer: nat, unit: nat, t: NType): nat {
    match t
    case I8 | U8 | BoolT | CharT => 8
    case I16 | U16 => 16
    case I32 | U32 => 32
    case I64 | U64 => 64
    case ISize | USize => pointer
    case UnitT | Invalid => unit
  }

  /** Width of a type on the target; unit falls back to the host pointer width. */
  function Bits(tg: Target, t: NType): nat { SizeBits(tg.pointerBits, tg.hostPointerBits, t) }

  /** Width as the implicit-conversion rule sees it: pointer-sized types use the host width. */
  function HostBits(tg: Target, t: NType): nat { SizeBits(tg.hostPointerBits, tg.hostPointerBits, t) }

  /** The value a word has when it is stored as a t. */
  function Canon(tg: Target, t: NType, v: int): int
    requires tg.Valid()
  {
    if t.BoolT? then (if v == 0 then 0 else 1)
    else Wrap(Bits(tg, t), IsSigned(t), v)
  }

  ghost predicate IsCanonical(tg: Target, t: NType, v: int)
    requires tg.Valid()
  {
    Canon(tg, t, v) == v
  }

  lemma {:induction false} CanonIdempotent(tg: Target, t: NType, v: int)
    requires tg.Valid()
    ensures Canon(tg, t, Canon(tg, t, v)) == Canon(tg, t, v)
  {
    if !t.BoolT? {
      WrapIdempotent(Bits(tg, t), IsSigned(t), v);
    }
  }

  /** What a conversion makes of a value; nothing when the types are the same. */
  function Converted(tg: Target, from: NType, to: NType, v: int): int
    requires tg.Valid()
  {
    if from != to then Canon(tg, to, v) else v
  }

  /** Arguments as the callee receives them: each read at its parameter's type. */
  function ArgsAs(tg: Target, types: seq<NType>, args: seq<int>): seq<int>
    requires tg.Valid()
  {
    seq(|args|, i requires 0 <= i < |args| => if i < |types| then Canon(tg, types[i], args[i]) else args[i])
  }

  /** Result of an operator: a value, a trap (CPU exception or abort), or no encoding at all. */
  datatype OpResult = OpValue(v: int) | OpTrap | OpWrong

  function Truth(b: bool): int { if b then 1 else 0 }

  lemma {:induction false} TwoFits(n: nat)
    requires n >= 2
    ensures Pow2(n) >= Pow2(n - 1) >= 2
  {
    Pow2Mono(1, n - 1);
  }

  lemma {:induction false} CanonTruth(tg: Target, t: NType, b: bool)
    requires tg.Valid()
    ensures Canon(tg, t, Truth(b)) == Truth(b)
  {
    hide Pow2;
    if !t.BoolT? {
      TwoFits(Bits(tg, t));
      WrapInRange(Bits(tg, t), IsSigned(t), Truth(b));
    }
  }

  lemma {:induction false} CanonZero(tg: Target, t: NType)
    requires tg.Valid()
    ensures Canon(tg, t, 0) == 0
  {
    CanonTruth(tg, t, false);
  }

  /** Division truncating toward zero, and the matching remainder. */
  function TruncDiv(a: int, b: int): int
    requires b != 0
  {
    var q := (if a < 0 then -a else a) / (if b < 0 then -b else b);
    if (a < 0) == (b < 0) then q else -q
  }

  function TruncMod(a: int, b: int): int
    requires b != 0
  {
    var r := (if a < 0 then -a else a) % (if b < 0 then -b else b);
    if a < 0 then -r else r
  }

  /** Bitwise operators on n-bit words. */
  function BitOp(op: BinOp, a: nat, b: nat, n: nat): nat {
    if n == 0 then 0
    else
      var x, y := a % 2, b % 2;
      var bit := if op.BAnd? then x * y else if op.BOr? then x + y - x * y else (x + y) % 2;
      bit + 2 * BitOp(op, a / 2, b / 2, n - 1)
  }

  function Unsigned64(v: int): nat { v % WORD64 }

  /** What an integer operator of type t computes. Operands are first read as t; arithmetic wraps
      at the width of t, shift counts are taken modulo the width, division truncates toward zero. */
  function BinarySem(tg: Target, t: NType, op: BinOp, left: int, right: int): OpResult
    requires tg.Valid()
  {
    var a, b := Canon(tg, t, left), Canon(tg, t, right);
    match op
    case Add => OpValue(Canon(tg, t, a + b))
    case Sub => OpValue(Canon(tg, t, a - b))
    case Mul => OpValue(Canon(tg, t, a * b))
    case Div | Mod =>
      if b == 0 || (IsSigned(t) && b == -1 && a == -Pow2(Bits(tg, t) - 1)) then OpTrap
      else OpValue(Canon(tg, t, if op.Div? then TruncDiv(a, b) else TruncMod(a, b)))
    case Shl => OpValue(Canon(tg, t, a * Pow2(b % Bits(tg, t))))
    case Shr => OpValue(Canon(tg, t, a / Pow2(b % Bits(tg, t))))
    case BAnd | BOr | BXor => OpValue(Canon(tg, t, BitOp(op, Unsigned64(a), Unsigned64(b), 64)))
    case Eq => OpValue(Truth(a == b))
    case Ne => OpValue(Truth(a != b))
    case Lt => OpValue(Truth(a < b))
    case Le => OpValue(Truth(a <= b))
    case Gt => OpValue(Truth(a > b))
    case Ge => OpValue(Truth(a >= b))
    case And | Or | Range | AssignSentinel => OpWrong
  }

  function UnarySem(tg: Target, t: NType, op: UnOp, v: int): OpResult
    requires tg.Valid()
  {
    match op
    case Neg => OpValue(Canon(tg, t, -v))
    case BNot => OpValue(Canon(tg, t, -1 - v))
    case Not => OpValue(Canon(tg, t, Truth(v == 0)))
    case Ref | RefMut | Deref => OpWrong
  }

  /** Implicit conversions: equal types, and integer widenings judged at host widths. */
  predicate Coercible(tg: Target, from: NType, to: NType) {
    from == to ||
    (IsInteger(from) && IsInteger(to) &&
     var source, target := HostBits(tg, from), HostBits(tg, to);
     if IsSigned(from) == IsSigned(to) then target >= source
     else !IsSigned(from) && IsSigned(to) && target > source)
  }
}
