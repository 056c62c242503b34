/** Integer arithmetic of the C runtime (__reo_conv_mask, __reo_conv_signed and __reo_conv_binary in
    src/backend/runtime_conversion.c), on 128-bit words, and its agreement with the IR operators. */
module RuntimeArithmetic {
  import opened Words
  import opened BitWords
  import opened NativeTypes

  const WORD128 := 0x1_0000_0000_0000_0000_0000_0000_0000_0000
  type U128 = x: nat | x < 0x1_0000_0000_0000_0000_0000_0000_0000_0000

  /** The cast of a C integer to the 128-bit type. */
  function Cast(v: int): U128 { v % WORD128 }

  predicate Width(bits: nat) { bits == 8 || bits == 16 || bits == 32 || bits == 64 || bits == 128 }

  lemma {:induction false} WidthFacts(bits: nat)
    requires Width(bits)
    ensures Pow2(128) == WORD128 && Pow2(bits) <= WORD128 && Pow2(bits) == 2 * Pow2(bits - 1)
    ensures WORD128 == Pow2(128 - bits) * Pow2(bits)
  {
    Pow2Values();
    Pow2Add(64, 64);
    Pow2Add(128 - bits, bits);
    Pow2Mono(bits, 128);
  }

  function Mask(bits: nat): U128
    requires Width(bits)
  {
    WidthFacts(bits);
    if bits == 128 then WORD128 - 1 else Pow2(bits) - 1
  }

  function SignBit(bits: nat): U128
    requires Width(bits)
  {
    WidthFacts(bits);
    Pow2(bits - 1)
  }

  function Signed(value: U128, bits: nat): int
    requires Width(bits)
  {
    var v := AndW(value, Mask(bits), 128);
    if AndW(v, SignBit(bits), 128) != 0 then -1 - (Mask(bits) - v) else v
  }

  datatype Conv = Value(v: U128) | Abort

  /** A shift count: the low bits of the right operand. */
  function ShiftCount(b: nat, bits: nat): nat
    requires Width(bits)
  {
    AndW(b % 0x1_0000_0000, bits - 1, 32)
  }

  function ShiftRight(a: nat, bits: nat, signed: bool, shift: nat): nat
    requires Width(bits)
  {
    DivNonNegative(a, Pow2(shift));
    DivNonNegative(Mask(bits), Pow2(shift));
    var result := a / Pow2(shift);
    if signed && shift != 0 && AndW(a, SignBit(bits), 128) != 0
    then OrW(result, XorW(Mask(bits), Mask(bits) / Pow2(shift), 128), 128)
    else result
  }

  function Quotient(a: nat, b: nat, operation: nat): nat
    requires b > 0
  {
    DivNonNegative(a, b);
    if operation == 3 then a / b else a % b
  }

  function DivideSigned(a: U128, b: U128, bits: nat, operation: nat): Conv
    requires Width(bits) && 0 < b < Pow2(bits)
  {
    var x, y := Signed(a, bits), Signed(b, bits);
    SignedZero(b, bits);
    if a == SignBit(bits) && y == -1 then Abort
    else Value(Cast(if operation == 3 then TruncDiv(x, y) else TruncMod(x, y)))
  }

  lemma {:induction false} Masked(v: U128, bits: nat)
    requires Width(bits)
    ensures AndW(v, Mask(bits), 128) < Pow2(bits) <= WORD128
  {
    WidthFacts(bits);
    MaskIsMod(v, bits);
  }

  /** Operations 0 to 6: add, subtract, multiply, divide, remainder, shift left, shift right. */
  function ConvBinary(left: U128, right: U128, bits: nat, signed: bool, operation: nat): Conv
    requires Width(bits)
  {
    var mask := Mask(bits);
    var a, b := AndW(left, mask, 128), AndW(right, mask, 128);
    if operation == 0 then Value(Cast(AndW(Cast(a + b), mask, 128)))
    else if operation == 1 then Value(Cast(AndW(Cast(a - b), mask, 128)))
    else if operation == 2 then Value(Cast(AndW(Cast(a * b), mask, 128)))
    else if operation == 5 then Value(Cast(AndW(Cast(a * Pow2(ShiftCount(b, bits))), mask, 128)))
    else if operation == 6 then Value(Cast(ShiftRight(a, bits, signed, ShiftCount(b, bits))))
    else if b == 0 then Abort
    else if !signed then Value(Cast(Quotient(a, b, operation)))
    else
      Masked(left, bits);
      Masked(right, bits);
      DivideSigned(a, b, bits, operation)
  }

  // ----- what it means -----

  lemma {:induction false} MaskIsMod(v: nat, bits: nat)
    requires Width(bits)
    ensures AndW(v, Mask(bits), 128) == v % Pow2(bits) && Mask(bits) == Pow2(bits) - 1
  {
    hide AndW, Pow2;
    WidthFacts(bits);
    AndMask(v, bits, 128);
  }

  lemma {:induction false} SignedIsWrap(value: U128, bits: nat)
    requires Width(bits)
    ensures Signed(value, bits) == Wrap(bits, true, value)
  {
    WidthFacts(bits);
    MaskIsMod(value, bits);
    SignSet(value % Pow2(bits), bits);
  }

  /** The sign test: the top bit of a word that fits the width. */
  lemma {:induction false} SignSet(v: nat, bits: nat)
    requires Width(bits) && v < Pow2(bits)
    ensures AndW(v, SignBit(bits), 128) != 0 <==> v >= Pow2(bits - 1)
  {
    hide BitOp, Pow2;
    WidthFacts(bits);
    AndBit(v, bits - 1, 128);
    TopBit(v, Pow2(bits - 1));
  }

  lemma {:induction false} TopBit(v: nat, h: nat)
    requires h > 0 && v < 2 * h
    ensures ((v / h) % 2) * h != 0 <==> v >= h
  {
    if v >= h {
      ModUnique(v, h, 1, v - h);
    } else {
      ModUnique(v, h, 0, v);
    }
  }

  lemma {:induction false} SignedZero(b: U128, bits: nat)
    requires Width(bits) && 0 < b < Pow2(bits)
    ensures Signed(b, bits) != 0
  {
    WidthFacts(bits);
    SignedIsWrap(b, bits);
    ModUnique(b, Pow2(bits), 0, b);
  }

  /** A word read as a value of an integer type. */
  function Read(v: U128, bits: nat, signed: bool): int
    requires Width(bits)
  {
    if signed then Signed(v, bits) else v
  }

  datatype Exact = Exactly(v: int) | Undefined

  /** The operation on integers, before it is brought back to the width. */
  function ExactOp(x: int, y: int, bits: nat, signed: bool, operation: nat): Exact
    requires Width(bits)
  {
    if operation == 0 then Exactly(x + y)
    else if operation == 1 then Exactly(x - y)
    else if operation == 2 then Exactly(x * y)
    else if operation == 5 then Exactly(x * Pow2(y % bits))
    else if operation == 6 then Exactly(x / Pow2(y % bits))
    else if y == 0 || (signed && y == -1 && x == -Pow2(bits - 1)) then Undefined
    else Exactly(if operation == 3 then TruncDiv(x, y) else TruncMod(x, y))
  }

  // ----- the main result -----

  lemma {:induction false} ReadIsWrap(v: U128, bits: nat, signed: bool)
    requires Width(bits) && (!signed ==> v < Pow2(bits))
    ensures Read(v, bits, signed) == Wrap(bits, signed, v)
  {
    if signed {
      SignedIsWrap(v, bits);
    } else {
      ModUnique(v, Pow2(bits), 0, v);
    }
  }

  /** A 128-bit cast changes nothing modulo a narrower width. */
  lemma {:induction false} CastKeeps(v: int, bits: nat)
    requires Width(bits)
    ensures Cast(v) % Pow2(bits) == v % Pow2(bits)
  {
    WidthFacts(bits);
    ModNested(v, Pow2(bits), Pow2(128 - bits));
  }

  /** What a masked 128-bit result is read as. */
  lemma {:induction false} MaskedResult(e: int, bits: nat, signed: bool)
    requires Width(bits)
    ensures Cast(AndW(Cast(e), Mask(bits), 128)) == e % Pow2(bits)
    ensures Read(Cast(AndW(Cast(e), Mask(bits), 128)), bits, signed) == Wrap(bits, signed, e)
  {
    hide Pow2, BitOp, Signed, AndW;
    WidthFacts(bits);
    MaskIsMod(Cast(e), bits);
    CastKeeps(e, bits);
    var m := e % Pow2(bits);
    ModUnique(m, WORD128, 0, m);
    ModIdempotent(e, Pow2(bits));
    ReadIsWrap(m, bits, signed);
  }

  lemma {:induction false} WrapOfCongruent(n: nat, signed: bool, u: int, v: int)
    requires n >= 1 && u % Pow2(n) == v % Pow2(n)
    ensures Wrap(n, signed, u) == Wrap(n, signed, v)
  {
  }

  /** The operands as values of the type, and as the words the runtime computes with. */
  ghost predicate Operand(v: U128, bits: nat, signed: bool, a: nat, x: int)
    requires Width(bits)
  {
    && a == AndW(v, Mask(bits), 128) == v % Pow2(bits) && x == Wrap(bits, signed, v)
    && x % Pow2(bits) == a % Pow2(bits) == a && a < Pow2(bits)
  }

  lemma {:induction false} OperandFacts(v: U128, bits: nat, signed: bool) returns (a: nat, x: int)
    requires Width(bits)
    ensures Operand(v, bits, signed, a, x)
    ensures x == (if signed && a >= Pow2(bits - 1) then a - Pow2(bits) else a)
  {
    MaskIsMod(v, bits);
    a, x := AndW(v, Mask(bits), 128), Wrap(bits, signed, v);
    ModUnique(a, Pow2(bits), 0, a);
    if x != a {
      ModUnique(x, Pow2(bits), -1, a);
    }
  }

  lemma {:induction false} ExactCongruent(a: int, b: int, x: int, y: int, P: int, operation: nat)
    requires P > 0 && x % P == a % P && y % P == b % P
    ensures Combined(a, b, operation) % P == Combined(x, y, operation) % P
  {
    CongruentAdd(a, b, x, y, P);
    CongruentMul(a, b, x, y, P);
  }

  function Combined(a: int, b: int, operation: nat): int {
    if operation == 0 then a + b else if operation == 1 then a - b else a * b
  }

  /** Sums, differences and products. */
  lemma {:induction false} ConvSum(left: U128, right: U128, bits: nat, signed: bool, operation: nat)
    requires Width(bits) && operation <= 2
    ensures Agrees(left, right, bits, signed, operation)
  {
    hide Pow2, BitOp, Signed, AndW, Wrap, Mask, Combined;
    var a, x := OperandFacts(left, bits, signed);
    var b, y := OperandFacts(right, bits, signed);
    ExactCongruent(a, b, x, y, Pow2(bits), operation);
    MaskedResult(Combined(a, b, operation), bits, signed);
    WrapOfCongruent(bits, signed, Combined(a, b, operation), Combined(x, y, operation));
    ConvSumForm(left, right, bits, signed, operation, x, y);
  }

  lemma {:induction false} ConvSumForm(left: U128, right: U128, bits: nat, signed: bool, operation: nat, x: int, y: int)
    requires Width(bits) && operation <= 2
    ensures ConvBinary(left, right, bits, signed, operation) ==
      Value(Cast(AndW(Cast(Combined(AndW(left, Mask(bits), 128), AndW(right, Mask(bits), 128), operation)), Mask(bits), 128)))
    ensures ExactOp(x, y, bits, signed, operation) == Exactly(Combined(x, y, operation))
  {
    hide Mask, AndW;
  }

  /** The runtime aborts exactly when the operation is undefined, and otherwise gives its value at the width. */
  ghost predicate Agrees(left: U128, right: U128, bits: nat, signed: bool, operation: nat)
    requires Width(bits)
  {
    var r := ConvBinary(left, right, bits, signed, operation);
    match ExactOp(Wrap(bits, signed, left), Wrap(bits, signed, right), bits, signed, operation)
    case Undefined => r.Abort?
    case Exactly(e) => r.Value? && Read(r.v, bits, signed) == Wrap(bits, signed, e)
  }

  // ----- shifts -----

  function Log(bits: nat): nat {
    if bits == 8 then 3 else if bits == 16 then 4 else if bits == 32 then 5 else if bits == 64 then 6 else 7
  }

  lemma {:induction false} LogPower(bits: nat)
    requires Width(bits)
    ensures Pow2(Log(bits)) == bits && Log(bits) < bits
    ensures 0x1_0000_0000 == Pow2(32 - Log(bits)) * bits
    ensures Pow2(bits) == Pow2(bits - Log(bits)) * bits
  {
    assert Pow2(3) == 8 && Pow2(4) == 16 && Pow2(5) == 32 && Pow2(6) == 64 && Pow2(7) == 128;
    Pow2Values();
    Pow2Add(32 - Log(bits), Log(bits));
    Pow2Add(bits - Log(bits), Log(bits));
  }

  /** The low bits of the right operand are its value modulo the width. */
  lemma {:induction false} ShiftCountIs(b: nat, y: int, bits: nat)
    requires Width(bits) && y % Pow2(bits) == b % Pow2(bits)
    ensures ShiftCount(b, bits) == y % bits
  {
    hide Pow2, BitOp, AndW;
    LogPower(bits);
    AndMask(b % 0x1_0000_0000, Log(bits), 32);
    ModNested(b, bits, Pow2(32 - Log(bits)));
    ModNested(b, bits, Pow2(bits - Log(bits)));
    ModNested(y, bits, Pow2(bits - Log(bits)));
  }

  lemma {:induction false} ConvShl(left: U128, right: U128, bits: nat, signed: bool)
    requires Width(bits)
    ensures Agrees(left, right, bits, signed, 5)
  {
    hide Pow2, BitOp, Signed, AndW, Wrap, Mask, ShiftCount;
    var a, x := OperandFacts(left, bits, signed);
    var b, y := OperandFacts(right, bits, signed);
    ShiftCountIs(b, y, bits);
    var q := Pow2(y % bits);
    CongruentMul(a, q, x, q, Pow2(bits));
    ConvShlForm(left, right, bits, signed, a, b, x, y, a * q, x * q);
  }

  lemma {:induction false} ConvShlForm(left: U128, right: U128, bits: nat, signed: bool, a: nat, b: nat, x: int, y: int, e: int, e': int)
    requires Width(bits) && Operand(left, bits, signed, a, x) && Operand(right, bits, signed, b, y)
    requires e == a * Pow2(ShiftCount(b, bits)) && e' == x * Pow2(y % bits) && e % Pow2(bits) == e' % Pow2(bits)
    ensures Agrees(left, right, bits, signed, 5)
  {
    hide Pow2, BitOp, Signed, AndW, Wrap, Mask, ShiftCount;
    MaskedResult(e, bits, signed);
    WrapOfCongruent(bits, signed, e, e');
  }

  /** A right shift divides, rounding down, whatever the sign. */
  lemma {:induction false} ShiftRightIs(a: nat, x: int, bits: nat, signed: bool, s: nat)
    requires Width(bits) && a < Pow2(bits) && s < bits
    requires x == (if signed && a >= Pow2(bits - 1) then a - Pow2(bits) else a)
    ensures ShiftRight(a, bits, signed, s) == (x / Pow2(s)) % Pow2(bits)
  {
    hide BitOp, Pow2, AndW, OrW, XorW, Mask;
    var P, Q := Pow2(bits), Pow2(s);
    SignSet(a, bits);
    if x == a {
      DivNonNegative(a, Q);
      ModUnique(a / Q, P, 0, a / Q);
    } else if s == 0 {
      Pow2Zero();
      ModUnique(x, P, -1, a);
    } else {
      SignFill(a, bits, s);
    }
  }

  lemma {:induction false} SignFill(a: nat, bits: nat, s: nat)
    requires Width(bits) && a < Pow2(bits) && 0 < s < bits
    ensures Mask(bits) / Pow2(s) >= 0 && a / Pow2(s) >= 0
    ensures OrW(a / Pow2(s), XorW(Mask(bits), Mask(bits) / Pow2(s), 128), 128) == ((a - Pow2(bits)) / Pow2(s)) % Pow2(bits)
  {
    hide BitOp, Pow2, AndW, OrW, XorW, Mask;
    var P, Q, R := Pow2(bits), Pow2(s), Pow2(bits - s);
    Pow2Add(s, bits - s);
    Pow2Mono(bits - s, bits);
    MaskIsMod(a, bits);
    FillBits(a, P, Q, R);
    XorMasks(bits, bits - s, 128);
    WidthFacts(bits);
    Pow2Mono(bits, 128);
    OrDisjoint(a / Q, P - R, bits - s, 128);
  }

  lemma {:induction false} Pow2Zero()
    ensures Pow2(0) == 1
  {
  }

  lemma {:induction false} FillMask(P: int, Q: int, R: int)
    requires Q > 0 && R > 0 && P == Q * R
    ensures (P - 1) / Q == R - 1 && (P - R) % R == 0
  {
    MulAdd(R, 1, Q);
    ModUnique(P - 1, Q, R - 1, Q - 1);
    MulAdd(Q, 1, R);
    ModUnique(P - R, R, Q - 1, 0);
  }

  lemma {:induction false} FillQuotient(a: nat, P: int, Q: int, R: int)
    requires Q > 0 && R > 0 && P == Q * R && a < P
    ensures 0 <= a / Q < R && (a - P) / Q == a / Q - R
  {
    var q, r := a / Q, a % Q;
    assert a == q * Q + r;
    MulAdd(q, R, Q);
    MulGap(q - R, Q);
    ModUnique(a - P, Q, q - R, r);
    DivNonNegative(a, Q);
  }

  lemma {:induction false} FillBits(a: nat, P: int, Q: int, R: int)
    requires Q > 0 && R > 0 && P == Q * R && a < P && R <= P
    ensures (P - 1) / Q == R - 1 && (P - R) % R == 0 && 0 <= a / Q < R
    ensures ((a - P) / Q) % P == a / Q + (P - R) && a / Q + (P - R) < P
  {
    FillMask(P, Q, R);
    FillQuotient(a, P, Q, R);
    var q := a / Q;
    ModUnique(q - R, P, -1, q + (P - R));
  }

  lemma {:induction false} ConvShr(left: U128, right: U128, bits: nat, signed: bool)
    requires Width(bits)
    ensures Agrees(left, right, bits, signed, 6)
  {
    hide Pow2, BitOp, Signed, AndW, Wrap, Mask, ShiftCount, ShiftRight;
    var a, x := OperandFacts(left, bits, signed);
    var b, y := OperandFacts(right, bits, signed);
    ShiftCountIs(b, y, bits);
    ShiftRightIs(a, x, bits, signed, y % bits);
    var e := x / Pow2(y % bits);
    ConvShrForm(left, right, bits, signed, a, b, x, y, e);
  }

  lemma {:induction false} ConvShrForm(left: U128, right: U128, bits: nat, signed: bool, a: nat, b: nat, x: int, y: int, e: int)
    requires Width(bits) && Operand(left, bits, signed, a, x) && Operand(right, bits, signed, b, y)
    requires ShiftRight(a, bits, signed, ShiftCount(b, bits)) == e % Pow2(bits) && e == x / Pow2(y % bits)
    ensures Agrees(left, right, bits, signed, 6)
  {
    hide Pow2, BitOp, Signed, AndW, Wrap, Mask, ShiftCount, ShiftRight;
    WidthFacts(bits);
    var m := e % Pow2(bits);
    ModUnique(m, WORD128, 0, m);
    ModIdempotent(e, Pow2(bits));
    ReadIsWrap(m, bits, signed);
    WrapOfCongruent(bits, signed, m, e);
  }

  // ----- division -----

  lemma {:induction false} TruncDivBound(x: int, y: int)
    requires y != 0
    ensures 0 - Abs(x) <= TruncDiv(x, y) <= Abs(x) && 0 - Abs(x) <= TruncMod(x, y) <= Abs(x)
    ensures x >= 0 && y > 0 ==> TruncDiv(x, y) == x / y && TruncMod(x, y) == x % y
  {
    var a, b := Abs(x), Abs(y);
    DivNonNegative(a, b);
    assert a == (a / b) * b + a % b;
    assert (a / b) * b >= 0;
  }

  function Abs(x: int): nat { if x < 0 then -x else x }

  /** Quotients and remainders. */
  lemma {:induction false} ConvDivide(left: U128, right: U128, bits: nat, signed: bool, operation: nat)
    requires Width(bits) && (operation == 3 || operation == 4)
    ensures Agrees(left, right, bits, signed, operation)
  {
    hide Pow2, BitOp, AndW, Mask, TruncDiv, TruncMod, Signed, Wrap, DivideSigned, Quotient;
    var a, x := OperandFacts(left, bits, signed);
    var b, y := OperandFacts(right, bits, signed);
    WidthFacts(bits);
    if b == 0 { return; }
    if signed {
      WrapOfCongruent(bits, true, left, a);
      WrapOfCongruent(bits, true, right, b);
      DivideSignedIs(a, b, bits, x, y, operation);
    } else {
      DivideUnsignedIs(a, b, bits, operation);
    }
  }

  lemma {:induction false} DivideUnsignedIs(a: U128, b: U128, bits: nat, operation: nat)
    requires Width(bits) && a < Pow2(bits) && 0 < b && (operation == 3 || operation == 4)
    ensures var e := if operation == 3 then TruncDiv(a, b) else TruncMod(a, b);
      e == Quotient(a, b, operation) && Cast(e) == e && Read(Cast(e), bits, false) == Wrap(bits, false, e)
  {
    hide Pow2, TruncDiv, TruncMod, Wrap;
    TruncDivBound(a, b);
    var e := if operation == 3 then TruncDiv(a, b) else TruncMod(a, b);
    DivNonNegative(a, b);
    ModUnique(e, WORD128, 0, e);
    ReadIsWrap(e, bits, false);
  }

  lemma {:induction false} DivideSignedIs(a: U128, b: U128, bits: nat, x: int, y: int, operation: nat)
    requires Width(bits) && a < Pow2(bits) && 0 < b < Pow2(bits) && (operation == 3 || operation == 4)
    requires x == Wrap(bits, true, a) && y == Wrap(bits, true, b)
    ensures y != 0
    ensures var r := DivideSigned(a, b, bits, operation);
      if y == -1 && x == -Pow2(bits - 1) then r.Abort?
      else r.Value? && Read(r.v, bits, true) == Wrap(bits, true, if operation == 3 then TruncDiv(x, y) else TruncMod(x, y))
  {
    hide BitOp, AndW, Mask, TruncDiv, TruncMod, Signed;
    WidthFacts(bits);
    SignedZero(b, bits);
    SignedIsWrap(a, bits);
    SignedIsWrap(b, bits);
    ModUnique(a, Pow2(bits), 0, a);
    var e := if operation == 3 then TruncDiv(x, y) else TruncMod(x, y);
    CastKeeps(e, bits);
    SignedIsWrap(Cast(e), bits);
  }

  /** The C runtime's integer operators, at every width it has. */
  lemma {:induction false} ConvBinaryIsExact(left: U128, right: U128, bits: nat, signed: bool, operation: nat)
    requires Width(bits) && operation <= 6
    ensures Agrees(left, right, bits, signed, operation)
  {
    if operation <= 2 {
      ConvSum(left, right, bits, signed, operation);
    } else if operation == 5 {
      ConvShl(left, right, bits, signed);
    } else if operation == 6 {
      ConvShr(left, right, bits, signed);
    } else {
      ConvDivide(left, right, bits, signed, operation);
    }
  }

  // ----- agreement with the IR -----

  function OpCode(op: BinOp): nat {
    match op
    case Add => 0
    case Sub => 1
    case Mul => 2
    case Div => 3
    case Mod => 4
    case Shl => 5
    case Shr => 6
    case _ => 7
  }

  /** Two backends, one meaning: the operator of the IR and the call emitted by the C backend trap on the
      same operands and otherwise give the same value. */
  lemma {:induction false} RuntimeAgreesWithIr(tg: Target, t: NType, op: BinOp, left: int, right: int)
    requires tg.Valid() && IsInteger(t) && OpCode(op) <= 6
    ensures Width(Bits(tg, t))
    ensures var r := ConvBinary(Cast(left), Cast(right), Bits(tg, t), IsSigned(t), OpCode(op));
      match BinarySem(tg, t, op, left, right)
      case OpTrap => r.Abort?
      case OpValue(v) => r.Value? && Read(r.v, Bits(tg, t), IsSigned(t)) == v
      case OpWrong => false
  {
    hide Pow2, Wrap, ConvBinary, TruncDiv, TruncMod;
    var n := Bits(tg, t);
    ConvBinaryIsExact(Cast(left), Cast(right), n, IsSigned(t), OpCode(op));
    CastKeeps(left, n);
    CastKeeps(right, n);
    WrapOfCongruent(n, IsSigned(t), Cast(left), left);
    WrapOfCongruent(n, IsSigned(t), Cast(right), right);
  }
}
