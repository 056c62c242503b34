/** Code emitted for x86-64 (src/backend/native_x64.c), as steps on 64-bit registers. Operands are on the
    stack; every word there is the 64-bit extension of a value of its type. */
module X64 {
  import opened Words
  import opened Numeric
  import opened NativeTypes
  import opened BitWords

  /** The low 64 bits of an integer. */
  function Low(v: int): Word64 { v % WORD64 }

  /** A register read as two's complement. */
  function Sign64(w: Word64): int { if w >= 0x8000_0000_0000_0000 then w - WORD64 else w }

  /** A word that is the extension of a value of type t. */
  ghost predicate Canonical(tg: Target, t: NType, w: Word64)
    requires tg.Valid()
  {
    Low(Canon(tg, t, w)) == w
  }

  /** movsx and movzx: the low k bits, extended. */
  function Extend(k: nat, signed: bool, w: Word64): Word64
    requires k == 8 || k == 16 || k == 32
  {
    Pow2Values();
    var low := w % Pow2(k);
    if signed && low >= Pow2(k - 1) then low + (WORD64 - Pow2(k)) else low
  }

  class Machine {
    const target: Target
    var rax: Word64
    var rcx: Word64
    var rdx: Word64
    var stack: seq<Word64>
    var slots: seq<Word64>
    var trapped: bool

    ghost predicate Valid()
      reads this
    {
      target.Valid() && target.pointerBits == 64 && !trapped
    }

    method Pop() returns (w: Word64)
      requires |stack| >= 1
      modifies this`stack
      ensures w == old(stack[|stack| - 1]) && stack == old(stack[..|stack| - 1])
    {
      w := stack[|stack| - 1];
      stack := stack[..|stack| - 1];
    }

    method Push()
      modifies this`stack
      ensures stack == old(stack) + [rax]
    {
      stack := stack + [rax];
    }

    /** Bring rax back to the extension of a value of type t. */
    method Normalize(t: NType)
      requires Valid()
      modifies this`rax
      ensures rax == Low(Canon(target, t, old(rax)))
    {
      NormalForm(target, t, rax);
      if t.BoolT? {
        rax := if rax != 0 then 1 else 0;
        return;
      }
      var bits := Bits(target, t);
      if bits == 8 || bits == 16 || bits == 32 {
        rax := Extend(bits, IsSigned(t), rax);
      }
    }

    /** idiv rcx: the 128-bit rdx:rax over rcx; a CPU exception when the quotient does not exist or fit. */
    method SignedDivide()
      requires !trapped
      modifies this`rax, this`rdx, this`trapped
      ensures var d, c := Sign64(old(rdx)) * WORD64 + old(rax), Sign64(rcx);
        if c == 0 || !(-0x8000_0000_0000_0000 <= TruncDiv(d, c) < 0x8000_0000_0000_0000) then trapped
        else !trapped && rax == Low(TruncDiv(d, c)) && rdx == Low(TruncMod(d, c))
    {
      var d, c := Sign64(rdx) * WORD64 + rax, Sign64(rcx);
      if c == 0 || !(-0x8000_0000_0000_0000 <= TruncDiv(d, c) < 0x8000_0000_0000_0000) {
        trapped := true;
      } else {
        rax, rdx := Low(TruncDiv(d, c)), Low(TruncMod(d, c));
      }
    }

    /** div rcx. */
    method UnsignedDivide()
      requires !trapped
      modifies this`rax, this`rdx, this`trapped
      ensures var d := old(rdx) * WORD64 + old(rax);
        if rcx == 0 || d / rcx >= WORD64 then trapped
        else !trapped && rax == Low(d / rcx) && rdx == Low(d % rcx)
    {
      var d := rdx * WORD64 + rax;
      if rcx == 0 || d / rcx >= WORD64 {
        trapped := true;
      } else {
        rax, rdx := Low(d / rcx), Low(d % rcx);
      }
    }

    /** Division and remainder. idiv alone cannot see an overflow narrower than 64 bits. */
    method Divide(t: NType, remainder: bool)
      requires Valid() && Canonical(target, t, rax) && Canonical(target, t, rcx)
      modifies this`rax, this`rdx, this`trapped
      ensures var a, b := Canon(target, t, old(rax)), Canon(target, t, rcx);
        if b == 0 || (IsSigned(t) && b == -1 && a == -Pow2(Bits(target, t) - 1)) then trapped
        else !trapped && rax == Low(if remainder then TruncMod(a, b) else TruncDiv(a, b))
    {
      hide Pow2, Canon, TruncDiv, TruncMod, Canonical;
      CanonicalValue(target, t, rax);
      CanonicalValue(target, t, rcx);
      NarrowMinimum(Bits(target, t));
      if IsSigned(t) && Bits(target, t) < 64 {
        if rcx == Low(-1) && rax == Low(-Pow2(Bits(target, t) - 1)) {
          trapped := true;
          return;
        }
      }
      if IsSigned(t) {
        SignedQuotient(Sign64(rax), Sign64(rcx));
        rdx := if Sign64(rax) < 0 then Low(-1) else 0;
        SignedDivide();
      } else {
        UnsignedQuotient(rax, rcx);
        rdx := 0;
        UnsignedDivide();
      }
      if remainder && !trapped { rax := rdx; }
    }

    /** Shifts by cl. The count is cut to the width of the type first; the CPU cuts it to 6 bits. */
    method Shift(t: NType, left: bool)
      requires Valid() && Canonical(target, t, rax) && Canonical(target, t, rcx)
      modifies this`rax, this`rcx
      ensures var a, c := Canon(target, t, old(rax)), Canon(target, t, old(rcx)) % Bits(target, t);
        rax == Low(if left then a * Pow2(c) else a / Pow2(c))
    {
      hide Pow2, Canon, Canonical, BitOp;
      CanonicalValue(target, t, rax);
      CountIs(target, t, rcx);
      if Bits(target, t) < 64 {
        rcx := rcx - rcx % 256 + AndW(rcx % 256, Bits(target, t) - 1, 8);
      }
      var count := (rcx % 256) % 64;
      ghost var a := Canon(target, t, rax);
      if left {
        ShiftedLeft(a, rax, Pow2(count));
        rax := Low(rax * Pow2(count));
      } else if IsSigned(t) {
        rax := Low(Sign64(rax) / Pow2(count));
      } else {
        rax := Low(rax / Pow2(count));
      }
    }

    /** cmp and setcc: the condition code depends on the operator and on the signedness of the type. */
    method Compare(t: NType, op: BinOp)
      requires Valid() && IsComparison(op) && Canonical(target, t, rax) && Canonical(target, t, rcx)
      modifies this`rax
      ensures BinarySem(target, t, op, old(rax), rcx) == OpValue(rax)
      ensures rax == 0 || rax == 1
    {
      hide Canon, Canonical, BinarySem;
      OrderOnWords(target, t, rax, rcx);
      ComparisonIs(target, t, op, rax, rcx);
      var below := if IsSigned(t) then Sign64(rax) < Sign64(rcx) else rax < rcx;
      var equal := rax == rcx;
      var holds :=
        match op
        case Eq => equal
        case Ne => !equal
        case Lt => below
        case Le => below || equal
        case Gt => !(below || equal)
        case _ => !below;
      rax := if holds then 1 else 0;
    }

    /** An operator on the two topmost words. Fails, while encoding, on operators without a machine form. */
    method Binary(t: NType, op: BinOp) returns (encoded: bool)
      requires Valid() && |stack| >= 2
      requires Canonical(target, t, stack[|stack| - 2]) && Canonical(target, t, stack[|stack| - 1])
      modifies this`rax, this`rcx, this`rdx, this`stack, this`trapped
      ensures var n := old(|stack|);
        var r := BinarySem(target, t, op, old(stack[n - 2]), old(stack[n - 1]));
        && (encoded <==> !r.OpWrong?)
        && (encoded ==> (trapped <==> r.OpTrap?))
        && (r.OpValue? ==> stack == old(stack[..n - 2]) + [Low(r.v)] && Canonical(target, t, Low(r.v)))
    {
      hide BinarySem, Canon, Canonical;
      rcx := Pop();
      rax := Pop();
      encoded := Operate(t, op);
      if !encoded || trapped { return; }
      Normalize(t);
      Push();
    }

    /** The instructions between the pops and the normalisation. */
    method Operate(t: NType, op: BinOp) returns (encoded: bool)
      requires Valid() && Canonical(target, t, rax) && Canonical(target, t, rcx)
      modifies this`rax, this`rcx, this`rdx, this`trapped
      ensures var r := BinarySem(target, t, op, old(rax), old(rcx));
        && (encoded <==> !r.OpWrong?)
        && (encoded ==> (trapped <==> r.OpTrap?))
        && (r.OpValue? ==> Settles(target, t, r.v, rax))
    {
      hide Canon, Canonical, Settles, BitOp, Pow2, TruncDiv, TruncMod, Low, Sign64;
      encoded := true;
      ghost var a, b := Canon(target, t, rax), Canon(target, t, rcx);
      ghost var left, right := rax, rcx;
      match op
      case Add =>
        LowArithmetic(target, t, rax, rcx);
        rax := Low(rax + rcx);
        Settle(target, t, a + b, rax);
      case Sub =>
        LowArithmetic(target, t, rax, rcx);
        rax := Low(rax - rcx);
        Settle(target, t, a - b, rax);
      case Mul =>
        LowArithmetic(target, t, rax, rcx);
        rax := Low(Sign64(rax) * Sign64(rcx));
        Settle(target, t, a * b, rax);
      case Div | Mod =>
        Divide(t, op.Mod?);
        if !trapped { SettleQuotient(target, t, left, right, op, rax); }
      case BAnd | BOr | BXor =>
        WordsOf(target, t, rax);
        WordsOf(target, t, rcx);
        BitOpBound(op, rax, rcx, 64);
        rax := BitOp(op, rax, rcx, 64);
        LowOf(rax);
        Settle(target, t, rax, rax);
      case Shl | Shr =>
        Shift(t, op.Shl?);
        SettleShift(target, t, left, right, op, rax);
      case Eq | Ne | Lt | Le | Gt | Ge =>
        Compare(t, op);
        SettleTruth(target, t, rax);
      case And | Or | Range | AssignSentinel =>
        encoded := false;
    }

    // ----- the other instructions -----

    method Constant(t: NType, value: int)
      requires Valid() && (t.BoolT? ==> -WORD64 < value < WORD64)
      modifies this`rax, this`stack
      ensures stack == old(stack) + [Low(Canon(target, t, value))] && Canonical(target, t, Low(Canon(target, t, value)))
    {
      rax := Low(value);
      Settle(target, t, value, rax);
      Normalize(t);
      Push();
    }

    method Load(slot: nat)
      requires Valid() && slot < |slots|
      modifies this`rax, this`stack
      ensures stack == old(stack) + [slots[slot]]
    {
      rax := slots[slot];
      Push();
    }

    method Store(t: NType, slot: nat)
      requires Valid() && slot < |slots| && |stack| >= 1
      modifies this`rax, this`stack, this`slots
      ensures var w := old(stack[|stack| - 1]);
        stack == old(stack[..|stack| - 1]) && slots == old(slots)[slot := Low(Canon(target, t, w))] && Canonical(target, t, slots[slot])
    {
      rax := Pop();
      LowOf(rax);
      Settle(target, t, rax, rax);
      Normalize(t);
      slots := slots[slot := rax];
    }

    method Unary(t: NType, op: UnOp) returns (encoded: bool)
      requires Valid() && |stack| >= 1 && Canonical(target, t, stack[|stack| - 1])
      modifies this`rax, this`stack
      ensures var r := UnarySem(target, t, op, Canon(target, t, old(stack[|stack| - 1])));
        && (encoded <==> r.OpValue?)
        && (encoded ==> stack == old(stack[..|stack| - 1]) + [Low(r.v)] && Canonical(target, t, Low(r.v)))
    {
      hide Canon, Canonical, Pow2, Low;
      rax := Pop();
      ghost var a := Canon(target, t, rax);
      UnaryWords(target, t, rax);
      encoded := true;
      match op {
        case Neg =>
          rax := Low(0 - rax);
          Settle(target, t, -a, rax);
        case BNot =>
          rax := WORD64 - 1 - rax;
          Settle(target, t, -1 - a, rax);
        case Not =>
          rax := if rax == 0 then 1 else 0;
          LowOf(rax);
          Settle(target, t, rax, rax);
        case Ref | RefMut | Deref =>
          encoded := false;
          return;
      }
      Normalize(t);
      Push();
    }

    /** A value of one type becomes a value of another. */
    method Convert(t: NType)
      requires Valid() && |stack| >= 1
      modifies this`rax, this`stack
      ensures var w := old(stack[|stack| - 1]);
        stack == old(stack[..|stack| - 1]) + [Low(Canon(target, t, w))] && Canonical(target, t, Low(Canon(target, t, w)))
    {
      rax := Pop();
      LowOf(rax);
      Settle(target, t, rax, rax);
      Normalize(t);
      Push();
    }
  }

  // ----- comparisons -----

  lemma {:induction false} OrderOnWords(tg: Target, t: NType, w: Word64, u: Word64)
    requires tg.Valid() && Canonical(tg, t, w) && Canonical(tg, t, u)
    ensures Canon(tg, t, w) < Canon(tg, t, u) <==> if IsSigned(t) then Sign64(w) < Sign64(u) else w < u
    ensures Canon(tg, t, w) == Canon(tg, t, u) <==> w == u
  {
    hide Canon, Canonical, Bits, Pow2, Low;
    CanonicalValue(tg, t, w);
    CanonicalValue(tg, t, u);
  }

  lemma {:induction false} ComparisonIs(tg: Target, t: NType, op: BinOp, left: int, right: int)
    requires tg.Valid() && IsComparison(op)
    ensures var a, b := Canon(tg, t, left), Canon(tg, t, right);
      BinarySem(tg, t, op, left, right) == OpValue(Truth(
        if op.Eq? then a == b else if op.Ne? then a != b else if op.Lt? then a < b else if op.Le? then a <= b else if op.Gt? then a > b else a >= b))
  {
    hide Canon;
  }

  // ----- results -----

  /** Normalising w gives the canonical word of v. */
  ghost predicate Settles(tg: Target, t: NType, v: int, w: Word64)
    requires tg.Valid()
  {
    Low(Canon(tg, t, w)) == Low(v) && Canonical(tg, t, Low(v))
  }

  /** A register that holds the low bits of e settles to e read at the type. */
  lemma {:induction false} Settle(tg: Target, t: NType, e: int, w: Word64)
    requires tg.Valid() && Low(e) == w && (t.BoolT? ==> -WORD64 < e < WORD64)
    ensures Settles(tg, t, Canon(tg, t, e), w)
  {
    hide Canon, Low;
    CanonLow(tg, t, e);
    CanonIdempotent(tg, t, e);
    BoolRange(tg, t, e);
    CanonLow(tg, t, Canon(tg, t, e));
  }

  lemma {:induction false} BoolRange(tg: Target, t: NType, e: int)
    requires tg.Valid()
    ensures t.BoolT? ==> Canon(tg, t, e) == 0 || Canon(tg, t, e) == 1
  {
  }

  lemma {:induction false} SettleTruth(tg: Target, t: NType, w: Word64)
    requires tg.Valid() && (w == 0 || w == 1)
    ensures Settles(tg, t, w, w)
  {
    hide Pow2;
    LowOf(w);
    if !t.BoolT? {
      HalfPowers(Bits(tg, t));
      WrapInRange(Bits(tg, t), IsSigned(t), w);
    }
  }

  lemma {:induction false} WordsOf(tg: Target, t: NType, w: Word64)
    requires tg.Valid() && Canonical(tg, t, w)
    ensures Unsigned64(Canon(tg, t, w)) == w && Low(Canon(tg, t, w)) == w && Low(w) == w
  {
    LowOf(w);
  }

  lemma {:induction false} LowArithmetic(tg: Target, t: NType, w: Word64, u: Word64)
    requires tg.Valid() && Canonical(tg, t, w) && Canonical(tg, t, u)
    ensures var a, b := Canon(tg, t, w), Canon(tg, t, u);
      && Low(w + u) == Low(a + b) && Low(w - u) == Low(a - b) && Low(Sign64(w) * Sign64(u)) == Low(a * b)
      && (t.BoolT? ==> 0 <= a <= 1 && 0 <= b <= 1 && 0 <= a * b <= 1)
  {
    hide Canon;
    BoolRange(tg, t, w);
    BoolRange(tg, t, u);
    WordsOf(tg, t, w);
    WordsOf(tg, t, u);
    NarrowMinimum(8);
    var a, b := Canon(tg, t, w), Canon(tg, t, u);
    CongruentAdd(w, u, a, b, WORD64);
    WordsCongruent(Sign64(w), a, w);
    WordsCongruent(Sign64(u), b, u);
    CongruentMul(Sign64(w), Sign64(u), a, b, WORD64);
  }

  lemma {:induction false} UnaryWords(tg: Target, t: NType, w: Word64)
    requires tg.Valid() && Canonical(tg, t, w)
    ensures var a := Canon(tg, t, w);
      && Low(0 - w) == Low(-a) && Low(WORD64 - 1 - w) == WORD64 - 1 - w == Low(-1 - a) && (w == 0 <==> a == 0)
      && (t.BoolT? ==> 0 <= a <= 1)
  {
    hide Canon;
    BoolRange(tg, t, w);
    var a := Canon(tg, t, w);
    WordsOf(tg, t, w);
    CongruentAdd(0, w, 0, a, WORD64);
    CongruentAdd(WORD64 - 1, w, -1, a, WORD64);
    LowOf(-1);
    LowOf(WORD64 - 1 - w);
    CanonZero(tg, t);
  }

  lemma {:induction false} WordsCongruent(x: int, a: int, w: Word64)
    requires Low(x) == w && Low(a) == w
    ensures x % WORD64 == a % WORD64
  {
  }

  lemma {:induction false} SettleQuotient(tg: Target, t: NType, w: Word64, u: Word64, op: BinOp, r: Word64)
    requires tg.Valid() && Canonical(tg, t, w) && Canonical(tg, t, u) && (op.Div? || op.Mod?) && Canon(tg, t, u) != 0
    requires r == Low(if op.Mod? then TruncMod(Canon(tg, t, w), Canon(tg, t, u)) else TruncDiv(Canon(tg, t, w), Canon(tg, t, u)))
    ensures Settles(tg, t, Canon(tg, t, if op.Mod? then TruncMod(Canon(tg, t, w), Canon(tg, t, u)) else TruncDiv(Canon(tg, t, w), Canon(tg, t, u))), r)
  {
    hide Canon, Settles, Low;
    var a, b := Canon(tg, t, w), Canon(tg, t, u);
    BoolRange(tg, t, w);
    BoolRange(tg, t, u);
    Settle(tg, t, if op.Mod? then TruncMod(a, b) else TruncDiv(a, b), r);
  }

  lemma {:induction false} SettleShift(tg: Target, t: NType, w: Word64, u: Word64, op: BinOp, r: Word64)
    requires tg.Valid() && Canonical(tg, t, w) && Canonical(tg, t, u) && (op.Shl? || op.Shr?)
    requires var c := Canon(tg, t, u) % Bits(tg, t);
      r == Low(if op.Shl? then Canon(tg, t, w) * Pow2(c) else Canon(tg, t, w) / Pow2(c))
    ensures var c := Canon(tg, t, u) % Bits(tg, t);
      Settles(tg, t, Canon(tg, t, if op.Shl? then Canon(tg, t, w) * Pow2(c) else Canon(tg, t, w) / Pow2(c)), r)
  {
    hide Canon, Settles, Low, Pow2;
    var a, c := Canon(tg, t, w), Canon(tg, t, u) % Bits(tg, t);
    BoolRange(tg, t, w);
    if t.BoolT? {
      BoolShift(a, c);
    }
    Settle(tg, t, if op.Shl? then a * Pow2(c) else a / Pow2(c), r);
  }

  lemma {:induction false} BoolShift(a: int, c: nat)
    requires 0 <= a <= 1 && c < 8
    ensures 0 <= a * Pow2(c) < WORD64 && 0 <= a / Pow2(c) < WORD64
  {
    hide Pow2;
    Pow2Values();
    Pow2Mono(c, 8);
    DivNonNegative(a, Pow2(c));
    if a == 0 { assert a * Pow2(c) == 0; } else { assert a * Pow2(c) == Pow2(c); }
  }

  lemma {:induction false} BitOpBound(op: BinOp, a: nat, b: nat, n: nat)
    ensures BitOp(op, a, b, n) < Pow2(n)
    ensures n == 64 ==> BitOp(op, a, b, n) < WORD64
  {
    Pow2Values();
    BitOpBelow(op, a, b, n);
  }

  lemma {:induction false} BitOpBelow(op: BinOp, a: nat, b: nat, n: nat)
    ensures BitOp(op, a, b, n) < Pow2(n)
  {
    if n > 0 {
      BitOpBelow(op, a / 2, b / 2, n - 1);
      BitsBelow(a % 2, b % 2);
    }
  }

  lemma {:induction false} BitsBelow(x: int, y: int)
    requires 0 <= x <= 1 && 0 <= y <= 1
    ensures 0 <= x * y <= 1 && 0 <= x + y - x * y <= 1
  {
  }

  // ----- extensions -----

  lemma {:induction false} HalfPowers(k: nat)
    requires k == 8 || k == 16 || k == 32 || k == 64
    ensures 128 <= Pow2(k - 1) <= 0x8000_0000_0000_0000 && Pow2(k) == 2 * Pow2(k - 1) && Pow2(k) <= WORD64
    ensures k == 64 ==> Pow2(k - 1) == 0x8000_0000_0000_0000
  {
    Pow2Values();
  }

  /** What a canonical word says about the value it extends. */
  lemma {:induction false} CanonicalValue(tg: Target, t: NType, w: Word64)
    requires tg.Valid() && Canonical(tg, t, w)
    ensures IsSigned(t) ==> Canon(tg, t, w) == Sign64(w) && -Pow2(Bits(tg, t) - 1) <= Sign64(w) < Pow2(Bits(tg, t) - 1)
    ensures !IsSigned(t) ==> Canon(tg, t, w) == w
  {
    hide Pow2;
    HalfPowers(Bits(tg, t));
    LowOf(Canon(tg, t, w));
  }

  lemma {:induction false} LowOf(v: int)
    requires -WORD64 <= v < WORD64
    ensures Low(v) == if v < 0 then v + WORD64 else v
  {
    ModUnique(v, WORD64, if v < 0 then -1 else 0, if v < 0 then v + WORD64 else v);
  }

  /** Reading a value at a type only looks at its low 64 bits. */
  lemma {:induction false} CanonLow(tg: Target, t: NType, v: int)
    requires tg.Valid() && (t.BoolT? ==> -WORD64 < v < WORD64)
    ensures Canon(tg, t, Low(v)) == Canon(tg, t, v)
  {
    hide Pow2, Low;
    if t.BoolT? {
      LowOf(v);
    } else {
      LowBits(Bits(tg, t), v);
    }
  }

  lemma {:induction false} LowBits(n: nat, v: int)
    requires n <= 64
    ensures Low(v) % Pow2(n) == v % Pow2(n)
  {
    hide Pow2;
    Pow2Values();
    Pow2Add(64 - n, n);
    ModNested(v, Pow2(n), Pow2(64 - n));
  }

  lemma {:induction false} NormalForm(tg: Target, t: NType, w: Word64)
    requires tg.Valid()
    ensures t.BoolT? ==> Low(Canon(tg, t, w)) == if w != 0 then 1 else 0
    ensures var k := Bits(tg, t);
      !t.BoolT? ==> Low(Canon(tg, t, w)) == if k == 8 || k == 16 || k == 32 then Extend(k, IsSigned(t), w) else w
  {
    hide Pow2, Extend, Wrap;
    if !t.BoolT? { NormalWord(Bits(tg, t), IsSigned(t), w); }
  }

  lemma {:induction false} NormalWord(k: nat, signed: bool, w: Word64)
    requires k == 8 || k == 16 || k == 32 || k == 64
    ensures Low(Wrap(k, signed, w)) == if k == 64 then w else Extend(k, signed, w)
  {
    hide Pow2;
    HalfPowers(k);
    var low := w % Pow2(k);
    if k == 64 {
      ModUnique(w, WORD64, 0, w);
      LowOf(w);
      LowOf(w - WORD64);
    } else if signed && low >= Pow2(k - 1) {
      LowOf(low - Pow2(k));
    } else {
      LowOf(low);
    }
  }

  // ----- division -----

  lemma {:induction false} NarrowMinimum(k: nat)
    requires k == 8 || k == 16 || k == 32 || k == 64
    ensures Sign64(Low(-1)) == -1 && Sign64(Low(-Pow2(k - 1))) == -Pow2(k - 1) && Low(-1) == WORD64 - 1
    ensures forall w: Word64 :: Low(Sign64(w)) == w
    ensures k == 64 ==> Pow2(k - 1) == 0x8000_0000_0000_0000
  {
    hide Pow2, Low;
    HalfPowers(k);
    LowOf(-1);
    LowOf(-Pow2(k - 1));
    forall w: Word64
      ensures Low(Sign64(w)) == w
    {
      LowOf(Sign64(w));
    }
  }

  /** The only 64-bit quotient that does not fit is that of the minimum by -1. */
  lemma {:induction false} SignedQuotient(a: int, b: int)
    requires -0x8000_0000_0000_0000 <= a < 0x8000_0000_0000_0000
    ensures b != 0 ==>
      (-0x8000_0000_0000_0000 <= TruncDiv(a, b) < 0x8000_0000_0000_0000 <==> !(b == -1 && a == -0x8000_0000_0000_0000))
  {
    if b != 0 {
      SmallQuotient(if a < 0 then -a else a, if b < 0 then -b else b);
    }
  }

  lemma {:induction false} SmallQuotient(m: int, n: int)
    requires m >= 0 && n > 0
    ensures 0 <= m / n <= m && (n == 1 ==> m / n == m) && (n >= 2 ==> 2 * (m / n) <= m)
  {
    var q := m / n;
    assert m == q * n + m % n;
    DivNonNegative(m, n);
    if n >= 2 {
      assert (n - 2) * q >= 0;
      MulAdd(n, 2, q);
    }
  }

  lemma {:induction false} UnsignedQuotient(a: Word64, b: Word64)
    ensures b != 0 ==> a / b < WORD64 && TruncDiv(a, b) == a / b && TruncMod(a, b) == a % b
  {
    if b != 0 { DivNonNegative(a, b); }
  }

  // ----- shifts -----

  lemma {:induction false} CountIs(tg: Target, t: NType, w: Word64)
    requires tg.Valid() && Canonical(tg, t, w)
    ensures var k := Bits(tg, t);
      && 0 <= AndW(w % 256, k - 1, 8) < 256
      && Canon(tg, t, w) % k == if k < 64 then ((w - w % 256 + AndW(w % 256, k - 1, 8)) % 256) % 64 else (w % 256) % 64
    ensures 0 <= w - w % 256 && w - w % 256 + 255 < WORD64
  {
    hide Pow2, BitOp;
    var k := Bits(tg, t);
    CanonicalValue(tg, t, w);
    BitOpBelow(BAnd, w % 256, k - 1, 8);
    Pow2Values();
    LowByte(w);
    CountMod(w, k);
    if k < 64 {
      MaskCount(w, k);
      ReplaceByte(w, (w % 256) % k);
      ModUnique((w % 256) % k, 64, 0, (w % 256) % k);
    }
  }

  lemma {:induction false} LowByte(w: Word64)
    ensures 0 <= w - w % 256 && w - w % 256 + 255 < WORD64 && 0 <= w % 256 < 256
  {
    assert w == 256 * (w / 256) + w % 256;
  }

  /** and cl, mask: the other bytes of rcx stay. */
  lemma {:induction false} ReplaceByte(w: Word64, x: int)
    requires 0 <= x < 256
    ensures (w - w % 256 + x) % 256 == x
  {
    assert w == (w / 256) * 256 + w % 256;
    ModUnique(w - w % 256 + x, 256, w / 256, x);
  }

  lemma {:induction false} CountMod(w: Word64, k: nat)
    requires k == 8 || k == 16 || k == 32 || k == 64
    ensures Sign64(w) % k == (w % 256) % k && w % k == (w % 256) % k && 0 <= (w % 256) % k < k
  {
    var m := if k == 8 then 32 else if k == 16 then 16 else if k == 32 then 8 else 4;
    ModNested(w, k, m);
    var n := if k == 8 then 0x2000_0000_0000_0000 else if k == 16 then 0x1000_0000_0000_0000
             else if k == 32 then 0x800_0000_0000_0000 else 0x400_0000_0000_0000;
    if Sign64(w) != w {
      Differ(Sign64(w), w, k, -n);
    }
  }

  lemma {:induction false} MaskCount(w: Word64, k: nat)
    requires k == 8 || k == 16 || k == 32
    ensures AndW(w % 256, k - 1, 8) == (w % 256) % k
  {
    assert Pow2(3) == 8 && Pow2(4) == 16 && Pow2(5) == 32;
    AndMask(w % 256, if k == 8 then 3 else if k == 16 then 4 else 5, 8);
  }

  lemma {:induction false} ShiftedLeft(a: int, w: Word64, p: int)
    requires Low(a) == w
    ensures Low(w * p) == Low(a * p)
  {
    ModIdempotent(a, WORD64);
    CongruentMul(a, p, w, p, WORD64);
  }

  // ----- words and IR values -----

  /** The word of a canonical value is canonical, and operators see the same operands in either form. */
  lemma {:induction false} WordsStandForValues(tg: Target, t: NType, op: BinOp, a: int, b: int)
    requires tg.Valid() && IsCanonical(tg, t, a) && IsCanonical(tg, t, b)
    ensures Canonical(tg, t, Low(a)) && Canonical(tg, t, Low(b))
    ensures BinarySem(tg, t, op, Low(a), Low(b)) == BinarySem(tg, t, op, a, b)
  {
    hide Canon, Low, BinarySem;
    BoolRange(tg, t, a);
    BoolRange(tg, t, b);
    CanonLow(tg, t, a);
    CanonLow(tg, t, b);
    OperandsRead(tg, t, op, Low(a), Low(b), a, b);
  }

  lemma {:induction false} OperandsRead(tg: Target, t: NType, op: BinOp, a: int, b: int, a': int, b': int)
    requires tg.Valid() && Canon(tg, t, a) == Canon(tg, t, a') && Canon(tg, t, b) == Canon(tg, t, b')
    ensures BinarySem(tg, t, op, a, b) == BinarySem(tg, t, op, a', b')
  {
    hide Canon, TruncDiv, TruncMod, BitOp, Pow2, Truth;
  }
}
