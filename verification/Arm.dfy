/** 64-bit arithmetic emitted for 32-bit ARM (src/backend/native_arm.c), as steps on registers and the
    carry flag. A 64-bit value takes a register pair, low word first; operands are slots on the stack. */
module Arm {
  import opened Words
  import opened Numeric
  import opened NativeTypes
  import opened Wide
  import opened WideOps
  import opened X64

  datatype Slot = Slot(lo: Reg, hi: Reg)

  function Word(s: Slot): Word64 { Value(s.lo, s.hi) }

  class Machine {
    var r0: Reg
    var r1: Reg
    var r2: Reg
    var r3: Reg
    var r4: Reg
    var r5: Reg
    var r6: Reg
    var r7: Reg
    var r8: Reg
    var r9: Reg
    var r10: Reg
    var r12: Reg
    var carry: bool
    var stack: seq<Slot>
    var trapped: bool

    // ----- negation -----

    /** rsbs then rsc: the carry flag is set when nothing was borrowed. */
    method Negate(lo: Reg, hi: Reg) returns (lo': Reg, hi': Reg)
      modifies this`carry
      ensures Value(lo', hi') == Low(0 - Value(lo, hi))
    {
      var low := SubB(0, lo, false);
      carry := !low.carry;
      lo' := low.word;
      hi' := SubB(0, hi, !carry).word;
      SubPairs(0, 0, lo, hi);
      LowOf(0 - Value(lo, hi));
    }

    // ----- unsigned division -----

    /** lsls or adcs on the low word, adcs on the high one. */
    method ShiftPair(lo: Reg, hi: Reg, cin: bool) returns (lo': Reg, hi': Reg)
      modifies this`carry
      ensures Value(lo', hi') + Bit(carry) * WORD64 == 2 * Value(lo, hi) + Bit(cin)
      ensures lo' % 2 == Bit(cin)
    {
      AddPairs(lo, hi, lo, hi, cin);
      var low := Left1(lo, cin);
      var high := Left1(hi, low.carry);
      lo', hi', carry := low.word, high.word, high.carry;
    }

    /** The emitted loop: dividend r0:r1, divisor r2:r3; quotient r0:r1, remainder r6:r7. */
    method DivideUnsigned()
      requires Value(r2, r3) > 0
      modifies this`r0, this`r1, this`r4, this`r5, this`r6, this`r7, this`r8, this`r9, this`r10, this`carry
      ensures Value(r0, r1) == old(Value(r0, r1)) / Value(r2, r3)
      ensures Value(r6, r7) == old(Value(r0, r1)) % Value(r2, r3)
    {
      hide Dividing, Low, Left1, SubB, AddC;
      ghost var n, d := Value(r0, r1), Value(r2, r3);
      r4, r5 := r0, r1;
      r8, r9, r6, r7 := 0, 0, 0, 0;
      r10 := 64;
      DivisionStarts(n, d);
      while r10 != 0
        invariant 0 <= r10 <= 64 && Value(r2, r3) == d
        invariant Dividing(n, d, 64 - r10, Value(r4, r5), Value(r8, r9), Value(r6, r7))
        decreases r10
      {
        Step(n, d, 64 - r10);
        r10 := r10 - 1;
      }
      DivisionEnds(n, d, Value(r4, r5), Value(r8, r9), Value(r6, r7));
      r0, r1 := r8, r9;
    }

    /** One turn: shift dividend into remainder, make room in the quotient, subtract if it fits. */
    method Step(ghost n: Word64, ghost d: Word64, ghost k: nat)
      requires d == Value(r2, r3) > 0 && k < 64
      requires Dividing(n, d, k, Value(r4, r5), Value(r8, r9), Value(r6, r7))
      modifies this`r4, this`r5, this`r6, this`r7, this`r8, this`r9, this`carry
      ensures Dividing(n, d, k + 1, Value(r4, r5), Value(r8, r9), Value(r6, r7))
    {
      hide Dividing, Value;
      ghost var a, q, r := Value(r4, r5), Value(r8, r9), Value(r6, r7);
      NothingLost(n, d, k, a, q, r);
      r4, r5 := ShiftPair(r4, r5, false);
      ghost var top := Bit(carry);
      r6, r7 := ShiftPair(r6, r7, carry);
      r8, r9 := ShiftPair(r8, r9, false);
      DivisionStep(n, d, k, a, q, r, top, Value(r4, r5), 2 * r + top >= d);
      SubtractIfFits();
    }

    /** bhi, blo, blo: compare high words, then low words; subtract and set the quotient bit if not lower. */
    method SubtractIfFits()
      requires r8 % 2 == 0
      modifies this`r6, this`r7, this`r8, this`carry
      ensures var fits := old(Value(r6, r7)) >= Value(r2, r3);
        && Value(r6, r7) == old(Value(r6, r7)) - (if fits then Value(r2, r3) else 0)
        && Value(r8, r9) == old(Value(r8, r9)) + Bit(fits)
    {
      if r7 > r3 || (r7 == r3 && r6 >= r2) {
        SubPairs(r6, r7, r2, r3);
        var low := SubB(r6, r2, false);
        carry := !low.carry;
        r6 := low.word;
        r7 := SubB(r7, r3, !carry).word;
        r8 := r8 + (1 - r8 % 2);
      }
    }

    // ----- division of 64-bit types -----

    /** Whether the top bit is set: the value is negative as two's complement. */
    static predicate Negative(hi: Reg) { hi >= 0x8000_0000 }

    /** Signs into r12 (dividend in bit 0, divisor in bit 1), magnitudes into the operand registers. */
    method TakeSigns()
      requires !trapped
      modifies this`r0, this`r1, this`r2, this`r3, this`r12, this`carry, this`trapped
      ensures var w, u := old(Value(r0, r1)), old(Value(r2, r3));
        if w == 0x8000_0000_0000_0000 && u == WORD64 - 1 then trapped
        else !trapped && Value(r0, r1) == Magnitude(I64, w) && Value(r2, r3) == Magnitude(I64, u)
             && r12 == Bit(w >= 0x8000_0000_0000_0000) + 2 * Bit(u >= 0x8000_0000_0000_0000)
    {
      hide Value, Low;
      PairSigns(r0, r1);
      PairSigns(r2, r3);
      Magnitudes(I64, Value(r0, r1), Value(r2, r3));
      r12 := (if Negative(r1) then 1 else 0) + (if Negative(r3) then 2 else 0);
      if r1 == 0x8000_0000 && r0 == 0 && r3 == 0xFFFF_FFFF && r2 == 0xFFFF_FFFF {
        trapped := true;
        return;
      }
      if Negative(r1) { r0, r1 := Negate(r0, r1); }
      if Negative(r3) { r2, r3 := Negate(r2, r3); }
    }

    /** The quotient is negative when the signs differ, the remainder when the dividend is. */
    method PutSigns()
      requires r12 < 4
      modifies this`r0, this`r1, this`r6, this`r7, this`carry
      ensures Value(r0, r1) == if r12 == 1 || r12 == 2 then Low(0 - old(Value(r0, r1))) else old(Value(r0, r1))
      ensures Value(r6, r7) == if r12 % 2 == 1 then Low(0 - old(Value(r6, r7))) else old(Value(r6, r7))
    {
      hide Value, Low;
      if (r12 + r12 / 2) % 2 == 1 { r0, r1 := Negate(r0, r1); }
      if r12 % 2 == 1 { r6, r7 := Negate(r6, r7); }
    }

    /** Division on magnitudes; the signs of the operands are put back afterwards. */
    method Divide(t: NType, remainder: bool)
      requires Wide64(t) && !trapped && |stack| >= 2
      modifies this
      ensures var n := old(|stack|);
        var a, b := ValueAs(t, Word(old(stack[n - 2]))), ValueAs(t, Word(old(stack[n - 1])));
        if b == 0 || (t.I64? && b == -1 && a == -0x8000_0000_0000_0000) then trapped
        else !trapped && |stack| == n - 1 && stack[..n - 2] == old(stack[..n - 2])
             && Word(stack[n - 2]) == Low(if remainder then TruncMod(a, b) else TruncDiv(a, b))
    {
      hide TruncDiv, TruncMod, Value, Low;
      var left, right := stack[|stack| - 2], stack[|stack| - 1];
      r0, r1, r2, r3 := left.lo, left.hi, right.lo, right.hi;
      Magnitudes(t, Word(left), Word(right));
      if t.I64? {
        TakeSigns();
        if trapped { return; }
      }
      PairZero(r2, r3);
      if r2 == 0 && r3 == 0 {
        trapped := true;
        return;
      }
      DivideUnsigned();
      if t.I64? { PutSigns(); }
      if remainder { r0, r1 := r6, r7; }
      stack := stack[..|stack| - 2] + [Slot(r0, r1)];
    }

    // ----- the other 64-bit operators -----

    /** umull and two mla: the upper partial products only matter modulo 2^32. */
    method Multiply()
      modifies this`r0, this`r1, this`r4, this`r5
      ensures Value(r0, r1) == Low(old(Value(r0, r1)) * Value(r2, r3))
    {
      hide Value, Low, Low32;
      PairProduct(r0, r1, r2, r3, Low32(r1 * r2 + Low32(r0 * r3 + r0 * r2 / HALF)));
      ProductHigh(r0, r2);
      r4, r5 := Low32(r0 * r2), r0 * r2 / HALF;
      r5 := Low32(r0 * r3 + r5);
      r5 := Low32(r1 * r2 + r5);
      r0, r1 := r4, r5;
    }

    /** One bit at a time, as often as the low six bits of the count say. */
    method ShiftLoop(t: NType, left: bool)
      requires Wide64(t)
      modifies this`r0, this`r1, this`r2, this`carry
      ensures var a, c := ValueAs(t, old(Value(r0, r1))), old(Value(r2, r3)) % 64;
        Value(r0, r1) == Low(if left then a * Pow2(c) else a / Pow2(c))
    {
      hide Value, Low, Pow2, Right1, ValueAs;
      ghost var w, a, c := Value(r0, r1), ValueAs(t, Value(r0, r1)), Value(r2, r3) % 64;
      CountOf(r2, r3);
      r2 := r2 % 64;
      ghost var done := 0;
      ShiftStarts(t, w);
      while r2 != 0
        invariant done + r2 == c
        invariant Value(r0, r1) == Low(if left then a * Pow2(done) else a / Pow2(done))
        invariant !left ==> ValueAs(t, Value(r0, r1)) == a / Pow2(done)
        decreases r2
      {
        if left {
          DoubleAgain(a, done, Value(r0, r1));
          r0, r1 := ShiftPair(r0, r1, false);
          CutCarry(Value(r0, r1), Bit(carry));
        } else {
          HalveAgain(a, done);
          r0, r1 := HalvePair(t, r0, r1);
        }
        r2 := r2 - 1;
        done := done + 1;
      }
    }

    /** asrs or lsrs on the high word, rrx on the low one. */
    method HalvePair(t: NType, lo: Reg, hi: Reg) returns (lo': Reg, hi': Reg)
      requires Wide64(t)
      modifies this`carry
      ensures ValueAs(t, Value(lo', hi')) == ValueAs(t, Value(lo, hi)) / 2
      ensures Value(lo', hi') == Low(ValueAs(t, Value(lo, hi)) / 2)
    {
      hide Value, Low, Right1, Sign64;
      PairSigns(lo, hi);
      RightPair(lo, hi, t.I64? && Negative(hi));
      ArithmeticHalf(Value(lo, hi));
      var h := Right1(hi, t.I64? && Negative(hi));
      carry := h.carry;
      hi', lo' := h.word, Right1(lo, carry).word;
      WordOfValue(t, Value(lo', hi'));
    }

    /** An operator on the two topmost slots, for the 64-bit types; comparisons are not part of this model.
        Fails, while encoding, on operators without a machine form. */
    method Binary(tg: Target, t: NType, op: BinOp) returns (encoded: bool)
      requires tg.Valid() && Wide64(t) && !trapped && |stack| >= 2 && !IsComparison(op)
      modifies this
      ensures var n := old(|stack|);
        var r := BinarySem(tg, t, op, Word(old(stack[n - 2])), Word(old(stack[n - 1])));
        && (encoded <==> !r.OpWrong?)
        && (encoded ==> (trapped <==> r.OpTrap?))
        && (r.OpValue? ==> |stack| == n - 1 && stack[..n - 2] == old(stack[..n - 2]) && Word(stack[n - 2]) == Low(r.v))
    {
      hide Value, Low, Pow2, Canon, ValueAs, BitOp, TruncDiv, TruncMod;
      var left, right := stack[|stack| - 2], stack[|stack| - 1];
      ghost var r := Expected(tg, t, op, Word(left), Word(right));
      encoded := true;
      if op.Div? || op.Mod? {
        Divide(t, op.Mod?);
        return;
      }
      r0, r1, r2, r3 := left.lo, left.hi, right.lo, right.hi;
      match op {
        case Add =>
          AddPairs(r0, r1, r2, r3, false);
          var low := AddC(r0, r2, false);
          var high := AddC(r1, r3, low.carry);
          r0, r1 := low.word, high.word;
          CutCarry(Value(r0, r1), Bit(high.carry));
        case Sub =>
          SubPairs(r0, r1, r2, r3);
          var low := SubB(r0, r2, false);
          var high := SubB(r1, r3, low.carry);
          r0, r1 := low.word, high.word;
          CutCarry(Value(r0, r1), 0 - Bit(high.carry));
        case Mul => Multiply();
        case BAnd | BOr | BXor =>
          PairBitOp(op, r0, r1, r2, r3);
          r0, r1 := BitOp(op, r0, r2, 32), BitOp(op, r1, r3, 32);
          CutCarry(Value(r0, r1), 0);
        case Shl | Shr => ShiftLoop(t, op.Shl?);
        case _ =>
          encoded := false;
          return;
      }
      stack := stack[..|stack| - 2] + [Slot(r0, r1)];
    }
  }

  lemma {:induction false} PairSigns(lo: Reg, hi: Reg)
    ensures Machine.Negative(hi) <==> Value(lo, hi) >= 0x8000_0000_0000_0000
    ensures lo == 0 && hi == 0x8000_0000 <==> Value(lo, hi) == 0x8000_0000_0000_0000
    ensures lo == hi == 0xFFFF_FFFF <==> Value(lo, hi) == WORD64 - 1
  {
  }

  lemma {:induction false} PairZero(lo: Reg, hi: Reg)
    ensures lo == 0 && hi == 0 <==> Value(lo, hi) == 0
  {
  }
}
