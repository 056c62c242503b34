/** 64-bit arithmetic emitted for i386 (src/backend/native_x86.c), as steps on registers, scratch cells
    below the stack pointer and the carry flag. Values take EDX:EAX, divisors EBX:ECX. */
module X86 {
  import opened Words
  import opened Numeric
  import opened NativeTypes
  import opened Wide
  import opened WideOps
  import opened X64
  import Arm

  type Slot = Arm.Slot

  class Machine {
    var eax: Reg
    var ebx: Reg
    var ecx: Reg
    var edx: Reg
    var esi: Reg
    var edi: Reg
    var cell0: Reg   // [esp] and up, while scratch space is reserved
    var cell1: Reg
    var cell2: Reg
    var sign0: Reg   // the two sign words of a signed division
    var sign1: Reg
    var carry: bool
    var stack: seq<Slot>
    var trapped: bool

    /** not, not, add 1, adc 0. */
    method Negate(lo: Reg, hi: Reg) returns (lo': Reg, hi': Reg)
      modifies this`carry
      ensures Value(lo', hi') == Low(0 - Value(lo, hi))
    {
      var low := AddC(HALF - 1 - lo, 1, false);
      var high := AddC(HALF - 1 - hi, 0, low.carry);
      lo', hi', carry := low.word, high.word, high.carry;
      LowOf(0 - Value(lo, hi));
    }

    /** shl or rcl on the low word, rcl on the high one. */
    method ShiftPair(lo: Reg, hi: Reg, cin: bool) returns (lo': Reg, hi': Reg)
      modifies this`carry
      ensures Value(lo', hi') + Bit(carry) * WORD64 == 2 * Value(lo, hi) + Bit(cin)
      ensures lo' % 2 == Bit(cin)
    {
      AddPairs(lo, hi, lo, hi, cin);
      var low := Left1(lo, cin);
      var high := Left1(hi, low.carry);
      lo', hi', carry := low.word, high.word, high.carry;
    }

    // ----- unsigned division -----

    /** The emitted loop: dividend EDX:EAX, divisor EBX:ECX; quotient EDX:EAX, remainder ESI:EDI. */
    method DivideUnsigned()
      requires !trapped
      modifies this`eax, this`edx, this`esi, this`edi, this`cell0, this`cell1, this`cell2, this`carry, this`trapped
      ensures trapped <==> Value(ecx, ebx) == 0
      ensures !trapped ==> Value(eax, edx) == old(Value(eax, edx)) / Value(ecx, ebx)
      ensures !trapped ==> Value(edi, esi) == old(Value(eax, edx)) % Value(ecx, ebx)
    {
      hide Dividing, Low, Left1, SubB, AddC;
      ghost var n, d := Value(eax, edx), Value(ecx, ebx);
      if ebx == 0 && ecx == 0 {
        trapped := true;
        return;
      }
      cell0, cell1, cell2 := 0, 0, 64;
      esi, edi := 0, 0;
      DivisionStarts(n, d);
      while cell2 != 0
        invariant 0 <= cell2 <= 64 && Value(ecx, ebx) == d && !trapped
        invariant Dividing(n, d, 64 - cell2, Value(eax, edx), Value(cell0, cell1), Value(edi, esi))
        decreases cell2
      {
        Step(n, d, 64 - cell2);
        cell2 := cell2 - 1;
      }
      DivisionEnds(n, d, Value(eax, edx), Value(cell0, cell1), Value(edi, esi));
      eax, edx := cell0, cell1;
    }

    method Step(ghost n: Word64, ghost d: Word64, ghost k: nat)
      requires d == Value(ecx, ebx) > 0 && k < 64
      requires Dividing(n, d, k, Value(eax, edx), Value(cell0, cell1), Value(edi, esi))
      modifies this`eax, this`edx, this`esi, this`edi, this`cell0, this`cell1, this`carry
      ensures Dividing(n, d, k + 1, Value(eax, edx), Value(cell0, cell1), Value(edi, esi))
    {
      hide Dividing, Value;
      ghost var a, q, r := Value(eax, edx), Value(cell0, cell1), Value(edi, esi);
      NothingLost(n, d, k, a, q, r);
      cell0, cell1 := ShiftPair(cell0, cell1, false);
      eax, edx := ShiftPair(eax, edx, false);
      ghost var top := Bit(carry);
      edi, esi := ShiftPair(edi, esi, carry);
      DivisionStep(n, d, k, a, q, r, top, Value(eax, edx), 2 * r + top >= d);
      SubtractIfFits();
    }

    /** ja, jb, jb: compare high words, then low words; sub and sbb if not below. */
    method SubtractIfFits()
      requires cell0 % 2 == 0
      modifies this`esi, this`edi, this`cell0, this`carry
      ensures var fits := old(Value(edi, esi)) >= Value(ecx, ebx);
        && Value(edi, esi) == old(Value(edi, esi)) - (if fits then Value(ecx, ebx) else 0)
        && Value(cell0, cell1) == old(Value(cell0, cell1)) + Bit(fits)
    {
      if esi > ebx || (esi == ebx && edi >= ecx) {
        SubPairs(edi, esi, ecx, ebx);
        var low := SubB(edi, ecx, false);
        var high := SubB(esi, ebx, low.carry);
        edi, esi, carry := low.word, high.word, high.carry;
        cell0 := cell0 + (1 - cell0 % 2);
      }
    }

    // ----- division of 64-bit types -----

    /** Sign words by arithmetic shifts, then magnitudes. */
    method TakeSigns()
      requires !trapped
      modifies this`eax, this`ebx, this`ecx, this`edx, this`sign0, this`sign1, this`carry, this`trapped
      ensures var w, u := old(Value(eax, edx)), old(Value(ecx, ebx));
        if w == 0x8000_0000_0000_0000 && u == WORD64 - 1 then trapped
        else !trapped && Value(eax, edx) == Magnitude(I64, w) && Value(ecx, ebx) == Magnitude(I64, u)
             && sign0 == (if w >= 0x8000_0000_0000_0000 then HALF - 1 else 0)
             && sign1 == (if u >= 0x8000_0000_0000_0000 then HALF - 1 else 0)
    {
      hide Value, Low;
      Arm.PairSigns(eax, edx);
      Arm.PairSigns(ecx, ebx);
      Magnitudes(I64, Value(eax, edx), Value(ecx, ebx));
      if edx == 0x8000_0000 && eax == 0 && ebx == 0xFFFF_FFFF && ecx == 0xFFFF_FFFF {
        trapped := true;
        return;
      }
      sign0 := if edx >= 0x8000_0000 then HALF - 1 else 0;
      sign1 := if ebx >= 0x8000_0000 then HALF - 1 else 0;
      if edx >= 0x8000_0000 { eax, edx := Negate(eax, edx); }
      if ebx >= 0x8000_0000 { ecx, ebx := Negate(ecx, ebx); }
    }

    /** The quotient is negative when the sign words differ, the remainder when the dividend was. */
    method PutSigns()
      modifies this`eax, this`edx, this`esi, this`edi, this`carry
      ensures Value(eax, edx) == if sign0 != sign1 then Low(0 - old(Value(eax, edx))) else old(Value(eax, edx))
      ensures Value(edi, esi) == if sign0 != 0 then Low(0 - old(Value(edi, esi))) else old(Value(edi, esi))
    {
      hide Value, Low;
      if sign0 != sign1 { eax, edx := Negate(eax, edx); }
      if sign0 != 0 { edi, esi := Negate(edi, esi); }
    }

    method Divide(t: NType, remainder: bool)
      requires Wide64(t) && !trapped && |stack| >= 2
      modifies this
      ensures var n := old(|stack|);
        var a, b := ValueAs(t, Arm.Word(old(stack[n - 2]))), ValueAs(t, Arm.Word(old(stack[n - 1])));
        if b == 0 || (t.I64? && b == -1 && a == -0x8000_0000_0000_0000) then trapped
        else !trapped && |stack| == n - 1 && stack[..n - 2] == old(stack[..n - 2])
             && Arm.Word(stack[n - 2]) == Low(if remainder then TruncMod(a, b) else TruncDiv(a, b))
    {
      hide TruncDiv, TruncMod, Value, Low;
      var left, right := stack[|stack| - 2], stack[|stack| - 1];
      eax, edx, ecx, ebx := left.lo, left.hi, right.lo, right.hi;
      Magnitudes(t, Arm.Word(left), Arm.Word(right));
      if t.I64? {
        TakeSigns();
        if trapped { return; }
      }
      Arm.PairZero(ecx, ebx);
      if ebx == 0 && ecx == 0 {
        trapped := true;
        return;
      }
      DivideUnsigned();
      if t.I64? { PutSigns(); }
      if remainder { eax, edx := edi, esi; }
      stack := stack[..|stack| - 2] + [Arm.Slot(eax, edx)];
    }

    // ----- the other 64-bit operators -----

    /** Two imul for the cross products, one mul for the low words. */
    method Multiply()
      modifies this`eax, this`edx, this`esi, this`edi
      ensures Value(eax, edx) == Low(old(Value(eax, edx)) * Value(ecx, ebx))
    {
      hide Value, Low, Low32;
      CrossProducts(eax, edx, ecx, ebx);
      ProductHigh(eax, ecx);
      esi := Low32(edx * ecx);
      edi := Low32(eax * ebx);
      esi := Low32(esi + edi);
      var product := eax * ecx;
      eax, edx := Low32(product), product / HALF;
      edx := Low32(edx + esi);
    }

    /** One bit at a time, as often as the low six bits of CL say. */
    method ShiftLoop(t: NType, left: bool)
      requires Wide64(t)
      modifies this`eax, this`edx, this`ecx, this`carry
      ensures var a, c := ValueAs(t, old(Value(eax, edx))), old(Value(ecx, ebx)) % 64;
        Value(eax, edx) == Low(if left then a * Pow2(c) else a / Pow2(c))
    {
      hide Value, Low, Pow2, Right1, ValueAs;
      ghost var w, a, c := Value(eax, edx), ValueAs(t, Value(eax, edx)), Value(ecx, ebx) % 64;
      CountOf(ecx, ebx);
      ecx := ecx % 64;
      ghost var done := 0;
      ShiftStarts(t, w);
      while ecx != 0
        invariant done + ecx == c
        invariant Value(eax, edx) == Low(if left then a * Pow2(done) else a / Pow2(done))
        invariant !left ==> ValueAs(t, Value(eax, edx)) == a / Pow2(done)
        decreases ecx
      {
        if left {
          DoubleAgain(a, done, Value(eax, edx));
          eax, edx := ShiftPair(eax, edx, false);
          CutCarry(Value(eax, edx), Bit(carry));
        } else {
          HalveAgain(a, done);
          eax, edx := HalvePair(t, eax, edx);
        }
        ecx := ecx - 1;
        done := done + 1;
      }
    }

    /** sar or shr on the high word, rcr on the low one. */
    method HalvePair(t: NType, lo: Reg, hi: Reg) returns (lo': Reg, hi': Reg)
      requires Wide64(t)
      modifies this`carry
      ensures ValueAs(t, Value(lo', hi')) == ValueAs(t, Value(lo, hi)) / 2
      ensures Value(lo', hi') == Low(ValueAs(t, Value(lo, hi)) / 2)
    {
      hide Value, Low, Right1, Sign64;
      Arm.PairSigns(lo, hi);
      RightPair(lo, hi, t.I64? && hi >= 0x8000_0000);
      ArithmeticHalf(Value(lo, hi));
      var h := Right1(hi, t.I64? && hi >= 0x8000_0000);
      var l := Right1(lo, h.carry);
      hi', lo', carry := h.word, l.word, l.carry;
      WordOfValue(t, Value(lo', hi'));
    }

    /** An operator on the two topmost slots, for the 64-bit types; comparisons are not part of this model.
        Fails, while encoding, on operators without a machine form. */
    method Binary(tg: Target, t: NType, op: BinOp) returns (encoded: bool)
      requires tg.Valid() && Wide64(t) && !trapped && |stack| >= 2 && !IsComparison(op)
      modifies this
      ensures var n := old(|stack|);
        var r := BinarySem(tg, t, op, Arm.Word(old(stack[n - 2])), Arm.Word(old(stack[n - 1])));
        && (encoded <==> !r.OpWrong?)
        && (encoded ==> (trapped <==> r.OpTrap?))
        && (r.OpValue? ==> |stack| == n - 1 && stack[..n - 2] == old(stack[..n - 2]) && Arm.Word(stack[n - 2]) == Low(r.v))
    {
      hide Value, Low, Pow2, Canon, ValueAs, BitOp, TruncDiv, TruncMod;
      var left, right := stack[|stack| - 2], stack[|stack| - 1];
      ghost var r := Expected(tg, t, op, Arm.Word(left), Arm.Word(right));
      encoded := true;
      if op.Div? || op.Mod? {
        Divide(t, op.Mod?);
        return;
      }
      eax, edx, ecx, ebx := left.lo, left.hi, right.lo, right.hi;
      match op {
        case Add =>
          AddPairs(eax, edx, ecx, ebx, false);
          var low := AddC(eax, ecx, false);
          var high := AddC(edx, ebx, low.carry);
          eax, edx := low.word, high.word;
          CutCarry(Value(eax, edx), Bit(high.carry));
        case Sub =>
          SubPairs(eax, edx, ecx, ebx);
          var low := SubB(eax, ecx, false);
          var high := SubB(edx, ebx, low.carry);
          eax, edx := low.word, high.word;
          CutCarry(Value(eax, edx), 0 - Bit(high.carry));
        case Mul => Multiply();
        case BAnd | BOr | BXor =>
          PairBitOp(op, eax, edx, ecx, ebx);
          eax, edx := BitOp(op, eax, ecx, 32), BitOp(op, edx, ebx, 32);
          CutCarry(Value(eax, edx), 0);
        case Shl | Shr => ShiftLoop(t, op.Shl?);
        case _ =>
          encoded := false;
          return;
      }
      stack := stack[..|stack| - 2] + [Arm.Slot(eax, edx)];
    }
  }

  lemma {:induction false} CrossProducts(a: Reg, b: Reg, c: Reg, d: Reg)
    ensures var hi := Low32(a * c / HALF + Low32(Low32(b * c) + Low32(a * d)));
      Value(Low32(a * c), hi) == Low(Value(a, b) * Value(c, d))
  {
    hide Low32, Value, Low;
    var x, y, z := b * c, a * d, a * c / HALF;
    InnerCarries(x, y, z);
    PairProduct(a, b, c, d, Low32(z + (x + y)));
  }

  /** Cutting the terms of a sum to 32 bits before adding does not change its low word. */
  lemma {:induction false} InnerCarries(x: int, y: int, z: int)
    ensures Low32(z + Low32(Low32(x) + Low32(y))) == Low32(z + (x + y))
  {
    ModIdempotent(x, HALF);
    ModIdempotent(y, HALF);
    CongruentAdd(x % HALF, y % HALF, x, y, HALF);
    ModIdempotent(x + y, HALF);
    CongruentAdd(z, (x + y) % HALF, z, x + y, HALF);
  }
}
