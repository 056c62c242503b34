/** When an implicit integer conversion keeps every value (src/base/types.c, src/backend/native_lower.c). The
    rule compares widths on the machine that runs the compiler; values live at the widths of the target. */
module ImplicitConversions {
  import opened Words
  import opened NativeTypes

  /** Every value of the first type is unchanged when stored as the second. */
  ghost predicate KeepsValues(tg: Target, from: NType, to: NType)
    requires tg.Valid()
  {
    forall v :: IsCanonical(tg, from, v) ==> Canon(tg, to, v) == v
  }

  /** The rule, had it been asked about the target. */
  function AtTarget(tg: Target): Target { Target(tg.pointerBits, tg.pointerBits) }

  lemma {:induction false} CanonicalIsRange(tg: Target, t: NType, v: int)
    requires tg.Valid() && IsInteger(t)
    ensures IsCanonical(tg, t, v) <==> if IsSigned(t) then -Pow2(Bits(tg, t) - 1) <= v < Pow2(Bits(tg, t) - 1) else 0 <= v < Pow2(Bits(tg, t))
  {
    hide Pow2;
    var n := Bits(tg, t);
    if if IsSigned(t) then -Pow2(n - 1) <= v < Pow2(n - 1) else 0 <= v < Pow2(n) {
      WrapInRange(n, IsSigned(t), v);
    }
  }

  /** The values of each scalar type. */
  lemma {:induction false} TypeRanges(tg: Target, v: int)
    requires tg.Valid()
    ensures IsCanonical(tg, I8, v) <==> -128 <= v <= 127
    ensures IsCanonical(tg, I16, v) <==> -32768 <= v <= 32767
    ensures IsCanonical(tg, I32, v) <==> -2147483648 <= v <= 2147483647
    ensures IsCanonical(tg, I64, v) <==> -9223372036854775808 <= v <= 9223372036854775807
    ensures IsCanonical(tg, U8, v) <==> 0 <= v <= 255
    ensures IsCanonical(tg, U16, v) <==> 0 <= v <= 65535
    ensures IsCanonical(tg, U32, v) <==> 0 <= v <= 4294967295
    ensures IsCanonical(tg, U64, v) <==> 0 <= v <= 18446744073709551615
    ensures IsCanonical(tg, ISize, v) <==> IsCanonical(tg, if tg.pointerBits == 32 then I32 else I64, v)
    ensures IsCanonical(tg, USize, v) <==> IsCanonical(tg, if tg.pointerBits == 32 then U32 else U64, v)
    ensures IsCanonical(tg, CharT, v) <==> 0 <= v <= 255
    ensures IsCanonical(tg, BoolT, v) <==> v == 0 || v == 1
  {
    hide Pow2, IsCanonical;
    Pow2Values();
    CanonicalIsRange(tg, I8, v);
    CanonicalIsRange(tg, I16, v);
    CanonicalIsRange(tg, I32, v);
    CanonicalIsRange(tg, I64, v);
    CanonicalIsRange(tg, U8, v);
    CanonicalIsRange(tg, U16, v);
    CanonicalIsRange(tg, U32, v);
    CanonicalIsRange(tg, U64, v);
    CanonicalIsRange(tg, ISize, v);
    CanonicalIsRange(tg, USize, v);
    OtherRanges(tg, v);
  }

  lemma {:induction false} OtherRanges(tg: Target, v: int)
    requires tg.Valid()
    ensures IsCanonical(tg, CharT, v) <==> 0 <= v < Pow2(8)
    ensures IsCanonical(tg, BoolT, v) <==> v == 0 || v == 1
  {
    hide Pow2;
    if 0 <= v < Pow2(8) { WrapInRange(8, false, v); }
  }

  lemma {:induction false} CanonicalMeans(tg: Target, t: NType, v: int)
    requires tg.Valid()
    ensures IsCanonical(tg, t, v) <==> Canon(tg, t, v) == v
  {
  }

  /** Compiler and target give both types the same widths. */
  predicate SameWidths(tg: Target, from: NType, to: NType) {
    tg.pointerBits == tg.hostPointerBits || !(from.ISize? || from.USize? || to.ISize? || to.USize?)
  }

  predicate Widens(m: nat, fromSigned: bool, n: nat, toSigned: bool) {
    if fromSigned == toSigned then n >= m else !fromSigned && n > m
  }

  lemma {:induction false} RuleForm(tg: Target, from: NType, to: NType)
    requires tg.Valid() && IsInteger(from) && IsInteger(to)
    ensures Coercible(AtTarget(tg), from, to) <==> Widens(Bits(tg, from), IsSigned(from), Bits(tg, to), IsSigned(to))
    ensures Bits(tg, from) > 0 && Bits(tg, to) > 0
    ensures SameWidths(tg, from, to) ==> (Coercible(tg, from, to) <==> Coercible(AtTarget(tg), from, to))
  {
    hide Pow2;
  }

  /** The rule at target widths is exactly the conversions that keep every value. */
  lemma {:induction false} RuleIsExact(tg: Target, from: NType, to: NType)
    requires tg.Valid() && IsInteger(from) && IsInteger(to)
    ensures KeepsValues(tg, from, to) <==> Coercible(AtTarget(tg), from, to)
  {
    hide Pow2, IsCanonical, Bits, Coercible, IsSigned;
    var m, n := Bits(tg, from), Bits(tg, to);
    RuleForm(tg, from, to);
    if Coercible(AtTarget(tg), from, to) {
      forall v | IsCanonical(tg, from, v)
        ensures Canon(tg, to, v) == v
      {
        CanonicalIsRange(tg, from, v);
        Widened(m, IsSigned(from), n, IsSigned(to), v);
        WrapInRange(n, IsSigned(to), v);
        CanonicalIsRange(tg, to, v);
        CanonicalMeans(tg, to, v);
      }
    } else {
      var v := LostValue(m, IsSigned(from), n, IsSigned(to));
      CanonicalIsRange(tg, from, v);
      CanonicalIsRange(tg, to, v);
      CanonicalMeans(tg, to, v);
    }
  }

  lemma {:induction false} Widened(m: nat, fromSigned: bool, n: nat, toSigned: bool, v: int)
    requires m > 0 && Widens(m, fromSigned, n, toSigned)
    requires if fromSigned then -Pow2(m - 1) <= v < Pow2(m - 1) else 0 <= v < Pow2(m)
    ensures if toSigned then -Pow2(n - 1) <= v < Pow2(n - 1) else 0 <= v < Pow2(n)
  {
    Pow2Mono(m, n);
    Pow2Mono(m - 1, n - 1);
    if n > m { Pow2Mono(m, n - 1); }
  }

  /** A value of the first type that the second cannot hold. */
  lemma {:induction false} LostValue(m: nat, fromSigned: bool, n: nat, toSigned: bool) returns (v: int)
    requires m > 0 && n > 0 && !Widens(m, fromSigned, n, toSigned)
    ensures if fromSigned then -Pow2(m - 1) <= v < Pow2(m - 1) else 0 <= v < Pow2(m)
    ensures !(if toSigned then -Pow2(n - 1) <= v < Pow2(n - 1) else 0 <= v < Pow2(n))
  {
    if fromSigned && !toSigned {
      v := -1;
    } else {
      Pow2Step(m);
      if fromSigned {
        Pow2Mono(n, m - 1);
        Pow2Step(n);
        v := Pow2(n - 1);
      } else if toSigned {
        Pow2Mono(n, m);
        Pow2Step(n);
        v := Pow2(n - 1);
      } else {
        Pow2Mono(n, m - 1);
        v := Pow2(n);
      }
    }
  }

  /** So an accepted conversion keeps every value whenever compiler and target have the same pointer width,
      or no pointer-sized type is involved. */
  lemma {:induction false} NativeConversionKeepsValues(tg: Target, from: NType, to: NType)
    requires tg.Valid() && IsInteger(from) && IsInteger(to) && Coercible(tg, from, to)
    requires SameWidths(tg, from, to)
    ensures KeepsValues(tg, from, to)
  {
    hide Coercible, KeepsValues;
    RuleForm(tg, from, to);
    RuleIsExact(tg, from, to);
  }

  /** Otherwise it can lose one: a 64-bit compiler lets an i64 become a 32-bit target's isize. */
  lemma {:induction false} CrossConversionLosesValue()
    ensures Coercible(Target(32, 64), I64, ISize)
    ensures IsCanonical(Target(32, 64), I64, 0x1_0000_0000) && Canon(Target(32, 64), ISize, 0x1_0000_0000) == 0
  {
    hide Pow2;
    Pow2Values();
    WrapInRange(64, true, 0x1_0000_0000);
  }
}
