/** What operations on register pairs compute, in terms of the IR operators of the 64-bit types. */
module WideOps {
  import opened Words
  import opened Numeric
  import opened NativeTypes
  import opened X64
  import opened Wide

  // ----- 64-bit types -----

  predicate Wide64(t: NType) { t.I64? || t.U64? }

  /** A word as a value of a 64-bit type. */
  function ValueAs(t: NType, w: Word64): int { if t.I64? then Sign64(w) else w }

  lemma {:induction false} CanonWide(tg: Target, t: NType, w: Word64)
    requires tg.Valid() && Wide64(t)
    ensures Canon(tg, t, w) == ValueAs(t, w) && Low(ValueAs(t, w)) == w
  {
    Pow2Values();
    ModUnique(w, WORD64, 0, w);
    NarrowMinimum(64);
  }

  lemma {:induction false} LowCanon(tg: Target, t: NType, e: int)
    requires tg.Valid() && Wide64(t)
    ensures Low(Canon(tg, t, e)) == Low(e)
  {
    Pow2Values();
    var k := WrapCongruent(64, IsSigned(t), e);
    Differ(e, Canon(tg, t, e), WORD64, k);
  }

  /** Sums, differences and products of the words have the low bits of those of the values. */
  lemma {:induction false} WordArithmetic(t: NType, w: Word64, u: Word64)
    requires Wide64(t)
    ensures var a, b := ValueAs(t, w), ValueAs(t, u);
      Low(w + u) == Low(a + b) && Low(w - u) == Low(a - b) && Low(w * u) == Low(a * b)
  {
    var a, b := ValueAs(t, w), ValueAs(t, u);
    NarrowMinimum(64);
    ModUnique(w, WORD64, 0, w);
    ModUnique(u, WORD64, 0, u);
    CongruentAdd(w, u, a, b, WORD64);
    CongruentMul(w, u, a, b, WORD64);
  }

  // ----- multiplication -----

  /** Three 32-bit products, the upper ones cut to 32 bits, give the low 64 bits of the product. */
  lemma {:induction false} PairProduct(a: Reg, b: Reg, c: Reg, d: Reg, hi: Reg)
    requires hi == Low32(b * c + Low32(a * d + (a * c) / HALF)) || hi == Low32(a * d + b * c + (a * c) / HALF)
    ensures Value(Low32(a * c), hi) == Low(Value(a, b) * Value(c, d))
  {
    var p, x := a * c, a * d + b * c;
    HighSum(b * c, a * d + p / HALF);
    assert hi == Low32(x + p / HALF) by { HighRest(hi, b * c, a * d + p / HALF, x + p / HALF); }
    Expand(a, b, c, d);
    FoldHigh(b * d, x, p, hi);
  }

  /** A 32 by 32 bit product fits 64 bits. */
  lemma {:induction false} ProductHigh(x: Reg, y: Reg)
    ensures 0 <= x * y < HALF * HALF && 0 <= x * y / HALF < HALF
  {
    MulLe(0, x, y);
    MulLe(x, HALF - 1, y);
  }

  lemma {:induction false} HighRest(hi: Reg, y: int, z: int, s: int)
    requires s == y + z && (hi == Low32(y + Low32(z)) || hi == Low32(s)) && Low32(y + Low32(z)) == Low32(y + z)
    ensures hi == Low32(s)
  {
  }

  lemma {:induction false} HighSum(y: int, z: int)
    ensures Low32(y + Low32(z)) == Low32(y + z)
  {
    ModIdempotent(z, HALF);
    CongruentAdd(y, z % HALF, y, z, HALF);
  }

  lemma {:induction false} Expand(a: int, b: int, c: int, d: int)
    ensures (b * HALF + a) * (d * HALF + c) == (b * d) * WORD64 + (a * d + b * c) * HALF + a * c
  {
    MulAdd(b * HALF, 0 - a, d * HALF + c);
    Scale(b, d, c);
    Scale2(a, d, c);
    assert (a * d + b * c) * HALF == (a * d) * HALF + (b * c) * HALF;
  }

  lemma {:induction false} Scale(b: int, d: int, c: int)
    ensures (b * HALF) * (d * HALF + c) == (b * d) * WORD64 + (b * c) * HALF
  {
    calc {
      (b * HALF) * (d * HALF + c);
      { MulAssoc(b, HALF, d * HALF + c); }
      b * (HALF * (d * HALF + c));
      b * (d * WORD64 + c * HALF);
      b * (d * WORD64) + b * (c * HALF);
      { MulAssoc(b, d, WORD64); MulAssoc(b, c, HALF); }
      (b * d) * WORD64 + (b * c) * HALF;
    }
  }

  lemma {:induction false} Scale2(a: int, d: int, c: int)
    ensures a * (d * HALF + c) == (a * d) * HALF + a * c
  {
    MulAssoc(a, d, HALF);
  }

  lemma {:induction false} FoldHigh(y: int, x: int, p: int, hi: Reg)
    requires hi == Low32(x + p / HALF)
    ensures Value(Low32(p), hi) == Low(y * WORD64 + x * HALF + p)
  {
    var s := x + p / HALF;
    var q := s / HALF;
    assert p == (p / HALF) * HALF + Low32(p);
    assert s == q * HALF + hi;
    ModUnique(y * WORD64 + x * HALF + p, WORD64, y + q, hi * HALF + Low32(p));
  }

  // ----- bitwise operators -----

  lemma {:induction false} BitOpSplit(op: BinOp, a: nat, b: nat, c: nat, d: nat, k: nat, n: nat)
    requires a < Pow2(k) && c < Pow2(k)
    ensures b * Pow2(k) + a >= 0 && d * Pow2(k) + c >= 0
    ensures BitOp(op, b * Pow2(k) + a, d * Pow2(k) + c, k + n) == BitOp(op, b, d, n) * Pow2(k) + BitOp(op, a, c, k)
  {
    hide BitOp, Pow2;
    if k == 0 {
      NoBits(op, a, b, c, d, n);
      return;
    }
    var p := Pow2(k - 1);
    Pow2Step(k);
    HalfPair(a, b, p);
    HalfPair(c, d, p);
    BitOpSplit(op, a / 2, b, c / 2, d, k - 1, n);
    OneStep(op, a, c, k);
    OneStep(op, b * (2 * p) + a, d * (2 * p) + c, k + n);
    ShiftedSum(BitOp(op, b, d, n), p);
  }

  lemma {:induction false} NoBits(op: BinOp, a: nat, b: nat, c: nat, d: nat, n: nat)
    requires a < Pow2(0) && c < Pow2(0)
    ensures b * Pow2(0) + a == b && d * Pow2(0) + c == d
    ensures BitOp(op, b * Pow2(0) + a, d * Pow2(0) + c, 0 + n) == BitOp(op, b, d, n) * Pow2(0) + BitOp(op, a, c, 0)
  {
  }

  function OneBit(op: BinOp, x: int, y: int): int {
    if op.BAnd? then x * y else if op.BOr? then x + y - x * y else (x + y) % 2
  }

  lemma {:induction false} OneStep(op: BinOp, a: nat, b: nat, n: nat)
    requires n > 0
    ensures BitOp(op, a, b, n) == OneBit(op, a % 2, b % 2) + 2 * BitOp(op, a / 2, b / 2, n - 1)
  {
  }

  lemma {:induction false} ShiftedSum(h: int, p: int)
    ensures 2 * (h * p) == h * (2 * p)
  {
  }

  lemma {:induction false} HalfPair(a: nat, b: nat, p: nat)
    ensures b * (2 * p) + a >= 0 && (b * (2 * p) + a) % 2 == a % 2 && (b * (2 * p) + a) / 2 == b * p + a / 2
  {
    var t := b * p;
    assert b * (2 * p) == 2 * t;
  }

  lemma {:induction false} PairBitOp(op: BinOp, a: Reg, b: Reg, c: Reg, d: Reg)
    ensures BitOp(op, a, c, 32) < HALF && BitOp(op, b, d, 32) < HALF
    ensures BitOp(op, Value(a, b), Value(c, d), 64) == Value(BitOp(op, a, c, 32), BitOp(op, b, d, 32))
  {
    hide BitOp;
    Pow2Values();
    BitOpBelow(op, a, c, 32);
    BitOpBelow(op, b, d, 32);
    BitOpSplit(op, a, b, c, d, 32, 32);
  }

  // ----- shifts -----

  /** Shifting a pair right by one, a bit coming in at the top. */
  lemma {:induction false} RightPair(lo: Reg, hi: Reg, cin: bool)
    ensures var h := Right1(hi, cin);
      var l := Right1(lo, h.carry);
      Value(l.word, h.word) == Value(lo, hi) / 2 + (if cin then 0x8000_0000_0000_0000 else 0)
  {
  }

  /** With the sign bit coming in, that halves the signed value, rounding down. */
  lemma {:induction false} ArithmeticHalf(v: Word64)
    ensures var w := v / 2 + (if v >= 0x8000_0000_0000_0000 then 0x8000_0000_0000_0000 else 0);
      w < WORD64 && Sign64(w) == Sign64(v) / 2
  {
  }

  lemma {:induction false} HalveAgain(a: int, k: nat)
    ensures (a / Pow2(k)) / 2 == a / Pow2(k + 1)
  {
    hide Pow2;
    Pow2Step(k + 1);
    var p := Pow2(k);
    var q, r := a / p, a % p;
    var q2, b := q / 2, q % 2;
    assert a == q * p + r;
    assert q * p == q2 * (2 * p) + b * p by { TwiceHalf(q, q2, b, p); }
    assert 0 <= b * p <= p;
    ModUnique(a, 2 * p, q2, b * p + r);
  }

  lemma {:induction false} TwiceHalf(q: int, q2: int, b: int, p: int)
    requires q == 2 * q2 + b
    ensures q * p == q2 * (2 * p) + b * p
  {
    MulAdd(2 * q2, 0 - b, p);
    MulAssoc(q2, 2, p);
  }

  lemma {:induction false} DoubleAgain(a: int, k: nat, v: Word64)
    requires v == Low(a * Pow2(k))
    ensures Low(2 * v) == Low(a * Pow2(k + 1))
  {
    hide Pow2;
    Pow2Step(k + 1);
    Doubled(a, Pow2(k));
    var x := a * Pow2(k);
    ModIdempotent(x, WORD64);
    CongruentAdd(v, v, x, x, WORD64);
  }

  // ----- signed division from magnitudes -----

  function Magnitude(t: NType, w: Word64): Word64 {
    if t.I64? && w >= 0x8000_0000_0000_0000 then WORD64 - w else w
  }

  /** Negating a word gives its magnitude, and negating the unsigned results gives the signed ones. */
  lemma {:induction false} Magnitudes(t: NType, w: Word64, u: Word64)
    requires Wide64(t)
    ensures t.I64? && w >= 0x8000_0000_0000_0000 ==> Low(0 - w) == Magnitude(t, w)
    ensures t.I64? && u >= 0x8000_0000_0000_0000 ==> Low(0 - u) == Magnitude(t, u)
    ensures Magnitude(t, u) == 0 <==> ValueAs(t, u) == 0
    ensures var a, b, m, n := ValueAs(t, w), ValueAs(t, u), Magnitude(t, w), Magnitude(t, u);
      n != 0 ==>
      && 0 <= m / n <= m && 0 <= m % n < n
      && Low(TruncDiv(a, b)) == (if (a < 0) == (b < 0) then m / n else Low(0 - m / n))
      && Low(TruncMod(a, b)) == (if a < 0 then Low(0 - m % n) else m % n)
  {
    LowOf(0 - w);
    LowOf(0 - u);
    var m, n := Magnitude(t, w), Magnitude(t, u);
    if n != 0 {
      DivNonNegative(m, n);
      LowOf(m / n);
      LowOf(m % n);
    }
  }

  // ----- what a 64-bit operator leaves in the pair -----

  lemma {:induction false} CountOf(lo: Reg, hi: Reg)
    ensures Value(lo, hi) % 64 == lo % 64
  {
    Differ(Value(lo, hi), lo, 64, hi * 0x400_0000);
  }

  lemma {:induction false} ShiftStarts(t: NType, w: Word64)
    requires Wide64(t)
    ensures Low(ValueAs(t, w) * Pow2(0)) == w && ValueAs(t, w) / Pow2(0) == ValueAs(t, w) && Low(ValueAs(t, w)) == w
  {
    NarrowMinimum(64);
    LowOf(w);
  }

  lemma {:induction false} CutCarry(v: Word64, carry: int)
    requires -1 <= carry <= 1
    ensures Low(v + carry * WORD64) == v
  {
    ModUnique(v + carry * WORD64, WORD64, carry, v);
  }

  lemma {:induction false} WordOfValue(t: NType, w: Word64)
    requires Wide64(t)
    ensures Low(ValueAs(t, w)) == w
  {
    NarrowMinimum(64);
    LowOf(w);
  }

  function Divided(op: BinOp, a: int, b: int): int
    requires b != 0
  {
    if op.Mod? then TruncMod(a, b) else TruncDiv(a, b)
  }

  /** The IR operator on two words of a 64-bit type, spelt out. */
  lemma {:induction false} Expected(tg: Target, t: NType, op: BinOp, w: Word64, u: Word64) returns (r: OpResult)
    requires tg.Valid() && Wide64(t) && !IsComparison(op)
    ensures r == BinarySem(tg, t, op, w, u)
    ensures var a, b := ValueAs(t, w), ValueAs(t, u);
      match op
      case Add => r.OpValue? && Low(r.v) == Low(w + u)
      case Sub => r.OpValue? && Low(r.v) == Low(w - u)
      case Mul => r.OpValue? && Low(r.v) == Low(w * u)
      case Div | Mod =>
        if b == 0 || (t.I64? && b == -1 && a == -0x8000_0000_0000_0000) then r == OpTrap
        else r.OpValue? && Low(r.v) == Low(Divided(op, a, b))
      case Shl => r.OpValue? && Low(r.v) == Low(a * Pow2(u % 64))
      case Shr => r.OpValue? && Low(r.v) == Low(a / Pow2(u % 64))
      case BAnd | BOr | BXor => r.OpValue? && Low(r.v) == Low(BitOp(op, w, u, 64))
      case _ => r == OpWrong
  {
    hide Pow2, Canon, ValueAs, BitOp, TruncDiv, TruncMod, Low;
    Pow2Values();
    CanonWide(tg, t, w);
    CanonWide(tg, t, u);
    WordArithmetic(t, w, u);
    UnsignedOf(t, w);
    UnsignedOf(t, u);
    var a, b := ValueAs(t, w), ValueAs(t, u);
    r := BinarySem(tg, t, op, w, u);
    match op
    case Add => LowCanon(tg, t, a + b);
    case Sub => LowCanon(tg, t, a - b);
    case Mul => LowCanon(tg, t, a * b);
    case Div => if b != 0 { LowCanon(tg, t, TruncDiv(a, b)); }
    case Mod => if b != 0 { LowCanon(tg, t, TruncMod(a, b)); }
    case Shl => LowCanon(tg, t, a * Pow2(u % 64));
    case Shr => LowCanon(tg, t, a / Pow2(u % 64));
    case BAnd | BOr | BXor => LowCanon(tg, t, BitOp(op, w, u, 64));
    case _ =>
  }

  lemma {:induction false} UnsignedOf(t: NType, w: Word64)
    requires Wide64(t)
    ensures Unsigned64(ValueAs(t, w)) == w && ValueAs(t, w) % 64 == w % 64
  {
    WordOfValue(t, w);
    if ValueAs(t, w) != w {
      Differ(ValueAs(t, w), w, 64, -0x400_0000_0000_0000);
    }
  }
}
