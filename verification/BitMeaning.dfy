/** What the bitwise operators mean, bit by bit. */
module BitMeaning {
  import opened Words
  import opened Numeric
  import opened NativeTypes

  /** Bit k of an integer in two's complement. */
  function Bit(v: int, k: nat): int { (v / Pow2(k)) % 2 }

  predicate IsBitwise(op: BinOp) { op.BAnd? || op.BOr? || op.BXor? }

  /** A bit of the result is set when it is set in both, in either, or in exactly one of the operands. */
  predicate Combines(op: BinOp, x: bool, y: bool)
    requires IsBitwise(op)
  {
    match op
    case BAnd => x && y
    case BOr => x || y
    case _ => x != y
  }

  lemma {:induction false} BitShift(v: int, k: nat)
    requires k > 0
    ensures Bit(v, k) == Bit(v / 2, k - 1)
  {
    Pow2Step(k);
    DivDiv(v, 2, Pow2(k - 1));
  }

  lemma {:induction false} BitZero(v: int)
    ensures Bit(v, 0) == v % 2
  {
  }

  lemma {:induction false} BitOpBits(op: BinOp, a: nat, b: nat, n: nat, k: nat)
    requires IsBitwise(op) && k < n
    ensures Bit(BitOp(op, a, b, n), k) == 1 <==> Combines(op, Bit(a, k) == 1, Bit(b, k) == 1)
    decreases n
  {
    hide Bit;
    var tail := BitOp(op, a / 2, b / 2, n - 1);
    var x, y := a % 2, b % 2;
    var low := if op.BAnd? then x * y else if op.BOr? then x + y - x * y else (x + y) % 2;
    OneBit(x, y);
    assert BitOp(op, a, b, n) == low + 2 * tail;
    if k == 0 {
      BitZero(a);
      BitZero(b);
      BitZero(low + 2 * tail);
    } else {
      BitShift(a, k);
      BitShift(b, k);
      BitShift(low + 2 * tail, k);
      assert (low + 2 * tail) / 2 == tail;
      BitOpBits(op, a / 2, b / 2, n - 1, k - 1);
    }
  }

  lemma {:induction false} OneBit(x: int, y: int)
    requires 0 <= x <= 1 && 0 <= y <= 1
    ensures x * y == (if x == 1 && y == 1 then 1 else 0) && x + y - x * y == (if x == 1 || y == 1 then 1 else 0)
    ensures (x + y) % 2 == if x != y then 1 else 0
  {
  }

  /** Numbers that are the same modulo 2^m agree on the bits below m. */
  lemma {:induction false} BitCongruent(u: int, v: int, j: int, m: nat, k: nat)
    requires u == v + j * Pow2(m) && k < m
    ensures Bit(u, k) == Bit(v, k)
    decreases k
  {
    hide Bit;
    Pow2Step(m);
    MulAssoc(j, 2, Pow2(m - 1));
    var half := j * Pow2(m - 1);
    assert u == v + 2 * half by { MulAssoc(2, j, Pow2(m - 1)); }
    if k == 0 {
      BitZero(u);
      BitZero(v);
    } else {
      BitShift(u, k);
      BitShift(v, k);
      assert u / 2 == v / 2 + half;
      BitCongruent(u / 2, v / 2, j, m - 1, k - 1);
    }
  }

  lemma {:induction false} BitOfCanon(tg: Target, t: NType, v: int, k: nat)
    requires tg.Valid() && IsInteger(t) && k < Bits(tg, t)
    ensures Bit(Canon(tg, t, v), k) == Bit(v, k)
  {
    hide Bit, Pow2, Wrap;
    var j := WrapCongruent(Bits(tg, t), IsSigned(t), v);
    BitCongruent(v, Canon(tg, t, v), j, Bits(tg, t), k);
  }

  lemma {:induction false} BitOfWord(v: int, k: nat)
    requires k < 64
    ensures Bit(Unsigned64(v), k) == Bit(v, k)
  {
    hide Bit, Pow2;
    Pow2Values();
    BitCongruent(v, Unsigned64(v), v / WORD64, 64, k);
  }

  /** And, or and exclusive or of any integers, on every bit of the type. */
  lemma {:induction false} BitwiseMeaning(tg: Target, t: NType, op: BinOp, left: int, right: int, k: nat)
    requires tg.Valid() && IsInteger(t) && IsBitwise(op) && k < Bits(tg, t)
    ensures BinarySem(tg, t, op, left, right).OpValue?
    ensures Bit(BinarySem(tg, t, op, left, right).v, k) == 1 <==> Combines(op, Bit(left, k) == 1, Bit(right, k) == 1)
  {
    hide Bit, Canon, BitOp, Unsigned64, Pow2;
    var a, b := Canon(tg, t, left), Canon(tg, t, right);
    BitOfCanon(tg, t, left, k);
    BitOfCanon(tg, t, right, k);
    BitOfWord(a, k);
    BitOfWord(b, k);
    BitOpBits(op, Unsigned64(a), Unsigned64(b), 64, k);
    BitOfCanon(tg, t, BitOp(op, Unsigned64(a), Unsigned64(b), 64), k);
  }

  // ----- one operand -----

  lemma {:induction false} ComplementBit(v: int, k: nat)
    ensures Bit(-1 - v, k) == 1 - Bit(v, k)
    decreases k
  {
    hide Bit;
    if k == 0 {
      BitZero(v);
      BitZero(-1 - v);
    } else {
      BitShift(v, k);
      BitShift(-1 - v, k);
      assert (-1 - v) / 2 == -1 - v / 2;
      ComplementBit(v / 2, k - 1);
    }
  }

  /** Complement turns every bit of the type; negation gives what adds up to zero at the width of the type. */
  lemma {:induction false} UnaryMeaning(tg: Target, t: NType, v: int, k: nat)
    requires tg.Valid() && IsInteger(t) && k < Bits(tg, t)
    ensures UnarySem(tg, t, BNot, v).OpValue? && Bit(UnarySem(tg, t, BNot, v).v, k) != Bit(v, k)
    ensures UnarySem(tg, t, Neg, v).OpValue? && BinarySem(tg, t, Add, UnarySem(tg, t, Neg, v).v, v) == OpValue(0)
  {
    hide Bit, Pow2, Wrap;
    BitOfCanon(tg, t, -1 - v, k);
    ComplementBit(v, k);
    var n, signed := Bits(tg, t), IsSigned(t);
    var i := WrapCongruent(n, signed, -v);
    var l := WrapCongruent(n, signed, v);
    WrapIdempotent(n, signed, -v);
    MulAdd(i, l, Pow2(n));
    assert Wrap(n, signed, -v) + Wrap(n, signed, v) == 0 + (0 - i - l) * Pow2(n) by { MulAdd(-i, l, Pow2(n)); MulAdd(0, i + l, Pow2(n)); }
    WrapShift(n, signed, 0, 0 - i - l);
    CanonZero(tg, t);
  }
}
