/** 64-bit integers in pairs of 32-bit registers, and the long division both 32-bit encoders emit. */
module Wide {
  import opened Words
  import opened Numeric

  const HALF := 0x1_0000_0000
  type Reg = x: int | 0 <= x < HALF

  /** A 32-bit result and the carry (or borrow, or bit shifted out) that goes with it. */
  datatype Carried = Carried(word: Reg, carry: bool)

  function Bit(c: bool): int { if c then 1 else 0 }

  function AddC(x: Reg, y: Reg, c: bool): Carried {
    var s := x + y + Bit(c);
    if s >= HALF then Carried(s - HALF, true) else Carried(s, false)
  }

  function SubB(x: Reg, y: Reg, borrow: bool): Carried {
    var d := x - y - Bit(borrow);
    if d < 0 then Carried(d + HALF, true) else Carried(d, false)
  }

  /** One bit to the left, a bit coming in at the bottom. */
  function Left1(x: Reg, c: bool): Carried { AddC(x, x, c) }

  /** One bit to the right, a bit coming in at the top. */
  function Right1(x: Reg, c: bool): Carried { Carried(x / 2 + (if c then 0x8000_0000 else 0), x % 2 == 1) }

  function Low32(v: int): Reg { v % HALF }

  /** The number in a register pair. */
  function Value(lo: Reg, hi: Reg): Word64 { hi * HALF + lo }

  // ----- carries -----

  lemma {:induction false} AddPairs(a: Reg, b: Reg, c: Reg, d: Reg, cin: bool)
    ensures var lo := AddC(a, c, cin);
      var hi := AddC(b, d, lo.carry);
      Value(lo.word, hi.word) + Bit(hi.carry) * WORD64 == Value(a, b) + Value(c, d) + Bit(cin)
  {
  }

  lemma {:induction false} SubPairs(a: Reg, b: Reg, c: Reg, d: Reg)
    ensures var lo := SubB(a, c, false);
      var hi := SubB(b, d, lo.carry);
      && Value(lo.word, hi.word) - Bit(hi.carry) * WORD64 == Value(a, b) - Value(c, d)
      && (hi.carry <==> Value(a, b) < Value(c, d))
  {
  }

  // ----- restoring division -----

  /** After k of 64 steps: the k leading bits of n have been divided by d, the others are still in a. */
  ghost predicate Dividing(n: Word64, d: Word64, k: nat, a: Word64, q: Word64, r: Word64)
    requires d > 0
  {
    && n * Pow2(k) == (q * d + r) * WORD64 + a
    && r < d && q * d + r < Pow2(k)
  }

  lemma {:induction false} DivisionStarts(n: Word64, d: Word64)
    requires d > 0
    ensures Dividing(n, d, 0, n, 0, 0)
  {
  }

  /** No bit is lost on the way: what was divided so far is below 2^k, so it can be doubled. */
  lemma {:induction false} NothingLost(n: Word64, d: Word64, k: nat, a: Word64, q: Word64, r: Word64)
    requires d > 0 && k < 64 && Dividing(n, d, k, a, q, r)
    ensures 2 * r + 1 < WORD64 && 2 * q + 1 < WORD64
  {
    hide Pow2;
    Pow2Values();
    Pow2Mono(k, 63);
    QuotientBelow(q, d, r);
  }

  lemma {:induction false} QuotientBelow(q: int, d: int, r: int)
    requires q >= 0 && d > 0 && r >= 0
    ensures q <= q * d + r && r <= q * d + r
  {
    assert q * (d - 1) >= 0;
    assert q * (d - 1) == q * d - q;
  }

  lemma {:induction false} DivisionStep(n: Word64, d: Word64, k: nat, a: Word64, q: Word64, r: Word64, top: int, a': Word64, take: bool)
    requires d > 0 && k < 64 && Dividing(n, d, k, a, q, r)
    requires (top == 0 || top == 1) && a' + top * WORD64 == 2 * a
    requires take <==> 2 * r + top >= d
    ensures 2 * r + 1 < WORD64 && 2 * q + 1 < WORD64
    ensures Dividing(n, d, k + 1, a', 2 * q + Bit(take), 2 * r + top - Bit(take) * d)
  {
    hide Pow2;
    NothingLost(n, d, k, a, q, r);
    Pow2Step(k + 1);
    Doubled(n, Pow2(k));
    TakeOne(q, d, take);
  }

  lemma {:induction false} Doubled(n: int, p: int)
    ensures n * (2 * p) == 2 * (n * p)
  {
  }

  lemma {:induction false} TakeOne(q: int, d: int, take: bool)
    ensures (2 * q + Bit(take)) * d == 2 * (q * d) + Bit(take) * d
  {
    MulAdd(2 * q, Bit(take), d);
    MulAssoc(2, q, d);
  }

  lemma {:induction false} DivisionEnds(n: Word64, d: Word64, a: Word64, q: Word64, r: Word64)
    requires d > 0 && Dividing(n, d, 64, a, q, r)
    ensures q == n / d && r == n % d
  {
    hide Pow2;
    Pow2Values();
    ModUnique(n * WORD64, WORD64, n, 0);
    ModUnique(n * WORD64, WORD64, q * d + r, a);
    ModUnique(n, d, q, r);
  }
}
