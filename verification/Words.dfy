/** Machine words as integers: powers of two and two's complement wrapping. */
module Words {

  function Pow2(n: nat): (p: int)
    ensures p >= 1
  {
    if n == 0 then 1 else 2 * Pow2(n - 1)
  }

  lemma {:induction false} Pow2Add(m: nat, n: nat)
    ensures Pow2(m + n) == Pow2(m) * Pow2(n)
  {
    if m == 0 {
    } else {
      Pow2Add(m - 1, n);
      var a, b := Pow2(m - 1), Pow2(n);
      assert Pow2(m + n) == 2 * Pow2(m - 1 + n);
      assert 2 * (a * b) == (2 * a) * b;
    }
  }

  lemma {:induction false} Pow2Mono(m: nat, n: nat)
    requires m <= n
    ensures Pow2(m) <= Pow2(n)
    decreases n - m
  {
    if m < n {
      Pow2Mono(m, n - 1);
    }
  }

  lemma {:induction false} Pow2Values()
    ensures Pow2(8) == 0x100 && Pow2(16) == 0x1_0000
    ensures Pow2(32) == 0x1_0000_0000 && Pow2(64) == 0x1_0000_0000_0000_0000
    ensures Pow2(7) == 0x80 && Pow2(15) == 0x8000 && Pow2(31) == 0x8000_0000
    ensures Pow2(63) == 0x8000_0000_0000_0000
  {
    assert Pow2(8) == 0x100;
    Pow2Add(8, 8);
    Pow2Add(8, 7);
    Pow2Add(16, 16);
    Pow2Add(16, 15);
    Pow2Add(32, 32);
    Pow2Add(32, 31);
  }

  /** The value of the low n bits of v, read as unsigned or two's complement. */
  function Wrap(n: nat, signed: bool, v: int): (r: int)
    requires n >= 1
    ensures !signed ==> 0 <= r < Pow2(n)
    ensures signed ==> -Pow2(n - 1) <= r < Pow2(n - 1)
  {
    var m := v % Pow2(n);
    if signed && m >= Pow2(n - 1) then m - Pow2(n) else m
  }

  lemma {:induction false} MulGap(d: int, m: int)
    requires m > 0
    ensures d >= 1 ==> d * m >= m
    ensures d <= -1 ==> d * m <= -m
  {
    if d >= 1 {
      assert (d - 1) * m >= 0;
    } else if d <= -1 {
      assert (-1 - d) * m >= 0;
    }
  }

  /** Quotient and remainder are the only pair with 0 <= r < m. */
  lemma {:induction false} ModUnique(a: int, m: int, q: int, r: int)
    requires m > 0 && 0 <= r < m && a == q * m + r
    ensures a % m == r && a / m == q
  {
    var q', r' := a / m, a % m;
    assert a == q' * m + r';
    assert (q - q') * m == r' - r;
    MulGap(q - q', m);
  }

  lemma {:induction false} DivNonNegative(a: int, b: int)
    requires a >= 0 && b > 0
    ensures 0 <= a / b <= a
  {
    var q, r := a / b, a % b;
    assert a == q * b + r;
    MulGap(q, b);
    if q >= 1 {
      assert q * b >= q by { MulGap(b, q); }
    }
  }

  lemma {:induction false} ModShift(a: int, m: int, k: int)
    requires m > 0
    ensures (a + k * m) % m == a % m
  {
    var q, r := a / m, a % m;
    assert a + k * m == (q + k) * m + r;
    ModUnique(a + k * m, m, q + k, r);
  }

  lemma {:induction false} WrapCongruent(n: nat, signed: bool, v: int) returns (k: int)
    requires n >= 1
    ensures v == Wrap(n, signed, v) + k * Pow2(n)
  {
    var P := Pow2(n);
    assert v == (v / P) * P + v % P;
    k := if Wrap(n, signed, v) == v % P then v / P else v / P + 1;
    assert (v / P + 1) * P == (v / P) * P + P;
  }

  /** Wrapping depends only on the value modulo 2^n. */
  lemma {:induction false} WrapShift(n: nat, signed: bool, v: int, k: int)
    requires n >= 1
    ensures Wrap(n, signed, v + k * Pow2(n)) == Wrap(n, signed, v)
  {
    ModShift(v, Pow2(n), k);
  }

  lemma {:induction false} WrapIdempotent(n: nat, signed: bool, v: int)
    requires n >= 1
    ensures Wrap(n, signed, Wrap(n, signed, v)) == Wrap(n, signed, v)
  {
    var k := WrapCongruent(n, signed, v);
    WrapShift(n, signed, Wrap(n, signed, v), k);
  }

  /** Values already in range are left alone. */
  lemma {:induction false} WrapInRange(n: nat, signed: bool, v: int)
    requires n >= 1
    requires if signed then -Pow2(n - 1) <= v < Pow2(n - 1) else 0 <= v < Pow2(n)
    ensures Wrap(n, signed, v) == v
  {
    if v >= 0 {
      ModUnique(v, Pow2(n), 0, v);
    } else {
      ModUnique(v, Pow2(n), -1, v + Pow2(n));
    }
  }

  // ----- arithmetic modulo m -----

  lemma {:induction false} MulAdd(k: int, l: int, m: int)
    ensures (k + l) * m == k * m + l * m && (k - l) * m == k * m - l * m
  {
  }

  lemma {:induction false} MulLe(x: int, y: int, w: int)
    requires x <= y && w >= 0
    ensures x * w <= y * w
  {
    assert (y - x) * w >= 0;
  }

  /** A digit on top of a smaller number stays below the next weight. */
  lemma {:induction false} DigitBound(v: int, x: int, w: int, b: int)
    requires 0 <= v < w && 0 <= x < b
    ensures 0 <= v + x * w < b * w
  {
    MulLe(0, x, w);
    MulLe(x, b - 1, w);
  }

  lemma {:induction false} MulAssoc(a: int, b: int, c: int)
    ensures (a * b) * c == a * (b * c)
  {
  }

  lemma {:induction false} Multiple(a: int, c: int, m: int) returns (k: int)
    requires m > 0 && a % m == c % m
    ensures a == c + k * m
  {
    k := a / m - c / m;
    assert a == (a / m) * m + a % m && c == (c / m) * m + c % m;
    MulAdd(a / m, c / m, m);
  }

  lemma {:induction false} Differ(a: int, c: int, m: int, k: int)
    requires m > 0 && a == c + k * m
    ensures a % m == c % m
  {
    ModShift(c, m, k);
  }

  lemma {:induction false} CongruentAdd(a: int, b: int, c: int, d: int, m: int)
    requires m > 0 && a % m == c % m && b % m == d % m
    ensures (a + b) % m == (c + d) % m && (a - b) % m == (c - d) % m
  {
    var k := Multiple(a, c, m);
    var l := Multiple(b, d, m);
    SumOfMultiples(a, b, c, d, m, k, l);
  }

  lemma {:induction false} SumOfMultiples(a: int, b: int, c: int, d: int, m: int, k: int, l: int)
    requires m > 0 && a == c + k * m && b == d + l * m
    ensures (a + b) % m == (c + d) % m && (a - b) % m == (c - d) % m
  {
    MulAdd(k, l, m);
    Differ(a + b, c + d, m, k + l);
    Differ(a - b, c - d, m, k - l);
  }

  lemma {:induction false} CongruentMul(a: int, b: int, c: int, d: int, m: int)
    requires m > 0 && a % m == c % m && b % m == d % m
    ensures (a * b) % m == (c * d) % m
  {
    var k := Multiple(a, c, m);
    var l := Multiple(b, d, m);
    ProductOfMultiples(a, b, c, d, m, k, l);
  }

  lemma {:induction false} ProductOfMultiples(a: int, b: int, c: int, d: int, m: int, k: int, l: int)
    requires m > 0 && a == c + k * m && b == d + l * m
    ensures (a * b) % m == (c * d) % m
  {
    calc {
      a * b;
      c * b + (k * m) * b;
      { MulAssoc(k, m, b); MulAssoc(k, b, m); }
      c * (d + l * m) + (k * b) * m;
      c * d + c * (l * m) + (k * b) * m;
      { MulAssoc(c, l, m); MulAdd(c * l, k * b, m); }
      c * d + (c * l + k * b) * m;
    }
    Differ(a * b, c * d, m, c * l + k * b);
  }

  /** A remainder may be taken modulo a multiple first. */
  lemma {:induction false} ModNested(v: int, m: int, k: int)
    requires m > 0 && k > 0
    ensures k * m > 0 && (v % (k * m)) % m == v % m
  {
    assert k * m > 0 by { MulGap(k, m); }
    var q, r := v / (k * m), v % (k * m);
    assert v == q * (k * m) + r;
    MulAssoc(q, k, m);
    Differ(v, r, m, q * k);
  }

  lemma {:induction false} ModIdempotent(v: int, m: int)
    requires m > 0
    ensures (v % m) % m == v % m
  {
    ModUnique(v % m, m, 0, v % m);
  }

  lemma {:induction false} Pow2Step(k: nat)
    requires k > 0
    ensures Pow2(k) == 2 * Pow2(k - 1)
  {
  }

  lemma {:induction false} DivDiv(n: int, w: int, q: int)
    requires w > 0 && q > 0
    ensures w * q > 0 && (n / w) / q == n / (w * q)
  {
    var t, l := n / w, n % w;
    var u, m := t / q, t % q;
    assert w * q > 0 by { MulGap(w, q); }
    assert n == (u * q + m) * w + l by { assert n == t * w + l && t == u * q + m; }
    MulAdd(u * q, 0 - m, w);
    MulAssoc(u, q, w);
    DigitBound(l, m, w, q);
    ModUnique(n, w * q, u, l + m * w);
  }
}
