/** Bitwise operators on words, in terms of powers of two. */
module BitWords {
  import opened Words
  import opened NativeTypes

  function AndW(a: nat, b: nat, n: nat): nat { BitOp(BAnd, a, b, n) }
  function OrW(a: nat, b: nat, n: nat): nat { BitOp(BOr, a, b, n) }
  function XorW(a: nat, b: nat, n: nat): nat { BitOp(BXor, a, b, n) }

  lemma {:induction false} Halves(k: nat)
    requires k > 0
    ensures Pow2(k) == 2 * Pow2(k - 1)
    ensures (Pow2(k) - 1) % 2 == 1 && (Pow2(k) - 1) / 2 == Pow2(k - 1) - 1
    ensures Pow2(k) % 2 == 0 && Pow2(k) / 2 == Pow2(k - 1)
  {
    hide Pow2;
    Pow2Step(k);
  }

  /** A remainder by 2^k is the last bit and the remainder of the rest by 2^(k-1). */
  lemma {:induction false} ModHalf(a: int, k: nat)
    requires k > 0
    ensures a % Pow2(k) == a % 2 + 2 * ((a / 2) % Pow2(k - 1))
    ensures a / Pow2(k) == (a / 2) / Pow2(k - 1)
  {
    var p := Pow2(k - 1);
    var q, r := (a / 2) / p, (a / 2) % p;
    assert a / 2 == q * p + r;
    assert a == q * (2 * p) + (a % 2 + 2 * r) by {
      assert 2 * (q * p) == q * (2 * p);
    }
    ModUnique(a, 2 * p, q, a % 2 + 2 * r);
  }

  lemma {:induction false} AndStep(a: nat, b: nat, n: nat)
    requires n > 0
    ensures AndW(a, b, n) == (if b % 2 == 1 then a % 2 else 0) + 2 * AndW(a / 2, b / 2, n - 1)
  {
  }

  lemma {:induction false} AndZero(a: nat, n: nat)
    ensures AndW(a, 0, n) == 0
  {
    if n > 0 { AndZero(a / 2, n - 1); }
  }

  lemma {:induction false} EmptyMask(a: nat, n: nat)
    ensures AndW(a, Pow2(0) - 1, n) == a % Pow2(0)
  {
    AndZero(a, n);
  }

  lemma {:induction false} MaskStep(a: nat, k: nat)
    requires k > 0
    ensures Pow2(k) - 1 > 0 && (Pow2(k) - 1) % 2 == 1 && (Pow2(k) - 1) / 2 == Pow2(k - 1) - 1
    ensures a % Pow2(k) == a % 2 * 1 + 2 * ((a / 2) % Pow2(k - 1))
  {
    hide Pow2;
    Halves(k);
    ModHalf(a, k);
  }

  /** And with a mask of k ones keeps the remainder by 2^k. */
  lemma {:induction false} AndMask(a: nat, k: nat, n: nat)
    requires k <= n
    ensures AndW(a, Pow2(k) - 1, n) == a % Pow2(k)
  {
    hide BitOp, Pow2;
    if k == 0 {
      EmptyMask(a, n);
    } else {
      MaskStep(a, k);
      AndStep(a, Pow2(k) - 1, n);
      AndMask(a / 2, k - 1, n - 1);
    }
  }

  /** And with 2^k tests bit k. */
  lemma {:induction false} AndBit(a: nat, k: nat, n: nat)
    requires k < n
    ensures AndW(a, Pow2(k), n) == ((a / Pow2(k)) % 2) * Pow2(k)
  {
    if k == 0 {
      AndZero(a / 2, n - 1);
    } else {
      Halves(k);
      ModHalf(a, k);
      AndBit(a / 2, k - 1, n - 1);
      var bit, p := (a / Pow2(k)) % 2, Pow2(k - 1);
      assert 2 * (bit * p) == bit * (2 * p);
    }
  }

  lemma {:induction false} OrZero(b: nat, n: nat)
    requires b < Pow2(n)
    ensures OrW(0, b, n) == b
  {
    if n > 0 { OrZero(b / 2, n - 1); }
  }

  /** Or of words without a common bit is their sum. */
  lemma {:induction false} OrDisjoint(x: nat, y: nat, k: nat, n: nat)
    requires k <= n && x < Pow2(k) && y % Pow2(k) == 0 && y < Pow2(n)
    ensures OrW(x, y, n) == x + y
  {
    if k == 0 {
      OrZero(y, n);
    } else {
      ModHalf(y, k);
      OrDisjoint(x / 2, y / 2, k - 1, n - 1);
    }
  }

  /** Exclusive or of two masks leaves the bits only the longer one has. */
  lemma {:induction false} XorMasks(m: nat, k: nat, n: nat)
    requires k <= m <= n
    ensures XorW(Pow2(m) - 1, Pow2(k) - 1, n) == Pow2(m) - Pow2(k)
  {
    if m > 0 {
      Halves(m);
      if k == 0 {
        XorMasks(m - 1, 0, n - 1);
      } else {
        Halves(k);
        XorMasks(m - 1, k - 1, n - 1);
      }
    } else if n > 0 {
      XorMasks(0, 0, n - 1);
    }
  }
}
