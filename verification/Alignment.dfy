/** Powers of two and rounding up, the arithmetic under type layout (power_two and align_up in src/analysis/layout.c). */
module Alignment {
  import opened Wrappers
  import opened Words
  import opened NativeTypes
  import opened BitWords

  const WORD := 0x1_0000_0000_0000_0000

  /** A 64-bit size. */
  type Size = x: nat | x < 0x1_0000_0000_0000_0000

  /** The bit trick: clearing the lowest set bit leaves nothing. */
  predicate PowerTwo(n: Size) { n != 0 && AndW(n, n - 1, 64) == 0 }

  lemma {:induction false} PowerTwoMeaning(n: Size)
    ensures PowerTwo(n) <==> exists k: nat :: k < 64 && n == Pow2(k)
  {
    Pow2Values();
    if n != 0 {
      LowestBit(n, 64);
      if exists k: nat :: k < 64 && n == Pow2(k) {
        var k: nat :| k < 64 && n == Pow2(k);
        OnlyBit(k, 64);
      }
    }
  }

  /** If clearing the lowest bit leaves nothing, there was one bit. */
  lemma {:induction false} LowestBit(n: nat, w: nat)
    requires 0 < n < Pow2(w)
    ensures AndW(n, n - 1, w) == 0 ==> exists k: nat :: k < w && n == Pow2(k)
  {
    if n % 2 == 1 {
      AndStep(n, n - 1, w);
      AndSelf(n / 2, w - 1);
      if n == 1 { assert n == Pow2(0); }
    } else {
      AndStep(n, n - 1, w);
      assert (n - 1) / 2 == n / 2 - 1;
      LowestBit(n / 2, w - 1);
      if AndW(n, n - 1, w) == 0 {
        var k: nat :| k < w - 1 && n / 2 == Pow2(k);
        assert n == Pow2(k + 1);
      }
    }
  }

  lemma {:induction false} AndSelf(n: nat, w: nat)
    requires n < Pow2(w)
    ensures AndW(n, n, w) == n
  {
    if w > 0 {
      AndStep(n, n, w);
      AndSelf(n / 2, w - 1);
    }
  }

  lemma {:induction false} OnlyBit(k: nat, w: nat)
    requires k < w
    ensures Pow2(k) >= 1 && AndW(Pow2(k), Pow2(k) - 1, w) == 0
  {
    if k == 0 {
      AndZero(1, w);
    } else {
      Halves(k);
      AndStep(Pow2(k), Pow2(k) - 1, w);
      OnlyBit(k - 1, w - 1);
    }
  }

  // ----- rounding up -----

  /** The least multiple of a at or above n. */
  ghost function Up(n: int, a: int): int
    requires a > 0
  {
    n + (0 - n) % a
  }

  lemma {:induction false} UpIsLeast(n: int, a: int)
    requires a > 0
    ensures Up(n, a) % a == 0 && n <= Up(n, a) < n + a
    ensures forall m :: m >= n && m % a == 0 ==> m >= Up(n, a)
  {
    var r := (-n) % a;
    assert -n == ((-n) / a) * a + r;
    var q := -((-n) / a);
    assert n + r == q * a by { MulAdd(0, (-n) / a, a); }
    ModUnique(n + r, a, q, 0);
    forall m | m >= n && m % a == 0
      ensures m >= Up(n, a)
    {
      if m < n + r {
        assert m == (m / a) * a;
        MulAdd(q, m / a, a);
        MulGap(q - m / a, a);
      }
    }
  }

  /** align_up: None when the alignment is no power of two or the result exceeds the largest object. */
  function AlignUp(max: Size, size: Size, alignment: Size): (r: Option<Size>)
    requires max < WORD
  {
    if !PowerTwo(alignment) || size > max then None
    else
      var padding := AndW((WORD - size) % WORD, alignment - 1, 64);
      if padding > max - size then None else Some(size + padding)
  }

  lemma {:induction false} AlignUpMeaning(max: Size, size: Size, alignment: Size)
    ensures AlignUp(max, size, alignment).Some? <==> PowerTwo(alignment) && size <= max && Up(size, alignment) <= max
    ensures AlignUp(max, size, alignment).Some? ==> AlignUp(max, size, alignment).value == Up(size, alignment)
  {
    if PowerTwo(alignment) && size <= max {
      PaddingIs(size, alignment);
    }
  }

  lemma {:induction false} PaddingIs(size: Size, alignment: Size)
    requires PowerTwo(alignment)
    ensures alignment > 0 && AndW((WORD - size) % WORD, alignment - 1, 64) == (0 - size) % alignment
  {
    hide Pow2, BitOp;
    PowerTwoMeaning(alignment);
    var k: nat :| k < 64 && alignment == Pow2(k);
    AndMask((WORD - size) % WORD, k, 64);
    Pow2Values();
    Pow2Add(64 - k, k);
    ModNested(WORD - size, alignment, Pow2(64 - k));
    Differ(WORD - size, 0 - size, alignment, Pow2(64 - k));
  }
}
