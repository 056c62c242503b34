/** Little-endian base-2^32 digit sequences and the in-place loops shared by literals and big integers. */
module Limbs {
  import opened Words

  const BASE := 0x1_0000_0000

  function Weight(n: nat): (w: int)
    ensures w >= 1
  {
    if n == 0 then 1 else BASE * Weight(n - 1)
  }

  /** The number a limb sequence denotes. */
  ghost function Val(s: seq<int>): int {
    if s == [] then 0 else Val(s[..|s| - 1]) + s[|s| - 1] * Weight(|s| - 1)
  }

  ghost predicate AreLimbs(s: seq<int>) {
    forall i :: 0 <= i < |s| ==> 0 <= s[i] < BASE
  }

  lemma {:induction false} WeightAdd(m: nat, n: nat)
    ensures Weight(m + n) == Weight(m) * Weight(n)
  {
    if m > 0 {
      WeightAdd(m - 1, n);
      var a, b := Weight(m - 1), Weight(n);
      assert BASE * (a * b) == (BASE * a) * b;
    }
  }

  lemma {:induction false} WeightMono(m: nat, n: nat)
    requires m <= n
    ensures Weight(m) <= Weight(n)
    decreases n - m
  {
    if m < n {
      WeightMono(m, n - 1);
    }
  }

  lemma {:induction false} ValSnoc(s: seq<int>, x: int)
    ensures Val(s + [x]) == Val(s) + x * Weight(|s|)
  {
    assert (s + [x])[..|s|] == s;
  }

  lemma {:induction false} ValPrefix(s: seq<int>, n: nat)
    requires n < |s|
    ensures Val(s[..n + 1]) == Val(s[..n]) + s[n] * Weight(n)
  {
    assert s[..n + 1] == s[..n] + [s[n]];
    ValSnoc(s[..n], s[n]);
  }

  lemma {:induction false} ValBounds(s: seq<int>)
    requires AreLimbs(s)
    ensures 0 <= Val(s) < Weight(|s|)
  {
    if s != [] {
      ValBounds(s[..|s| - 1]);
      DigitBound(Val(s[..|s| - 1]), s[|s| - 1], Weight(|s| - 1), BASE);
    }
  }

  lemma {:induction false} Regroup(a: int, b: int, c: int, x: int)
    ensures a * (c + x * b) == a * c + x * (a * b)
  {
    assert a * (x * b) == x * (a * b);
  }

  lemma {:induction false} ValConcat(s: seq<int>, t: seq<int>)
    ensures Val(s + t) == Val(s) + Weight(|s|) * Val(t)
  {
    if t == [] {
      assert s + t == s;
    } else {
      var t', x := t[..|t| - 1], t[|t| - 1];
      ValConcat(s, t');
      assert s + t == (s + t') + [x];
      ValSnoc(s + t', x);
      WeightAdd(|s|, |t'|);
      Regroup(Weight(|s|), Weight(|t'|), Val(t'), x);
    }
  }

  /** a[..n] := a[..n] * factor + addend, returning the carry out of the top limb. */
  method MultiplyAddInPlace(a: array<int>, n: nat, factor: int, addend: int) returns (carry: int)
    requires n <= a.Length && AreLimbs(a[..n])
    requires 0 < factor < BASE && 0 <= addend < factor
    modifies a
    ensures AreLimbs(a[..n]) && 0 <= carry < factor
    ensures Val(a[..n]) + carry * Weight(n) == Val(old(a[..n])) * factor + addend
    ensures a[n..] == old(a[n..])
  {
    carry := addend;
    var i := 0;
    while i < n
      invariant 0 <= i <= n && 0 <= carry < factor
      invariant AreLimbs(a[..i])
      invariant Val(a[..i]) + carry * Weight(i) == Val(old(a[..i])) * factor + addend
      invariant a[i..] == old(a[i..])
    {
      ghost var before, above := a[..i], carry;
      ghost var limb := a[i];
      assert limb == old(a[..n])[i];
      var cur := a[i] * factor + carry;
      ProductBound(limb, factor, carry);
      a[i] := cur % BASE;
      carry := cur / BASE;
      CarryStep(cur, Weight(i), limb, factor, above);
      assert a[..i] == before;
      ValPrefix(a[..], i);
      ValPrefix(old(a[..]), i);
      assert a[..][..i + 1] == a[..i + 1] && a[..][..i] == a[..i];
      assert old(a[..])[..i + 1] == old(a[..i + 1]) && old(a[..])[..i] == old(a[..i]);
      Distribute(Val(old(a[..i])), limb * Weight(i), factor);
      i := i + 1;
    }
  }

  lemma {:induction false} ProductBound(limb: int, factor: int, carry: int)
    requires 0 <= limb < BASE && 0 <= carry < factor
    ensures 0 <= limb * factor + carry
    ensures (limb * factor + carry) / BASE < factor
  {
    DigitBound(carry, limb, factor, BASE);
    QuotientBound(limb * factor + carry, BASE, factor);
  }

  lemma {:induction false} QuotientBound(v: int, b: int, f: int)
    requires b > 0 && 0 <= v < b * f
    ensures 0 <= v / b < f
  {
    var q, r := v / b, v % b;
    assert v == q * b + r;
    if q >= f {
      MulLe(f, q, b);
    }
    if q <= -1 {
      MulLe(q, -1, b);
    }
  }

  lemma {:induction false} CarryStep(cur: int, w: int, limb: int, factor: int, carry: int)
    requires cur == limb * factor + carry
    ensures (cur % BASE) * w + (cur / BASE) * (BASE * w) == limb * w * factor + carry * w
  {
    var q, r := cur / BASE, cur % BASE;
    assert cur == q * BASE + r;
    assert r * w + q * (BASE * w) == (q * BASE + r) * w;
    assert (limb * factor + carry) * w == limb * w * factor + carry * w;
  }

  lemma {:induction false} Distribute(x: int, y: int, z: int)
    ensures (x + y) * z == x * z + y * z
  {
  }
}
